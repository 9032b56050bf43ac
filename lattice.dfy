/** The algebraic laws of `Join` (the hull of two ranges) and `Meet` (their
    overlap), as the code computes them, and the worked examples from their
    documentation. */
module RangeLattice {
  import P = Position
  import opened TextRanges

  // ---------------------------------------------------------------------
  // Join

  lemma JoinCommutative(r: TextRange, s: TextRange)
    ensures Join(r, s) == Join(s, r)
  {
  }

  lemma JoinAssociative(r: TextRange, s: TextRange, t: TextRange)
    ensures Join(Join(r, s), t) == Join(r, Join(s, t))
  {
  }

  lemma JoinIdempotent(r: TextRange)
    ensures Join(r, r) == r
  {
  }

  /** Any range covering both operands covers their join, so the join is the
      least range covering both. */
  lemma JoinLeastUpperBound(r: TextRange, s: TextRange, t: TextRange)
    requires Covers(t, r) && Covers(t, s)
    ensures Covers(t, Join(r, s))
  {
  }

  /** Joining with a covered range changes nothing, and only then. */
  lemma JoinAbsorbsCovered(r: TextRange, s: TextRange)
    ensures Covers(r, s) <==> Join(r, s) == r
  {
    if Join(r, s) == r {
      assert Covers(Join(r, s), s);
    }
  }

  /** A position lies in the join exactly when it lies between the lesser
      start and the greater end. */
  lemma JoinContains(r: TextRange, s: TextRange, pos: nat)
    ensures ContainsInclusive(Join(r, s), pos)
        <==> P.Min(Start(r), Start(s)) <= pos <= P.Max(End(r), End(s))
  {
  }

  /** `2..4` joined with `6..8`, in either order, is `2..8`. */
  lemma JoinDocExample()
    ensures Join(FromInterval(Interval(2, 4)), FromInterval(Interval(6, 8))) == FromInterval(Interval(2, 8))
    ensures Join(FromInterval(Interval(6, 8)), FromInterval(Interval(2, 4))) == FromInterval(Interval(2, 8))
  {
  }

  // ---------------------------------------------------------------------
  // Meet

  /** The operands share at least one position. */
  predicate Overlap(r: TextRange, s: TextRange) {
    P.Max(Start(r), Start(s)) <= P.Min(End(r), End(s))
  }

  lemma MeetCommutative(r: TextRange, s: TextRange)
    ensures Meet(r, s) == Meet(s, r)
  {
  }

  lemma MeetIdempotent(r: TextRange)
    ensures Meet(r, r) == r
  {
  }

  lemma MeetAssociative(r: TextRange, s: TextRange, t: TextRange)
    ensures Meet(Meet(r, s), t) == Meet(r, Meet(s, t))
  {
  }

  /** When the operands overlap, their meet runs from the greater start to
      the lesser end and both operands cover it. */
  lemma MeetOverlapping(r: TextRange, s: TextRange)
    requires Overlap(r, s)
    ensures Start(Meet(r, s)) == P.Max(Start(r), Start(s))
    ensures End(Meet(r, s)) == P.Min(End(r), End(s))
    ensures Covers(r, Meet(r, s)) && Covers(s, Meet(r, s))
  {
  }

  /** When the operands overlap, a position lies in their meet exactly when
      it lies in both. */
  lemma MeetContains(r: TextRange, s: TextRange, pos: nat)
    requires Overlap(r, s)
    ensures ContainsInclusive(Meet(r, s), pos) <==> ContainsInclusive(r, pos) && ContainsInclusive(s, pos)
  {
  }

  /** Any range both operands cover is covered by their meet, so the meet is
      the greatest range both cover. */
  lemma MeetGreatestLowerBound(r: TextRange, s: TextRange, t: TextRange)
    requires Covers(r, t) && Covers(s, t)
    ensures Overlap(r, s)
    ensures Covers(Meet(r, s), t)
  {
  }

  /** When the operands are disjoint, their meet is the empty range at the
      greater of the two starts, which the operand starting later covers and
      the other does not. */
  lemma MeetDisjoint(r: TextRange, s: TextRange)
    requires !Overlap(r, s)
    ensures Meet(r, s) == Empty(P.Max(Start(r), Start(s)))
    ensures Start(r) <= Start(s) ==> Covers(s, Meet(r, s)) && !Covers(r, Meet(r, s))
  {
  }

  /** The meet is empty exactly when the lesser end is not after the greater
      start: the operands are disjoint or only touch. */
  lemma MeetEmptyIff(r: TextRange, s: TextRange)
    ensures IsEmpty(Meet(r, s)) <==> P.Min(End(r), End(s)) <= P.Max(Start(r), Start(s))
  {
  }

  /** Meeting with a covered range gives that range. */
  lemma MeetOfCovered(r: TextRange, s: TextRange)
    requires Covers(r, s)
    ensures Meet(r, s) == s
  {
  }

  /** For overlapping operands, joining a range with its meet gives the range
      back. */
  lemma JoinMeetAbsorption(r: TextRange, s: TextRange)
    requires Overlap(r, s)
    ensures Join(r, Meet(r, s)) == r
  {
    MeetOverlapping(r, s);
    JoinAbsorbsCovered(r, Meet(r, s));
  }

  /** `2..6` met with `4..8`, in either order, is `4..6`. */
  lemma MeetDocExample()
    ensures Meet(FromInterval(Interval(2, 6)), FromInterval(Interval(4, 8))) == FromInterval(Interval(4, 6))
    ensures Meet(FromInterval(Interval(4, 8)), FromInterval(Interval(2, 6))) == FromInterval(Interval(4, 6))
  {
  }
}
