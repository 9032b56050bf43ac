/** Two places where the range code and its own documentation disagree.

    `to_start` is documented as the empty range at the start position but
    is built at the end position. `meet` on disjoint ranges is documented
    to give the empty range at `self.start()`, and its documentation example
    compares it with `to_start()`, but it gives the empty range at the
    greater of the two starts. The lemmas here exhibit both mismatches on
    the documentation's own example and give, beside the code as written
    (`TextRanges.ToStart`, `TextRanges.Meet`), the behaviour the
    documentation describes, with its properties proved. */
module RangeFixes {
  import P = Position
  import opened TextRanges
  import opened RangeLattice

  // ---------------------------------------------------------------------
  // The code as written, against its documentation

  /** On a non-empty range, `ToStart` does not point at the start. */
  lemma ToStartMissesStart(r: TextRange)
    requires !IsEmpty(r)
    ensures ToStart(r) != Empty(Start(r))
    ensures !ContainsInclusive(ToStart(r), Start(r))
  {
  }

  /** On the documentation's ranges `2..6` and `9..10`, the meet is the empty
      range at 9 while `to_start()` of `2..6` is the empty range at 6 and
      `self.start()` is 2: the documented equality does not hold. */
  lemma MeetDocDisjointExampleFails()
    ensures Meet(FromInterval(Interval(2, 6)), FromInterval(Interval(9, 10))) == Empty(9)
    ensures ToStart(FromInterval(Interval(2, 6))) == Empty(6)
    ensures Meet(FromInterval(Interval(2, 6)), FromInterval(Interval(9, 10))) != ToStart(FromInterval(Interval(2, 6)))
    ensures Meet(FromInterval(Interval(2, 6)), FromInterval(Interval(9, 10))) != Empty(Start(FromInterval(Interval(2, 6))))
  {
  }

  /** As written, the meet of disjoint ranges is not covered by the operand
      that starts first. */
  lemma MeetEscapesSelf()
    ensures !Covers(FromInterval(Interval(2, 6)), Meet(FromInterval(Interval(2, 6)), FromInterval(Interval(9, 10))))
  {
  }

  // ---------------------------------------------------------------------
  // The documented behaviour

  /** The empty range at the start position, as `to_start` is documented. */
  function ToStartAsDocumented(r: TextRange): (t: TextRange)
    ensures IsEmpty(t) && Start(t) == Start(r)
    ensures Covers(r, t)
    ensures t == ToStart(r) <==> IsEmpty(r)
  {
    Empty(Start(r))
  }

  /** The meet as documented: the overlap when there is one, otherwise the
      empty range at the start of `r`. */
  function MeetAsDocumented(r: TextRange, s: TextRange): (m: TextRange)
    ensures Overlap(r, s) ==> m == Meet(r, s)
    ensures !Overlap(r, s) ==> m == ToStartAsDocumented(r)
    ensures Covers(r, m)
  {
    if Overlap(r, s) then Meet(r, s) else Empty(Start(r))
  }

  /** With both corrections the documentation's examples hold, the overlapping
      ones and the disjoint one. */
  lemma MeetAsDocumentedExamples()
    ensures MeetAsDocumented(FromInterval(Interval(2, 6)), FromInterval(Interval(4, 8))) == FromInterval(Interval(4, 6))
    ensures MeetAsDocumented(FromInterval(Interval(4, 8)), FromInterval(Interval(2, 6))) == FromInterval(Interval(4, 6))
    ensures MeetAsDocumented(FromInterval(Interval(2, 6)), FromInterval(Interval(9, 10)))
         == ToStartAsDocumented(FromInterval(Interval(2, 6)))
  {
  }

  /** The documented meet is covered by both operands whenever they overlap,
      and by `r` always; unlike the code, it is not commutative on disjoint
      operands, since the anchor is the first operand's start. */
  lemma MeetAsDocumentedCovered(r: TextRange, s: TextRange)
    ensures Covers(r, MeetAsDocumented(r, s))
    ensures Overlap(r, s) ==> Covers(s, MeetAsDocumented(r, s))
    ensures Overlap(r, s) ==> MeetAsDocumented(r, s) == MeetAsDocumented(s, r)
    ensures !Overlap(r, s) ==> MeetAsDocumented(r, s) != MeetAsDocumented(s, r)
  {
    if Overlap(r, s) {
      MeetOverlapping(r, s);
      MeetCommutative(r, s);
    }
  }
}
