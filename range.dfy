/** A span of text stored as a start position and a length, with its
    constructors, endpoints, tests and the conversions to and from a
    half-open interval `start..end`.

    Storing the length instead of the end makes "the span never runs
    backwards" a property of the length's type: `len` is a `nat`, and every
    way of deriving a length from two positions goes through
    `Position.SaturatingSub`. */
module TextRanges {
  import P = Position

  /** A range of text: `index` is where it starts, `len` how long it is. */
  datatype TextRange = TextRange(index: nat, len: nat)

  /** A conventional half-open interval `start..end`, whose bounds are not
      required to be in order. */
  datatype Interval = Interval(start: nat, end: nat)

  /** The outcome of comparing two ranges. */
  datatype Ordering = Less | Equal | Greater

  // ---------------------------------------------------------------------
  // Endpoints and tests

  function Start(r: TextRange): (s: nat)
    ensures s <= End(r)
  {
    r.index
  }

  function End(r: TextRange): (e: nat)
    ensures r.index <= e
  {
    r.index + r.len
  }

  /** Whether `pos` lies in the range, both endpoints included: the bounds
      of the range's interval, its end among them. */
  predicate ContainsInclusive(r: TextRange, pos: nat): (b: bool)
    ensures b <==> ToInterval(r).start <= pos <= ToInterval(r).end
  {
    r.index <= pos && pos <= End(r)
  }

  /** Whether `other` lies entirely inside `r`, endpoints included: `r`
      contains both endpoints of `other`. */
  predicate Covers(r: TextRange, other: TextRange): (b: bool)
    ensures b <==> ContainsInclusive(r, Start(other)) && ContainsInclusive(r, End(other))
  {
    Start(r) <= Start(other) && End(other) <= End(r)
  }

  /** Whether the range has length zero, so that its endpoints coincide. */
  predicate IsEmpty(r: TextRange): (b: bool)
    ensures b <==> Start(r) == End(r)
  {
    r.len == P.Zero()
  }

  // ---------------------------------------------------------------------
  // Constructors

  /** The empty range at the start of the text. */
  function Zero(): (r: TextRange)
    ensures IsEmpty(r)
    ensures Start(r) == P.Zero() && End(r) == P.Zero()
  {
    TextRange(P.Zero(), P.Zero())
  }

  /** A range starting at `index` and spanning `len`. */
  function At(index: nat, len: nat): (r: TextRange)
    ensures Start(r) == index && End(r) == index + len
  {
    TextRange(index, len)
  }

  /** The empty range pointing at `index`. */
  function Empty(index: nat): (r: TextRange)
    ensures IsEmpty(r)
    ensures Start(r) == index && End(r) == index
    ensures forall pos: nat :: ContainsInclusive(r, pos) <==> pos == index
  {
    TextRange(index, P.Zero())
  }

  /** The range from the start of the text to `len`. */
  function UpTo(len: nat): (r: TextRange)
    ensures Start(r) == P.Zero() && End(r) == len
    ensures forall pos: nat :: ContainsInclusive(r, pos) <==> pos <= len
  {
    TextRange(P.Zero(), len)
  }

  /** Documented as the empty range at the start position; the code builds
      it at the end position, exactly as `ToEnd` does. */
  function ToStart(r: TextRange): (t: TextRange)
    ensures IsEmpty(t) && Start(t) == End(r)
    ensures Covers(r, t)
  {
    Empty(End(r))
  }

  /** The empty range at the end position. */
  function ToEnd(r: TextRange): (t: TextRange)
    ensures IsEmpty(t) && Start(t) == End(r)
    ensures Covers(r, t)
  {
    Empty(End(r))
  }

  // ---------------------------------------------------------------------
  // Conversions to and from half-open intervals

  /** An interval becomes a range starting at its start; a reversed
      interval collapses to the empty range at its start. */
  function FromInterval(i: Interval): (r: TextRange)
    ensures Start(r) == i.start
    ensures i.start <= i.end ==> End(r) == i.end
    ensures IsEmpty(r) <==> i.end <= i.start
  {
    TextRange(i.start, P.SaturatingSub(i.end, i.start))
  }

  /** A range becomes the interval from its start to its end; converting
      back gives the same range. */
  function ToInterval(r: TextRange): (i: Interval)
    ensures i.start <= i.end
    ensures FromInterval(i) == r
  {
    Interval(r.index, r.index + r.len)
  }

  // ---------------------------------------------------------------------
  // Join and meet

  /** The smallest range covering both `r` and `s`: from the lesser start to
      the greater end, including any gap between them. */
  function Join(r: TextRange, s: TextRange): (j: TextRange)
    ensures Start(j) == P.Min(Start(r), Start(s))
    ensures End(j) == P.Max(End(r), End(s))
    ensures Covers(j, r) && Covers(j, s)
  {
    var start := P.Min(Start(r), Start(s));
    var end := P.Max(End(r), End(s));
    FromInterval(Interval(start, end))
  }

  /** The range from the greater start to the lesser end. When that interval
      is reversed (the operands are disjoint) the result is the empty range
      at the greater start. */
  function Meet(r: TextRange, s: TextRange): (m: TextRange)
    ensures Start(m) == P.Max(Start(r), Start(s))
    ensures End(m) == P.Max(P.Max(Start(r), Start(s)), P.Min(End(r), End(s)))
  {
    var end := P.Min(End(r), End(s));
    var start := P.Max(Start(r), Start(s));
    FromInterval(Interval(start, end))
  }

  // ---------------------------------------------------------------------
  // The structural order: `index` first, then `len`

  function CompareNat(a: nat, b: nat): Ordering {
    if a < b then Less else if a == b then Equal else Greater
  }

  function Compare(a: TextRange, b: TextRange): (c: Ordering)
    ensures c == Equal <==> a == b
    ensures c == Less <==> a.index < b.index || (a.index == b.index && a.len < b.len)
  {
    match CompareNat(a.index, b.index)
    case Equal => CompareNat(a.len, b.len)
    case other => other
  }

  function Reverse(c: Ordering): Ordering {
    match c
    case Less => Greater
    case Equal => Equal
    case Greater => Less
  }

  // ---------------------------------------------------------------------
  // Laws of the conversions

  /** An ordered interval survives the trip through a range unchanged, and
      the range's length is the interval's width. */
  lemma IntervalRoundTrip(i: Interval)
    requires i.start <= i.end
    ensures FromInterval(i).index == i.start
    ensures FromInterval(i).len == i.end - i.start
    ensures ToInterval(FromInterval(i)) == i
  {
  }

  /** A reversed interval becomes the empty range at its start. */
  lemma ReversedIntervalIsEmpty(i: Interval)
    requires i.end < i.start
    ensures FromInterval(i) == Empty(i.start)
    ensures IsEmpty(FromInterval(i))
    ensures ToInterval(FromInterval(i)) == Interval(i.start, i.start)
  {
  }

  /** Every range is the image of exactly one interval with ordered bounds. */
  lemma ToIntervalInjective(r: TextRange, s: TextRange)
    ensures ToInterval(r) == ToInterval(s) <==> r == s
  {
    if ToInterval(r) == ToInterval(s) {
      assert r == FromInterval(ToInterval(r));
    }
  }

  // ---------------------------------------------------------------------
  // Laws of containment, covering and emptiness

  /** Both endpoints of a range are inside it. */
  lemma ContainsEndpoints(r: TextRange)
    ensures ContainsInclusive(r, Start(r))
    ensures ContainsInclusive(r, End(r))
  {
  }

  /** A range contains a position exactly when it covers the empty range
      there. */
  lemma ContainsIsCoverOfEmpty(r: TextRange, pos: nat)
    ensures ContainsInclusive(r, pos) <==> Covers(r, Empty(pos))
  {
  }

  /** Covering is containing both endpoints of the other range. */
  lemma CoversIffContainsEndpoints(r: TextRange, s: TextRange)
    ensures Covers(r, s) <==> ContainsInclusive(r, Start(s)) && ContainsInclusive(r, End(s))
  {
  }

  /** A range that covers another contains every position the other
      contains. */
  lemma CoversContains(r: TextRange, s: TextRange, pos: nat)
    ensures Covers(r, s) && ContainsInclusive(s, pos) ==> ContainsInclusive(r, pos)
  {
  }

  lemma CoversReflexive(r: TextRange)
    ensures Covers(r, r)
  {
  }

  lemma CoversTransitive(r: TextRange, s: TextRange, t: TextRange)
    ensures Covers(r, s) && Covers(s, t) ==> Covers(r, t)
  {
  }

  lemma CoversAntisymmetric(r: TextRange, s: TextRange)
    requires Covers(r, s) && Covers(s, r)
    ensures r == s
  {
  }

  /** A range is empty exactly when its endpoints coincide. */
  lemma EmptyIffEndpointsMeet(r: TextRange)
    ensures IsEmpty(r) <==> Start(r) == End(r)
  {
  }

  /** The only range an empty range covers is itself. */
  lemma EmptyCoversOnlyItself(r: TextRange, s: TextRange)
    ensures IsEmpty(r) && Covers(r, s) ==> s == r
  {
  }

  /** `ToStart` and `ToEnd` build the same range. */
  lemma ToStartIsToEnd(r: TextRange)
    ensures ToStart(r) == ToEnd(r)
    ensures ToStart(r) == Empty(End(r))
  {
  }

  // The cases shown in the documentation of `is_empty`.

  lemma ZeroIsEmpty()
    ensures IsEmpty(Zero())
  {
  }

  lemma EmptyAtOneIsEmpty()
    ensures IsEmpty(Empty(1))
  {
  }

  lemma OneToTwoIsNotEmpty()
    ensures !IsEmpty(FromInterval(Interval(1, 2)))
  {
  }

  // ---------------------------------------------------------------------
  // Laws of the order

  lemma CompareAntisymmetric(a: TextRange, b: TextRange)
    ensures Compare(b, a) == Reverse(Compare(a, b))
  {
  }

  lemma CompareTransitive(a: TextRange, b: TextRange, c: TextRange)
    requires Compare(a, b) == Less && Compare(b, c) == Less
    ensures Compare(a, c) == Less
  {
  }

  /** Ranges with different starts are ordered by start alone. */
  lemma CompareByStartFirst(a: TextRange, b: TextRange)
    requires Start(a) < Start(b)
    ensures Compare(a, b) == Less
  {
  }
}
