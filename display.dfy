/** How ranges are rendered for diagnostics.

    A range of byte offsets renders as `start..end`. A range whose positions
    carry a row and a column renders in the GNU style `R1.C1-R2.C2`, with
    rows and columns shifted from zero-based storage to one-based display
    (GNU Coding Standards, "Formatting Error Messages"). Each rendering has a
    parser beside it that reads exactly the rendered strings back. */
module RangeDisplay {
  import opened Wrappers
  import opened Decimal
  import opened TextRanges

  /** A position made of a zero-based row and a zero-based column, as both
      the UTF-8 and the UTF-16 row/column positions are. */
  datatype RowColumn = RowColumn(row: nat, column: nat)

  /** A position that tracks a row together with its column counted in UTF-8
      bytes and in UTF-16 code units. */
  datatype CompositePosition = CompositePosition(row: nat, column8: nat, column16: nat)

  /** The four zero-based numbers a GNU-style location is made of. */
  datatype GnuLocation = GnuLocation(startRow: nat, startColumn: nat, endRow: nat, endColumn: nat)

  // ---------------------------------------------------------------------
  // Rendering

  /** `R1.C1-R2.C2`, every component shifted by one. */
  function FmtGnu(startRow: nat, startColumn: nat, endRow: nat, endColumn: nat): string {
    NatToString(startRow + 1) + "." + NatToString(startColumn + 1) + "-"
      + NatToString(endRow + 1) + "." + NatToString(endColumn + 1)
  }

  /** A byte-offset range as `start..end`. */
  function DisplayIndexRange(r: TextRange): string {
    NatToString(Start(r)) + ".." + NatToString(End(r))
  }

  /** A row/column range, given the positions its start and end yield. */
  function DisplayRowColumnRange(start: RowColumn, end: RowColumn): string {
    FmtGnu(start.row, start.column, end.row, end.column)
  }

  /** A composite range, given the positions its start and end yield; the
      UTF-8 column is the one rendered. */
  function DisplayCompositeRange(start: CompositePosition, end: CompositePosition): string {
    FmtGnu(start.row, start.column8, end.row, end.column8)
  }

  // ---------------------------------------------------------------------
  // Reading the renderings back

  /** The first index at which `c` occurs in `s`. */
  function IndexOf(s: string, c: char): (o: Option<nat>)
    ensures o.Some? ==> o.value < |s| && s[o.value] == c && c !in s[..o.value]
    ensures o.None? ==> c !in s
  {
    if |s| == 0 then None
    else if s[0] == c then Some(0)
    else match IndexOf(s[1..], c)
      case None => None
      case Some(i) => assert s[..i + 1] == [s[0]] + s[1..][..i]; Some(i + 1)
  }

  /** `s` cut at the first occurrence of `c`, which is dropped. */
  function SplitOnce(s: string, c: char): (o: Option<(string, string)>)
    ensures o.Some? ==> s == o.value.0 + [c] + o.value.1 && c !in o.value.0
    ensures o.None? ==> c !in s
  {
    match IndexOf(s, c)
    case None => None
    case Some(i) =>
      assert s == s[..i] + [c] + s[i + 1..];
      Some((s[..i], s[i + 1..]))
  }

  lemma SplitOnceConcat(x: string, y: string, c: char)
    requires c !in x
    ensures SplitOnce(x + [c] + y, c) == Some((x, y))
  {
    var s := x + [c] + y;
    assert s[..|x|] == x && s[|x|] == c && s[|x| + 1..] == y;
  }

  /** A one-based display number back to the zero-based value it shows. */
  function ParseOneBased(s: string): (o: Option<nat>)
    ensures o.Some? ==> s == NatToString(o.value + 1)
  {
    match ParseNat(s)
    case None => None
    case Some(v) =>
      ParseNatIsInverse(s, v);
      if v >= 1 then Some(v - 1) else None
  }

  /** `R.C` back to its zero-based row and column. */
  function ParseRowColumn(s: string): (o: Option<(nat, nat)>)
    ensures o.Some? ==> s == NatToString(o.value.0 + 1) + "." + NatToString(o.value.1 + 1)
  {
    match SplitOnce(s, '.')
    case None => None
    case Some((rs, cs)) =>
      match (ParseOneBased(rs), ParseOneBased(cs))
      case (Some(row), Some(column)) => Some((row, column))
      case _ => None
  }

  /** A GNU-style location back to its four zero-based numbers. */
  function ParseGnu(s: string): (o: Option<GnuLocation>)
    ensures o.Some? ==> s == FmtGnu(o.value.startRow, o.value.startColumn, o.value.endRow, o.value.endColumn)
  {
    var halves := SplitOnce(s, '-');
    if halves.None? then None
    else
      var a := ParseRowColumn(halves.value.0);
      var b := ParseRowColumn(halves.value.1);
      if a.Some? && b.Some? then
        var g := GnuLocation(a.value.0, a.value.1, b.value.0, b.value.1);
        assert s == FmtGnu(g.startRow, g.startColumn, g.endRow, g.endColumn) by {
          FmtGnuHalves(g.startRow, g.startColumn, g.endRow, g.endColumn);
        }
        Some(g)
      else
        None
  }

  /** `start..end` back to the byte-offset range it shows; a reversed pair
      is not a rendering of any range. */
  function ParseIndexRange(s: string): (o: Option<TextRange>)
    ensures o.Some? ==> s == DisplayIndexRange(o.value)
  {
    match SplitOnce(s, '.')
    case None => None
    case Some((first, rest)) =>
      if |rest| == 0 || rest[0] != '.' then None
      else
        var start := ParseNat(first);
        var end := ParseNat(rest[1..]);
        if start.Some? && end.Some? && start.value <= end.value then
          var r := FromInterval(Interval(start.value, end.value));
          ParseNatIsInverse(first, start.value);
          ParseNatIsInverse(rest[1..], end.value);
          assert rest == ['.'] + rest[1..];
          assert s == NatToString(Start(r)) + ".." + NatToString(End(r));
          Some(r)
        else
          None
  }

  /** A GNU-style location is its start and its end joined by a hyphen. */
  lemma FmtGnuHalves(r1: nat, c1: nat, r2: nat, c2: nat)
    ensures FmtGnu(r1, c1, r2, c2)
         == (NatToString(r1 + 1) + "." + NatToString(c1 + 1)) + "-" + (NatToString(r2 + 1) + "." + NatToString(c2 + 1))
  {
  }

  // ---------------------------------------------------------------------
  // Round trips

  lemma ParseOneBasedOfRendering(n: nat)
    ensures ParseOneBased(NatToString(n + 1)) == Some(n)
  {
    ParseNatOfNatToString(n + 1);
  }

  lemma ParseRowColumnOfRendering(row: nat, column: nat)
    ensures ParseRowColumn(NatToString(row + 1) + "." + NatToString(column + 1)) == Some((row, column))
  {
    var rs, cs := NatToString(row + 1), NatToString(column + 1);
    NoSeparatorInDigits(row + 1, '.');
    SplitOnceConcat(rs, cs, '.');
    ParseOneBasedOfRendering(row);
    ParseOneBasedOfRendering(column);
  }

  /** Reading a GNU-style location back gives the numbers it was made of. */
  lemma ParseGnuOfFmtGnu(r1: nat, c1: nat, r2: nat, c2: nat)
    ensures ParseGnu(FmtGnu(r1, c1, r2, c2)) == Some(GnuLocation(r1, c1, r2, c2))
  {
    var first := NatToString(r1 + 1) + "." + NatToString(c1 + 1);
    var second := NatToString(r2 + 1) + "." + NatToString(c2 + 1);
    FmtGnuHalves(r1, c1, r2, c2);
    NoSeparatorInDigits(r1 + 1, '-');
    NoSeparatorInDigits(c1 + 1, '-');
    assert '-' !in first;
    SplitOnceConcat(first, second, '-');
    ParseRowColumnOfRendering(r1, c1);
    ParseRowColumnOfRendering(r2, c2);
  }

  /** `ParseGnu` accepts exactly the GNU-style renderings, so two different
      locations never render alike. */
  lemma ParseGnuIsInverse(s: string, g: GnuLocation)
    ensures ParseGnu(s) == Some(g) <==> s == FmtGnu(g.startRow, g.startColumn, g.endRow, g.endColumn)
  {
    if s == FmtGnu(g.startRow, g.startColumn, g.endRow, g.endColumn) {
      ParseGnuOfFmtGnu(g.startRow, g.startColumn, g.endRow, g.endColumn);
    }
  }

  /** Reading a byte-offset rendering back gives the range it shows. */
  lemma ParseIndexRangeOfDisplay(r: TextRange)
    ensures ParseIndexRange(DisplayIndexRange(r)) == Some(r)
  {
    var a, b := NatToString(Start(r)), NatToString(End(r));
    assert DisplayIndexRange(r) == a + ['.'] + (['.'] + b);
    NoSeparatorInDigits(Start(r), '.');
    SplitOnceConcat(a, ['.'] + b, '.');
    assert (['.'] + b)[1..] == b;
    ParseNatOfNatToString(Start(r));
    ParseNatOfNatToString(End(r));
  }

  /** `ParseIndexRange` accepts exactly the renderings of ranges. */
  lemma ParseIndexRangeIsInverse(s: string, r: TextRange)
    ensures ParseIndexRange(s) == Some(r) <==> s == DisplayIndexRange(r)
  {
    if s == DisplayIndexRange(r) {
      ParseIndexRangeOfDisplay(r);
    }
  }

  // ---------------------------------------------------------------------
  // Properties of the row/column renderings

  /** The composite rendering ignores the UTF-16 column and agrees with the
      row/column rendering of the UTF-8 components. */
  lemma CompositeRendersUtf8Column(start: CompositePosition, end: CompositePosition)
    ensures DisplayCompositeRange(start, end)
         == DisplayRowColumnRange(RowColumn(start.row, start.column8), RowColumn(end.row, end.column8))
    ensures forall u: nat, v: nat ::
      DisplayCompositeRange(start.(column16 := u), end.(column16 := v)) == DisplayCompositeRange(start, end)
  {
  }

  /** The empty range at the origin of the text renders as `1.1-1.1`. */
  lemma DisplayZeroExample()
    ensures DisplayRowColumnRange(RowColumn(0, 0), RowColumn(0, 0)) == "1.1-1.1"
  {
    assert NatToString(1) == "1";
  }

  /** The text between columns 7 and 12 of the first row renders as
      `1.8-1.13`. */
  lemma DisplayNonZeroExample()
    ensures DisplayRowColumnRange(RowColumn(0, 7), RowColumn(0, 12)) == "1.8-1.13"
  {
    assert NatToString(1) == "1";
    assert NatToString(8) == "8";
    assert NatToString(13) == NatToString(1) + "3" == "13";
  }

  /** A byte-offset range from 2 spanning 4 renders as `2..6`. */
  lemma DisplayIndexExample()
    ensures DisplayIndexRange(At(2, 4)) == "2..6"
  {
    assert NatToString(2) == "2";
    assert NatToString(6) == "6";
  }
}
