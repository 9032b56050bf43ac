# text-position: the range algebra

This project models `TextRange` from the Rust crate text-position. A `TextRange` is a span of text stored as a start position (`index`) and a length (`len`). The model covers:

- the range's constructors (`ZERO`, `at`, `empty`, `up_to`) and its endpoints (`start`, `end = index + len`);
- the empty markers `to_start` and `to_end`;
- the tests `contains_inclusive`, `covers` and `is_empty`;
- `join` (the hull of two ranges) and `meet` (their overlap);
- the conversions to and from a half-open interval `start..end`;
- the derived order, which compares `index` first and then `len`;
- the two diagnostic renderings: `start..end` for byte offsets, and the GNU-style `R1.C1-R2.C2`, shifted to one-based, for row/column positions.

Positions are byte offsets modelled as `nat`. The zero position is `0`, addition is `nat` addition, and saturating subtraction clamps at zero. For the GNU rendering a position is a `(row, column)` pair, or `(row, column8, column16)` for the composite position. Each rendering is given the positions that the range's start and end yield.

Modules:

- `Position`: the position capability.
- `TextRanges`: the range type, its operations, its conversions and its order, with their single-operation laws.
- `RangeLattice`: the laws of `Join` and `Meet`.
- `Decimal`: decimal rendering of numbers, and its inverse.
- `RangeDisplay`: the renderings, and parsers proved to invert them.
- `RangeFixes`: the two places where the code and its documentation disagree.
- `Wrappers`: `Option`.

The code and its doc comments disagree in two places. The model follows the code, and "## Findings" records the mismatches:

- `to_start` builds the empty range at the *end* position.
- `meet` of disjoint ranges gives the empty range at the *greater* start, not at `self.start()`.

## Model

| member | source | states |
|---|---|---|
| `Position.SaturatingSub` | src/range.rs:170-177 | the clamped difference reaches `a` from `b`, and it is zero exactly when `a <= b` |
| `Position.SaturatingSubIsLeast` | src/range.rs:170-177 | no smaller displacement from `b` reaches `a`, so the clamped difference is the least one that does |
| `Position.SubThenAdd` | src/range.rs:170-177 | adding the clamped difference back to `b` gives the larger of the two positions |
| `Position.Zero` | src/range.rs:38-41 | the zero position `P::ZERO`, the start of the text, is offset `0` |
| `Position.Min` | src/range.rs:132 | `min` of two positions is one of them and precedes both |
| `Position.Max` | src/range.rs:133 | `max` of two positions is one of them and follows both |
| `TextRanges.Zero` | src/range.rs:38-41 | `ZERO` is empty, and starts and ends at the zero position |
| `TextRanges.At` | src/range.rs:43-46 | `at(index, len)` starts at `index` and ends at `index + len` |
| `TextRanges.Empty` | src/range.rs:48-54 | `empty(index)` is empty, starts and ends at `index`, and contains only `index` |
| `TextRanges.UpTo` | src/range.rs:56-62 | `up_to(len)` runs from the zero position to `len` and contains exactly the positions up to `len` |
| `TextRanges.Start` | src/range.rs:64-66 | `start()` is `index`, and it never follows the end |
| `TextRanges.End` | src/range.rs:68-70 | `end()` is `index + len`, so it never precedes the start |
| `TextRanges.ContainsInclusive` | src/range.rs:82-90 | `contains_inclusive(pos)` holds exactly when `index <= pos <= end()`, that is when `pos` lies within the range's interval with its end included |
| `TextRanges.Covers` | src/range.rs:92-96 | `covers(other)` holds exactly when the range contains both `other.start()` and `other.end()` |
| `TextRanges.IsEmpty` | src/range.rs:111-113 | `is_empty()` is `len == ZERO`, which holds exactly when the start equals the end |
| `TextRanges.ToStart` | src/range.rs:72-75 | as coded, `to_start` is the empty range at the end position, and the range covers it |
| `TextRanges.ToEnd` | src/range.rs:77-80 | `to_end` is the empty range at the end position, and the range covers it |
| `TextRanges.FromInterval` | src/range.rs:170-178 | the range starts at the interval's start, ends at the interval's end when the bounds are ordered, and is empty exactly when `end <= start` |
| `TextRanges.ToInterval` | src/range.rs:180-188 | the interval's bounds are ordered, and converting it back gives the same range |
| `TextRanges.Join` | src/range.rs:115-135 | `join` starts at the lesser start, ends at the greater end, and covers both operands |
| `TextRanges.Meet` | src/range.rs:156-161 | `meet` starts at the greater start; it ends at the lesser end, or at its own start when the operands are disjoint |
| `TextRanges.Compare` | src/range.rs:28-35 | the derived order says `Equal` exactly for equal ranges, and `Less` exactly when `index` is smaller, or `index` is equal and `len` is smaller |
| `TextRanges.IntervalRoundTrip` | src/range.rs:170-188 | for `a <= b`, `a..b` becomes `index == a` and `len == b - a`, and converts back to `a..b` |
| `TextRanges.ReversedIntervalIsEmpty` | src/range.rs:170-177 | an interval with `end < start` becomes the empty range at `start`, which converts back to `start..start` |
| `TextRanges.ToIntervalInjective` | src/range.rs:180-188 | two ranges convert to the same interval exactly when they are equal |
| `TextRanges.ContainsEndpoints` | src/range.rs:82-90 | a range contains both its start and its end |
| `TextRanges.ContainsIsCoverOfEmpty` | src/range.rs:82-96 | a range contains a position exactly when it covers the empty range there |
| `TextRanges.CoversIffContainsEndpoints` | src/range.rs:82-96 | `r` covers `s` exactly when `r` contains both endpoints of `s` |
| `TextRanges.CoversContains` | src/range.rs:82-96 | a range contains every position that a range it covers contains |
| `TextRanges.CoversReflexive` | src/range.rs:92-96 | every range covers itself |
| `TextRanges.CoversTransitive` | src/range.rs:92-96 | covering is transitive |
| `TextRanges.CoversAntisymmetric` | src/range.rs:92-96 | two ranges that cover each other are equal |
| `TextRanges.EmptyIffEndpointsMeet` | src/range.rs:98-113 | a range is empty exactly when its start equals its end |
| `TextRanges.EmptyCoversOnlyItself` | src/range.rs:92-113 | an empty range covers no range but itself |
| `TextRanges.ToStartIsToEnd` | src/range.rs:72-80 | `to_start` and `to_end` both give `empty(end())` |
| `TextRanges.ZeroIsEmpty` | src/range.rs:103-105 | `ZERO` is empty |
| `TextRanges.EmptyAtOneIsEmpty` | src/range.rs:106 | `empty(1)` is empty |
| `TextRanges.OneToTwoIsNotEmpty` | src/range.rs:108-109 | `1..2` is not empty |
| `TextRanges.CompareAntisymmetric` | src/range.rs:28-35 | swapping the operands reverses the comparison |
| `TextRanges.CompareTransitive` | src/range.rs:28-35 | the strict order is transitive |
| `TextRanges.CompareByStartFirst` | src/range.rs:28-35 | a range with a smaller start is smaller, whatever the lengths |
| `RangeLattice.JoinCommutative` | src/range.rs:115-135 | `join` is commutative |
| `RangeLattice.JoinAssociative` | src/range.rs:115-135 | `join` is associative |
| `RangeLattice.JoinIdempotent` | src/range.rs:115-135 | joining a range with itself gives it back |
| `RangeLattice.JoinLeastUpperBound` | src/range.rs:115-135 | every range that covers both operands covers their join |
| `RangeLattice.JoinAbsorbsCovered` | src/range.rs:92-135 | `r` covers `s` exactly when `r.join(s) == r` |
| `RangeLattice.JoinContains` | src/range.rs:82-135 | a position is in the join exactly when it lies between the lesser start and the greater end, gaps included |
| `RangeLattice.JoinDocExample` | src/range.rs:119-129 | `2..4` joined with `6..8` is `2..8`, in both orders |
| `RangeLattice.MeetCommutative` | src/range.rs:156-161 | `meet` is commutative, disjoint operands included |
| `RangeLattice.MeetIdempotent` | src/range.rs:156-161 | meeting a range with itself gives it back |
| `RangeLattice.MeetAssociative` | src/range.rs:156-161 | `meet` is associative, disjoint operands included |
| `RangeLattice.MeetOverlapping` | src/range.rs:156-161 | when `max(starts) <= min(ends)`, the meet is `max(starts)..min(ends)`, and both operands cover it |
| `RangeLattice.MeetContains` | src/range.rs:82-161 | for overlapping operands, a position is in the meet exactly when it is in both |
| `RangeLattice.MeetGreatestLowerBound` | src/range.rs:137-161 | a range covered by both operands means they overlap, and their meet covers that range |
| `RangeLattice.MeetDisjoint` | src/range.rs:156-161 | for disjoint operands, the meet is the empty range at the greater start; the later operand covers it and the earlier one does not |
| `RangeLattice.MeetEmptyIff` | src/range.rs:98-161 | the meet is empty exactly when the lesser end is not after the greater start, that is when the operands are disjoint or only touch |
| `RangeLattice.MeetOfCovered` | src/range.rs:92-161 | meeting `r` with a range it covers gives that range |
| `RangeLattice.JoinMeetAbsorption` | src/range.rs:115-161 | for overlapping operands, `r.join(r.meet(s)) == r` |
| `RangeLattice.MeetDocExample` | src/range.rs:141-150 | `2..6` met with `4..8` is `4..6`, in both orders |
| `Decimal.NatToString` | src/range.rs:196-223 | the rendering of a number is a non-empty string of digits with no leading zero |
| `Decimal.NatToStringValue` | src/range.rs:196-223 | the digits of `n` denote `n` |
| `Decimal.ParseNatIsInverse` | src/range.rs:196-223 | the decimal parser accepts exactly the renderings of numbers, and reads each back as its number |
| `Decimal.NatToStringInjective` | src/range.rs:196-223 | different numbers render differently |
| `RangeDisplay.FmtGnu` | src/range.rs:208-224 | `fmt_gnu` writes `"{r1+1}.{c1+1}-{r2+1}.{c2+1}"` in decimal; specified by the round trip `ParseGnuOfFmtGnu` and the iff `ParseGnuIsInverse` |
| `RangeDisplay.DisplayIndexRange` | src/range.rs:196-200 | a byte-offset range displays as `"{start}..{end}"` in decimal; specified by `ParseIndexRangeOfDisplay` and the iff `ParseIndexRangeIsInverse` |
| `RangeDisplay.DisplayRowColumnRange` | src/range.rs:226-246 | a UTF-8 or UTF-16 row/column range displays as `fmt_gnu` of its start's and end's row and column |
| `RangeDisplay.DisplayCompositeRange` | src/range.rs:254-260 | a composite range displays as `fmt_gnu` of its start's and end's row and UTF-8 column; see `CompositeRendersUtf8Column` |
| `RangeDisplay.ParseGnu` | src/range.rs:208-224 | whatever the GNU parser accepts is the `fmt_gnu` rendering of the numbers it returns |
| `RangeDisplay.ParseGnuOfFmtGnu` | src/range.rs:208-224 | reading `"{r1+1}.{c1+1}-{r2+1}.{c2+1}"` back gives `r1, c1, r2, c2` |
| `RangeDisplay.ParseGnuIsInverse` | src/range.rs:208-224 | a string parses to a location exactly when it is that location's GNU rendering, so different locations render differently |
| `RangeDisplay.ParseIndexRange` | src/range.rs:196-200 | whatever the offset parser accepts is the `start..end` rendering of the range it returns |
| `RangeDisplay.ParseIndexRangeOfDisplay` | src/range.rs:196-200 | reading `"{start}..{end}"` back gives the range rendered |
| `RangeDisplay.ParseIndexRangeIsInverse` | src/range.rs:196-200 | a string parses to a range exactly when it is that range's `start..end` rendering |
| `RangeDisplay.CompositeRendersUtf8Column` | src/range.rs:254-260 | a composite range renders its row and UTF-8 column, ignores the UTF-16 column, and renders like the narrowed row/column range |
| `RangeDisplay.DisplayZeroExample` | src/range.rs:276-279 | the zero row/column range renders as `1.1-1.1` |
| `RangeDisplay.DisplayNonZeroExample` | src/range.rs:281-294 | the range from row 0, column 7 to row 0, column 12 renders as `1.8-1.13` |
| `RangeDisplay.DisplayIndexExample` | src/range.rs:196-200 | the byte range from 2 of length 4 renders as `2..6` |
| `RangeFixes.ToStartMissesStart` | src/range.rs:72-75 | on a non-empty range, `to_start` is not the empty range at the start and does not contain the start |
| `RangeFixes.MeetDocDisjointExampleFails` | src/range.rs:137-161 | `(2..6).meet(9..10)` is `empty(9)`, while `(2..6).to_start()` is `empty(6)` and `self.start()` is 2, so the documented equality fails |
| `RangeFixes.MeetEscapesSelf` | src/range.rs:137-161 | as coded, `2..6` does not cover its meet with `9..10` |
| `RangeFixes.ToStartAsDocumented` | src/range.rs:72-75 | the documented `to_start` is the empty range at the start, covered by the range, and equal to the coded one only on empty ranges |
| `RangeFixes.MeetAsDocumented` | src/range.rs:137-161 | the documented `meet` agrees with the code on overlapping operands, gives `empty(self.start())` on disjoint ones, and is always covered by `self` |
| `RangeFixes.MeetAsDocumentedExamples` | src/range.rs:141-155 | with both corrections, all three documentation examples of `meet` hold, the disjoint one included |
| `RangeFixes.MeetAsDocumentedCovered` | src/range.rs:137-161 | the documented `meet` is always covered by `self`; on overlapping operands it is also covered by `other` and is commutative; on disjoint operands it is not commutative |

## Left out

- Concrete position types (`Utf8Index`, `Utf8Position`, `Utf16Position`, `CompositePosition`) and their `Add` and `saturating_sub`: they are defined outside this file and are not part of this model. The algebra is instantiated at byte offsets (`nat`). The row/column renderings take the start and end positions as parameters, because computing `end()` for a row/column range needs the position type's addition.
- `CompositePosition` is modelled by its row and its two columns; the rendering reads the row and the UTF-8 column. Any other fields it has are not modelled.
- Cross-representation `contains_inclusive` (a UTF-8 position compared against a composite range, as in the unit test at src/range.rs:266-274): it depends on `PartialOrd` impls and text scanning outside this file. `ContainsInclusive` compares same-typed positions.
- Fixed-width arithmetic: `index + len` and `row + 1` are `u32`/`usize` additions in the source and could overflow. The model uses unbounded naturals.
- The decimal text of a `Utf8Index` is assumed to be the plain decimal rendering of its offset. Its `Display` impl is defined outside this file.
- `Default` (src/range.rs:164-168): it is `from(P::default()..P::default())`, and `P::default()` is defined outside this file.
- The `Formatter`/`fmt::Result` plumbing, the `Debug` impls that forward to `Display`, `Clone`/`Copy` and `Hash`: they are library glue. The renderings are modelled as the strings they write.
- The lattice laws in `RangeLattice` describe `meet` as coded, because that is the observable behaviour. The documented behaviour is modelled separately in `RangeFixes`.

## Findings

| source | as written | input that shows it | evidently intended | confidence | as-written member | corrected member |
|---|---|---|---|---|---|---|
| src/range.rs:72-75 | `to_start` returns `empty(self.end())`, the same as `to_end` | `(2..6).to_start()` is `empty(6)` | the empty range at the start position, as the doc comment on line 72 says: `empty(self.start())` | high; not executed | `RangeFixes.ToStartMissesStart` | `RangeFixes.ToStartAsDocumented` |
| src/range.rs:137-161 | disjoint `meet` returns the empty range at the greater start, so the doctest on line 154 compares `empty(9)` with `empty(6)` | `(2..6).meet(9..10)` is `empty(9)` | the empty range at `self.start()`, as line 139 says; with the `to_start` correction the doctest on line 154 then holds | medium (the documented version is no longer commutative on disjoint operands); not executed | `RangeFixes.MeetDocDisjointExampleFails` | `RangeFixes.MeetAsDocumented` |
