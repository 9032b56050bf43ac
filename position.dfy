/** The position capability a text range needs: a zero value, a total order,
    addition of a length, and subtraction that saturates at zero.
    Positions are instantiated here as byte offsets (natural numbers), so the
    order is the order on `nat` and addition is `nat` addition. */
module Position {

  /** The position of the start of the text. As positions are naturals, no
      position precedes it. */
  function Zero(): nat {
    0
  }

  /** Subtraction that clamps to zero instead of going below it: the least
      displacement that, added to `b`, reaches at least `a`. */
  function SaturatingSub(a: nat, b: nat): (d: nat)
    ensures a <= b + d
    ensures a <= b <==> d == 0
  {
    if a >= b then a - b else 0
  }

  /** No smaller displacement from `b` reaches `a`. */
  lemma SaturatingSubIsLeast(a: nat, b: nat, e: nat)
    requires a <= b + e
    ensures SaturatingSub(a, b) <= e
  {
  }

  function Min(a: nat, b: nat): (m: nat)
    ensures m <= a && m <= b
    ensures m == a || m == b
  {
    if a <= b then a else b
  }

  function Max(a: nat, b: nat): (m: nat)
    ensures a <= m && b <= m
    ensures m == a || m == b
  {
    if a >= b then a else b
  }

  /** Adding back what saturating subtraction removed restores the larger
      operand, and only that. */
  lemma SubThenAdd(a: nat, b: nat)
    ensures b + SaturatingSub(a, b) == Max(a, b)
  {
  }
}
