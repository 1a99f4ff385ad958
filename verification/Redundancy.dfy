/**
 How many pieces a generation should have: the encoder's formula and the health
 scanner's.  Floating-point quantities are exact reals here.
 */
module Redundancy {
  import opened Arithmetic

  const DEFAULT_K: nat := 32

  /** The scanner's target. */
  function TargetPieceCount(k: nat): nat
  {
    var k := Max(k, 1);
    var factor := Ceil(2.0 + 16.0 / k as real);
    k * factor
  }

  /** The encoder's target. */
  function TargetN(k: nat): int
    requires k > 0
  {
    Ceil(k as real * (2.0 + 16.0 / k as real))
  }

  lemma Ratio(k: nat, c: int)
    requires k > 0 && c == Ceil(2.0 + 16.0 / k as real)
    ensures (c - 1) * k < 2 * k + 16 <= c * k
    ensures TargetN(k) == 2 * k + 16
  {
    var r, x := k as real, 2.0 + 16.0 / k as real;
    assert r * x == 2.0 * r + 16.0;
    Sign(c as real - x, r);
    Sign(x - (c - 1) as real, r);
    ProductAsReal(c, k);
    ProductAsReal(c - 1, k);
    InReals(c, k, x);
  }

  lemma InReals(c: int, k: nat, x: real)
    requires k as real * x == 2.0 * k as real + 16.0
    requires (c as real - x) * k as real >= 0.0 && (x - (c - 1) as real) * k as real > 0.0
    requires (c * k) as real == c as real * k as real && ((c - 1) * k) as real == (c - 1) as real * k as real
    ensures (c - 1) * k < 2 * k + 16 <= c * k
  {
    assert (c as real - x) * k as real == (c * k) as real - (2 * k + 16) as real;
    assert (x - (c - 1) as real) * k as real == (2 * k + 16) as real - ((c - 1) * k) as real;
  }

  lemma RoundedIff(k: nat, c: int)
    requires k > 0 && (c - 1) * k < 2 * k + 16 <= c * k
    ensures c * k == 2 * k + 16 <==> 16 % k == 0
  {
  }

  /** Both say `k` times `2 + 16/k`, but the scanner rounds the ratio up and the encoder the product. */
  lemma TargetsAgreeIff(k: nat)
    requires k > 0
    ensures TargetN(k) == 2 * k + 16 <= TargetPieceCount(k)
    ensures TargetPieceCount(k) == TargetN(k) <==> 16 % k == 0
  {
    var c := Ceil(2.0 + 16.0 / k as real);
    Ratio(k, c);
    RoundedIff(k, c);
  }

  /** The scanner's target is the least multiple of the generation size that reaches the encoder's; a size of zero
      counts as one. */
  lemma TargetIsLeastMultiple(k: nat, m: nat)
    requires k > 0
    ensures exists c: nat :: TargetPieceCount(k) == k * c
    ensures TargetPieceCount(k) <= k * m <==> 2 * k + 16 <= k * m
    ensures TargetPieceCount(0) == TargetPieceCount(1) == 18
  {
    var c := Ceil(2.0 + 16.0 / k as real);
    Ratio(k, c);
    assert c >= 0 && TargetPieceCount(k) == k * c;
    LeastMultiple(k, c, m, 2 * k + 16);
  }

  lemma LeastMultiple(k: nat, c: int, m: nat, n: nat)
    requires k > 0 && (c - 1) * k < n <= c * k
    ensures k * c <= k * m <==> n <= k * m
  {
    if m < c { assert k * m <= k * (c - 1); } else { assert k * c <= k * m; }
  }

  /** With the default generation size the scanner asks for 96 pieces where the encoder makes 80. */
  lemma DefaultTargetsDiffer()
    ensures TargetPieceCount(DEFAULT_K) == 96 && TargetN(DEFAULT_K) == 80
  {
  }
}
