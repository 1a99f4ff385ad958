/**
 Division, rounding and products of integers and reals.
 */
module Arithmetic {

  function Max(a: nat, b: nat): nat
  {
    if a < b then b else a
  }

  predicate PowerOfTwo(n: nat)
  {
    n == 1 || (n > 1 && n % 2 == 0 && PowerOfTwo(n / 2))
  }

  lemma {:induction false} PowersOfTwo(n: nat)
    requires n <= 65536
    ensures PowerOfTwo(n) <==>
      n in {1, 2, 4, 8, 16, 32, 64, 128, 256, 512, 1024, 2048, 4096, 8192, 16384, 32768, 65536}
  {
    if n > 1 { PowersOfTwo(n / 2); }
  }

  function Ceil(x: real): (c: int)
    ensures c as real - 1.0 < x <= c as real
  {
    -((-x).Floor)
  }

  lemma DivUnique(x: int, n: int, q: int, r: int)
    requires n > 0 && 0 <= r < n && x == q * n + r
    ensures x / n == q && x % n == r
  {
    var d := x / n - q;
    assert d * n == r - x % n;
    assert d >= 1 ==> d * n >= n;
    assert d <= -1 ==> d * n <= -n;
  }

  lemma DivStep(y: int, n: int)
    requires n > 0
    ensures (y + 1) / n == y / n + if (y + 1) % n == 0 then 1 else 0
  {
    var q, r := y / n, y % n;
    if r + 1 < n { DivUnique(y + 1, n, q, r + 1); } else {
      assert (q + 1) * n == q * n + n;
      DivUnique(y + 1, n, q + 1, 0);
    }
  }

  lemma DivAdd(y: int, m: int, n: int)
    requires n > 0 && m >= 0
    ensures y / n + m / n <= (y + m) / n <= y / n + (m + n - 1) / n
  {
    DivSum(y, m, n, y / n, m / n, (y + m) / n, (m + n - 1) / n);
  }

  lemma DivSum(y: int, m: int, n: int, a: int, b: int, s: int, c: int)
    requires n > 0 && 0 <= y - a * n < n && 0 <= m - b * n < n && 0 <= y + m - s * n < n && 0 <= m + n - 1 - c * n < n
    ensures a + b <= s <= a + c
  {
    assert (s - a - b + 1) * n == s * n - a * n - b * n + n;
    MulPositive(s - a - b + 1, n);
    assert (c + a - s + 1) * n == c * n + a * n - s * n + n;
    MulPositive(c + a - s + 1, n);
  }

  lemma MulPositive(a: int, n: int)
    requires n > 0 && a * n > 0
    ensures a > 0
  {
  }

  lemma ProductAsReal(a: int, k: nat)
    ensures (a * k) as real == a as real * k as real
  {
  }

  lemma Sign(a: real, k: real)
    requires k > 0.0
    ensures (a >= 0.0 ==> a * k >= 0.0) && (a > 0.0 ==> a * k > 0.0)
  {
  }
}
