/**
 Logarithm and antilogarithm tables of GF(2^8) and the arithmetic that reads them.
 */
module Tables {
  import opened Bytes
  import opened GF256
  import opened Generator

  // ----- what the tables hold -----

  /** Two copies of the cycle of powers and the wrapped entry 510; entry 511 stays zero. */
  function PowerTable(g: byte): seq<byte>
  {
    seq(512, i requires 0 <= i < 512 => if i <= 510 then Pow(g, i % 255) else 0)
  }

  function LogFrom(g: byte, a: byte, i: nat): nat
    decreases 255 - i
  {
    if i >= 255 || Pow(g, i) == a then i else LogFrom(g, a, i + 1)
  }

  /** Discrete logarithm; the entry for zero is zero and is never used. */
  function Log(g: byte, a: byte): nat
  {
    if a == 0 then 0 else LogFrom(g, a, 0)
  }

  function LogTable(g: byte): seq<nat>
  {
    seq(256, a requires 0 <= a < 256 => Log(g, a))
  }

  const EXP_TABLE: seq<byte> := PowerTable(GENERATOR)
  const LOG_TABLE: seq<nat> := LogTable(GENERATOR)

  lemma {:induction false} LogFromFinds(g: byte, a: byte, i: nat, k: nat)
    requires i <= k < 255 && Pow(g, k) == a
    ensures LogFrom(g, a, i) < 255 && Pow(g, LogFrom(g, a, i)) == a
    decreases 255 - i
  {
    if Pow(g, i) != a { LogFromFinds(g, a, i + 1, k); }
  }

  lemma PowLog(g: byte, a: byte)
    requires Generates(g) && a != 0
    ensures Log(g, a) < 255 && Pow(g, Log(g, a)) == a
  {
    LogExists(g, a);
    var k :| 0 <= k < 255 && Pow(g, k) == a;
    LogFromFinds(g, a, 0, k);
  }

  // ----- building them -----

  lemma SlowStep(result: byte, a: byte, b: byte)
    ensures Xor(result, Mul(a, b)) == Xor(Xor(result, Term(a, b)), Mul(XTime(a), b / 2))
  {
    MulUnfold(a, b);
    XorAssoc(result, Term(a, b), Mul(XTime(a), b / 2));
  }

  method ShiftReduce(a: byte) returns (r: byte)
    ensures r == XTime(a)
  {
    var hi := a >= 128;
    r := if hi then 2 * a - 256 else 2 * a;  // `a << 1` in eight bits
    if hi {
      r := Xor(r, 0x1B);
    }
  }

  method GfMulSlow(a0: byte, b0: byte) returns (result: byte)
    ensures result == Mul(a0, b0)
  {
    var a: byte, b: byte := a0, b0;
    result := 0;
    while b > 0
      invariant Xor(result, Mul(a, b)) == Mul(a0, b0)
    {
      SlowStep(result, a, b);
      if b % 2 != 0 {
        result := Xor(result, a);
      } else {
        XorZero(result);
      }
      a := ShiftReduce(a);
      b := b / 2;
    }
    XorZero(result);
  }

  lemma PowerTableFrom(g: byte, t: seq<byte>)
    requires |t| == 512 && t[510] == 1 && t[511] == 0
    requires forall j :: 0 <= j < 255 ==> t[j] == t[j + 255] == Pow(g, j)
    ensures t == PowerTable(g)
  {
    forall j | 0 <= j < 512 ensures t[j] == PowerTable(g)[j] {
      if j < 255 {
        assert t[j] == t[j + 255];
      } else if j < 510 {
        var i := j - 255;
        assert t[i] == t[i + 255] && j % 255 == i;
      } else if j == 510 {
        assert j % 255 == 0;
      }
    }
  }

  method BuildExpTable(g: byte) returns (table: array<byte>)
    ensures table[..] == PowerTable(g)
  {
    table := new byte[512](_ => 0);
    var x: byte := 1;
    var i := 0;
    while i < 255
      invariant 0 <= i <= 255
      invariant x == Pow(g, i)
      invariant forall j :: 0 <= j < i ==> table[j] == table[j + 255] == Pow(g, j)
      invariant table[511] == 0
    {
      table[i] := x;
      table[i + 255] := x;
      x := GfMulSlow(x, g);
      i := i + 1;
    }
    table[255] := 1;
    table[510] := 1;
    PowerTableFrom(g, table[..]);
  }

  /** The logarithms of the first n powers are entered. */
  ghost predicate LogsTo(g: byte, t: seq<nat>, n: nat)
  {
    |t| == 256 && t[0] == 0 && forall j :: 0 <= j < n ==> t[Pow(g, j)] == j
  }

  lemma LogsNext(g: byte, t: seq<nat>, n: nat)
    requires Generates(g) && n < 255 && LogsTo(g, t, n)
    ensures LogsTo(g, t[Pow(g, n) := n], n + 1)
  {
  }

  lemma LogsAll(g: byte, t: seq<nat>)
    requires Generates(g) && LogsTo(g, t, 255)
    ensures t == LogTable(g)
  {
    forall a | 0 <= a < 256 ensures t[a] == LogTable(g)[a] {
      if a != 0 { PowLog(g, a); }
    }
  }

  method BuildLogTable(g: byte, exp: array<byte>) returns (table: array<nat>)
    requires Generates(g)
    requires exp[..] == PowerTable(g)
    ensures table[..] == LogTable(g)
  {
    table := new nat[256](_ => 0);
    var i := 0;
    while i < 255
      invariant 0 <= i <= 255
      invariant LogsTo(g, table[..], i)
    {
      assert exp[i] == exp[..][i] == Pow(g, i);
      LogsNext(g, table[..], i);
      table[exp[i]] := i;
      i := i + 1;
    }
    LogsAll(g, table[..]);
  }

  // ----- arithmetic through the tables -----

  function GfMul(a: byte, b: byte): byte
  {
    if a == 0 || b == 0 then 0 else
      Logs(a); Logs(b);
      EXP_TABLE[LOG_TABLE[a] + LOG_TABLE[b]]
  }

  function GfDiv(a: byte, b: byte): byte
  {
    if a == 0 then 0 else
      Logs(a); Logs(b);
      EXP_TABLE[LOG_TABLE[a] + 255 - LOG_TABLE[b]]
  }

  function GfInv(a: byte): byte
  {
    Logs(a);
    EXP_TABLE[255 - LOG_TABLE[a]]
  }

  lemma Logs(a: byte)
    ensures LOG_TABLE[a] < 255
    ensures a != 0 ==> Pow(GENERATOR, LOG_TABLE[a]) == a
  {
    GeneratorIsPrimitive();
    if a != 0 { PowLog(GENERATOR, a); }
  }

  lemma PowCycle(g: byte, k: nat, n: nat)
    requires Pow(g, k) == 1
    ensures Pow(g, n + k) == Pow(g, n)
  {
    PowAdd(g, n, k);
    MulOneRight(Pow(g, n));
  }

  lemma Wrapped(n: nat)
    requires n < 510
    ensures n % 255 == if n < 255 then n else n - 255
  {
  }

  lemma EntryAt(g: byte, n: nat, r: nat)
    requires n < 510 && r == if n < 255 then n else n - 255
    ensures PowerTable(g)[n] == Pow(g, r)
  {
    Wrapped(n);
  }

  lemma PowerEntry(g: byte, n: nat)
    requires Primitive(g) && n < 510
    ensures PowerTable(g)[n] == Pow(g, n)
  {
    if n < 255 {
      EntryAt(g, n, n);
    } else {
      var r := n - 255;
      EntryAt(g, n, r);
      PowCycle(g, 255, r);
    }
  }

  lemma ExpEntry(n: nat)
    requires n < 510
    ensures EXP_TABLE[n] == Pow(GENERATOR, n)
  {
    GeneratorIsPrimitive();
    PowerEntry(GENERATOR, n);
  }

  lemma ExpEntryOfSum(m: nat, n: nat, a: byte, b: byte)
    requires m + n < 510 && Pow(GENERATOR, m) == a && Pow(GENERATOR, n) == b
    ensures EXP_TABLE[m + n] == Mul(a, b)
  {
    ExpEntry(m + n);
    PowAdd(GENERATOR, m, n);
  }

  /** The table product is the shift-and-xor product. */
  lemma GfMulIsMul(a: byte, b: byte)
    ensures GfMul(a, b) == Mul(a, b)
  {
    if a == 0 {
      MulZeroLeft(b);
    } else if b != 0 {
      Logs(a); Logs(b);
      ExpEntryOfSum(LOG_TABLE[a], LOG_TABLE[b], a, b);
    }
  }

  lemma Pow255IsOne()
    ensures Pow(GENERATOR, 255) == 1
  {
    GeneratorIsPrimitive();
  }

  lemma GfInvInverts(a: byte)
    requires a != 0
    ensures Mul(a, GfInv(a)) == 1
  {
    Logs(a);
    var n := LOG_TABLE[a];
    ExpEntry(255 - n);
    PowAdd(GENERATOR, n, 255 - n);
    Pow255IsOne();
  }

  lemma PowQuotient(g: byte, k: nat, m: nat, n: nat)
    requires n <= k && Pow(g, k) == 1
    ensures Mul(Pow(g, m + k - n), Pow(g, n)) == Pow(g, m)
  {
    PowAdd(g, m + k - n, n);
    PowAdd(g, m, k);
    MulOneRight(Pow(g, m));
  }

  lemma QuotientTimesDivisor(m: nat, n: nat)
    requires m < 255 && n < 255
    ensures Mul(EXP_TABLE[m + 255 - n], Pow(GENERATOR, n)) == Pow(GENERATOR, m)
  {
    ExpEntry(m + 255 - n);
    Pow255IsOne();
    PowQuotient(GENERATOR, 255, m, n);
  }

  lemma DivideByZero(a: byte, m: nat)
    requires m < 255 && Pow(GENERATOR, m) == a
    ensures EXP_TABLE[m + 255] == a
  {
    assert Pow(GENERATOR, 0) == 1;
    QuotientTimesDivisor(m, 0);
    MulOneRight(EXP_TABLE[m + 255]);
  }

  lemma DivEntry(a: byte, b: byte, m: nat, n: nat)
    requires a != 0 && m == LOG_TABLE[a] && n == LOG_TABLE[b] && m < 255 && n < 255
    ensures GfDiv(a, b) == EXP_TABLE[m + 255 - n]
  {
  }

  lemma GfDivDivides(a: byte, b: byte)
    requires b != 0
    ensures Mul(GfDiv(a, b), b) == a
  {
    if a == 0 {
      MulZeroLeft(b);
    } else {
      Logs(a); Logs(b);
      DivEntry(a, b, LOG_TABLE[a], LOG_TABLE[b]);
      QuotientTimesDivisor(LOG_TABLE[a], LOG_TABLE[b]);
    }
  }

  /** The release build skips the assertion: dividing by zero then returns the dividend, not zero. */
  lemma GfDivByZero(a: byte)
    ensures GfDiv(a, 0) == a
  {
    assert LOG_TABLE[0] == 0;
    if a != 0 {
      Logs(a);
      DivideByZero(a, LOG_TABLE[a]);
    }
  }

  // ----- fused multiply-add -----

  function MulAdd(dst: seq<byte>, src: seq<byte>, c: byte): (r: seq<byte>)
    requires |dst| == |src|
    ensures |r| == |dst|
  {
    seq(|dst|, i requires 0 <= i < |dst| => Xor(dst[i], Mul(c, src[i])))
  }

  lemma MulAddAt(d: byte, s: byte, c: byte)
    ensures c == 0 ==> Xor(d, Mul(c, s)) == d
    ensures c == 1 ==> Xor(d, Mul(c, s)) == Xor(d, s)
    ensures s == 0 ==> Xor(d, Mul(c, s)) == d
  {
    XorZero(d);
    MulZeroLeft(s);
    MulOneLeft(s);
  }

  lemma LogSum(c: byte, s: byte)
    requires c != 0 && s != 0
    ensures LOG_TABLE[c] + LOG_TABLE[s] < 512 && EXP_TABLE[LOG_TABLE[c] + LOG_TABLE[s]] == Mul(c, s)
  {
    Logs(c); Logs(s);
    GfMulIsMul(c, s);
  }

  /** `dst` and `goal` agree below i; above it `dst` is untouched. */
  ghost predicate DoneTo(dst: array<byte>, was: seq<byte>, goal: seq<byte>, i: nat)
    requires dst.Length == |was| == |goal| && i <= |was|
    reads dst
  {
    && (forall j :: 0 <= j < i ==> dst[j] == goal[j])
    && (forall j :: i <= j < |was| ==> dst[j] == was[j])
  }

  /** The part of `src` that meets a buffer of length n, and zeros where it ends early. */
  function Fitted(src: seq<byte>, n: nat): (r: seq<byte>)
    ensures |r| == n && (|src| == n ==> r == src)
    ensures forall i :: 0 <= i < n ==> r[i] == if i < |src| then src[i] else 0
  {
    seq<byte>(n, i requires 0 <= i < n => if i < |src| then src[i] else 0)
  }

  function Shorter(a: nat, b: nat): nat
  {
    if a < b then a else b
  }

  method XorAll(dst: array<byte>, src: seq<byte>, ghost goal: seq<byte>)
    requires dst.Length == |goal|
    requires forall i :: 0 <= i < |goal| && i < |src| ==> goal[i] == Xor(dst[i], src[i])
    requires forall i :: |src| <= i < |goal| ==> goal[i] == dst[i]
    modifies dst
    ensures dst[..] == goal
  {
    for i := 0 to Shorter(dst.Length, |src|)
      invariant DoneTo(dst, old(dst[..]), goal, i)
    {
      dst[i] := Xor(dst[i], src[i]);
    }
  }

  /** `goal` is d plus coeff times s. */
  predicate Fused(goal: byte, d: byte, s: byte, coeff: byte) { goal == Xor(d, Mul(coeff, s)) }

  /** With `log_c` the exponent table multiplies by coeff. */
  ghost predicate Multiplies(log_c: nat, coeff: byte)
  {
    forall s: byte :: s != 0 ==>
      log_c + LOG_TABLE[s] < 512 && EXP_TABLE[log_c + LOG_TABLE[s]] == Mul(coeff, s)
  }

  method LogOf(coeff: byte) returns (log_c: nat)
    requires coeff != 0
    ensures Multiplies(log_c, coeff)
  {
    log_c := LOG_TABLE[coeff];
    forall s: byte | s != 0
      ensures log_c + LOG_TABLE[s] < 512 && EXP_TABLE[log_c + LOG_TABLE[s]] == Mul(coeff, s)
    {
      LogSum(coeff, s);
    }
  }

  method MulXor(d: byte, s: byte, coeff: byte, log_c: nat, ghost goal: byte) returns (r: byte)
    requires Multiplies(log_c, coeff) && Fused(goal, d, s, coeff)
    ensures r == goal
  {
    r := d;
    if s != 0 {
      r := Xor(d, EXP_TABLE[log_c + LOG_TABLE[s]]);
    } else {
      MulAddAt(d, s, coeff);
    }
  }

  method MulXorAll(dst: array<byte>, src: seq<byte>, coeff: byte, ghost goal: seq<byte>)
    requires dst.Length == |goal| && coeff != 0
    requires forall i :: 0 <= i < |goal| && i < |src| ==> Fused(goal[i], dst[i], src[i], coeff)
    requires forall i :: |src| <= i < |goal| ==> goal[i] == dst[i]
    modifies dst
    ensures dst[..] == goal
  {
    var log_c := LogOf(coeff);
    var n := Shorter(dst.Length, |src|);
    ghost var was := dst[..];
    for i := 0 to n
      invariant DoneTo(dst, was, goal, i)
    {
      assert dst[i] == was[i];
      dst[i] := MulXor(dst[i], src[i], coeff, log_c, goal[i]);
    }
  }

  /** In a release build buffers of unequal length meet only where both have bytes. */
  method VecMulAdd(dst: array<byte>, src: seq<byte>, coeff: byte)
    modifies dst
    ensures dst[..] == MulAdd(old(dst[..]), Fitted(src, dst.Length), coeff)
  {
    ghost var s := Fitted(src, dst.Length);
    ghost var goal := MulAdd(dst[..], s, coeff);
    forall i | 0 <= i < dst.Length
      ensures coeff == 0 ==> goal[i] == dst[i]
      ensures i < |src| ==> goal[i] == Xor(dst[i], if coeff == 1 then src[i] else Mul(coeff, src[i]))
      ensures i >= |src| ==> goal[i] == dst[i]
    {
      MulAddAt(dst[i], s[i], coeff);
    }
    if coeff == 0 {
      return;
    }
    if coeff == 1 {
      XorAll(dst, src, goal);
      return;
    }
    MulXorAll(dst, src, coeff, goal);
  }
}
