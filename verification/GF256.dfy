/**
 The field GF(2^8) of FIPS 197, section 4.2: octets are polynomials over GF(2),
 addition is `Xor`, multiplication is polynomial multiplication modulo
 x^8 + x^4 + x^3 + x + 1 (0x11B).
 */
module GF256 {
  import opened Bytes

  // ----- shift-and-xor multiplication -----

  /** Multiply by x: shift left in eight bits, reduce if the top bit fell out. */
  function XTime(a: byte): byte
  {
    if a >= 128 then Xor(2 * a - 256, 0x1B) else 2 * a
  }

  function Mul(a: byte, b: byte): byte
    decreases b
  {
    if b == 0 then 0 else Xor(if b % 2 == 1 then a else 0, Mul(XTime(a), b / 2))
  }

  lemma XTimeReduce(a: byte)
    ensures XTime(a) == Xor(2 * a, if a >= 128 then 0x11B else 0)
  {
    if a >= 128 {
      XorTop(256, 2 * a - 256);
      XorTop(256, 0x1B);
      XorComm(2 * a - 256, 256);
      XorAssoc(2 * a - 256, 256, Xor(256, 0x1B));
      XorAssoc(256, 256, 0x1B);
      XorSelf(256);
    } else {
      XorZero(2 * a);
    }
  }

  lemma XTimeLinear(a: byte, b: byte)
    ensures XTime(Xor(a, b)) == Xor(XTime(a), XTime(b))
  {
    XTimeReduce(a); XTimeReduce(b); XTimeReduce(Xor(a, b));
    XorHigh(128, a, b);
    XorDouble(a, b);
    var r, s := if a >= 128 then 0x11B else 0, if b >= 128 then 0x11B else 0;
    XorSwap(2 * a, r, 2 * b, s);
    assert Xor(r, s) == if Xor(a, b) >= 128 then 0x11B else 0 by {
      XorSelf(0x11B); XorZero(0x11B);
    }
  }

  // ----- field laws -----

  lemma {:induction false} MulXorLeft(a: byte, b: byte, c: byte)
    ensures Mul(Xor(a, b), c) == Xor(Mul(a, c), Mul(b, c))
    decreases c
  {
    if c != 0 {
      XTimeLinear(a, b);
      MulXorLeft(XTime(a), XTime(b), c / 2);
      var odd := c % 2 == 1;
      XorSwap(if odd then a else 0, Mul(XTime(a), c / 2), if odd then b else 0, Mul(XTime(b), c / 2));
    }
  }

  function Term(a: byte, b: byte): byte { if b % 2 == 1 then a else 0 }

  lemma MulUnfold(a: byte, b: byte)
    ensures Mul(a, b) == Xor(Term(a, b), Mul(XTime(a), b / 2))
  {
  }

  lemma {:induction false} MulXorRight(a: byte, b: byte, c: byte)
    ensures Mul(a, Xor(b, c)) == Xor(Mul(a, b), Mul(a, c))
    decreases b
  {
    if b != 0 {
      MulXorRight(XTime(a), b / 2, c / 2);
      XorHalf(b, c);
      MulUnfold(a, b); MulUnfold(a, c); MulUnfold(a, Xor(b, c));
      XorSwap(Term(a, b), Mul(XTime(a), b / 2), Term(a, c), Mul(XTime(a), c / 2));
      assert Term(a, Xor(b, c)) == Xor(Term(a, b), Term(a, c)) by { XorSelf(a); XorZero(a); }
    }
  }

  lemma {:induction false} MulXTimeLeft(a: byte, b: byte)
    ensures Mul(XTime(a), b) == XTime(Mul(a, b))
    decreases b
  {
    if b != 0 {
      MulXTimeLeft(XTime(a), b / 2);
      XTimeLinear(if b % 2 == 1 then a else 0, Mul(XTime(a), b / 2));
    }
  }

  lemma {:induction false} MulZeroLeft(b: byte)
    ensures Mul(0, b) == 0
  {
    if b != 0 { MulZeroLeft(b / 2); }
  }

  lemma MulOneRight(a: byte)
    ensures Mul(a, 1) == a
  {
    XorZero(a);
  }

  lemma {:induction false} MulOneLeft(b: byte)
    ensures Mul(1, b) == b
  {
    if b != 0 {
      MulOneLeft(b / 2);
      MulXTimeLeft(1, b / 2);
      XorZero(b);
      if b % 2 == 1 { assert Xor(1, 2 * (b / 2)) == b; }
    }
  }

  lemma OddSplit(a: byte)
    requires a % 2 == 1
    ensures Xor(1, a - 1) == a
  {
  }

  /** Both sides are linear in `a` and agree at `a == 1`; every octet is built from 1 by XTime and Xor. */
  lemma {:induction false} MulXTimeRight(a: byte, b: byte)
    ensures Mul(a, XTime(b)) == XTime(Mul(a, b))
    decreases a
  {
    if a == 0 {
      MulZeroLeft(b); MulZeroLeft(XTime(b));
    } else if a % 2 == 0 {
      MulXTimeRight(a / 2, b);
      MulXTimeLeft(a / 2, b); MulXTimeLeft(a / 2, XTime(b));
    } else {
      MulXTimeRight(a - 1, b);
      OddSplit(a);
      MulXorLeft(1, a - 1, b); MulXorLeft(1, a - 1, XTime(b));
      MulOneLeft(b); MulOneLeft(XTime(b));
      XTimeLinear(b, Mul(a - 1, b));
    }
  }

  lemma {:induction false} MulAssoc(a: byte, b: byte, c: byte)
    ensures Mul(a, Mul(b, c)) == Mul(Mul(a, b), c)
    decreases c
  {
    if c != 0 {
      MulAssoc(a, XTime(b), c / 2);
      MulXTimeRight(a, b);
      MulXorRight(a, Term(b, c), Mul(XTime(b), c / 2));
    }
  }

  lemma {:induction false} MulCommSteps(x: byte, a: byte, b: byte)
    ensures Mul(Mul(x, b), a) == Mul(Mul(x, a), b)
    decreases b
  {
    if b != 0 {
      MulCommSteps(XTime(x), a, b / 2);
      MulXTimeLeft(x, a);
      MulXorLeft(Term(x, b), Mul(XTime(x), b / 2), a);
      MulZeroLeft(a);
    } else { MulZeroLeft(a); }
  }

  lemma MulComm(a: byte, b: byte)
    ensures Mul(a, b) == Mul(b, a)
  {
    MulCommSteps(1, a, b);
    MulOneLeft(a); MulOneLeft(b);
  }

  // ----- powers -----

  function Pow(g: byte, n: nat): byte
  {
    if n == 0 then 1 else Mul(Pow(g, n - 1), g)
  }

  lemma {:induction false} PowAdd(g: byte, m: nat, n: nat)
    ensures Pow(g, m + n) == Mul(Pow(g, m), Pow(g, n))
    decreases n
  {
    if n == 0 {
      MulOneRight(Pow(g, m));
    } else {
      PowAdd(g, m, n - 1);
      var x, y := Pow(g, m), Pow(g, n - 1);
      assert Pow(g, m + n) == Mul(Mul(x, y), g);
      MulAssoc(x, y, g);
    }
  }

  /** From a power that is 1 on, the powers begin again. */
  lemma {:induction false} PowBeginsAgain(g: byte, m: nat, r: nat)
    requires Pow(g, m) == 1
    ensures Pow(g, m + r) == Pow(g, r)
    decreases r
  {
    if r > 0 { PowBeginsAgain(g, m, r - 1); }
  }

  lemma {:induction false} PowMultiple(g: byte, d: nat, q: nat)
    requires Pow(g, d) == 1
    ensures Pow(g, q * d) == 1
  {
    if q != 0 {
      PowMultiple(g, d, q - 1);
      OneLess(q, d);
      PowBeginsAgain(g, (q - 1) * d, d);
    }
  }

  lemma {:induction false} PowRemainder(g: byte, n: nat, d: nat, q: nat, r: nat)
    requires Pow(g, n) == 1 && Pow(g, d) == 1 && q * d + r == n
    ensures Pow(g, r) == 1
    decreases q
  {
    if q > 0 {
      OneLess(q, d);
      PowBeginsAgain(g, d, n - d);
      PowRemainder(g, n - d, d, q - 1, r);
    }
  }

  lemma OneLess(q: nat, d: nat)
    requires q > 0
    ensures q * d == (q - 1) * d + d && q * d >= d
  {
  }

  lemma {:induction false} PowStaysZero(g: byte, n: nat, k: nat)
    requires Pow(g, n) == 0
    ensures Pow(g, n + k) == 0
    decreases k
  {
    if k > 0 {
      PowStaysZero(g, n, k - 1);
      MulZeroLeft(g);
    }
  }

  lemma {:induction false} PowNonZero(g: byte, d: nat, n: nat)
    requires Pow(g, d) == 1 && d > 0
    ensures Pow(g, n) != 0
    decreases n
  {
    if n >= d {
      PowBeginsAgain(g, d, n - d);
      PowNonZero(g, d, n - d);
    } else if Pow(g, n) == 0 {
      PowStaysZero(g, n, d - n);
    }
  }
}
