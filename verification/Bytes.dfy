/**
 Octets and bitwise exclusive or.

 A `u8` is a natural below 256.  `Xor` is written on the binary digits, least
 significant first, so that it is defined on every natural number; on octets it
 stays an octet.
 */
module Bytes {

  type byte = x: nat | x < 256

  function Xor(a: nat, b: nat): (r: nat)
    ensures a < 2 && b < 2 ==> r < 2
    ensures a < 4 && b < 4 ==> r < 4
    ensures a < 8 && b < 8 ==> r < 8
    ensures a < 16 && b < 16 ==> r < 16
    ensures a < 32 && b < 32 ==> r < 32
    ensures a < 64 && b < 64 ==> r < 64
    ensures a < 128 && b < 128 ==> r < 128
    ensures a < 256 && b < 256 ==> r < 256
  {
    if a == 0 then b else 2 * Xor(a / 2, b / 2) + (if a % 2 == b % 2 then 0 else 1)
  }

  lemma XorHalf(a: nat, b: nat)
    ensures Xor(a, b) / 2 == Xor(a / 2, b / 2)
    ensures Xor(a, b) % 2 == if a % 2 == b % 2 then 0 else 1
  {
  }

  lemma SameHalves(a: nat, b: nat)
    requires a / 2 == b / 2 && a % 2 == b % 2
    ensures a == b
  {
  }

  lemma {:induction false} XorZero(a: nat)
    ensures Xor(a, 0) == a == Xor(0, a)
  {
    if a != 0 { XorZero(a / 2); }
  }

  lemma {:induction false} XorSelf(a: nat)
    ensures Xor(a, a) == 0
  {
    if a != 0 { XorSelf(a / 2); }
  }

  lemma {:induction false} XorComm(a: nat, b: nat)
    ensures Xor(a, b) == Xor(b, a)
  {
    if a == 0 || b == 0 {
      XorZero(a); XorZero(b);
    } else {
      XorComm(a / 2, b / 2);
    }
  }

  lemma {:induction false} XorAssoc(a: nat, b: nat, c: nat)
    ensures Xor(Xor(a, b), c) == Xor(a, Xor(b, c))
    decreases a
  {
    if a != 0 {
      XorHalf(a, b); XorHalf(b, c); XorHalf(Xor(a, b), c); XorHalf(a, Xor(b, c));
      XorAssoc(a / 2, b / 2, c / 2);
      SameHalves(Xor(Xor(a, b), c), Xor(a, Xor(b, c)));
    }
  }

  lemma XorSwap(a: nat, b: nat, c: nat, d: nat)
    ensures Xor(Xor(a, b), Xor(c, d)) == Xor(Xor(a, c), Xor(b, d))
  {
    XorAssoc(a, b, Xor(c, d));
    XorAssoc(b, c, d);
    XorComm(b, c);
    XorAssoc(c, b, d);
    XorAssoc(a, c, Xor(b, d));
  }

  /** Adding the same term twice changes nothing: the field has characteristic two. */
  lemma XorCancel(a: nat, b: nat)
    ensures Xor(Xor(a, b), b) == a
  {
    XorAssoc(a, b, b);
    XorSelf(b);
    XorZero(a);
  }

  lemma XorDouble(a: nat, b: nat)
    ensures Xor(2 * a, 2 * b) == 2 * Xor(a, b)
  {
  }

  lemma {:induction false} XorTop(p: nat, a: nat)
    requires p in {1, 2, 4, 8, 16, 32, 64, 128, 256} && a < p
    ensures Xor(p, a) == p + a
  {
    if p > 1 { XorTop(p / 2, a / 2); }
  }

  lemma {:induction false} XorHigh(p: nat, a: nat, b: nat)
    requires p in {1, 2, 4, 8, 16, 32, 64, 128} && a < 2 * p && b < 2 * p
    ensures (Xor(a, b) >= p) == ((a >= p) != (b >= p))
  {
    XorHalf(a, b);
    if p > 1 { XorHigh(p / 2, a / 2, b / 2); }
  }
}
