/**
 Vectors over a field of characteristic two, linear combinations and span.

 The field is a parameter, so nothing here depends on how octets multiply.  Each
 law is guarded by a marker (`Pair`, `Triple`), which keeps the laws from being
 instantiated except where a proof names the elements.
 */
module LinearAlgebra {

  datatype Field<!F> = Field(zero: F, one: F, add: (F, F) -> F, mul: (F, F) -> F)

  predicate Pair<F>(a: F, b: F) { true }

  predicate Triple<F>(a: F, b: F, c: F) { true }

  ghost predicate Laws<F(!new)>(f: Field<F>)
  {
    && (forall a, b {:trigger Pair(a, b)} :: f.add(a, b) == f.add(b, a) && f.mul(a, b) == f.mul(b, a))
    && (forall a, b {:trigger Pair(a, b)} ::
          && f.add(a, f.zero) == a
          && f.add(a, a) == f.zero
          && f.mul(a, f.zero) == f.zero
          && f.mul(a, f.one) == a)
    && (forall a, b, c {:trigger Triple(a, b, c)} ::
          && f.add(f.add(a, b), c) == f.add(a, f.add(b, c))
          && f.mul(f.mul(a, b), c) == f.mul(a, f.mul(b, c))
          && f.mul(a, f.add(b, c)) == f.add(f.mul(a, b), f.mul(a, c)))
  }

  lemma Comm<F(!new)>(f: Field<F>, a: F, b: F)
    requires Laws(f)
    ensures f.add(a, b) == f.add(b, a) && f.mul(a, b) == f.mul(b, a)
  {
    assert Pair(a, b);
  }

  lemma Units<F(!new)>(f: Field<F>, a: F)
    requires Laws(f)
    ensures f.add(a, f.zero) == a == f.add(f.zero, a)
    ensures f.add(a, a) == f.zero
    ensures f.mul(a, f.zero) == f.zero == f.mul(f.zero, a)
    ensures f.mul(a, f.one) == a == f.mul(f.one, a)
  {
    assert Pair(a, f.zero) && Pair(f.zero, a) && Pair(a, f.one) && Pair(f.one, a);
  }

  lemma Assoc<F(!new)>(f: Field<F>, a: F, b: F, c: F)
    requires Laws(f)
    ensures f.add(f.add(a, b), c) == f.add(a, f.add(b, c))
    ensures f.mul(f.mul(a, b), c) == f.mul(a, f.mul(b, c))
    ensures f.mul(a, f.add(b, c)) == f.add(f.mul(a, b), f.mul(a, c))
  {
    assert Triple(a, b, c);
  }

  /** (a + b) + (c + d) == (a + c) + (b + d) */
  lemma Exchange<F(!new)>(f: Field<F>, a: F, b: F, c: F, d: F)
    requires Laws(f)
    ensures f.add(f.add(a, b), f.add(c, d)) == f.add(f.add(a, c), f.add(b, d))
  {
    Assoc(f, a, b, f.add(c, d));
    Assoc(f, b, c, d);
    Comm(f, b, c);
    Assoc(f, c, b, d);
    Assoc(f, a, c, f.add(b, d));
  }

  // ----- vectors -----

  function Zeros<F>(f: Field<F>, n: nat): (r: seq<F>)
    ensures |r| == n
  {
    seq(n, _ => f.zero)
  }

  /** u + c * v */
  function Axpy<F>(f: Field<F>, u: seq<F>, v: seq<F>, c: F): (r: seq<F>)
    requires |u| == |v|
    ensures |r| == |u|
  {
    seq(|u|, i requires 0 <= i < |u| => f.add(u[i], f.mul(c, v[i])))
  }

  predicate Rectangular<F>(vs: seq<seq<F>>, n: nat)
  {
    forall i :: 0 <= i < |vs| ==> |vs[i]| == n
  }

  /** Sum of cs[j] * vs[j], accumulated from the first vector to the last. */
  function LinComb<F>(f: Field<F>, cs: seq<F>, vs: seq<seq<F>>, n: nat): (r: seq<F>)
    requires |cs| == |vs| && Rectangular(vs, n)
    ensures |r| == n
  {
    if |cs| == 0 then Zeros(f, n) else
      var m := |cs| - 1;
      Axpy(f, LinComb(f, cs[..m], vs[..m], n), vs[m], cs[m])
  }

  /** (p + d*q) + (c + d*e)*v == (p + c*v) + d*(q + e*v) */
  lemma AxpyCoeffAt<F(!new)>(f: Field<F>, p: F, q: F, c: F, e: F, d: F, v: F)
    requires Laws(f)
    ensures f.add(f.add(p, f.mul(d, q)), f.mul(f.add(c, f.mul(d, e)), v))
         == f.add(f.add(p, f.mul(c, v)), f.mul(d, f.add(q, f.mul(e, v))))
  {
    Comm(f, f.add(c, f.mul(d, e)), v);
    Assoc(f, v, c, f.mul(d, e));
    Comm(f, v, c);
    Comm(f, v, f.mul(d, e));
    Assoc(f, d, e, v);
    Assoc(f, d, q, f.mul(e, v));
    Exchange(f, p, f.mul(d, q), f.mul(c, v), f.mul(d, f.mul(e, v)));
  }

  /** Linear combination is linear in its coefficients. */
  lemma {:induction false} LinCombAxpy<F(!new)>(f: Field<F>, cs: seq<F>, ds: seq<F>, c: F, vs: seq<seq<F>>, n: nat)
    requires Laws(f) && |cs| == |ds| == |vs| && Rectangular(vs, n)
    ensures LinComb(f, Axpy(f, cs, ds, c), vs, n) == Axpy(f, LinComb(f, cs, vs, n), LinComb(f, ds, vs, n), c)
  {
    if cs == [] {
      Units(f, c); Units(f, f.zero);
    } else {
      var m := |cs| - 1;
      var es := Axpy(f, cs, ds, c);
      LinCombAxpy(f, cs[..m], ds[..m], c, vs[..m], n);
      assert es[..m] == Axpy(f, cs[..m], ds[..m], c);
      var p, q := LinComb(f, cs[..m], vs[..m], n), LinComb(f, ds[..m], vs[..m], n);
      forall i | 0 <= i < n
        ensures LinComb(f, es, vs, n)[i] == Axpy(f, LinComb(f, cs, vs, n), LinComb(f, ds, vs, n), c)[i]
      {
        AxpyCoeffAt(f, p[i], q[i], cs[m], ds[m], c, vs[m][i]);
      }
    }
  }

  function Unit<F>(f: Field<F>, k: nat, c: nat): (r: seq<F>)
    ensures |r| == k
  {
    seq(k, i => if i == c then f.one else f.zero)
  }

  lemma AxpyZeroCoeff<F(!new)>(f: Field<F>, u: seq<F>, v: seq<F>)
    requires Laws(f) && |u| == |v|
    ensures Axpy(f, u, v, f.zero) == u
  {
    forall i | 0 <= i < |u| ensures Axpy(f, u, v, f.zero)[i] == u[i] {
      Units(f, v[i]); Units(f, u[i]);
    }
  }

  /** Characteristic two: adding the same multiple twice changes nothing. */
  lemma AxpyTwice<F(!new)>(f: Field<F>, u: seq<F>, v: seq<F>, c: F)
    requires Laws(f) && |u| == |v|
    ensures Axpy(f, Axpy(f, u, v, c), v, c) == u
  {
    forall i | 0 <= i < |u| ensures Axpy(f, Axpy(f, u, v, c), v, c)[i] == u[i] {
      var x := f.mul(c, v[i]);
      Assoc(f, u[i], x, x);
      Units(f, x); Units(f, u[i]);
    }
  }

  lemma AxpySplit<F>(f: Field<F>, u: seq<F>, v: seq<F>, c: F, k: nat)
    requires |u| == |v| && k <= |u|
    ensures Axpy(f, u, v, c)[..k] == Axpy(f, u[..k], v[..k], c)
    ensures Axpy(f, u, v, c)[k..] == Axpy(f, u[k..], v[k..], c)
  {
  }

  function Joined<F>(us: seq<seq<F>>, vs: seq<seq<F>>): (ws: seq<seq<F>>)
    requires |us| == |vs|
    ensures |ws| == |us|
  {
    seq(|us|, i requires 0 <= i < |us| => us[i] + vs[i])
  }

  /** Combining the two halves of rows separately combines the rows. */
  lemma {:induction false} LinCombJoin<F>(f: Field<F>, cs: seq<F>, us: seq<seq<F>>, vs: seq<seq<F>>, m: nat, n: nat)
    requires |cs| == |us| == |vs| && Rectangular(us, m) && Rectangular(vs, n)
    ensures Rectangular(Joined(us, vs), m + n)
    ensures LinComb(f, cs, Joined(us, vs), m + n) == LinComb(f, cs, us, m) + LinComb(f, cs, vs, n)
    decreases |cs|
  {
    var ws := Joined(us, vs);
    if |cs| == 0 {
      assert Zeros(f, m + n) == Zeros(f, m) + Zeros(f, n);
    } else {
      var l := |cs| - 1;
      LinCombJoin(f, cs[..l], us[..l], vs[..l], m, n);
      assert ws[..l] == Joined(us[..l], vs[..l]);
      var p, q := LinComb(f, cs[..l], us[..l], m), LinComb(f, cs[..l], vs[..l], n);
      assert Axpy(f, p + q, us[l] + vs[l], cs[l]) == Axpy(f, p, us[l], cs[l]) + Axpy(f, q, vs[l], cs[l]);
    }
  }

  // ----- single coordinates -----

  /** A coordinate to which only the term c contributes. */
  lemma {:induction false} LinCombSingle<F(!new)>(f: Field<F>, cs: seq<F>, vs: seq<seq<F>>, n: nat, i: nat, c: nat)
    requires Laws(f) && |cs| == |vs| && Rectangular(vs, n) && i < n
    requires forall j :: 0 <= j < |cs| && j != c ==> f.mul(cs[j], vs[j][i]) == f.zero
    ensures LinComb(f, cs, vs, n)[i] == if c < |cs| then f.mul(cs[c], vs[c][i]) else f.zero
    decreases |cs|
  {
    if |cs| != 0 {
      var m := |cs| - 1;
      LinCombSingle(f, cs[..m], vs[..m], n, i, c);
      Units(f, f.mul(cs[m], vs[m][i]));
      Units(f, LinComb(f, cs[..m], vs[..m], n)[i]);
    }
  }

  lemma LinCombUnit<F(!new)>(f: Field<F>, vs: seq<seq<F>>, n: nat, c: nat)
    requires Laws(f) && Rectangular(vs, n) && c < |vs|
    ensures LinComb(f, Unit(f, |vs|, c), vs, n) == vs[c]
  {
    var cs := Unit(f, |vs|, c);
    forall i | 0 <= i < n ensures LinComb(f, cs, vs, n)[i] == vs[c][i] {
      forall j | 0 <= j < |cs| && j != c ensures f.mul(cs[j], vs[j][i]) == f.zero { Units(f, vs[j][i]); }
      LinCombSingle(f, cs, vs, n, i, c);
      Units(f, vs[c][i]);
    }
  }

  lemma LinCombNone<F(!new)>(f: Field<F>, cs: seq<F>, vs: seq<seq<F>>, n: nat)
    requires Laws(f) && |cs| == |vs| && Rectangular(vs, n)
    requires forall j :: 0 <= j < |cs| ==> cs[j] == f.zero || vs[j] == Zeros(f, n)
    ensures LinComb(f, cs, vs, n) == Zeros(f, n)
  {
    forall i | 0 <= i < n ensures LinComb(f, cs, vs, n)[i] == f.zero {
      forall j | 0 <= j < |cs| ensures f.mul(cs[j], vs[j][i]) == f.zero {
        Units(f, vs[j][i]); Units(f, cs[j]);
      }
      LinCombSingle(f, cs, vs, n, i, |cs|);
    }
  }

  // ----- inner products -----

  function Dot<F>(f: Field<F>, r: seq<F>, v: seq<F>): F
    requires |r| == |v|
  {
    if |r| == 0 then f.zero else
      var m := |r| - 1;
      f.add(Dot(f, r[..m], v[..m]), f.mul(r[m], v[m]))
  }

  lemma {:induction false} DotAxpy<F(!new)>(f: Field<F>, r: seq<F>, u: seq<F>, v: seq<F>, c: F)
    requires Laws(f) && |r| == |u| == |v|
    ensures Dot(f, r, Axpy(f, u, v, c)) == f.add(Dot(f, r, u), f.mul(c, Dot(f, r, v)))
  {
    if |r| == 0 {
      Units(f, c); Units(f, f.zero);
    } else {
      var m := |r| - 1;
      DotAxpy(f, r[..m], u[..m], v[..m], c);
      assert Axpy(f, u, v, c)[..m] == Axpy(f, u[..m], v[..m], c);
      var p, q := Dot(f, r[..m], u[..m]), Dot(f, r[..m], v[..m]);
      Comm(f, r[m], u[m]); Comm(f, r[m], v[m]); Comm(f, r[m], f.add(u[m], f.mul(c, v[m])));
      AxpyCoeffAt(f, p, q, u[m], v[m], c, r[m]);
    }
  }

  /** The inner products of one vector with several. */
  function Dots<F>(f: Field<F>, rs: seq<seq<F>>, v: seq<F>): (t: seq<F>)
    requires Rectangular(rs, |v|)
    ensures |t| == |rs|
  {
    seq(|rs|, j requires 0 <= j < |rs| => Dot(f, rs[j], v))
  }

  lemma DotsAxpy<F(!new)>(f: Field<F>, rs: seq<seq<F>>, u: seq<F>, v: seq<F>, c: F)
    requires Laws(f) && |u| == |v| && Rectangular(rs, |v|)
    ensures Dots(f, rs, Axpy(f, u, v, c)) == Axpy(f, Dots(f, rs, u), Dots(f, rs, v), c)
  {
    forall j | 0 <= j < |rs|
      ensures Dots(f, rs, Axpy(f, u, v, c))[j] == Axpy(f, Dots(f, rs, u), Dots(f, rs, v), c)[j]
    {
      DotAxpy(f, rs[j], u, v, c);
    }
  }

  lemma {:induction false} DotZeros<F(!new)>(f: Field<F>, r: seq<F>)
    requires Laws(f)
    ensures Dot(f, r, Zeros(f, |r|)) == f.zero
  {
    if |r| != 0 {
      var m := |r| - 1;
      DotZeros(f, r[..m]);
      assert Zeros(f, |r|)[..m] == Zeros(f, m);
      Units(f, r[m]); Units(f, f.zero);
    }
  }

  ghost function MapDots<F>(f: Field<F>, rs: seq<seq<F>>, vs: seq<seq<F>>, n: nat): (ts: seq<seq<F>>)
    requires Rectangular(rs, n) && Rectangular(vs, n)
    ensures |ts| == |vs| && Rectangular(ts, |rs|)
  {
    seq(|vs|, j requires 0 <= j < |vs| => Dots(f, rs, vs[j]))
  }

  /** Inner products commute with linear combination. */
  lemma {:induction false} DotsLinComb<F(!new)>(f: Field<F>, rs: seq<seq<F>>, cs: seq<F>, vs: seq<seq<F>>, n: nat)
    requires Laws(f) && |cs| == |vs| && Rectangular(vs, n) && Rectangular(rs, n)
    ensures Dots(f, rs, LinComb(f, cs, vs, n)) == LinComb(f, cs, MapDots(f, rs, vs, n), |rs|)
    decreases |cs|
  {
    var ts := MapDots(f, rs, vs, n);
    if |cs| == 0 {
      forall j | 0 <= j < |rs| ensures Dot(f, rs[j], Zeros(f, n)) == f.zero { DotZeros(f, rs[j]); }
      assert Dots(f, rs, Zeros(f, n)) == Zeros(f, |rs|);
    } else {
      var m := |cs| - 1;
      DotsLinComb(f, rs, cs[..m], vs[..m], n);
      DotsAxpy(f, rs, LinComb(f, cs[..m], vs[..m], n), vs[m], cs[m]);
      assert ts[..m] == MapDots(f, rs, vs[..m], n);
    }
  }

  // ----- span -----

  ghost predicate InSpan<F(!new)>(f: Field<F>, v: seq<F>, vs: seq<seq<F>>, n: nat)
    requires Rectangular(vs, n)
  {
    exists cs :: |cs| == |vs| && LinComb(f, cs, vs, n) == v
  }

  lemma SpanMember<F(!new)>(f: Field<F>, vs: seq<seq<F>>, n: nat, c: nat)
    requires Laws(f) && Rectangular(vs, n) && c < |vs|
    ensures InSpan(f, vs[c], vs, n)
  {
    LinCombUnit(f, vs, n, c);
  }

  lemma SpanZero<F(!new)>(f: Field<F>, vs: seq<seq<F>>, n: nat)
    requires Laws(f) && Rectangular(vs, n)
    ensures InSpan(f, Zeros(f, n), vs, n)
  {
    LinCombNone(f, Zeros(f, |vs|), vs, n);
  }

  lemma SpanAxpy<F(!new)>(f: Field<F>, u: seq<F>, v: seq<F>, c: F, vs: seq<seq<F>>, n: nat)
    requires Laws(f) && Rectangular(vs, n) && InSpan(f, u, vs, n) && InSpan(f, v, vs, n)
    requires |u| == |v|
    ensures InSpan(f, Axpy(f, u, v, c), vs, n)
  {
    var cs :| |cs| == |vs| && LinComb(f, cs, vs, n) == u;
    var ds :| |ds| == |vs| && LinComb(f, ds, vs, n) == v;
    LinCombAxpy(f, cs, ds, c, vs, n);
  }

  ghost predicate SpannedBy<F(!new)>(f: Field<F>, vs: seq<seq<F>>, ws: seq<seq<F>>, n: nat)
    requires Rectangular(ws, n)
  {
    forall i {:trigger InSpan(f, vs[i], ws, n)} :: 0 <= i < |vs| ==> InSpan(f, vs[i], ws, n)
  }

  lemma {:induction false} LinCombInSpan<F(!new)>(f: Field<F>, cs: seq<F>, vs: seq<seq<F>>, ws: seq<seq<F>>, n: nat)
    requires Laws(f) && |cs| == |vs| && Rectangular(vs, n) && Rectangular(ws, n) && SpannedBy(f, vs, ws, n)
    ensures InSpan(f, LinComb(f, cs, vs, n), ws, n)
    decreases |cs|
  {
    if |cs| == 0 {
      SpanZero(f, ws, n);
    } else {
      var m := |cs| - 1;
      LinCombInSpan(f, cs[..m], vs[..m], ws, n);
      SpanAxpy(f, LinComb(f, cs[..m], vs[..m], n), vs[m], cs[m], ws, n);
    }
  }

  lemma SpanTransitive<F(!new)>(f: Field<F>, v: seq<F>, vs: seq<seq<F>>, ws: seq<seq<F>>, n: nat)
    requires Laws(f) && Rectangular(vs, n) && Rectangular(ws, n)
    requires InSpan(f, v, vs, n) && SpannedBy(f, vs, ws, n)
    ensures InSpan(f, v, ws, n)
  {
    var cs :| |cs| == |vs| && LinComb(f, cs, vs, n) == v;
    LinCombInSpan(f, cs, vs, ws, n);
  }

  lemma SpanExtend<F(!new)>(f: Field<F>, v: seq<F>, vs: seq<seq<F>>, w: seq<F>, n: nat)
    requires Laws(f) && Rectangular(vs, n) && |w| == n && InSpan(f, v, vs, n)
    ensures InSpan(f, v, vs + [w], n)
  {
    var ws := vs + [w];
    forall i | 0 <= i < |vs| ensures InSpan(f, vs[i], ws, n) {
      SpanMember(f, ws, n, i);
      assert ws[i] == vs[i];
    }
    SpanTransitive(f, v, vs, ws, n);
  }
}
