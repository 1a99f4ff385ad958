/**
 Incremental Gaussian elimination over slots indexed by pivot column.

 A matrix has one slot per column; `[]` is an empty slot.  A stored row has zeros
 to the left of its own column and one in it, so the stored rows are unit upper
 triangular whatever the order in which they arrived.
 */
module Elimination {
  import opened LinearAlgebra
  import opened Wrappers

  ghost predicate Echelon<F(!new)>(f: Field<F>, m: seq<seq<F>>, k: nat, n: nat)
  {
    && |m| == k <= n
    && forall c :: 0 <= c < k ==> Slot(f, m[c], c, n)
  }

  ghost predicate Slot<F(!new)>(f: Field<F>, row: seq<F>, c: nat, n: nat)
  {
    row != [] ==>
      && c < |row| == n
      && row[c] == f.one
      && forall j :: 0 <= j < c ==> row[j] == f.zero
  }

  /** The row after it has been reduced against the slots below r. */
  function Eliminate<F(==)>(f: Field<F>, m: seq<seq<F>>, row: seq<F>, r: nat): (e: seq<F>)
    requires r <= |m| <= |row|
    requires forall c :: 0 <= c < |m| ==> m[c] == [] || |m[c]| == |row|
    ensures |e| == |row|
  {
    if r == 0 then row else
      var p := Eliminate(f, m, row, r - 1);
      if m[r - 1] == [] then p else Axpy(f, p, m[r - 1], p[r - 1])
  }

  /** Reduction clears every filled column it has passed. */
  lemma {:induction false} EliminateClears<F(!new)>(f: Field<F>, m: seq<seq<F>>, row: seq<F>, k: nat, r: nat)
    requires Laws(f) && Echelon(f, m, k, |row|) && r <= k
    ensures forall c :: 0 <= c < r && m[c] != [] ==> Eliminate(f, m, row, r)[c] == f.zero
    decreases r
  {
    if r != 0 {
      EliminateClears(f, m, row, k, r - 1);
      var p := Eliminate(f, m, row, r - 1);
      if m[r - 1] != [] {
        forall c | 0 <= c < r && m[c] != [] ensures Axpy(f, p, m[r - 1], p[r - 1])[c] == f.zero {
          Units(f, p[r - 1]); Units(f, p[c]);
        }
      }
    }
  }

  // ----- the coding-vector part -----

  function Take<F>(row: seq<F>, k: nat): seq<F>
  {
    if k <= |row| then row[..k] else []
  }

  function Left<F>(m: seq<seq<F>>, k: nat): (t: seq<seq<F>>)
    ensures |t| == |m|
  {
    seq(|m|, c requires 0 <= c < |m| => Take(m[c], k))
  }

  lemma {:induction false} EliminateLeft<F(!new)>(f: Field<F>, m: seq<seq<F>>, row: seq<F>, k: nat, r: nat)
    requires Echelon(f, m, k, |row|) && r <= k
    ensures Echelon(f, Left(m, k), k, k)
    ensures Eliminate(f, m, row, r)[..k] == Eliminate(f, Left(m, k), row[..k], r)
    decreases r
  {
    if r != 0 {
      EliminateLeft(f, m, row, k, r - 1);
      var p := Eliminate(f, m, row, r - 1);
      if m[r - 1] != [] { AxpySplit(f, p, m[r - 1], p[r - 1], k); }
    }
  }

  /** The stored vectors, with a zero vector for an empty slot. */
  function Vectors<F(==)>(f: Field<F>, t: seq<seq<F>>, k: nat): (vs: seq<seq<F>>)
    ensures |vs| == |t|
  {
    seq(|t|, c requires 0 <= c < |t| => if t[c] == [] then Zeros(f, k) else t[c])
  }

  lemma VectorsRectangular<F(!new)>(f: Field<F>, t: seq<seq<F>>, k: nat)
    requires Echelon(f, t, k, k)
    ensures Rectangular(Vectors(f, t, k), k)
  {
  }

  /** Reducing a vector moves it by a combination of stored vectors, in both directions. */
  lemma {:induction false} EliminateSpan<F(!new)>(f: Field<F>, t: seq<seq<F>>, v: seq<F>, k: nat, r: nat,
                                                 ws: seq<seq<F>>)
    requires Laws(f) && Echelon(f, t, k, k) && |v| == k && r <= k
    requires Rectangular(ws, k) && SpannedBy(f, Vectors(f, t, k), ws, k)
    ensures InSpan(f, v, ws, k) <==> InSpan(f, Eliminate(f, t, v, r), ws, k)
    decreases r
  {
    if r != 0 {
      EliminateSpan(f, t, v, k, r - 1, ws);
      var p := Eliminate(f, t, v, r - 1);
      if t[r - 1] != [] {
        var w, c := t[r - 1], p[r - 1];
        assert Vectors(f, t, k)[r - 1] == w;
        AxpyTwice(f, p, w, c);
        if InSpan(f, p, ws, k) { SpanAxpy(f, p, w, c, ws, k); }
        var q := Axpy(f, p, w, c);
        if InSpan(f, q, ws, k) { SpanAxpy(f, q, w, c, ws, k); }
      }
    }
  }

  /** Triangularity: a combination that vanishes at every filled column uses no stored row. */
  lemma {:induction false} CoefficientsVanish<F(!new)>(f: Field<F>, t: seq<seq<F>>, cs: seq<F>, k: nat, r: nat)
    requires Laws(f) && Echelon(f, t, k, k) && |cs| == k && r <= k
    requires Rectangular(Vectors(f, t, k), k)
    requires forall c :: 0 <= c < k && t[c] != [] ==> LinComb(f, cs, Vectors(f, t, k), k)[c] == f.zero
    ensures forall c :: 0 <= c < r && t[c] != [] ==> cs[c] == f.zero
    decreases r
  {
    if r != 0 {
      var c, vs := r - 1, Vectors(f, t, k);
      CoefficientsVanish(f, t, cs, k, c);
      if t[c] != [] {
        forall j | 0 <= j < k && j != c ensures f.mul(cs[j], vs[j][c]) == f.zero {
          Units(f, cs[j]); Units(f, vs[j][c]);
        }
        LinCombSingle(f, cs, vs, k, c, c);
        Units(f, cs[c]);
      }
    }
  }

  lemma SpanAwayFromPivots<F(!new)>(f: Field<F>, t: seq<seq<F>>, v: seq<F>, k: nat)
    requires Laws(f) && Echelon(f, t, k, k) && Rectangular(Vectors(f, t, k), k)
    requires |v| == k && InSpan(f, v, Vectors(f, t, k), k)
    requires forall c :: 0 <= c < k && t[c] != [] ==> v[c] == f.zero
    ensures v == Zeros(f, k)
  {
    var vs := Vectors(f, t, k);
    var cs :| |cs| == |vs| && LinComb(f, cs, vs, k) == v;
    CoefficientsVanish(f, t, cs, k, k);
    LinCombNone(f, cs, vs, k);
  }

  /** A vector is dependent on the stored ones exactly when reduction leaves nothing. */
  lemma DependentIffZero<F(!new)>(f: Field<F>, t: seq<seq<F>>, v: seq<F>, k: nat)
    requires Laws(f) && Echelon(f, t, k, k) && |v| == k && Rectangular(Vectors(f, t, k), k)
    ensures InSpan(f, v, Vectors(f, t, k), k) <==> Eliminate(f, t, v, k) == Zeros(f, k)
  {
    var vs := Vectors(f, t, k);
    var e := Eliminate(f, t, v, k);
    forall i | 0 <= i < |vs| ensures InSpan(f, vs[i], vs, k) { SpanMember(f, vs, k, i); }
    EliminateSpan(f, t, v, k, k, vs);
    EliminateClears(f, t, v, k, k);
    if InSpan(f, e, vs, k) { SpanAwayFromPivots(f, t, e, k); }
    SpanZero(f, vs, k);
  }

  /** The stored rows are linearly independent. */
  lemma StoredRowsIndependent<F(!new)>(f: Field<F>, t: seq<seq<F>>, cs: seq<F>, k: nat)
    requires Laws(f) && Echelon(f, t, k, k) && |cs| == k && Rectangular(Vectors(f, t, k), k)
    requires LinComb(f, cs, Vectors(f, t, k), k) == Zeros(f, k)
    ensures forall c :: 0 <= c < k && t[c] != [] ==> cs[c] == f.zero
  {
    CoefficientsVanish(f, t, cs, k, k);
  }

  // ----- storing a reduced row -----

  function Scale<F>(f: Field<F>, v: seq<F>, c: F): (r: seq<F>)
    ensures |r| == |v|
  {
    Axpy(f, Zeros(f, |v|), v, c)
  }

  lemma ScaleAt<F(!new)>(f: Field<F>, v: seq<F>, c: F, i: nat)
    requires Laws(f) && i < |v|
    ensures Scale(f, v, c)[i] == f.mul(c, v[i])
  {
    Units(f, f.mul(c, v[i]));
  }

  lemma ScaleBack<F(!new)>(f: Field<F>, v: seq<F>, c: F, d: F)
    requires Laws(f) && f.mul(c, d) == f.one
    ensures Scale(f, Scale(f, v, c), d) == v
  {
    forall i | 0 <= i < |v| ensures Scale(f, Scale(f, v, c), d)[i] == v[i] {
      ScaleAt(f, v, c, i);
      ScaleAt(f, Scale(f, v, c), d, i);
      Assoc(f, d, c, v[i]);
      Comm(f, c, d);
      Units(f, v[i]);
    }
  }

  ghost predicate IsPivot<F(!new)>(f: Field<F>, e: seq<F>, col: nat, k: nat)
  {
    && col < k <= |e|
    && e[col] != f.zero
    && forall j :: 0 <= j < col ==> e[j] == f.zero
  }

  /** The first non-zero column of a reduced row is an empty slot, and the scaled row fits it. */
  lemma StoreEchelon<F(!new)>(f: Field<F>, m: seq<seq<F>>, row: seq<F>, k: nat, col: nat, inv: F)
    requires Laws(f) && Echelon(f, m, k, |row|)
    requires IsPivot(f, Eliminate(f, m, row, k), col, k)
    requires f.mul(inv, Eliminate(f, m, row, k)[col]) == f.one
    ensures m[col] == []
    ensures Echelon(f, m[col := Scale(f, Eliminate(f, m, row, k), inv)], k, |row|)
  {
    var e := Eliminate(f, m, row, k);
    EliminateClears(f, m, row, k, k);
    ScaleAt(f, e, inv, col);
    forall j | 0 <= j < col ensures Scale(f, e, inv)[j] == f.zero {
      ScaleAt(f, e, inv, j);
      Units(f, inv);
    }
  }

  // ----- the stored vectors span what was offered -----

  ghost predicate SameSpan<F(!new)>(f: Field<F>, vs: seq<seq<F>>, ws: seq<seq<F>>, k: nat)
    requires Rectangular(vs, k) && Rectangular(ws, k)
  {
    SpannedBy(f, vs, ws, k) && SpannedBy(f, ws, vs, k)
  }

  lemma ExtendSpanned<F(!new)>(f: Field<F>, vs: seq<seq<F>>, ws: seq<seq<F>>, w: seq<F>, k: nat)
    requires Laws(f) && Rectangular(vs, k) && Rectangular(ws, k) && |w| == k && SpannedBy(f, vs, ws, k)
    ensures SpannedBy(f, vs, ws + [w], k)
  {
    forall i | 0 <= i < |vs| ensures InSpan(f, vs[i], ws + [w], k) { SpanExtend(f, vs[i], ws, w, k); }
  }

  lemma DependentKeepsSpan<F(!new)>(f: Field<F>, vs: seq<seq<F>>, offered: seq<seq<F>>, v: seq<F>, k: nat)
    requires Laws(f) && Rectangular(vs, k) && Rectangular(offered, k) && |v| == k
    requires SameSpan(f, vs, offered, k) && InSpan(f, v, vs, k)
    ensures SameSpan(f, vs, offered + [v], k)
  {
    ExtendSpanned(f, vs, offered, v, k);
  }

  /** t' is t with the scaled remainder of v stored in the empty slot col. */
  ghost predicate Stored<F(!new)>(f: Field<F>, t: seq<seq<F>>, v: seq<F>, k: nat, col: nat, inv: F, t': seq<seq<F>>)
  {
    && Echelon(f, t, k, k) && Echelon(f, t', k, k) && |v| == k && col < k && t[col] == []
    && t' == t[col := Scale(f, Eliminate(f, t, v, k), inv)]
    && f.mul(inv, Eliminate(f, t, v, k)[col]) == f.one
    && Rectangular(Vectors(f, t, k), k) && Rectangular(Vectors(f, t', k), k)
  }

  lemma StoredSpanned<F(!new)>(f: Field<F>, t: seq<seq<F>>, offered: seq<seq<F>>, v: seq<F>, k: nat,
                               col: nat, inv: F, t': seq<seq<F>>)
    requires Laws(f) && Stored(f, t, v, k, col, inv, t') && Rectangular(offered, k)
    requires SpannedBy(f, Vectors(f, t, k), offered, k)
    ensures SpannedBy(f, Vectors(f, t', k), offered + [v], k)
  {
    var vs, vs', os := Vectors(f, t, k), Vectors(f, t', k), offered + [v];
    var e := Eliminate(f, t, v, k);
    ExtendSpanned(f, vs, offered, v, k);
    SpanMember(f, os, k, |offered|);
    EliminateSpan(f, t, v, k, k, os);
    SpanZero(f, os, k);
    SpanAxpy(f, Zeros(f, k), e, inv, os, k);
    forall i | 0 <= i < |vs'| ensures InSpan(f, vs'[i], os, k) {
      if i != col { assert vs'[i] == vs[i]; }
    }
  }

  lemma ReplaceZero<F(!new)>(f: Field<F>, vs: seq<seq<F>>, ws: seq<seq<F>>, k: nat, col: nat)
    requires Laws(f) && |vs| == |ws| && Rectangular(ws, k) && col < |vs| && vs[col] == Zeros(f, k)
    requires forall i :: 0 <= i < |vs| && i != col ==> vs[i] == ws[i]
    ensures SpannedBy(f, vs, ws, k)
  {
    SpanZero(f, ws, k);
    forall i | 0 <= i < |vs| ensures InSpan(f, vs[i], ws, k) {
      if i != col { SpanMember(f, ws, k, i); }
    }
  }

  lemma StoredKeepsOld<F(!new)>(f: Field<F>, t: seq<seq<F>>, v: seq<F>, k: nat, col: nat, inv: F, t': seq<seq<F>>)
    requires Laws(f) && Stored(f, t, v, k, col, inv, t')
    ensures SpannedBy(f, Vectors(f, t, k), Vectors(f, t', k), k)
  {
    ReplaceZero(f, Vectors(f, t, k), Vectors(f, t', k), k, col);
  }

  lemma SpannedTransitive<F(!new)>(f: Field<F>, us: seq<seq<F>>, vs: seq<seq<F>>, ws: seq<seq<F>>, k: nat)
    requires Laws(f) && Rectangular(vs, k) && Rectangular(ws, k)
    requires SpannedBy(f, us, vs, k) && SpannedBy(f, vs, ws, k)
    ensures SpannedBy(f, us, ws, k)
  {
    forall i | 0 <= i < |us| ensures InSpan(f, us[i], ws, k) { SpanTransitive(f, us[i], vs, ws, k); }
  }

  lemma StoredReachesNew<F(!new)>(f: Field<F>, t: seq<seq<F>>, v: seq<F>, k: nat, col: nat, inv: F, t': seq<seq<F>>)
    requires Laws(f) && Stored(f, t, v, k, col, inv, t')
    ensures InSpan(f, v, Vectors(f, t', k), k)
  {
    var vs', e := Vectors(f, t', k), Eliminate(f, t, v, k);
    StoredKeepsOld(f, t, v, k, col, inv, t');
    ScaleBack(f, e, inv, e[col]);
    SpanMember(f, vs', k, col);
    SpanZero(f, vs', k);
    SpanAxpy(f, Zeros(f, k), vs'[col], e[col], vs', k);
    EliminateSpan(f, t, v, k, k, vs');
  }

  lemma SpannedAppend<F(!new)>(f: Field<F>, us: seq<seq<F>>, u: seq<F>, ws: seq<seq<F>>, k: nat)
    requires Rectangular(ws, k) && SpannedBy(f, us, ws, k) && InSpan(f, u, ws, k)
    ensures SpannedBy(f, us + [u], ws, k)
  {
  }

  /** Storing the scaled remainder of v adds exactly v to the span. */
  lemma StoreSpan<F(!new)>(f: Field<F>, t: seq<seq<F>>, offered: seq<seq<F>>, v: seq<F>, k: nat,
                           col: nat, inv: F, t': seq<seq<F>>)
    requires Laws(f) && Stored(f, t, v, k, col, inv, t') && Rectangular(offered, k)
    requires SameSpan(f, Vectors(f, t, k), offered, k)
    ensures SameSpan(f, Vectors(f, t', k), offered + [v], k)
  {
    StoredSpanned(f, t, offered, v, k, col, inv, t');
    StoredKeepsOld(f, t, v, k, col, inv, t');
    StoredReachesNew(f, t, v, k, col, inv, t');
    var vs, vs' := Vectors(f, t, k), Vectors(f, t', k);
    SpannedTransitive(f, offered, vs, vs', k);
    SpannedAppend(f, offered, v, vs', k);
  }

  // ----- rank -----

  function Filled<F(==)>(m: seq<seq<F>>): (r: nat)
    ensures r <= |m|
  {
    if |m| == 0 then 0 else (if m[|m| - 1] == [] then 0 else 1) + Filled(m[..|m| - 1])
  }

  lemma {:induction false} FilledStore<F>(m: seq<seq<F>>, c: nat, row: seq<F>)
    requires c < |m| && m[c] == [] && row != []
    ensures Filled(m[c := row]) == Filled(m) + 1
    decreases |m|
  {
    var l := |m| - 1;
    if c == l {
      assert m[c := row][..l] == m[..l];
    } else {
      FilledStore(m[..l], c, row);
      assert m[c := row][..l] == m[..l][c := row];
    }
  }

  lemma {:induction false} FilledAll<F>(m: seq<seq<F>>)
    ensures Filled(m) == |m| <==> forall c :: 0 <= c < |m| ==> m[c] != []
  {
    if |m| != 0 {
      var l := |m| - 1;
      FilledAll(m[..l]);
      assert forall c :: 0 <= c < l ==> m[..l][c] == m[c];
    }
  }

  lemma {:induction false} FilledNone<F>(m: seq<seq<F>>)
    requires forall c :: 0 <= c < |m| ==> m[c] == []
    ensures Filled(m) == 0
  {
    if |m| != 0 { FilledNone(m[..|m| - 1]); }
  }

  /** With every slot filled, every vector is in the span. */
  lemma FullRankSpansAll<F(!new)>(f: Field<F>, t: seq<seq<F>>, v: seq<F>, k: nat)
    requires Laws(f) && Echelon(f, t, k, k) && |v| == k && Rectangular(Vectors(f, t, k), k)
    requires forall c :: 0 <= c < k ==> t[c] != []
    ensures InSpan(f, v, Vectors(f, t, k), k)
  {
    EliminateClears(f, t, v, k, k);
    assert Eliminate(f, t, v, k) == Zeros(f, k);
    DependentIffZero(f, t, v, k);
  }

  lemma {:induction false} EliminateUnit<F(!new)>(f: Field<F>, t: seq<seq<F>>, k: nat, c: nat, r: nat)
    requires Laws(f) && Echelon(f, t, k, k) && c < k && t[c] == [] && r <= k
    ensures Eliminate(f, t, Unit(f, k, c), r) == Unit(f, k, c)
    decreases r
  {
    if r != 0 {
      EliminateUnit(f, t, k, c, r - 1);
      if t[r - 1] != [] { AxpyZeroCoeff(f, Unit(f, k, c), t[r - 1]); }
    }
  }

  /** An empty slot leaves its unit vector outside the span. */
  lemma EmptySlotMisses<F(!new)>(f: Field<F>, t: seq<seq<F>>, k: nat, c: nat)
    requires Laws(f) && f.one != f.zero && Echelon(f, t, k, k) && Rectangular(Vectors(f, t, k), k)
    requires c < k && t[c] == []
    ensures !InSpan(f, Unit(f, k, c), Vectors(f, t, k), k)
  {
    EliminateUnit(f, t, k, c, k);
    DependentIffZero(f, t, Unit(f, k, c), k);
    assert Unit(f, k, c)[c] != Zeros(f, k)[c];
  }

  // ----- rows as equations about the source pieces -----

  /** The data part of the row is the combination of the sources that its vector part says. */
  ghost predicate Truthful<F(!new)>(f: Field<F>, row: seq<F>, src: seq<seq<F>>, k: nat, size: nat)
    requires |src| == k && Rectangular(src, size)
  {
    |row| == k + size && row[k..] == LinComb(f, row[..k], src, size)
  }

  lemma TruthfulAxpy<F(!new)>(f: Field<F>, u: seq<F>, v: seq<F>, c: F, src: seq<seq<F>>, k: nat, size: nat)
    requires Laws(f) && |src| == k && Rectangular(src, size) && |u| == |v| == k + size
    requires Truthful(f, v, src, k, size)
    ensures Truthful(f, u, src, k, size) <==> Truthful(f, Axpy(f, u, v, c), src, k, size)
  {
    if Truthful(f, u, src, k, size) {
      TruthfulAxpyOnce(f, u, v, c, src, k, size);
    }
    if Truthful(f, Axpy(f, u, v, c), src, k, size) {
      TruthfulAxpyOnce(f, Axpy(f, u, v, c), v, c, src, k, size);
      AxpyTwice(f, u, v, c);
    }
  }

  lemma TruthfulAxpyOnce<F(!new)>(f: Field<F>, u: seq<F>, v: seq<F>, c: F, src: seq<seq<F>>, k: nat, size: nat)
    requires Laws(f) && |src| == k && Rectangular(src, size)
    requires Truthful(f, u, src, k, size) && Truthful(f, v, src, k, size)
    ensures Truthful(f, Axpy(f, u, v, c), src, k, size)
  {
    AxpySplit(f, u, v, c, k);
    LinCombAxpy(f, u[..k], v[..k], c, src, size);
  }

  lemma TruthfulScale<F(!new)>(f: Field<F>, v: seq<F>, c: F, d: F, src: seq<seq<F>>, k: nat, size: nat)
    requires Laws(f) && |src| == k && Rectangular(src, size) && |v| == k + size && f.mul(c, d) == f.one
    ensures Truthful(f, v, src, k, size) <==> Truthful(f, Scale(f, v, c), src, k, size)
  {
    var z := Zeros(f, k + size);
    TruthfulZeros(f, src, k, size);
    if Truthful(f, v, src, k, size) {
      TruthfulAxpyOnce(f, z, v, c, src, k, size);
    }
    if Truthful(f, Scale(f, v, c), src, k, size) {
      TruthfulAxpyOnce(f, z, Scale(f, v, c), d, src, k, size);
      ScaleBack(f, v, c, d);
    }
  }

  lemma TruthfulZeros<F(!new)>(f: Field<F>, src: seq<seq<F>>, k: nat, size: nat)
    requires Laws(f) && |src| == k && Rectangular(src, size)
    ensures Truthful(f, Zeros(f, k + size), src, k, size)
  {
    var z := Zeros(f, k + size);
    assert z[..k] == Zeros(f, k) && z[k..] == Zeros(f, size);
    LinCombNone(f, Zeros(f, k), src, size);
  }

  /** Any combination of truthful rows is truthful. */
  lemma {:induction false} TruthfulLinComb<F(!new)>(f: Field<F>, cs: seq<F>, rows: seq<seq<F>>, src: seq<seq<F>>,
                                                   k: nat, size: nat)
    requires Laws(f) && |src| == k && Rectangular(src, size) && |cs| == |rows| && Rectangular(rows, k + size)
    requires forall i :: 0 <= i < |rows| ==> Truthful(f, rows[i], src, k, size)
    ensures Truthful(f, LinComb(f, cs, rows, k + size), src, k, size)
    decreases |cs|
  {
    if |cs| == 0 {
      TruthfulZeros(f, src, k, size);
    } else {
      var m := |cs| - 1;
      TruthfulLinComb(f, cs[..m], rows[..m], src, k, size);
      TruthfulAxpyOnce(f, LinComb(f, cs[..m], rows[..m], k + size), rows[m], cs[m], src, k, size);
    }
  }

  /** The same, on vectors and data combined separately. */
  lemma TruthfulParts<F(!new)>(f: Field<F>, cs: seq<F>, us: seq<seq<F>>, vs: seq<seq<F>>, rows: seq<seq<F>>,
                               src: seq<seq<F>>, k: nat, size: nat)
    requires Laws(f) && |src| == k && Rectangular(src, size) && |cs| == |us| == |vs|
    requires Rectangular(us, k) && Rectangular(vs, size) && rows == Joined(us, vs)
    requires forall i :: 0 <= i < |rows| ==> Truthful(f, rows[i], src, k, size)
    ensures LinComb(f, cs, vs, size) == LinComb(f, LinComb(f, cs, us, k), src, size)
  {
    LinCombJoin(f, cs, us, vs, k, size);
    TruthfulLinComb(f, cs, rows, src, k, size);
    var cv, data := LinComb(f, cs, us, k), LinComb(f, cs, vs, size);
    assert (cv + data)[..k] == cv && (cv + data)[k..] == data;
  }

  /** Every stored row is truthful about the sources. */
  ghost predicate Explains<F(!new)>(f: Field<F>, m: seq<seq<F>>, src: seq<seq<F>>, size: nat)
    requires |src| == |m| && Rectangular(src, size)
  {
    forall c :: 0 <= c < |m| && m[c] != [] ==> Truthful(f, m[c], src, |m|, size)
  }

  lemma {:induction false} EliminateTruthful<F(!new)>(f: Field<F>, m: seq<seq<F>>, row: seq<F>, src: seq<seq<F>>,
                                                     size: nat, r: nat)
    requires Laws(f) && |src| == |m| && Rectangular(src, size) && |row| == |m| + size && r <= |m|
    requires Echelon(f, m, |m|, |row|) && Explains(f, m, src, size)
    ensures Truthful(f, row, src, |m|, size) <==> Truthful(f, Eliminate(f, m, row, r), src, |m|, size)
    decreases r
  {
    if r != 0 {
      EliminateTruthful(f, m, row, src, size, r - 1);
      var p := Eliminate(f, m, row, r - 1);
      if m[r - 1] != [] { TruthfulAxpy(f, p, m[r - 1], p[r - 1], src, |m|, size); }
    }
  }

  // ----- one step of the decoder -----

  /** The stored vectors span exactly the vectors offered so far. */
  ghost predicate Spans<F(!new)>(f: Field<F>, m: seq<seq<F>>, offered: seq<seq<F>>, k: nat)
  {
    var vs := Vectors(f, Left(m, k), k);
    Rectangular(vs, k) && Rectangular(offered, k) && SameSpan(f, vs, offered, k)
  }

  lemma SameSpanMember<F(!new)>(f: Field<F>, v: seq<F>, vs: seq<seq<F>>, ws: seq<seq<F>>, k: nat)
    requires Laws(f) && Rectangular(vs, k) && Rectangular(ws, k) && SameSpan(f, vs, ws, k)
    ensures InSpan(f, v, vs, k) <==> InSpan(f, v, ws, k)
  {
    if InSpan(f, v, vs, k) { SpanTransitive(f, v, vs, ws, k); }
    if InSpan(f, v, ws, k) { SpanTransitive(f, v, ws, vs, k); }
  }

  lemma AddDependent<F(!new)>(f: Field<F>, m: seq<seq<F>>, offered: seq<seq<F>>, row: seq<F>, k: nat)
    requires Laws(f) && Echelon(f, m, k, |row|) && Spans(f, m, offered, k)
    requires Eliminate(f, m, row, k)[..k] == Zeros(f, k)
    ensures InSpan(f, row[..k], offered, k) && Spans(f, m, offered + [row[..k]], k)
  {
    var t := Left(m, k);
    EliminateLeft(f, m, row, k, k);
    DependentIffZero(f, t, row[..k], k);
    SameSpanMember(f, row[..k], Vectors(f, t, k), offered, k);
    DependentKeepsSpan(f, Vectors(f, t, k), offered, row[..k], k);
  }

  lemma ScaleTake<F>(f: Field<F>, e: seq<F>, inv: F, k: nat)
    requires k <= |e|
    ensures Scale(f, e, inv)[..k] == Scale(f, e[..k], inv)
  {
  }

  /** Storing a row and then taking the vector parts is storing the vector part. */
  lemma StoreLeft<F(!new)>(f: Field<F>, m: seq<seq<F>>, row: seq<F>, k: nat, col: nat, inv: F, m': seq<seq<F>>)
    requires Laws(f) && Echelon(f, m, k, |row|) && Echelon(f, m', k, |row|) && col < k && m[col] == []
    requires m' == m[col := Scale(f, Eliminate(f, m, row, k), inv)]
    requires f.mul(inv, Eliminate(f, m, row, k)[col]) == f.one
    ensures Stored(f, Left(m, k), row[..k], k, col, inv, Left(m', k))
  {
    var t, t', e := Left(m, k), Left(m', k), Eliminate(f, m, row, k);
    EliminateLeft(f, m, row, k, k);
    EliminateLeft(f, m', row, k, k);
    ScaleTake(f, e, inv, k);
    assert t' == t[col := Scale(f, Eliminate(f, t, row[..k], k), inv)];
  }

  lemma PivotOutsideSpan<F(!new)>(f: Field<F>, m: seq<seq<F>>, offered: seq<seq<F>>, row: seq<F>, k: nat, col: nat)
    requires Laws(f) && Echelon(f, m, k, |row|) && Spans(f, m, offered, k)
    requires IsPivot(f, Eliminate(f, m, row, k), col, k)
    ensures !InSpan(f, row[..k], offered, k)
  {
    var v, e := row[..k], Eliminate(f, m, row, k);
    SameSpanMember(f, v, Vectors(f, Left(m, k), k), offered, k);
    assert e[col] == e[..k][col];
    if InSpan(f, v, offered, k) {
      EliminateLeft(f, m, row, k, k);
      DependentIffZero(f, Left(m, k), v, k);
    }
  }

  lemma AddIndependent<F(!new)>(f: Field<F>, m: seq<seq<F>>, offered: seq<seq<F>>, row: seq<F>, k: nat,
                                col: nat, inv: F, m': seq<seq<F>>)
    requires Laws(f) && Echelon(f, m, k, |row|) && Spans(f, m, offered, k)
    requires IsPivot(f, Eliminate(f, m, row, k), col, k)
    requires f.mul(inv, Eliminate(f, m, row, k)[col]) == f.one
    requires m' == m[col := Scale(f, Eliminate(f, m, row, k), inv)]
    ensures m[col] == [] && Echelon(f, m', k, |row|) && Filled(m') == Filled(m) + 1
    ensures !InSpan(f, row[..k], offered, k) && Spans(f, m', offered + [row[..k]], k)
  {
    StoreEchelon(f, m, row, k, col, inv);
    FilledStore(m, col, Scale(f, Eliminate(f, m, row, k), inv));
    PivotOutsideSpan(f, m, offered, row, k, col);
    StoreLeft(f, m, row, k, col, inv, m');
    StoreSpan(f, Left(m, k), offered, row[..k], k, col, inv, Left(m', k));
  }

  /** What a stored remainder says about the sources is what the offered row said. */
  lemma AddExplains<F(!new)>(f: Field<F>, m: seq<seq<F>>, row: seq<F>, src: seq<seq<F>>, size: nat, col: nat, inv: F,
                             piv: F)
    requires Laws(f) && |src| == |m| && Rectangular(src, size) && |row| == |m| + size && col < |m| && m[col] == []
    requires Echelon(f, m, |m|, |row|) && f.mul(inv, piv) == f.one
    ensures Explains(f, m[col := Scale(f, Eliminate(f, m, row, |m|), inv)], src, size)
       <==> Explains(f, m, src, size) && Truthful(f, row, src, |m|, size)
  {
    var e := Eliminate(f, m, row, |m|);
    var m' := m[col := Scale(f, e, inv)];
    TruthfulScale(f, e, inv, piv, src, |m|, size);
    if Explains(f, m, src, size) {
      EliminateTruthful(f, m, row, src, size, |m|);
    }
    if Explains(f, m', src, size) {
      forall c | 0 <= c < |m| && m[c] != [] ensures Truthful(f, m[c], src, |m|, size) { assert m'[c] == m[c]; }
      EliminateTruthful(f, m, row, src, size, |m|);
      assert m'[col] != [];
    }
  }

  /** The decoder's fields agree with each other and with the vectors offered so far. */
  ghost predicate Consistent<F(!new)>(f: Field<F>, m: seq<seq<F>>, pivotCol: seq<Option<nat>>, rank: nat,
                                      offered: seq<seq<F>>, k: nat, n: nat)
  {
    && Echelon(f, m, k, n)
    && |pivotCol| == k
    && (forall c :: 0 <= c < k ==> pivotCol[c] == if m[c] == [] then None else Some(c))
    && rank == Filled(m)
    && Spans(f, m, offered, k)
  }

  ghost predicate Solves<F(!new)>(f: Field<F>, m: seq<seq<F>>, src: seq<seq<F>>, k: nat, size: nat)
  {
    |src| == |m| == k && Rectangular(src, size) && Explains(f, m, src, size)
  }

  lemma StartConsistent<F(!new)>(f: Field<F>, m: seq<seq<F>>, pivotCol: seq<Option<nat>>, k: nat, n: nat)
    requires Laws(f) && m == seq(k, _ => []) && pivotCol == seq(k, _ => None) && k <= n
    ensures Consistent(f, m, pivotCol, 0, [], k, n)
  {
    FilledNone(m);
    SpanZero(f, [], k);
  }

  lemma KeepRow<F(!new)>(f: Field<F>, m: seq<seq<F>>, pivotCol: seq<Option<nat>>, rank: nat, offered: seq<seq<F>>,
                         k: nat, bytes: seq<F>, e: seq<F>, col: nat, inv: F, m': seq<seq<F>>)
    requires Laws(f) && Consistent(f, m, pivotCol, rank, offered, k, |bytes|)
    requires e == Eliminate(f, m, bytes, k) && IsPivot(f, e, col, k) && f.mul(inv, e[col]) == f.one
    requires m' == m[col := Scale(f, e, inv)]
    ensures m[col] == []
    ensures Consistent(f, m', pivotCol[col := Some(col)], rank + 1, offered + [bytes[..k]], k, |bytes|)
    ensures !InSpan(f, bytes[..k], offered, k)
  {
    AddIndependent(f, m, offered, bytes, k, col, inv, m');
    PivotStored(m, pivotCol, col, Scale(f, e, inv));
  }

  lemma PivotStored<F>(m: seq<seq<F>>, pivotCol: seq<Option<nat>>, col: nat, row: seq<F>)
    requires |m| == |pivotCol| && col < |m| && row != []
    requires forall c :: 0 <= c < |m| ==> pivotCol[c] == if m[c] == [] then None else Some(c)
    ensures forall c :: 0 <= c < |m| ==>
              pivotCol[col := Some(col)][c] == if m[col := row][c] == [] then None else Some(c)
  {
  }

  lemma KeepEquation<F(!new)>(f: Field<F>, m: seq<seq<F>>, k: nat, size: nat, bytes: seq<F>, e: seq<F>, col: nat,
                              inv: F, m': seq<seq<F>>)
    requires Laws(f) && Echelon(f, m, k, k + size) && |bytes| == k + size && col < k && m[col] == []
    requires e == Eliminate(f, m, bytes, k) && f.mul(inv, e[col]) == f.one
    requires m' == m[col := Scale(f, e, inv)]
    ensures forall src :: Solves(f, m', src, k, size) <==>
                            Solves(f, m, src, k, size) && Truthful(f, bytes, src, k, size)
  {
    forall src
      ensures Solves(f, m', src, k, size) <==> Solves(f, m, src, k, size) && Truthful(f, bytes, src, k, size)
    {
      if |src| == k && Rectangular(src, size) { AddExplains(f, m, bytes, src, size, col, inv, e[col]); }
    }
  }

  /** Both effects of keeping a row, on the decoder's state and on its equations. */
  lemma Keep<F(!new)>(f: Field<F>, m: seq<seq<F>>, pivotCol: seq<Option<nat>>, rank: nat, offered: seq<seq<F>>,
                      k: nat, size: nat, bytes: seq<F>, e: seq<F>, col: nat, inv: F, row: seq<F>)
    requires Laws(f) && |bytes| == k + size && Consistent(f, m, pivotCol, rank, offered, k, k + size)
    requires e == Eliminate(f, m, bytes, k) && IsPivot(f, e, col, k) && f.mul(inv, e[col]) == f.one
    requires row == Scale(f, e, inv)
    ensures Consistent(f, m[col := row], pivotCol[col := Some(col)], rank + 1, offered + [bytes[..k]], k, k + size)
    ensures !InSpan(f, bytes[..k], offered, k)
    ensures forall src :: Solves(f, m[col := row], src, k, size) <==>
                            Solves(f, m, src, k, size) && Truthful(f, bytes, src, k, size)
  {
    KeepRow(f, m, pivotCol, rank, offered, k, bytes, e, col, inv, m[col := row]);
    KeepEquation(f, m, k, size, bytes, e, col, inv, m[col := row]);
  }

  lemma DropRow<F(!new)>(f: Field<F>, m: seq<seq<F>>, pivotCol: seq<Option<nat>>, rank: nat, offered: seq<seq<F>>,
                         k: nat, bytes: seq<F>)
    requires Laws(f) && Consistent(f, m, pivotCol, rank, offered, k, |bytes|)
    requires Eliminate(f, m, bytes, k)[..k] == Zeros(f, k)
    ensures Consistent(f, m, pivotCol, rank, offered + [bytes[..k]], k, |bytes|)
    ensures InSpan(f, bytes[..k], offered, k)
  {
    AddDependent(f, m, offered, bytes, k);
  }

  // ----- rank and what can be decoded -----

  ghost predicate SpansEverything<F(!new)>(f: Field<F>, offered: seq<seq<F>>, k: nat)
    requires Rectangular(offered, k)
  {
    forall v: seq<F> :: |v| == k ==> InSpan(f, v, offered, k)
  }

  lemma SpansMore<F(!new)>(f: Field<F>, vs: seq<seq<F>>, ws: seq<seq<F>>, k: nat)
    requires Laws(f) && Rectangular(vs, k) && Rectangular(ws, k) && vs <= ws && SpansEverything(f, vs, k)
    ensures SpansEverything(f, ws, k)
  {
    forall i | 0 <= i < |vs| ensures InSpan(f, vs[i], ws, k) { SpanMember(f, ws, k, i); }
    forall v: seq<F> | |v| == k ensures InSpan(f, v, ws, k) { SpanTransitive(f, v, vs, ws, k); }
  }

  /** The rank is full exactly when the offered vectors span the whole space. */
  lemma FullRankIff<F(!new)>(f: Field<F>, m: seq<seq<F>>, offered: seq<seq<F>>, k: nat, n: nat)
    requires Laws(f) && f.one != f.zero && Echelon(f, m, k, n) && Spans(f, m, offered, k)
    ensures Filled(m) == k <==> SpansEverything(f, offered, k)
  {
    var t := Left(m, k);
    var vs := Vectors(f, t, k);
    FilledAll(m);
    EliminateLeft(f, m, Zeros(f, n), k, k);
    if Filled(m) == k {
      forall v: seq<F> | |v| == k ensures InSpan(f, v, offered, k) {
        FullRankSpansAll(f, t, v, k);
        SameSpanMember(f, v, vs, offered, k);
      }
    } else {
      var c :| 0 <= c < k && m[c] == [];
      EmptySlotMisses(f, t, k, c);
      SameSpanMember(f, Unit(f, k, c), vs, offered, k);
    }
  }

  // ----- back-substitution -----

  /** Every slot is filled and the columns from `col` on are those of the identity. */
  ghost predicate Reduced<F(!new)>(f: Field<F>, m: seq<seq<F>>, k: nat, n: nat, col: nat)
  {
    && Echelon(f, m, k, n)
    && (forall r :: 0 <= r < k ==> m[r] != [])
    && (forall r, c :: 0 <= r < k && col <= c < k && c != r ==> m[r][c] == f.zero)
  }

  /** Within column `col`, the rows above r are already clear. */
  ghost predicate ReducedTo<F(!new)>(f: Field<F>, m: seq<seq<F>>, k: nat, n: nat, col: nat, r: nat)
  {
    && Reduced(f, m, k, n, col + 1)
    && col < k && r <= col
    && forall q :: 0 <= q < r ==> m[q][col] == f.zero
  }

  function BackStep<F>(f: Field<F>, m: seq<seq<F>>, col: nat, r: nat): seq<seq<F>>
    requires r < |m| && col < |m| && col < |m[r]| == |m[col]|
  {
    m[r := Axpy(f, m[r], m[col], m[r][col])]
  }

  lemma BackStepReduces<F(!new)>(f: Field<F>, m: seq<seq<F>>, k: nat, n: nat, col: nat, r: nat)
    requires Laws(f) && ReducedTo(f, m, k, n, col, r) && r < col
    ensures ReducedTo(f, BackStep(f, m, col, r), k, n, col, r + 1)
  {
    var p, q := m[r], m[col];
    var row := Axpy(f, p, q, p[col]);
    Units(f, p[col]);
    forall c | 0 <= c < k && c != col ensures row[c] == p[c] {
      Units(f, p[c]);
    }
    assert row != [];
  }

  lemma BackStepExplains<F(!new)>(f: Field<F>, m: seq<seq<F>>, n: nat, col: nat, r: nat, src: seq<seq<F>>, size: nat)
    requires Laws(f) && |src| == |m| && Rectangular(src, size) && n == |m| + size
    requires ReducedTo(f, m, |m|, n, col, r) && r < col
    ensures Explains(f, m, src, size) <==> Explains(f, BackStep(f, m, col, r), src, size)
  {
    var m', c := BackStep(f, m, col, r), m[r][col];
    assert m'[col] == m[col];
    if Truthful(f, m[col], src, |m|, size) {
      TruthfulAxpy(f, m[r], m[col], c, src, |m|, size);
    }
    assert forall q :: 0 <= q < |m| && q != r ==> m'[q] == m[q];
    assert m'[r] != [];
  }

  lemma ReducedColumn<F(!new)>(f: Field<F>, m: seq<seq<F>>, k: nat, n: nat, col: nat)
    requires ReducedTo(f, m, k, n, col, col)
    ensures Reduced(f, m, k, n, col)
  {
  }

  /** A fully reduced matrix explains exactly one tuple of sources: its own data parts. */
  lemma ReducedExplains<F(!new)>(f: Field<F>, m: seq<seq<F>>, n: nat, src: seq<seq<F>>, size: nat, d: seq<seq<F>>)
    requires Laws(f) && |src| == |m| == |d| && Rectangular(src, size) && n == |m| + size
    requires Reduced(f, m, |m|, n, 0)
    requires forall r :: 0 <= r < |m| ==> d[r] == m[r][|m|..]
    ensures Explains(f, m, src, size) <==> src == d
  {
    forall r | 0 <= r < |m| ensures Truthful(f, m[r], src, |m|, size) <==> d[r] == src[r] {
      assert m[r][..|m|] == Unit(f, |m|, r);
      LinCombUnit(f, src, size, r);
    }
  }

  ghost predicate SameSolutions<F(!new)>(f: Field<F>, m: seq<seq<F>>, m': seq<seq<F>>, k: nat, size: nat)
  {
    forall src :: Solves(f, m, src, k, size) <==> Solves(f, m', src, k, size)
  }

  lemma BackStepSame<F(!new)>(f: Field<F>, m0: seq<seq<F>>, m: seq<seq<F>>, k: nat, size: nat, col: nat, r: nat)
    requires Laws(f) && ReducedTo(f, m, k, k + size, col, r) && r < col && SameSolutions(f, m0, m, k, size)
    ensures ReducedTo(f, BackStep(f, m, col, r), k, k + size, col, r + 1)
    ensures SameSolutions(f, m0, BackStep(f, m, col, r), k, size)
  {
    BackStepReduces(f, m, k, k + size, col, r);
    forall src ensures Solves(f, m, src, k, size) <==> Solves(f, BackStep(f, m, col, r), src, k, size) {
      if |src| == k && Rectangular(src, size) { BackStepExplains(f, m, k + size, col, r, src, size); }
    }
  }

  /** The only solution of a reduced system is its own data part. */
  lemma ReducedSolution<F(!new)>(f: Field<F>, m0: seq<seq<F>>, m: seq<seq<F>>, k: nat, size: nat, d: seq<seq<F>>)
    requires Laws(f) && Reduced(f, m, k, k + size, 0) && SameSolutions(f, m0, m, k, size)
    requires |d| == k && forall r :: 0 <= r < k ==> d[r] == m[r][k..]
    ensures forall src :: Solves(f, m0, src, k, size) <==> src == d
  {
    forall src ensures Solves(f, m, src, k, size) <==> src == d {
      if |src| == k && Rectangular(src, size) { ReducedExplains(f, m, k + size, src, size, d); }
    }
  }

  lemma EverythingSpanned<F(!new)>(f: Field<F>, vs: seq<seq<F>>, offered: seq<seq<F>>, k: nat)
    requires Rectangular(vs, k) && Rectangular(offered, k) && SpansEverything(f, offered, k)
    ensures SpannedBy(f, vs, offered, k)
  {
  }

  lemma FilledSpanned<F(!new)>(f: Field<F>, t: seq<seq<F>>, offered: seq<seq<F>>, k: nat)
    requires Laws(f) && Echelon(f, t, k, k) && Rectangular(offered, k) && Rectangular(Vectors(f, t, k), k)
    requires forall c :: 0 <= c < k ==> t[c] != []
    ensures SpannedBy(f, offered, Vectors(f, t, k), k)
  {
    forall i | 0 <= i < |offered| ensures InSpan(f, offered[i], Vectors(f, t, k), k) {
      FullRankSpansAll(f, t, offered[i], k);
    }
  }

  lemma FullRankSpans<F(!new)>(f: Field<F>, m: seq<seq<F>>, offered: seq<seq<F>>, k: nat, n: nat)
    requires Laws(f) && Echelon(f, m, k, n) && Rectangular(offered, k) && SpansEverything(f, offered, k)
    requires forall c :: 0 <= c < k ==> m[c] != []
    ensures Spans(f, m, offered, k)
  {
    var t := Left(m, k);
    EliminateLeft(f, m, Zeros(f, n), k, k);
    VectorsRectangular(f, t, k);
    EverythingSpanned(f, Vectors(f, t, k), offered, k);
    FilledSpanned(f, t, offered, k);
  }

  /** Back-substitution changes neither the slots in use nor, at full rank, the span. */
  lemma ReducedConsistent<F(!new)>(f: Field<F>, m0: seq<seq<F>>, m: seq<seq<F>>, pivotCol: seq<Option<nat>>, rank: nat,
                                   offered: seq<seq<F>>, k: nat, n: nat)
    requires Laws(f) && f.one != f.zero && Consistent(f, m0, pivotCol, rank, offered, k, n) && rank == k
    requires Reduced(f, m, k, n, 0)
    ensures Consistent(f, m, pivotCol, rank, offered, k, n)
  {
    FilledAll(m0);
    FilledAll(m);
    FullRankIff(f, m0, offered, k, n);
    FullRankSpans(f, m, offered, k, n);
  }
}
