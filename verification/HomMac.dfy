/**
 GF(2^8) as an instance of the abstract field.
 */
module OctetField {
  import opened Bytes
  import opened GF256
  import opened LinearAlgebra
  import Tables

  const GF: Field<byte> :=
    Field<byte>.Field(0, 1, (a: byte, b: byte) => Xor(a, b), (a: byte, b: byte) => Mul(a, b))

  lemma PairLaws(a: byte, b: byte)
    ensures GF.add(a, b) == GF.add(b, a) && GF.mul(a, b) == GF.mul(b, a)
    ensures GF.add(a, GF.zero) == a && GF.add(a, a) == GF.zero
    ensures GF.mul(a, GF.zero) == GF.zero && GF.mul(a, GF.one) == a
  {
    XorComm(a, b); MulComm(a, b);
    XorZero(a); XorSelf(a); MulOneRight(a);
  }

  lemma TripleLaws(a: byte, b: byte, c: byte)
    ensures GF.add(GF.add(a, b), c) == GF.add(a, GF.add(b, c))
    ensures GF.mul(GF.mul(a, b), c) == GF.mul(a, GF.mul(b, c))
    ensures GF.mul(a, GF.add(b, c)) == GF.add(GF.mul(a, b), GF.mul(a, c))
  {
    XorAssoc(a, b, c); MulAssoc(a, b, c); MulXorRight(a, b, c);
  }

  lemma OctetLaws()
    ensures Laws(GF)
  {
    forall a: byte, b: byte
      ensures GF.add(a, b) == GF.add(b, a) && GF.mul(a, b) == GF.mul(b, a)
      ensures GF.add(a, GF.zero) == a && GF.add(a, a) == GF.zero
      ensures GF.mul(a, GF.zero) == GF.zero && GF.mul(a, GF.one) == a
    {
      PairLaws(a, b);
    }
    forall a: byte, b: byte, c: byte
      ensures GF.add(GF.add(a, b), c) == GF.add(a, GF.add(b, c))
      ensures GF.mul(GF.mul(a, b), c) == GF.mul(a, GF.mul(b, c))
      ensures GF.mul(a, GF.add(b, c)) == GF.add(GF.mul(a, b), GF.mul(a, c))
    {
      TripleLaws(a, b, c);
    }
  }

  /** The in-place kernel computes the abstract `u + c * v`. */
  lemma MulAddIsAxpy(u: seq<byte>, v: seq<byte>, c: byte)
    requires |u| == |v|
    ensures Tables.MulAdd(u, v, c) == Axpy(GF, u, v, c)
  {
  }
}

/**
 The homomorphic message authentication code: byte j of a tag is the inner
 product of the piece with a key stream.
 */
module HomMac {
  import opened Bytes
  import opened GF256
  import opened LinearAlgebra
  import opened OctetField
  import Tables

  const TAG_SIZE: nat := 32

  /** BLAKE3 seen from outside: a digest, and for each key and index an endless stream. */
  datatype Hashes = Hashes(digest: seq<byte> -> seq<byte>, xof: (seq<byte>, nat, nat) -> byte)

  ghost function Stream(h: Hashes, key: seq<byte>, j: nat, n: nat): (r: seq<byte>)
    ensures |r| == n
  {
    seq<byte>(n, i requires 0 <= i < n => h.xof(key, j, i))
  }

  ghost function Streams(h: Hashes, key: seq<byte>, n: nat): (rs: seq<seq<byte>>)
    ensures |rs| == TAG_SIZE && Rectangular(rs, n)
  {
    seq(TAG_SIZE, j requires 0 <= j < TAG_SIZE => Stream(h, key, j, n))
  }

  /** The tag of a piece, as one flat inner product per tag byte. */
  ghost function Tag(h: Hashes, key: seq<byte>, v: seq<byte>): (t: seq<byte>)
    ensures |t| == TAG_SIZE
  {
    Dots<byte>(GF, Streams(h, key, |v|), v)
  }

  /** The multiplier used for tags: always eight rounds, where the other stops at zero. */
  method GfMulEight(a: byte, b: byte) returns (result: byte)
    ensures result == Mul(a, b)
  {
    result := 0;
    var aa: byte, bb: byte := a, b;
    for i := 0 to 8
      invariant Xor(result, Mul(aa, bb)) == Mul(a, b)
      invariant bb < [256, 128, 64, 32, 16, 8, 4, 2, 1][i]
    {
      Tables.SlowStep(result, aa, bb);
      if bb % 2 != 0 {
        result := Xor(result, aa);
      } else {
        XorZero(result);
      }
      aa := Tables.ShiftReduce(aa);
      bb := bb / 2;
    }
    XorZero(result);
  }

  lemma DotNext(r: seq<byte>, v: seq<byte>, p: nat, acc: byte, product: byte)
    requires |r| == |v| && p < |r|
    requires acc == Dot(GF, r[..p], v[..p]) && product == Mul(r[p], v[p])
    ensures Dot(GF, r[..p + 1], v[..p + 1]) == Xor(acc, product)
  {
    assert r[..p + 1][..p] == r[..p] && v[..p + 1][..p] == v[..p];
  }

  method Fill(h: Hashes, key: seq<byte>, j: nat, pos: nat, buf: array<byte>, len: nat)
    requires len <= buf.Length
    modifies buf
    ensures buf[..len] == seq(len, i requires 0 <= i < len => h.xof(key, j, pos + i))
  {
    for i := 0 to len
      invariant forall q :: 0 <= q < i ==> buf[q] == h.xof(key, j, pos + q)
    {
      buf[i] := h.xof(key, j, pos + i);
    }
  }

  /** The running inner product of the first p bytes. */
  ghost predicate Running(acc: byte, r: seq<byte>, v: seq<byte>, p: nat)
  {
    |r| == |v| && p <= |v| && acc == Dot(GF, r[..p], v[..p])
  }

  method AddProduct(a: byte, b: byte, acc0: byte, ghost p: nat, ghost r: seq<byte>, ghost v: seq<byte>)
    returns (acc: byte)
    requires Running(acc0, r, v, p) && p < |v| && a == r[p] && b == v[p]
    ensures Running(acc, r, v, p + 1)
  {
    var product := GfMulEight(a, b);
    DotNext(r, v, p, acc0, product);
    acc := Xor(acc0, product);
  }

  method AddProducts(coeffs: seq<byte>, chunk: seq<byte>, acc0: byte, ghost pos: nat, ghost r: seq<byte>,
                     ghost v: seq<byte>)
    returns (acc: byte)
    requires |coeffs| == |chunk| && pos + |chunk| <= |v| && Running(acc0, r, v, pos)
    requires forall i :: 0 <= i < |chunk| ==> chunk[i] == v[pos + i] && coeffs[i] == r[pos + i]
    ensures Running(acc, r, v, pos + |chunk|)
  {
    acc := acc0;
    for i := 0 to |chunk|
      invariant Running(acc, r, v, pos + i)
    {
      acc := AddProduct(coeffs[i], chunk[i], acc, pos + i, r, v);
    }
  }

  lemma ChunkOf(h: Hashes, key: seq<byte>, j: nat, coeffs: seq<byte>, chunk: seq<byte>, bytes: seq<byte>, v: seq<byte>,
                pos0: nat, off: nat)
    requires pos0 + |bytes| <= |v| && v[pos0..pos0 + |bytes|] == bytes && off + |chunk| <= |bytes|
    requires chunk == bytes[off..off + |chunk|] && |coeffs| == |chunk|
    requires coeffs == seq(|chunk|, i requires 0 <= i < |chunk| => h.xof(key, j, pos0 + off + i))
    ensures forall i :: 0 <= i < |chunk| ==>
              chunk[i] == v[pos0 + off + i] && coeffs[i] == Stream(h, key, j, |v|)[pos0 + off + i]
  {
    forall i | 0 <= i < |chunk| ensures chunk[i] == v[pos0 + off + i] {
      assert bytes[off + i] == v[pos0..pos0 + |bytes|][off + i];
    }
  }

  /** One buffer, in chunks of 256: the stream continues where the previous buffer left it. */
  method Absorb(h: Hashes, key: seq<byte>, j: nat, bytes: seq<byte>, acc0: byte, pos0: nat, ghost v: seq<byte>)
    returns (acc: byte, pos: nat)
    requires pos0 + |bytes| <= |v| && v[pos0..pos0 + |bytes|] == bytes
    requires Running(acc0, Stream(h, key, j, |v|), v, pos0)
    ensures pos == pos0 + |bytes|
    ensures Running(acc, Stream(h, key, j, |v|), v, pos)
  {
    ghost var r := Stream(h, key, j, |v|);
    acc, pos := acc0, pos0;
    var buf := new byte[256](_ => 0);
    var off := 0;
    while off < |bytes|
      invariant 0 <= off <= |bytes| && pos == pos0 + off
      invariant Running(acc, r, v, pos)
    {
      var len := if |bytes| - off < 256 then |bytes| - off else 256;
      Fill(h, key, j, pos, buf, len);
      var coeffs, chunk := buf[..len], bytes[off..off + len];
      ChunkOf(h, key, j, coeffs, chunk, bytes, v, pos0, off);
      acc := AddProducts(coeffs, chunk, acc, pos, r, v);
      off, pos := off + len, pos + len;
    }
  }

  method ComputeTag(h: Hashes, key: seq<byte>, codingVector: seq<byte>, data: seq<byte>) returns (tag: array<byte>)
    ensures fresh(tag) && tag[..] == Tag(h, key, codingVector + data)
  {
    ghost var v := codingVector + data;
    tag := new byte[TAG_SIZE](_ => 0);
    for j := 0 to TAG_SIZE
      invariant forall i :: 0 <= i < j ==> tag[i] == Tag(h, key, v)[i]
    {
      var acc, pos := Absorb(h, key, j, codingVector, 0, 0, v);
      acc, pos := Absorb(h, key, j, data, acc, pos, v);
      assert v[..pos] == v && Stream(h, key, j, |v|)[..pos] == Stream(h, key, j, |v|);
      tag[j] := acc;
    }
  }

  method VerifyTag(h: Hashes, key: seq<byte>, codingVector: seq<byte>, data: seq<byte>, tag: seq<byte>)
    returns (ok: bool)
    ensures ok <==> tag == Tag(h, key, codingVector + data)
  {
    var expected := ComputeTag(h, key, codingVector, data);
    ok := expected[..] == tag;
  }

  method CombineTags(tags: seq<seq<byte>>, coefficients: seq<byte>) returns (combined: array<byte>)
    requires |tags| == |coefficients| && Rectangular(tags, TAG_SIZE)
    ensures fresh(combined) && combined[..] == LinComb(GF, coefficients, tags, TAG_SIZE)
  {
    combined := new byte[TAG_SIZE](_ => 0);
    for i := 0 to |tags|
      invariant combined[..] == LinComb(GF, coefficients[..i], tags[..i], TAG_SIZE)
    {
      ghost var before := combined[..];
      ghost var goal := Axpy(GF, before, tags[i], coefficients[i]);
      for q := 0 to TAG_SIZE
        invariant forall p :: 0 <= p < TAG_SIZE ==> combined[p] == if p < q then goal[p] else before[p]
      {
        var product := GfMulEight(coefficients[i], tags[i][q]);
        combined[q] := Xor(combined[q], product);
      }
      assert coefficients[..i + 1][..i] == coefficients[..i] && tags[..i + 1][..i] == tags[..i];
      assert combined[..] == goal;
    }
    assert coefficients[..|tags|] == coefficients && tags[..|tags|] == tags;
  }

  /** Adding d to byte i of a vector adds its product with the i-th coefficient. */
  lemma {:induction false} DotChanged(r: seq<byte>, v: seq<byte>, i: nat, d: byte)
    requires |r| == |v| && i < |v|
    ensures Dot(GF, r, v[i := Xor(v[i], d)]) == Xor(Dot(GF, r, v), Mul(r[i], d))
  {
    var m := |v| - 1;
    var w := v[i := Xor(v[i], d)];
    var head, product := Dot(GF, r[..m], v[..m]), Mul(r[i], d);
    if i == m {
      assert w[..m] == v[..m];
      MulXorRight(r[m], v[m], d);
      XorAssoc(head, Mul(r[m], v[m]), product);
    } else {
      var last := Mul(r[m], v[m]);
      assert w[..m] == v[..m][i := Xor(v[i], d)] && r[..m][i] == r[i];
      DotChanged(r[..m], v[..m], i, d);
      XorAssoc(head, product, last); XorComm(product, last); XorAssoc(head, last, product);
    }
  }

  /** How byte i of a piece enters byte j of its tag: through byte i of stream j. */
  lemma TagChanged(h: Hashes, key: seq<byte>, v: seq<byte>, i: nat, d: byte, j: nat)
    requires i < |v| && j < TAG_SIZE
    ensures Tag(h, key, v[i := Xor(v[i], d)])[j] == Xor(Tag(h, key, v)[j], Mul(h.xof(key, j, i), d))
  {
    DotChanged(Stream(h, key, j, |v|), v, i, d);
  }

  lemma TagOfZeros(h: Hashes, key: seq<byte>, n: nat)
    ensures Tag(h, key, Zeros<byte>(GF, n)) == Zeros<byte>(GF, TAG_SIZE)
  {
    OctetLaws();
    forall j | 0 <= j < TAG_SIZE ensures Tag(h, key, Zeros<byte>(GF, n))[j] == 0 {
      DotZeros(GF, Stream(h, key, j, n));
    }
  }

  lemma XorUnchangedIff(a: byte, d: byte)
    ensures Xor(a, d) == a <==> d == 0
  {
    XorAssoc(a, a, d); XorSelf(a); XorZero(a); XorComm(0, d); XorZero(d);
  }

  /** A product in the field is zero only with a zero factor. */
  lemma ProductZeroIff(a: byte, b: byte)
    ensures Mul(a, b) == 0 <==> a == 0 || b == 0
  {
    if a == 0 {
      MulZeroLeft(b);
    } else if Mul(a, b) == 0 {
      Tables.GfInvInverts(a);
      var x := Tables.GfInv(a);
      Tables.GfMulIsMul(a, x);
      MulComm(a, x); MulAssoc(x, a, b); MulOneLeft(b);
    }
  }

  /** Changing one byte of a piece leaves its tag valid exactly if that byte of all 32 streams is zero. */
  lemma ChangePassesIff(h: Hashes, key: seq<byte>, v: seq<byte>, i: nat, d: byte)
    requires i < |v| && d != 0
    ensures Tag(h, key, v[i := Xor(v[i], d)]) == Tag(h, key, v) <==>
            forall j :: 0 <= j < TAG_SIZE ==> h.xof(key, j, i) == 0
  {
    var t, t' := Tag(h, key, v), Tag(h, key, v[i := Xor(v[i], d)]);
    forall j | 0 <= j < TAG_SIZE ensures t'[j] == t[j] <==> h.xof(key, j, i) == 0 {
      TagChanged(h, key, v, i, d, j);
      XorUnchangedIff(t[j], Mul(h.xof(key, j, i), d));
      ProductZeroIff(h.xof(key, j, i), d);
    }
  }

  ghost function MapTag(h: Hashes, key: seq<byte>, vs: seq<seq<byte>>): (ts: seq<seq<byte>>)
    ensures |ts| == |vs| && Rectangular(ts, TAG_SIZE)
  {
    seq(|vs|, i requires 0 <= i < |vs| => Tag(h, key, vs[i]))
  }

  /** Combining tags gives the tag of the combination, for any pieces and coefficients. */
  lemma TagHomomorphic(h: Hashes, key: seq<byte>, cs: seq<byte>, vs: seq<seq<byte>>, n: nat)
    requires |cs| == |vs| && Rectangular(vs, n)
    ensures Tag(h, key, LinComb(GF, cs, vs, n)) == LinComb(GF, cs, MapTag(h, key, vs), TAG_SIZE)
  {
    OctetLaws();
    var rs := Streams(h, key, n);
    DotsLinComb(GF, rs, cs, vs, n);
    assert MapDots(GF, rs, vs, n) == MapTag(h, key, vs);
  }
}
