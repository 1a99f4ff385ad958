/**
 Coded pieces: splitting and encoding content, and recoding pieces without decoding.
 */
module Encoding {
  import opened Bytes
  import opened LinearAlgebra
  import opened OctetField
  import opened HomMac
  import Elimination
  import Tables

  datatype Error =
    | InsufficientPieces(have: nat, need: nat)
    | InsufficientRecodeInputs(got: nat)
    | MismatchedCids
    | CodingVectorLengthMismatch(expected: nat, actual: nat)
    | InvalidPieceSize(size: nat, found: nat)
    | DecodeFailed

  datatype Result<T> = Ok(value: T) | Err(error: Error)

  datatype CodedPiece = CodedPiece(pieceId: seq<byte>, cid: seq<byte>, codingVector: seq<byte>, data: seq<byte>,
                                   tag: seq<byte>)

  function NewPiece(h: Hashes, cid: seq<byte>, codingVector: seq<byte>, data: seq<byte>, tag: seq<byte>): CodedPiece
  {
    CodedPiece(h.digest(codingVector + data), cid, codingVector, data, tag)
  }

  predicate VerifyPieceId(h: Hashes, p: CodedPiece)
  {
    h.digest(p.codingVector + p.data) == p.pieceId
  }

  method VerifyMac(h: Hashes, p: CodedPiece) returns (ok: bool)
    ensures ok <==> p.tag == Tag(h, p.cid, p.codingVector + p.data)
  {
    ok := VerifyTag(h, p.cid, p.codingVector, p.data, p.tag);
  }

  // ----- splitting content into source pieces -----

  datatype Encoder = Encoder(k: nat, pieceSize: nat, pieces: seq<seq<byte>>, cid: seq<byte>)

  function DivCeil(a: nat, b: nat): nat
    requires b > 0
  {
    (a + b - 1) / b
  }

  function PieceSize(total: nat, k: nat): nat
    requires k > 0
  {
    if total == 0 then 1 else DivCeil(total, k)
  }

  /** The content followed by the zeros that fill k pieces. */
  ghost function Padded(data: seq<byte>, k: nat): (r: seq<byte>)
    requires k > 0
    ensures |r| == k * PieceSize(|data|, k)
  {
    PiecesCover(|data|, k);
    data + Zeros<byte>(GF, k * PieceSize(|data|, k) - |data|)
  }

  /** k pieces of at least a byte hold the content, and k smaller ones would not. */
  predicate FitsTightly(size: nat, total: nat, k: nat)
  {
    size >= 1 && total <= k * size && (size > 1 ==> k * (size - 1) < total)
  }

  lemma PiecesCover(total: nat, k: nat)
    requires k > 0
    ensures FitsTightly(PieceSize(total, k), total, k)
  {
    if total > 0 {
      var size := DivCeil(total, k);
      assert total + k - 1 == k * size + (total + k - 1) % k;
      assert k * (size - 1) == k * size - k;
    }
  }

  /** Only one size fits tightly, and no smaller one of at least a byte holds the content. */
  lemma TightestPieces(total: nat, k: nat, size: nat)
    requires k > 0 && size >= 1
    ensures total <= k * size ==> PieceSize(total, k) <= size
    ensures FitsTightly(size, total, k) <==> size == PieceSize(total, k)
  {
    var least := PieceSize(total, k);
    PiecesCover(total, k);
    if size < least { Products(k, size, least - 1); }
    if least < size { Products(k, least, size - 1); }
  }

  lemma Products(k: nat, a: nat, b: nat)
    requires a <= b
    ensures k * a <= k * b
  {
  }

  lemma BlockInside(i: nat, k: nat, size: nat)
    requires i < k
    ensures 0 <= i * size <= (i + 1) * size <= k * size
    ensures (i + 1) * size == i * size + size
  {
  }

  /** The i-th block of the padded content. */
  ghost function Source(data: seq<byte>, k: nat, i: nat): (r: seq<byte>)
    requires i < k
    ensures |r| == PieceSize(|data|, k)
  {
    var size := PieceSize(|data|, k);
    BlockInside(i, k, size);
    Padded(data, k)[i * size..(i + 1) * size]
  }

  ghost function Sources(data: seq<byte>, k: nat): (r: seq<seq<byte>>)
    requires k > 0
    ensures |r| == k && Rectangular(r, PieceSize(|data|, k))
  {
    seq<seq<byte>>(k, i requires 0 <= i < k => Source(data, k, i))
  }

  function Flatten(ps: seq<seq<byte>>): seq<byte>
  {
    if ps == [] then [] else Flatten(ps[..|ps| - 1]) + ps[|ps| - 1]
  }

  /** The source pieces laid end to end are the content followed by zeros. */
  lemma FlattenSources(data: seq<byte>, k: nat)
    requires k > 0
    ensures Flatten(Sources(data, k)) == Padded(data, k)
  {
    FlattenPrefix(data, k, k);
    assert Sources(data, k)[..k] == Sources(data, k);
  }

  lemma {:induction false} FlattenPrefix(data: seq<byte>, k: nat, i: nat)
    requires i <= k && k > 0
    ensures i * PieceSize(|data|, k) <= |Padded(data, k)|
    ensures Flatten(Sources(data, k)[..i]) == Padded(data, k)[..i * PieceSize(|data|, k)]
    decreases i
  {
    var size, ss := PieceSize(|data|, k), Sources(data, k);
    if i > 0 {
      FlattenPrefix(data, k, i - 1);
      BlockInside(i - 1, k, size);
      assert ss[..i][..i - 1] == ss[..i - 1];
      assert ss[..i][i - 1] == Source(data, k, i - 1);
    }
  }

  /** One source piece as the encoder fills it: a zeroed buffer and at most one copied slice. */
  method FillPiece(data: seq<byte>, k: nat, i: nat, size: nat) returns (piece: array<byte>)
    requires i < k && size == PieceSize(|data|, k)
    ensures piece[..] == Source(data, k, i)
  {
    var total := |data|;
    var start := i * size;
    var end := if (i + 1) * size < total then (i + 1) * size else total;
    BlockInside(i, k, size);
    piece := new byte[size](_ => 0);
    if start < total {
      for j := 0 to end - start
        invariant forall q :: 0 <= q < size ==> piece[q] == if q < j then data[start + q] else 0
      {
        piece[j] := data[start + j];
      }
    }
  }

  ghost function Encoded(data: seq<byte>, k: nat, cid: seq<byte>): Encoder
    requires k > 0
  {
    Encoder(k, PieceSize(|data|, k), Sources(data, k), cid)
  }

  method NewEncoder(h: Hashes, data: seq<byte>, k: nat) returns (r: Result<Encoder>)
    ensures k == 0 ==> r == Err(InsufficientPieces(0, 1))
    ensures k > 0 ==> r == Ok(Encoded(data, k, h.digest(data))) && FitsTightly(r.value.pieceSize, |data|, k)
  {
    if k == 0 {
      return Err(InsufficientPieces(0, 1));
    }
    var size := PieceSize(|data|, k);
    PiecesCover(|data|, k);
    var pieces: seq<seq<byte>> := [];
    for i := 0 to k
      invariant |pieces| == i
      invariant forall j :: 0 <= j < i ==> pieces[j] == Source(data, k, j)
    {
      var piece := FillPiece(data, k, i, size);
      pieces := pieces + [piece[..]];
    }
    assert pieces == Sources(data, k);
    r := Ok(Encoder(k, size, pieces, h.digest(data)));
  }

  // ----- encoding -----

  predicate ValidEncoder(enc: Encoder)
  {
    |enc.pieces| == enc.k && Rectangular(enc.pieces, enc.pieceSize)
  }

  /** Each buffer as far as it meets one of length n. */
  function FitAll(rows: seq<seq<byte>>, n: nat): (r: seq<seq<byte>>)
    ensures |r| == |rows| && Rectangular(r, n)
    ensures forall i :: 0 <= i < |rows| ==> r[i] == Tables.Fitted(rows[i], n)
    ensures Rectangular(rows, n) ==> r == rows
  {
    seq<seq<byte>>(|rows|, i requires 0 <= i < |rows| => Tables.Fitted(rows[i], n))
  }

  /** Accumulate the combination of buffers, in place. */
  method Accumulate(coeffs: seq<byte>, rows: seq<seq<byte>>, n: nat) returns (acc: array<byte>)
    requires |coeffs| == |rows|
    ensures fresh(acc) && acc[..] == LinComb(GF, coeffs, FitAll(rows, n), n)
  {
    acc := new byte[n](_ => 0);
    ghost var fit := FitAll(rows, n);
    for j := 0 to |rows|
      invariant acc[..] == LinComb(GF, coeffs[..j], fit[..j], n)
    {
      MulAddIsAxpy(acc[..], fit[j], coeffs[j]);
      Tables.VecMulAdd(acc, rows[j], coeffs[j]);
      assert coeffs[..j + 1][..j] == coeffs[..j] && fit[..j + 1][..j] == fit[..j];
    }
    assert coeffs[..|rows|] == coeffs && fit[..|rows|] == fit;
  }

  /** What it means for a piece to belong to a generation: its data is the combination of the source pieces
      that its vector names, and its tag and identifier are those of its bytes. */
  ghost predicate Genuine(h: Hashes, enc: Encoder, p: CodedPiece)
    requires ValidEncoder(enc)
  {
    && p.cid == enc.cid
    && |p.codingVector| == enc.k
    && p.data == LinComb(GF, p.codingVector, enc.pieces, enc.pieceSize)
    && p.tag == Tag(h, p.cid, p.codingVector + p.data)
    && p.pieceId == h.digest(p.codingVector + p.data) && VerifyPieceId(h, p)
  }

  /** `coeffs` are the random coefficients the source draws. */
  method EncodePiece(h: Hashes, enc: Encoder, coeffs: seq<byte>) returns (p: CodedPiece)
    requires ValidEncoder(enc) && |coeffs| == enc.k
    ensures Genuine(h, enc, p) && p.codingVector == coeffs
  {
    var coded := Accumulate(coeffs, enc.pieces, enc.pieceSize);
    var tag := ComputeTag(h, enc.cid, coeffs, coded[..]);
    p := NewPiece(h, enc.cid, coeffs, coded[..], tag[..]);
  }

  // ----- recoding -----

  function CodingVectors(ps: seq<CodedPiece>): (r: seq<seq<byte>>)
    ensures |r| == |ps|
  {
    seq<seq<byte>>(|ps|, i requires 0 <= i < |ps| => ps[i].codingVector)
  }

  function Payloads(ps: seq<CodedPiece>): (r: seq<seq<byte>>)
    ensures |r| == |ps|
  {
    seq<seq<byte>>(|ps|, i requires 0 <= i < |ps| => ps[i].data)
  }

  function TagsOf(ps: seq<CodedPiece>): (r: seq<seq<byte>>)
    ensures |r| == |ps|
  {
    seq<seq<byte>>(|ps|, i requires 0 <= i < |ps| => ps[i].tag)
  }

  /** Pieces of one shape, as those of one generation are. */
  predicate SameShape(ps: seq<CodedPiece>, k: nat, size: nat)
  {
    forall p <- ps :: |p.codingVector| == k && |p.data| == size && |p.tag| == TAG_SIZE
  }

  predicate SameCid(ps: seq<CodedPiece>)
  {
    forall p <- ps :: p.cid == ps[0].cid
  }

  predicate Tagged(ps: seq<CodedPiece>)
  {
    forall p <- ps :: |p.tag| == TAG_SIZE
  }

  /** The first piece sets the lengths. */
  ghost function Combined(h: Hashes, ps: seq<CodedPiece>, scalars: seq<byte>): CodedPiece
    requires |ps| == |scalars| > 0 && Tagged(ps)
  {
    var k, size := |ps[0].codingVector|, |ps[0].data|;
    NewPiece(h, ps[0].cid,
             LinComb<byte>(GF, scalars, FitAll(CodingVectors(ps), k), k),
             LinComb<byte>(GF, scalars, FitAll(Payloads(ps), size), size),
             LinComb<byte>(GF, scalars, TagsOf(ps), TAG_SIZE))
  }

  /** `scalars` are the random scalars the source draws, one per input piece. */
  method Recode(h: Hashes, ps: seq<CodedPiece>, scalars: seq<byte>) returns (r: Result<CodedPiece>)
    requires |ps| == |scalars| && Tagged(ps)
    ensures |ps| < 2 ==> r == Err(InsufficientRecodeInputs(|ps|))
    ensures |ps| >= 2 && !SameCid(ps) ==> r == Err(MismatchedCids)
    ensures |ps| >= 2 && SameCid(ps) ==> r == Ok(Combined(h, ps, scalars))
  {
    if |ps| < 2 {
      return Err(InsufficientRecodeInputs(|ps|));
    }
    var cid := ps[0].cid;
    for i := 1 to |ps|
      invariant forall j :: 0 <= j < i ==> ps[j].cid == cid
    {
      if ps[i].cid != cid {
        return Err(MismatchedCids);
      }
    }
    var newVector := Accumulate(scalars, CodingVectors(ps), |ps[0].codingVector|);
    var newData := Accumulate(scalars, Payloads(ps), |ps[0].data|);
    var tag := CombineTags(TagsOf(ps), scalars);
    r := Ok(NewPiece(h, cid, newVector[..], newData[..], tag[..]));
  }

  ghost predicate AllGenuine(h: Hashes, enc: Encoder, ps: seq<CodedPiece>)
    requires ValidEncoder(enc)
  {
    forall i :: 0 <= i < |ps| ==> Genuine(h, enc, ps[i])
  }

  lemma GenuineShape(h: Hashes, enc: Encoder, ps: seq<CodedPiece>)
    requires ValidEncoder(enc) && AllGenuine(h, enc, ps)
    ensures SameShape(ps, enc.k, enc.pieceSize) && SameCid(ps)
    ensures Rectangular(CodingVectors(ps), enc.k) && Rectangular(Payloads(ps), enc.pieceSize)
    ensures Rectangular(TagsOf(ps), TAG_SIZE)
  {
  }

  lemma GenuineRow(h: Hashes, enc: Encoder, p: CodedPiece, row: seq<byte>)
    requires ValidEncoder(enc) && Genuine(h, enc, p) && row == p.codingVector + p.data
    ensures Elimination.Truthful(GF, row, enc.pieces, enc.k, enc.pieceSize)
    ensures Tag(h, enc.cid, row) == p.tag
  {
  }

  lemma RecodedTag(h: Hashes, key: seq<byte>, scalars: seq<byte>, rows: seq<seq<byte>>, ts: seq<seq<byte>>, n: nat,
                   v: seq<byte>)
    requires |rows| == |ts| == |scalars| && Rectangular(rows, n) && Rectangular(ts, TAG_SIZE)
    requires forall i :: 0 <= i < |rows| ==> Tag(h, key, rows[i]) == ts[i]
    requires v == LinComb(GF, scalars, rows, n)
    ensures Tag(h, key, v) == LinComb(GF, scalars, ts, TAG_SIZE)
  {
    TagHomomorphic(h, key, scalars, rows, n);
    assert MapTag(h, key, rows) == ts;
  }

  lemma CombinedTag(h: Hashes, key: seq<byte>, scalars: seq<byte>, us: seq<seq<byte>>, vs: seq<seq<byte>>,
                    rows: seq<seq<byte>>, ts: seq<seq<byte>>, k: nat, size: nat)
    requires |us| == |vs| == |ts| == |scalars| && rows == Joined(us, vs)
    requires Rectangular(us, k) && Rectangular(vs, size) && Rectangular(ts, TAG_SIZE)
    requires forall i :: 0 <= i < |rows| ==> Tag(h, key, rows[i]) == ts[i]
    ensures Tag(h, key, LinComb(GF, scalars, us, k) + LinComb(GF, scalars, vs, size))
         == LinComb(GF, scalars, ts, TAG_SIZE)
  {
    LinCombJoin(GF, scalars, us, vs, k, size);
    RecodedTag(h, key, scalars, rows, ts, k + size, LinComb(GF, scalars, us, k) + LinComb(GF, scalars, vs, size));
  }

  /** A recoding of genuine pieces is genuine: it still verifies, and still describes the same sources. */
  lemma RecodedIsGenuine(h: Hashes, enc: Encoder, ps: seq<CodedPiece>, scalars: seq<byte>)
    requires ValidEncoder(enc) && |ps| == |scalars| > 0 && AllGenuine(h, enc, ps)
    ensures SameShape(ps, enc.k, enc.pieceSize) && SameCid(ps) && Tagged(ps)
    ensures Genuine(h, enc, Combined(h, ps, scalars))
  {
    OctetLaws();
    GenuineShape(h, enc, ps);
    var us, vs := CodingVectors(ps), Payloads(ps);
    var rows := Joined(us, vs);
    forall i | 0 <= i < |ps|
      ensures Elimination.Truthful(GF, rows[i], enc.pieces, enc.k, enc.pieceSize)
      ensures Tag(h, enc.cid, rows[i]) == TagsOf(ps)[i]
    {
      GenuineRow(h, enc, ps[i], rows[i]);
    }
    Elimination.TruthfulParts(GF, scalars, us, vs, rows, enc.pieces, enc.k, enc.pieceSize);
    CombinedTag(h, enc.cid, scalars, us, vs, rows, TagsOf(ps), enc.k, enc.pieceSize);
    assert Genuine(h, enc, ps[0]);
  }

  // ----- trees of recodings -----

  /** How a piece came about: encoded at the origin, or recoded from pieces with histories of their own. */
  datatype History = Origin(coeffs: seq<byte>) | Recoded(scalars: seq<byte>, inputs: seq<History>)

  ghost predicate ValidHistory(enc: Encoder, t: History)
  {
    match t
    case Origin(coeffs) => |coeffs| == enc.k
    case Recoded(scalars, inputs) =>
      |inputs| == |scalars| >= 2 && forall i :: 0 <= i < |inputs| ==> ValidHistory(enc, inputs[i])
  }

  /** p is the outcome of the encodings and recodings in t. */
  ghost predicate Produces(h: Hashes, enc: Encoder, t: History, p: CodedPiece)
    requires ValidEncoder(enc) && ValidHistory(enc, t)
    decreases t
  {
    match t
    case Origin(coeffs) =>
      var data := LinComb(GF, coeffs, enc.pieces, enc.pieceSize);
      p == NewPiece(h, enc.cid, coeffs, data, Tag(h, enc.cid, coeffs + data))
    case Recoded(scalars, inputs) =>
      exists ps: seq<CodedPiece> ::
        && |ps| == |inputs| && Tagged(ps)
        && (forall i :: 0 <= i < |inputs| ==> Produces(h, enc, inputs[i], ps[i]))
        && p == Combined(h, ps, scalars)
  }

  /** Every piece in every tree of recodings is genuine. */
  lemma {:induction false} HistoryIsGenuine(h: Hashes, enc: Encoder, t: History, p: CodedPiece)
    requires ValidEncoder(enc) && ValidHistory(enc, t) && Produces(h, enc, t, p)
    ensures Genuine(h, enc, p)
    decreases t
  {
    match t
    case Origin(coeffs) =>
    case Recoded(scalars, inputs) =>
      var ps: seq<CodedPiece> :|
        && |ps| == |inputs| && Tagged(ps)
        && (forall i :: 0 <= i < |inputs| ==> Produces(h, enc, inputs[i], ps[i]))
        && p == Combined(h, ps, scalars);
      forall i | 0 <= i < |ps| ensures Genuine(h, enc, ps[i]) {
        HistoryIsGenuine(h, enc, inputs[i], ps[i]);
      }
      RecodedIsGenuine(h, enc, ps, scalars);
  }
}
