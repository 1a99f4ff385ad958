/**
 Decoding a batch of pieces, and the round trip from content through any recodings back to content.
 */
module Engine {
  import Arithmetic
  import opened Bytes
  import opened LinearAlgebra
  import opened OctetField
  import opened HomMac
  import opened Encoding
  import opened Elimination
  import opened Decoding

  predicate WellFormed(p: CodedPiece, k: nat, size: nat)
  {
    |p.codingVector| == k && |p.data| == size
  }

  /** The coding vectors of the well-formed pieces, in order. */
  ghost function Offered(ps: seq<CodedPiece>, k: nat, size: nat): (vs: seq<seq<byte>>)
    ensures Rectangular(vs, k)
  {
    if |ps| == 0 then [] else
      var n := |ps| - 1;
      Offered(ps[..n], k, size) + if WellFormed(ps[n], k, size) then [ps[n].codingVector] else []
  }

  /** How many of the vectors are not combinations of those before them. */
  ghost function RankOf(vs: seq<seq<byte>>, k: nat): nat
    requires Rectangular(vs, k)
  {
    if |vs| == 0 then 0 else
      var n := |vs| - 1;
      RankOf(vs[..n], k) + if InSpan(GF, vs[n], vs[..n], k) then 0 else 1
  }

  lemma RankNext(vs: seq<seq<byte>>, v: seq<byte>, k: nat)
    requires Rectangular(vs, k) && |v| == k
    ensures Rectangular(vs + [v], k)
    ensures RankOf(vs + [v], k) == RankOf(vs, k) + if InSpan(GF, v, vs, k) then 0 else 1
  {
    assert (vs + [v])[..|vs|] == vs;
  }

  /** Every well-formed piece is truthful about the sources. */
  ghost predicate AllTruthful(ps: seq<CodedPiece>, src: seq<seq<byte>>, k: nat, size: nat)
  {
    && |src| == k && Rectangular(src, size)
    && forall i :: 0 <= i < |ps| && WellFormed(ps[i], k, size) ==>
                     Truthful(GF, ps[i].codingVector + ps[i].data, src, k, size)
  }

  lemma {:induction false} OfferedPrefix(ps: seq<CodedPiece>, i: nat, k: nat, size: nat)
    requires i <= |ps|
    ensures Offered(ps[..i], k, size) <= Offered(ps, k, size)
    decreases |ps|
  {
    if i == |ps| {
      assert ps[..i] == ps;
    } else {
      var n := |ps| - 1;
      assert ps[..n][..i] == ps[..i];
      OfferedPrefix(ps[..n], i, k, size);
    }
  }

  lemma OfferedNext(ps: seq<CodedPiece>, i: nat, k: nat, size: nat)
    requires i < |ps|
    ensures Offered(ps[..i + 1], k, size)
         == Offered(ps[..i], k, size) + if WellFormed(ps[i], k, size) then [ps[i].codingVector] else []
  {
    assert ps[..i + 1][..i] == ps[..i];
  }

  /** Feed pieces until the rank is full; malformed ones are skipped. Returns how many were looked at. */
  method Feed(decoder: RlncDecoder, ps: seq<CodedPiece>) returns (i: nat)
    requires decoder.Valid() && decoder.offered == [] && decoder.rank == 0
    requires forall src :: |src| == decoder.k && Rectangular(src, decoder.pieceSize) ==> decoder.Accepts(src)
    modifies decoder
    ensures decoder.Valid() && i <= |ps|
    ensures decoder.offered == Offered(ps[..i], decoder.k, decoder.pieceSize)
    ensures decoder.rank == decoder.k || i == |ps|
    ensures decoder.rank == RankOf(Offered(ps[..i], decoder.k, decoder.pieceSize), decoder.k)
    ensures forall src :: AllTruthful(ps, src, decoder.k, decoder.pieceSize) ==> decoder.Accepts(src)
  {
    i := 0;
    while i < |ps|
      invariant i <= |ps| && decoder.Valid()
      invariant decoder.offered == Offered(ps[..i], decoder.k, decoder.pieceSize)
      invariant decoder.rank == RankOf(Offered(ps[..i], decoder.k, decoder.pieceSize), decoder.k)
      invariant forall src :: AllTruthful(ps, src, decoder.k, decoder.pieceSize) ==> decoder.Accepts(src)
    {
      ghost var before := decoder.offered;
      var added := decoder.AddPiece(ps[i]);
      OfferedNext(ps, i, decoder.k, decoder.pieceSize);
      if added.Ok? { RankNext(before, ps[i].codingVector, decoder.k); }
      i := i + 1;
      if decoder.rank == decoder.k {
        break;
      }
    }
  }

  lemma SpanDecides(m: seq<seq<byte>>, rank: nat, ps: seq<CodedPiece>, i: nat, k: nat, size: nat)
    requires Echelon(GF, m, k, k + size) && rank == Filled(m) && i <= |ps|
    requires Spans(GF, m, Offered(ps[..i], k, size), k)
    requires rank == k || i == |ps|
    ensures rank == k <==> SpansEverything(GF, Offered(ps, k, size), k)
  {
    OctetLaws();
    FullRankIff(GF, m, Offered(ps[..i], k, size), k, k + size);
    if rank == k {
      OfferedPrefix(ps, i, k, size);
      SpansMore(GF, Offered(ps[..i], k, size), Offered(ps, k, size), k);
    } else {
      assert ps[..i] == ps;
    }
  }

  /** Decoding succeeds exactly when the well-formed vectors span the space, and then returns the only sources
      that all the pieces agree with. */
  method Decode(k: nat, size: nat, ps: seq<CodedPiece>) returns (r: Result<seq<byte>>)
    ensures r.Ok? <==> SpansEverything(GF, Offered(ps, k, size), k)
    ensures r.Err? ==>
      var have := RankOf(Offered(ps, k, size), k); have < k && r.error == InsufficientPieces(have, k)
    ensures forall src :: AllTruthful(ps, src, k, size) && r.Ok? ==> r.value == Flatten(src)
  {
    var decoder := new RlncDecoder(k, size);
    var i := Feed(decoder, ps);
    SpanDecides(decoder.matrix, decoder.rank, ps, i, k, size);
    if i == |ps| { assert ps[..i] == ps; }
    ghost var pieces;
    r, pieces := decoder.Decode();
  }

  // ----- the round trip -----

  /** A piece that has the wrong lengths, or came out of some tree of encodings and recodings. */
  ghost predicate FromGeneration(h: Hashes, enc: Encoder, p: CodedPiece)
    requires ValidEncoder(enc)
  {
    WellFormed(p, enc.k, enc.pieceSize) ==> exists t :: ValidHistory(enc, t) && Produces(h, enc, t, p)
  }

  lemma GenerationIsTruthful(h: Hashes, enc: Encoder, ps: seq<CodedPiece>)
    requires ValidEncoder(enc)
    requires forall i :: 0 <= i < |ps| ==> FromGeneration(h, enc, ps[i])
    ensures AllTruthful(ps, enc.pieces, enc.k, enc.pieceSize)
  {
    forall i | 0 <= i < |ps| && WellFormed(ps[i], enc.k, enc.pieceSize)
      ensures Truthful(GF, ps[i].codingVector + ps[i].data, enc.pieces, enc.k, enc.pieceSize)
    {
      assert FromGeneration(h, enc, ps[i]);
      var t :| ValidHistory(enc, t) && Produces(h, enc, t, ps[i]);
      HistoryIsGenuine(h, enc, t, ps[i]);
      GenuineRow(h, enc, ps[i], ps[i].codingVector + ps[i].data);
    }
  }

  lemma PaddingLength(total: nat, k: nat, size: nat)
    requires k > 0 && FitsTightly(size, total, k)
    ensures total == 0 ==> size == 1
    ensures k * size % k == 0 && (total > 0 ==> k * size - total < k)
  {
    assert k * (size - 1) == k * size - k;
    Multiple(k, size);
  }

  lemma Multiple(k: nat, n: nat)
    requires k > 0
    ensures k * n % k == 0
  {
    Arithmetic.DivUnique(k * n, k, n, 0);
  }

  /** From any mixture of encoded, recoded and malformed pieces of one generation, decoding recovers the content
      followed by zeros exactly when the coding vectors span the space. */
  method Recover(h: Hashes, ghost data: seq<byte>, k: nat, size: nat, ps: seq<CodedPiece>)
    returns (r: Result<seq<byte>>)
    requires k > 0 && size == PieceSize(|data|, k)
    requires forall i :: 0 <= i < |ps| ==> FromGeneration(h, Encoded(data, k, h.digest(data)), ps[i])
    ensures r.Ok? <==> SpansEverything(GF, Offered(ps, k, size), k)
    ensures r.Ok? ==> r.value == Padded(data, k) && |data| <= |r.value| && r.value[..|data|] == data
    ensures r.Ok? ==> forall i :: |data| <= i < |r.value| ==> r.value[i] == 0
    ensures r.Ok? ==> if |data| == 0 then |r.value| == k else |r.value| % k == 0 && |r.value| - |data| < k
  {
    ghost var enc := Encoded(data, k, h.digest(data));
    GenerationIsTruthful(h, enc, ps);
    FlattenSources(data, k);
    PiecesCover(|data|, k);
    PaddingLength(|data|, k, size);
    r := Decode(k, size, ps);
  }
}
