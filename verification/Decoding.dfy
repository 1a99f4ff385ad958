/**
 The decoder: incremental elimination as pieces arrive, back-substitution at full rank.
 */
module Decoding {
  import opened Bytes
  import opened GF256
  import opened LinearAlgebra
  import opened OctetField
  import opened Encoding
  import opened Elimination
  import opened Wrappers
  import Tables

  method ToArray(s: seq<byte>) returns (a: array<byte>)
    ensures fresh(a) && a[..] == s
  {
    a := new byte[|s|](i requires 0 <= i < |s| => s[i]);
  }

  method Inverse(a: byte) returns (inv: byte)
    requires a != 0
    ensures GF.mul(inv, a) == GF.one
  {
    inv := Tables.GfInv(a);
    Tables.GfInvInverts(a);
    MulComm(a, inv);
  }

  /** Multiply every byte by the inverse of the pivot. */
  method Normalise(row: array<byte>, inv: byte)
    modifies row
    ensures row[..] == Scale(GF, old(row[..]), inv)
  {
    ghost var was := row[..];
    ghost var goal := Scale(GF, was, inv);
    OctetLaws();
    for i := 0 to row.Length
      invariant forall j :: 0 <= j < row.Length ==> row[j] == if j < i then goal[j] else was[j]
    {
      ScaleAt(GF, was, inv, i);
      Tables.GfMulIsMul(row[i], inv);
      MulComm(row[i], inv);
      row[i] := Tables.GfMul(row[i], inv);
    }
  }

  method FirstNonZero(row: array<byte>, k: nat) returns (pivot: Option<nat>)
    requires k <= row.Length
    ensures pivot.None? ==> row[..k] == Zeros(GF, k)
    ensures pivot.Some? ==> IsPivot(GF, row[..], pivot.value, k)
  {
    for i := 0 to k
      invariant forall j :: 0 <= j < i ==> row[j] == 0
    {
      if row[i] != 0 {
        return Some(i);
      }
    }
    return None;
  }

  /** row + row[col] * pivotRow, skipped when the coefficient is already zero. */
  method ClearColumn(row: array<byte>, pivotRow: seq<byte>, col: nat)
    requires row.Length == |pivotRow| && col < row.Length
    modifies row
    ensures row[..] == Axpy(GF, old(row[..]), pivotRow, old(row[col]))
  {
    var coeff := row[col];
    if coeff != 0 {
      MulAddIsAxpy(row[..], pivotRow, coeff);
      Tables.VecMulAdd(row, pivotRow, coeff);
    } else {
      OctetLaws();
      AxpyZeroCoeff(GF, row[..], pivotRow);
    }
  }

  class RlncDecoder {
    const k: nat
    const pieceSize: nat
    /** One slot per pivot column; an empty slot is the empty sequence. */
    var matrix: seq<seq<byte>>
    var pivotCol: seq<Option<nat>>
    var rank: nat
    var decoded: bool
    /** The coding vectors of the well-formed pieces seen so far. */
    ghost var offered: seq<seq<byte>>

    ghost predicate Valid()
      reads this
    {
      Consistent(GF, matrix, pivotCol, rank, offered, k, k + pieceSize)
    }

    /** The sources are a solution of every equation the decoder has kept. */
    ghost predicate Accepts(src: seq<seq<byte>>)
      reads this
    {
      Solves(GF, matrix, src, k, pieceSize)
    }

    constructor (k: nat, pieceSize: nat)
      ensures this.k == k && this.pieceSize == pieceSize
      ensures Valid() && offered == [] && rank == 0 && !decoded
      ensures forall src :: |src| == k && Rectangular(src, pieceSize) ==> Accepts(src)
    {
      this.k := k;
      this.pieceSize := pieceSize;
      matrix := seq(k, _ => []);
      pivotCol := seq(k, _ => None);
      rank := 0;
      decoded := false;
      offered := [];
      new;
      OctetLaws();
      StartConsistent(GF, matrix, pivotCol, k, k + pieceSize);
    }

    /** Reduce a new row against every stored pivot row. */
    method ReduceRow(row: array<byte>)
      requires Valid() && row.Length == k + pieceSize
      modifies row
      ensures row[..] == Eliminate(GF, matrix, old(row[..]), k)
    {
      ghost var row0 := row[..];
      for r := 0 to k
        invariant row[..] == Eliminate(GF, matrix, row0, r)
      {
        match pivotCol[r]
        case None =>
        case Some(col) =>
          ClearColumn(row, matrix[r], col);
      }
    }

    method AddPiece(piece: CodedPiece) returns (r: Result<bool>)
      requires Valid()
      modifies this
      ensures Valid() && rank <= k && decoded == old(decoded)
      ensures |piece.codingVector| != k ==> r == Err(CodingVectorLengthMismatch(k, |piece.codingVector|))
      ensures |piece.codingVector| == k && |piece.data| != pieceSize ==>
                r == Err(InvalidPieceSize(pieceSize, |piece.data|))
      ensures r.Ok? <==> |piece.codingVector| == k && |piece.data| == pieceSize
      ensures r.Err? ==> matrix == old(matrix) && rank == old(rank) && offered == old(offered)
      // The span of what was offered decides, and grows by exactly this vector.
      ensures Rectangular(old(offered), k)
      ensures r.Ok? ==> offered == old(offered) + [piece.codingVector]
      ensures r.Ok? ==> (r.value <==> !InSpan(GF, piece.codingVector, old(offered), k))
      ensures r.Ok? ==> rank == old(rank) + if r.value then 1 else 0
      // A kept piece adds its equation and nothing else; a dependent piece adds nothing.
      ensures r.Ok? && r.value ==>
                forall src :: Accepts(src) <==>
                  old(Accepts(src)) && Truthful(GF, piece.codingVector + piece.data, src, k, pieceSize)
      ensures r.Ok? && !r.value ==> matrix == old(matrix)
    {
      if |piece.codingVector| != k {
        return Err(CodingVectorLengthMismatch(k, |piece.codingVector|));
      }
      if |piece.data| != pieceSize {
        return Err(InvalidPieceSize(pieceSize, |piece.data|));
      }
      var bytes := piece.codingVector + piece.data;
      assert bytes[..k] == piece.codingVector;
      var row := ToArray(bytes);
      ReduceRow(row);
      var pivot := FirstNonZero(row, k);
      match pivot
      case None =>
        OctetLaws();
        DropRow(GF, matrix, pivotCol, rank, offered, k, bytes);
        offered := offered + [piece.codingVector];
        r := Ok(false);
      case Some(col) =>
        StoreRow(row, col, bytes);
        r := Ok(true);
    }

    /** Normalise a reduced row so that its pivot is one, and keep it in the slot of its pivot column. */
    method StoreRow(row: array<byte>, col: nat, ghost bytes: seq<byte>)
      requires Valid() && |bytes| == row.Length == k + pieceSize
      requires row[..] == Eliminate(GF, matrix, bytes, k) && IsPivot(GF, row[..], col, k)
      modifies this, row
      ensures Valid() && decoded == old(decoded)
      ensures offered == old(offered) + [bytes[..k]] && rank == old(rank) + 1
      ensures Rectangular(old(offered), k) && !InSpan(GF, bytes[..k], old(offered), k)
      ensures forall src :: Accepts(src) <==> old(Accepts(src)) && Truthful(GF, bytes, src, k, pieceSize)
    {
      ghost var e := row[..];
      var inv := Inverse(row[col]);
      Normalise(row, inv);
      OctetLaws();
      Keep(GF, matrix, pivotCol, rank, offered, k, pieceSize, bytes, e, col, inv, row[..]);
      matrix := matrix[col := row[..]];
      pivotCol := pivotCol[col := Some(col)];
      rank := rank + 1;
      offered := offered + [bytes[..k]];
    }

    /** Clear column `col` of row r with the pivot row of that column. */
    method BackSubstituteRow(col: nat, r: nat, ghost m0: seq<seq<byte>>)
      requires ReducedTo(GF, matrix, k, k + pieceSize, col, r) && r < col
      requires SameSolutions(GF, m0, matrix, k, pieceSize)
      modifies this`matrix
      ensures ReducedTo(GF, matrix, k, k + pieceSize, col, r + 1)
      ensures SameSolutions(GF, m0, matrix, k, pieceSize)
    {
      OctetLaws();
      BackStepSame(GF, m0, matrix, k, pieceSize, col, r);
      var row := ToArray(matrix[r]);
      ClearColumn(row, matrix[col], col);
      matrix := matrix[r := row[..]];
    }

    method BackSubstitute()
      requires Reduced(GF, matrix, k, k + pieceSize, k)
      modifies this`matrix
      ensures Reduced(GF, matrix, k, k + pieceSize, 0)
      ensures SameSolutions(GF, old(matrix), matrix, k, pieceSize)
    {
      for col := k downto 0
        invariant Reduced(GF, matrix, k, k + pieceSize, col)
        invariant SameSolutions(GF, old(matrix), matrix, k, pieceSize)
      {
        for r := 0 to col
          invariant ReducedTo(GF, matrix, k, k + pieceSize, col, r)
          invariant SameSolutions(GF, old(matrix), matrix, k, pieceSize)
        {
          BackSubstituteRow(col, r, old(matrix));
        }
        ReducedColumn(GF, matrix, k, k + pieceSize, col);
      }
    }

    /** `pieces` are the decoded source pieces: the one solution of every equation kept. */
    method Decode() returns (r: Result<seq<byte>>, ghost pieces: seq<seq<byte>>)
      requires Valid()
      modifies this
      ensures Valid() && rank == old(rank) && offered == old(offered)
      ensures rank < k ==> r == Err(InsufficientPieces(rank, k)) && matrix == old(matrix) && decoded == old(decoded)
      ensures rank == k ==> r == Ok(Flatten(pieces)) && decoded
      ensures rank == k ==> forall src :: old(Accepts(src)) <==> src == pieces
    {
      pieces := [];
      if rank < k {
        return Err(InsufficientPieces(rank, k)), [];
      }
      FilledAll(matrix);
      for col := 0 to k {
        if pivotCol[col].None? || matrix[col] == [] {
          assert false;  // the source's first DecodeFailed
        }
      }
      ghost var m0 := matrix;
      BackSubstitute();
      var data: seq<byte> := [];
      for col := 0 to k
        invariant |pieces| == col && data == Flatten(pieces)
        invariant forall c :: 0 <= c < col ==> pieces[c] == matrix[c][k..]
      {
        var row := matrix[col];
        if row[col] != 1 {
          assert false;  // the source's second DecodeFailed
        }
        data := data + row[k..];
        pieces := pieces + [row[k..]];
        assert pieces[..col] + [row[k..]] == pieces;
      }
      decoded := true;
      OctetLaws();
      ReducedSolution(GF, m0, matrix, k, pieceSize, pieces);
      ReducedConsistent(GF, m0, matrix, pivotCol, rank, offered, k, k + pieceSize);
      r := Ok(data);
    }
  }
}
