/**
 How examples/custom_storage.cpp and Play/make_torrent.cpp cut a torrent into pieces: all of one
 length but the last, which takes what is left.
 */
module PieceSizes {
  function NumPieces(total: nat, pieceLength: nat): nat
    requires pieceLength > 0
  {
    (total + pieceLength - 1) / pieceLength
  }

  function PieceSize(total: nat, pieceLength: nat, piece: nat): int
    requires pieceLength > 0
  {
    if piece < NumPieces(total, pieceLength) - 1
    then pieceLength
    else total - (NumPieces(total, pieceLength) - 1) * pieceLength
  }

  ghost function SumOfPieces(total: nat, pieceLength: nat, n: nat): int
    requires pieceLength > 0
  {
    if n == 0 then 0 else SumOfPieces(total, pieceLength, n - 1) + PieceSize(total, pieceLength, n - 1)
  }

  lemma NumPiecesBounds(total: nat, pieceLength: nat)
    requires pieceLength > 0
    ensures total <= NumPieces(total, pieceLength) * pieceLength < total + pieceLength
  {
    var a := total + pieceLength - 1;
    assert a == pieceLength * (a / pieceLength) + a % pieceLength;
    assert NumPieces(total, pieceLength) * pieceLength == pieceLength * (a / pieceLength);
  }

  /** Every piece holds something and fits into a piece length. */
  lemma PieceSizeBounds(total: nat, pieceLength: nat, piece: nat)
    requires pieceLength > 0 && piece < NumPieces(total, pieceLength)
    ensures 1 <= PieceSize(total, pieceLength, piece) <= pieceLength
  {
    NumPiecesBounds(total, pieceLength);
    var n := NumPieces(total, pieceLength);
    assert (n - 1) * pieceLength == n * pieceLength - pieceLength;
  }

  lemma {:induction false} SumOfWholePieces(total: nat, pieceLength: nat, n: nat)
    requires pieceLength > 0 && n < NumPieces(total, pieceLength)
    ensures SumOfPieces(total, pieceLength, n) == n * pieceLength
    decreases n
  {
    if n > 0 {
      SumOfWholePieces(total, pieceLength, n - 1);
      assert n * pieceLength == (n - 1) * pieceLength + pieceLength;
    }
  }

  lemma PieceSizesAddUp(total: nat, pieceLength: nat)
    requires pieceLength > 0
    ensures SumOfPieces(total, pieceLength, NumPieces(total, pieceLength)) == total
  {
    NumPiecesBounds(total, pieceLength);
    var n := NumPieces(total, pieceLength);
    if n > 0 {
      SumOfWholePieces(total, pieceLength, n - 1);
    }
  }
}
