/**
 The test torrents of Play/make_torrent.cpp: pad files are collected as byte ranges, and
 while the pieces are hashed a queue of these ranges tells which bytes are zero. All other
 bytes of a piece hold the low byte of its number.
 */
module PadRanges {
  import opened PieceSizes

  const PIECE_LENGTH := 32768

  datatype File = File(size: nat, pad: bool)

  type Range = (nat, nat)

  // ----- where the bytes are

  /** The offset at which file k begins. */
  ghost function Start(files: seq<File>, k: nat): nat
    requires k <= |files|
    decreases k
  {
    if k == 0 then 0 else Start(files, k - 1) + files[k - 1].size
  }

  ghost function TotalSize(files: seq<File>): nat {
    Start(files, |files|)
  }

  ghost predicate IsPadByte(files: seq<File>, k: nat, o: int)
    requires k < |files|
  {
    files[k].pad && Start(files, k) <= o < Start(files, k + 1)
  }

  /** A pad file only counts as one when there is more than one file, or none. */
  ghost predicate InPadFile(files: seq<File>, o: int) {
    |files| != 1 && exists k | 0 <= k < |files| :: IsPadByte(files, k, o)
  }

  /** The byte of the torrent at offset o: zero in a pad file, else the low byte of its piece's number. */
  ghost function ByteAt(files: seq<File>, o: nat): nat {
    if InPadFile(files, o) then 0 else (o / 32768) % 0x100
  }

  lemma {:induction false} StartsGrow(files: seq<File>, j: nat, k: nat)
    requires j <= k <= |files|
    ensures Start(files, j) <= Start(files, k)
    decreases k - j
  {
    if j < k {
      StartsGrow(files, j, k - 1);
    }
  }

  lemma {:induction false} StartOfPrefix(files: seq<File>, n: nat, k: nat)
    requires k <= n <= |files|
    ensures Start(files[..n], k) == Start(files, k)
    decreases k
  {
    if k > 0 {
      StartOfPrefix(files, n, k - 1);
    }
  }

  // ----- the ranges

  ghost predicate InRange(r: Range, o: int) {
    r.0 <= o < r.1
  }

  ghost predicate InSome(ranges: seq<Range>, o: int) {
    exists r | r in ranges :: InRange(r, o)
  }

  /** Ranges one after the other; some may be empty. */
  ghost predicate Ascending(ranges: seq<Range>) {
    && (forall i | 0 <= i < |ranges| :: ranges[i].0 <= ranges[i].1)
    && (forall i, j | 0 <= i < j < |ranges| :: ranges[i].1 <= ranges[j].0)
  }

  /** The ranges of the pad files among the first n, in order. */
  ghost function PadFiles(files: seq<File>, n: nat): seq<Range>
    requires n <= |files|
    decreases n
  {
    if n == 0 then []
    else if files[n - 1].pad then PadFiles(files, n - 1) + [(Start(files, n - 1), Start(files, n))]
    else PadFiles(files, n - 1)
  }

  /** Pad files do not overlap, so neither do their ranges. */
  lemma {:induction false} PadFilesAscend(files: seq<File>, n: nat)
    requires n <= |files|
    ensures Ascending(PadFiles(files, n))
    ensures forall i | 0 <= i < |PadFiles(files, n)| :: PadFiles(files, n)[i].1 <= Start(files, n)
    decreases n
  {
    if n > 0 {
      PadFilesAscend(files, n - 1);
    }
  }

  lemma InOneMore(ranges: seq<Range>, r: Range, o: int)
    ensures InSome(ranges + [r], o) <==> InSome(ranges, o) || InRange(r, o)
  {
    if InRange(r, o) {
      assert (ranges + [r])[|ranges|] == r;
    }
    if q :| q in ranges && InRange(q, o) {
      assert q in ranges + [r];
    }
  }

  /** The ranges hold exactly the offsets that lie in a pad file. */
  lemma {:induction false} PadFilesHold(files: seq<File>, n: nat, o: int)
    requires n <= |files|
    ensures InSome(PadFiles(files, n), o) <==>
            exists k | 0 <= k < n :: IsPadByte(files, k, o)
    decreases n
  {
    if n > 0 {
      PadFilesHold(files, n - 1, o);
      InOneMore(PadFiles(files, n - 1), (Start(files, n - 1), Start(files, n)), o);
      if InSome(PadFiles(files, n), o) && !InSome(PadFiles(files, n - 1), o) {
        assert IsPadByte(files, n - 1, o);
      }
      if k :| 0 <= k < n && IsPadByte(files, k, o) && !InSome(PadFiles(files, n - 1), o) {
        assert k == n - 1;
      }
    }
  }

  /** The queue that is left is all that matters from offset o on. */
  ghost predicate LeftFrom(queue: seq<Range>, ranges: seq<Range>, o: nat) {
    && Ascending(queue)
    && forall p: int | p >= o :: InSome(queue, p) <==> InSome(ranges, p)
  }

  lemma PopFront(queue: seq<Range>, ranges: seq<Range>, o: nat)
    requires LeftFrom(queue, ranges, o) && queue != [] && o >= queue[0].1
    ensures LeftFrom(queue[1..], ranges, o)
  {
    assert forall r | r in queue :: r == queue[0] || r in queue[1..];
    forall p: int | p >= o
      ensures InSome(queue[1..], p) <==> InSome(queue, p)
    {
    }
  }

  /** With every range that ends by o gone, the first one decides about o. */
  lemma FrontDecides(queue: seq<Range>, o: nat)
    requires Ascending(queue) && (queue != [] ==> o < queue[0].1)
    ensures InSome(queue, o) <==> queue != [] && o >= queue[0].0
  {
    if queue != [] {
      assert queue[0] in queue;
      if o >= queue[0].0 {
        assert InRange(queue[0], o);
      } else {
        forall r | r in queue
          ensures !InRange(r, o)
        {
          var i :| 0 <= i < |queue| && queue[i] == r;
          assert queue[0].0 <= queue[i].0;
        }
      }
    }
  }

  // ----- the pieces

  /** Pieces begin at multiples of the piece length; the last is not empty and reaches the end. */
  lemma PieceBounds(total: nat, i: nat)
    requires i < NumPieces(total, PIECE_LENGTH)
    ensures 0 < PieceSize(total, PIECE_LENGTH, i) <= PIECE_LENGTH
    ensures i * PIECE_LENGTH + PieceSize(total, PIECE_LENGTH, i) ==
            if i + 1 == NumPieces(total, PIECE_LENGTH) then total else (i + 1) * PIECE_LENGTH
  {
  }

  /** The bytes from one offset to another. */
  ghost function Bytes(files: seq<File>, from: nat, to: nat): seq<nat>
    requires from <= to
  {
    seq<nat>(to - from, j requires 0 <= j < to - from => ByteAt(files, from + j))
  }

  lemma BytesJoin(files: seq<File>, from: nat, mid: nat, to: nat)
    requires from <= mid <= to
    ensures Bytes(files, from, mid) + Bytes(files, mid, to) == Bytes(files, from, to)
  {
  }

  lemma BytesOneMore(files: seq<File>, from: nat, o: nat, byte: nat)
    requires from <= o && byte == ByteAt(files, o)
    ensures Bytes(files, from, o) + [byte] == Bytes(files, from, o + 1)
  {
    assert Bytes(files, o, o + 1) == [byte];
    BytesJoin(files, from, o, o + 1);
  }

  /** What the pieces hold, one after the other. */
  ghost function Flat(pieces: seq<seq<nat>>): seq<nat>
    decreases |pieces|
  {
    if pieces == [] then [] else Flat(pieces[..|pieces| - 1]) + pieces[|pieces| - 1]
  }

  /** Collects the total size and the ranges of the pad files. */
  method CollectFiles(files: seq<File>) returns (total: nat, ranges: seq<Range>)
    ensures total == TotalSize(files)
    ensures ranges == if |files| == 1 then [] else PadFiles(files, |files|)
  {
    total, ranges := 0, [];
    if |files| == 1 {
      total := files[0].size;
      assert Start(files, 1) == Start(files, 0) + files[0].size;
    } else {
      for i := 0 to |files|
        invariant total == Start(files, i) && ranges == PadFiles(files, i)
      {
        if files[i].pad {
          ranges := ranges + [(total, total + files[i].size)];
        }
        total := total + files[i].size;
      }
    }
  }

  /** The bytes of one piece, with the ranges that end inside it popped off the queue. */
  method HashPiece(files: seq<File>, ranges: seq<Range>, start: seq<Range>, i: nat, offset: nat, size: nat)
    returns (bytes: seq<nat>, queue: seq<Range>)
    requires forall o: int :: InSome(ranges, o) <==> InPadFile(files, o)
    requires LeftFrom(start, ranges, offset) && offset == i * PIECE_LENGTH && size <= PIECE_LENGTH
    ensures bytes == Bytes(files, offset, offset + size)
    ensures LeftFrom(queue, ranges, offset + size)
  {
    bytes, queue := [], start;
    for o := 0 to size
      invariant LeftFrom(queue, ranges, offset + o)
      invariant bytes == Bytes(files, offset, offset + o)
    {
      var torrentOffset := offset + o;
      while queue != [] && torrentOffset >= queue[0].1
        invariant LeftFrom(queue, ranges, torrentOffset)
        decreases |queue|
      {
        PopFront(queue, ranges, torrentOffset);
        queue := queue[1..];
      }
      FrontDecides(queue, torrentOffset);
      assert torrentOffset / PIECE_LENGTH == i;
      var byte: nat := if queue != [] && torrentOffset >= queue[0].0 then 0 else i % 0x100;
      BytesOneMore(files, offset, torrentOffset, byte);
      bytes := bytes + [byte];
    }
  }

  /** Hashes the whole torrent; what each hash is fed with is returned in its place. */
  method MakeTestTorrent(files: seq<File>) returns (pieces: seq<seq<nat>>, torrentOffset: nat)
    ensures torrentOffset == TotalSize(files)
    ensures |pieces| == NumPieces(TotalSize(files), 32768)
    ensures forall i | 0 <= i < |pieces| :: |pieces[i]| == PieceSize(TotalSize(files), 32768, i)
    ensures Flat(pieces) == Bytes(files, 0, TotalSize(files))
  {
    var total, ranges := CollectFiles(files);
    PadFilesAscend(files, |files|);
    forall o: int
      ensures InSome(ranges, o) <==> InPadFile(files, o)
    {
      if |files| != 1 {
        PadFilesHold(files, |files|, o);
      }
    }
    var numPieces := NumPieces(total, PIECE_LENGTH);
    var queue := ranges;
    pieces, torrentOffset := [], 0;
    for i := 0 to numPieces
      invariant |pieces| == i && torrentOffset == (if i == numPieces then total else i * PIECE_LENGTH)
      invariant forall j | 0 <= j < i :: |pieces[j]| == PieceSize(total, PIECE_LENGTH, j)
      invariant LeftFrom(queue, ranges, torrentOffset)
      invariant Flat(pieces) == Bytes(files, 0, torrentOffset)
    {
      PieceBounds(total, i);
      var size := if i < numPieces - 1 then PIECE_LENGTH else total - (numPieces - 1) * PIECE_LENGTH;
      var bytes;
      bytes, queue := HashPiece(files, ranges, queue, i, torrentOffset, size);
      assert (pieces + [bytes])[..i] == pieces;
      pieces := pieces + [bytes];
      BytesJoin(files, 0, torrentOffset, torrentOffset + size);
      torrentOffset := torrentOffset + size;
    }
  }
}
