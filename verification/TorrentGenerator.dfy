/**
 The test-torrent generator of examples/connection_tester.cpp: the sizes it gives its files,
 each larger than the one before, and the ranges of pieces its hashing threads fill in. All
 threads write to one list of hashes, without a lock.
 */
module TorrentGenerator {
  import opened Sequences

  const PIECE_SIZE := 1024 * 1024

  // ----- file sizes

  /** What the first k files take when none is cut short: each takes 200 more than the one before. */
  ghost function Planned(first: nat, k: nat): nat
    decreases k
  {
    if k == 0 then 0 else Planned(first, k - 1) + first + 200 * (k - 1)
  }

  lemma {:induction false} PlannedClosed(first: nat, k: nat)
    ensures Planned(first, k) == k * first + 100 * (k * k - k)
    decreases k
  {
    if k > 0 {
      PlannedClosed(first, k - 1);
      assert k * first == (k - 1) * first + first;
      assert (k - 1) * (k - 1) - (k - 1) == k * k - k - 2 * (k - 1);
    }
  }

  lemma {:induction false} PlannedGrows(first: nat, j: nat, k: nat)
    requires j <= k
    ensures Planned(first, j) <= Planned(first, k)
    decreases k - j
  {
    if j < k {
      PlannedGrows(first, j, k - 1);
    }
  }

  /** As many files as were asked for always have room for everything: the remainder of the division fits. */
  lemma PlannedReachesTotal(total: nat, numFiles: nat)
    requires numFiles >= 1
    ensures Planned(total / numFiles, numFiles) >= total
  {
    PlannedClosed(total / numFiles, numFiles);
    assert total == numFiles * (total / numFiles) + total % numFiles;
    assert numFiles * numFiles - numFiles >= numFiles - 1 by {
      assert numFiles * numFiles - numFiles - (numFiles - 1) == (numFiles - 1) * (numFiles - 1);
    }
  }

  ghost predicate Uncut(sizes: seq<int>, first: nat) {
    forall k | 0 <= k < |sizes| :: sizes[k] == first + 200 * k
  }

  /** The sizes the generator promises: each file 200 bytes longer than the one before, the last cut to fit. */
  ghost predicate AreSizes(sizes: seq<int>, total: nat, first: nat) {
    && Sum(sizes) == total
    && (forall k | 0 <= k < |sizes| - 1 :: sizes[k] == first + 200 * k)
    && (sizes != [] ==> sizes[|sizes| - 1] <= first + 200 * (|sizes| - 1))
    && (sizes != [] ==> Planned(first, |sizes| - 1) < total)
    && (sizes == [] ==> total == 0)
  }

  lemma {:induction false} SumOfPlanned(sizes: seq<int>, first: nat)
    requires Uncut(sizes, first)
    ensures Sum(sizes) == Planned(first, |sizes|)
    decreases |sizes|
  {
    if sizes != [] {
      SumOfPlanned(sizes[..|sizes| - 1], first);
    }
  }

  /** The promise leaves no choice, not even in the number of files. */
  lemma SizesAreUnique(a: seq<int>, b: seq<int>, total: nat, first: nat)
    requires AreSizes(a, total, first) && AreSizes(b, total, first) && |a| <= |b|
    ensures a == b
  {
    if a != [] {
      var n := |a| - 1;
      SumOfPlanned(a[..n], first);
      if |a| < |b| {
        PlannedGrows(first, n + 1, |b| - 1);
        assert false;
      }
      assert a[..n] == b[..n];
    }
  }

  lemma SizesFit(sizes: seq<int>, total: nat, first: nat)
    requires AreSizes(sizes, total, first)
    ensures total <= Planned(first, |sizes|)
  {
    if sizes != [] {
      SumOfPlanned(sizes[..|sizes| - 1], first);
    }
  }

  /** The usage text speaks of the number of files in the torrent; the code gives that many in these cases only. */
  lemma AsManyFilesAsAskedIff(sizes: seq<int>, total: nat, numFiles: nat)
    requires numFiles >= 1 && AreSizes(sizes, total, total / numFiles)
    ensures |sizes| <= numFiles
    ensures |sizes| == numFiles <==>
            (numFiles - 1) * (total / numFiles) + 100 * ((numFiles - 1) * (numFiles - 1) - (numFiles - 1)) < total
  {
    var first := total / numFiles;
    PlannedClosed(first, numFiles - 1);
    PlannedReachesTotal(total, numFiles);
    if |sizes| > numFiles {
      PlannedGrows(first, numFiles, |sizes| - 1);
      assert false;
    }
    SizesFit(sizes, total, first);
    if |sizes| < numFiles {
      PlannedGrows(first, |sizes|, numFiles - 1);
    }
  }

  /** One megabyte in a hundred files comes out as fewer. */
  lemma FewerFilesThanAsked(sizes: seq<int>)
    requires AreSizes(sizes, 1048576, 1048576 / 100)
    ensures |sizes| < 100
  {
    AsManyFilesAsAskedIff(sizes, PIECE_SIZE, 100);
  }

  lemma AddFile(sizes: seq<int>, total: nat, first: nat, s: int, size: int)
    requires Uncut(sizes, first) && s == total - Planned(first, |sizes|) && s > 0
    requires size == first + 200 * |sizes|
    ensures s > size ==> Uncut(sizes + [size], first)
    ensures s <= size ==> AreSizes(sizes + [s], total, first)
  {
    SumOfPlanned(sizes, first);
    assert (sizes + [s])[..|sizes|] == sizes;
  }

  /** The loop over files; the measure shows that it ends after at most numFiles rounds. */
  method AddFiles(total: nat, first: nat, numFiles: nat) returns (sizes: seq<int>)
    requires Planned(first, numFiles) >= total
    ensures AreSizes(sizes, total, first) && |sizes| <= numFiles
  {
    var s: int := total;
    var fileSize := first;
    sizes := [];
    while s > 0
      invariant |sizes| <= numFiles
      invariant fileSize == first + 200 * |sizes|
      invariant s == total - Planned(first, |sizes|)
      invariant if s > 0 then Uncut(sizes, first) else AreSizes(sizes, total, first)
      decreases numFiles - |sizes|
    {
      AddFile(sizes, total, first, s, fileSize);
      sizes := sizes + [if s < fileSize then s else fileSize];
      s := s - fileSize;
      fileSize := fileSize + 200;
    }
  }

  /** The sizes of the generated files, for a torrent of so many megabytes. */
  method GenerateFiles(numPieces: nat, numFiles: nat) returns (sizes: seq<int>)
    requires numFiles >= 1
    ensures AreSizes(sizes, 1048576 * numPieces, 1048576 * numPieces / numFiles)
    ensures |sizes| <= numFiles
  {
    var total := PIECE_SIZE * numPieces;
    PlannedReachesTotal(total, numFiles);
    sizes := AddFiles(total, total / numFiles, numFiles);
  }

  // ----- hashing threads

  /** The first piece of thread i; the last piece of thread i is the one before the first of thread i + 1. */
  function FirstPiece(i: nat, numPieces: nat, numThreads: nat): nat
    requires numThreads >= 1
  {
    i * numPieces / numThreads
  }

  /** Quotients are ordered as their numerators are. */
  lemma QuotientsOrdered(a: nat, b: nat, d: nat, x: nat, y: nat, r: nat, s: nat)
    requires a <= b && a == d * x + r && b == d * y + s && r < d && s < d
    ensures x <= y
  {
    var e := x - y;
    assert d * e == d * x - d * y;
    if e >= 1 {
      assert false;
    }
  }

  lemma FirstPieceGrows(i: nat, numPieces: nat, numThreads: nat)
    requires numThreads >= 1
    ensures FirstPiece(i, numPieces, numThreads) <= FirstPiece(i + 1, numPieces, numThreads)
  {
    var a, b := i * numPieces, (i + 1) * numPieces;
    QuotientsOrdered(a, b, numThreads, a / numThreads, b / numThreads, a % numThreads, b % numThreads);
  }

  lemma SameQuotient(a: nat, d: nat, x: nat, r: nat)
    requires a == d * x + r && r < d
    ensures a / d == x
  {
    QuotientsOrdered(a, a, d, a / d, x, a % d, r);
    QuotientsOrdered(a, a, d, x, a / d, r, a % d);
  }

  lemma Distributes(d: nat, x: nat, y: nat)
    ensures d * (x + y) == d * x + d * y
  {
  }

  /** Adding n to a numerator adds the quotient of n, rounded down or up. */
  lemma QuotientOfSum(a: nat, n: nat, d: nat, x: nat, r: nat, y: nat, s: nat)
    requires a == d * x + r && n == d * y + s && r < d && s < d
    ensures (a + n) / d == if r + s < d then x + y else x + y + 1
  {
    Distributes(d, x, y);
    if r + s < d {
      SameQuotient(a + n, d, x + y, r + s);
    } else {
      Distributes(d, x + y, 1);
      SameQuotient(a + n, d, x + y + 1, r + s - d);
    }
  }

  /** The number of pieces of one thread is that of an even share, rounded down or up. */
  lemma ThreadsShareEvenly(i: nat, numPieces: nat, numThreads: nat)
    requires numThreads >= 1
    ensures
      var share := FirstPiece(i + 1, numPieces, numThreads) - FirstPiece(i, numPieces, numThreads);
      share == numPieces / numThreads || share == numPieces / numThreads + 1
  {
    var a := i * numPieces;
    Distributes(numPieces, i, 1);
    assert (i + 1) * numPieces == a + numPieces;
    QuotientOfSum(a, numPieces, numThreads, a / numThreads, a % numThreads, numPieces / numThreads, numPieces % numThreads);
  }

  lemma LastPieceIsTheEnd(numPieces: nat, numThreads: nat)
    requires numThreads >= 1
    ensures FirstPiece(numThreads, numPieces, numThreads) == numPieces
  {
    var a := numThreads * numPieces;
    QuotientsOrdered(a, a, numThreads, a / numThreads, numPieces, a % numThreads, 0);
    QuotientsOrdered(a, a, numThreads, numPieces, a / numThreads, 0, a % numThreads);
  }

  /** Where the ranges of the threads begin, and where the last one ends. */
  ghost function Cuts(numPieces: nat, numThreads: nat): seq<nat>
    requires numThreads >= 1
  {
    seq<nat>(numThreads + 1, i requires 0 <= i <= numThreads => FirstPiece(i, numPieces, numThreads))
  }

  /** Cuts that split numPieces pieces into ranges; some may be empty. */
  ghost predicate Splits(cuts: seq<nat>, numPieces: nat) {
    && cuts != [] && cuts[0] == 0 && cuts[|cuts| - 1] == numPieces
    && forall i | 0 <= i < |cuts| - 1 :: cuts[i] <= cuts[i + 1]
  }

  lemma CutsSplit(numPieces: nat, numThreads: nat)
    requires numThreads >= 1
    ensures Splits(Cuts(numPieces, numThreads), numPieces)
  {
    LastPieceIsTheEnd(numPieces, numThreads);
    forall i: nat | i < numThreads
      ensures FirstPiece(i, numPieces, numThreads) <= FirstPiece(i + 1, numPieces, numThreads)
    {
      FirstPieceGrows(i, numPieces, numThreads);
    }
  }

  lemma {:induction false} CutsGrow(cuts: seq<nat>, i: nat, j: nat, numPieces: nat)
    requires Splits(cuts, numPieces) && i <= j < |cuts|
    ensures cuts[i] <= cuts[j]
    decreases j - i
  {
    if i < j {
      CutsGrow(cuts, i, j - 1, numPieces);
    }
  }

  ghost predicate HasPiece(cuts: seq<nat>, i: nat, p: nat) {
    i + 1 < |cuts| && cuts[i] <= p < cuts[i + 1]
  }

  /** Two threads never share a piece. */
  lemma ThreadsAreDisjoint(cuts: seq<nat>, i: nat, j: nat, p: nat, numPieces: nat)
    requires Splits(cuts, numPieces) && HasPiece(cuts, i, p) && HasPiece(cuts, j, p)
    ensures i == j
  {
    if i < j {
      CutsGrow(cuts, i + 1, j, numPieces);
    } else if j < i {
      CutsGrow(cuts, j + 1, i, numPieces);
    }
  }

  /** The thread that has piece p, looked for among the first n. */
  lemma {:induction false} ThreadsCover(cuts: seq<nat>, p: nat, n: nat, numPieces: nat) returns (i: nat)
    requires Splits(cuts, numPieces) && n < |cuts| && p < cuts[n]
    ensures i < n && HasPiece(cuts, i, p)
    decreases n
  {
    if cuts[n - 1] <= p {
      i := n - 1;
    } else {
      i := ThreadsCover(cuts, p, n - 1, numPieces);
    }
  }

  /** One thread writing one slot of the list of hashes. */
  datatype Write = Write(thread: nat, piece: nat)

  /** The pieces thread i wrote in a run of all threads, in order. */
  ghost function WrittenBy(run: seq<Write>, i: nat): seq<nat>
    decreases |run|
  {
    if run == [] then []
    else
      var before := WrittenBy(run[..|run| - 1], i);
      if run[|run| - 1].thread == i then before + [run[|run| - 1].piece] else before
  }

  ghost function Pieces(from: nat, to: nat): seq<nat>
    requires from <= to
  {
    seq<nat>(to - from, k requires 0 <= k < to - from => from + k)
  }

  /** A finished run: each thread went through its range once, and the threads interleaved in any way. */
  ghost predicate Finished(run: seq<Write>, cuts: seq<nat>) {
    && (forall k | 0 <= k < |run| :: run[k].thread + 1 < |cuts|)
    && forall i: nat | i + 1 < |cuts| ::
         cuts[i] <= cuts[i + 1] && WrittenBy(run, i) == Pieces(cuts[i], cuts[i + 1])
  }

  lemma WriteIsInRange(run: seq<Write>, k: nat, cuts: seq<nat>)
    requires Finished(run, cuts) && k < |run|
    ensures HasPiece(cuts, run[k].thread, run[k].piece)
  {
    WriteIsSeen(run, k);
    var i := run[k].thread;
    assert cuts[i] <= cuts[i + 1] && WrittenBy(run, i) == Pieces(cuts[i], cuts[i + 1]);
  }

  lemma {:induction false} WriteIsSeen(run: seq<Write>, k: nat)
    requires k < |run|
    ensures run[k].piece in WrittenBy(run, run[k].thread)
    decreases |run|
  {
    if k < |run| - 1 {
      WriteIsSeen(run[..|run| - 1], k);
    }
  }

  lemma {:induction false} SeenIsWritten(run: seq<Write>, i: nat, p: nat) returns (k: nat)
    requires p in WrittenBy(run, i)
    ensures k < |run| && run[k] == Write(i, p)
    decreases |run|
  {
    if run[|run| - 1] == Write(i, p) {
      k := |run| - 1;
    } else {
      k := SeenIsWritten(run[..|run| - 1], i, p);
    }
  }

  /** A thread that never repeats a piece in its own list never writes it twice in the run. */
  lemma {:induction false} NoWriteTwice(run: seq<Write>, i: nat, j: nat, k: nat)
    requires j < k < |run| && run[j].thread == run[k].thread == i && Distinct(WrittenBy(run, i))
    ensures run[j].piece != run[k].piece
    decreases |run|
  {
    var last := |run| - 1;
    var before := WrittenBy(run[..last], i);
    assert Distinct(before) by {
      forall a, b | 0 <= a < b < |before|
        ensures before[a] != before[b]
      {
        assert before[a] == WrittenBy(run, i)[a] && before[b] == WrittenBy(run, i)[b];
      }
    }
    if k < last {
      NoWriteTwice(run[..last], i, j, k);
    } else {
      WriteIsSeen(run[..last], j);
      var a :| 0 <= a < |before| && before[a] == run[j].piece;
      assert WrittenBy(run, i)[a] == run[j].piece && WrittenBy(run, i)[|before|] == run[k].piece;
    }
  }

  lemma WrittenAtMostOnce(run: seq<Write>, j: nat, k: nat, cuts: seq<nat>, numPieces: nat)
    requires Splits(cuts, numPieces) && Finished(run, cuts) && j < k < |run|
    ensures run[j].piece != run[k].piece
  {
    if run[j].piece == run[k].piece {
      WriteIsInRange(run, j, cuts);
      WriteIsInRange(run, k, cuts);
      ThreadsAreDisjoint(cuts, run[j].thread, run[k].thread, run[j].piece, numPieces);
      var i := run[j].thread;
      assert WrittenBy(run, i) == Pieces(cuts[i], cuts[i + 1]);
      NoWriteTwice(run, i, j, k);
    }
  }

  /** However the threads interleave, every slot of the list of hashes is written, and written once. */
  lemma EachHashWrittenOnce(run: seq<Write>, p: nat, numPieces: nat, numThreads: nat) returns (k: nat)
    requires numThreads >= 1 && Finished(run, Cuts(numPieces, numThreads)) && p < numPieces
    ensures k < |run| && run[k].piece == p
    ensures forall j | 0 <= j < |run| && run[j].piece == p :: j == k
  {
    var cuts := Cuts(numPieces, numThreads);
    CutsSplit(numPieces, numThreads);
    var i := ThreadsCover(cuts, p, numThreads, numPieces);
    assert WrittenBy(run, i) == Pieces(cuts[i], cuts[i + 1]);
    assert WrittenBy(run, i)[p - cuts[i]] == p;
    k := SeenIsWritten(run, i, p);
    forall j | 0 <= j < |run| && run[j].piece == p
      ensures j == k
    {
      if j < k {
        WrittenAtMostOnce(run, j, k, cuts, numPieces);
      } else if k < j {
        WrittenAtMostOnce(run, k, j, cuts, numPieces);
      }
    }
  }

  /** No write falls outside the list of hashes. */
  lemma WritesStayInside(run: seq<Write>, k: nat, numPieces: nat, numThreads: nat)
    requires numThreads >= 1 && Finished(run, Cuts(numPieces, numThreads)) && k < |run|
    ensures run[k].piece < numPieces
  {
    var cuts := Cuts(numPieces, numThreads);
    CutsSplit(numPieces, numThreads);
    WriteIsInRange(run, k, cuts);
    CutsGrow(cuts, run[k].thread + 1, numThreads, numPieces);
  }
}
