/**
 The in-memory storage of examples/custom_storage.cpp: a buffer per piece that never moves
 once it exists, and the table of slots in which the torrents of a session keep their
 storages. A slot whose torrent was removed is used again.
 */
module CustomStorage {
  import opened Options
  import opened PieceSizes

  type Byte = bv8

  // ----- what was written

  datatype Write = Write(piece: nat, offset: nat, bytes: seq<Byte>)

  ghost predicate Touches(w: Write, piece: nat, o: nat) {
    w.piece == piece && w.offset <= o < w.offset + |w.bytes|
  }

  /** The latest of the writes decides about a byte; before any of them it is zero. */
  ghost function Overlay(writes: seq<Write>, piece: nat, o: nat): Byte
    decreases |writes|
  {
    if writes == [] then 0
    else
      var w := writes[|writes| - 1];
      if Touches(w, piece, o) then w.bytes[o - w.offset] else Overlay(writes[..|writes| - 1], piece, o)
  }

  /** The overlay said without recursion: the byte of a write that no later one covers. */
  lemma {:induction false} OverlayIsLatest(writes: seq<Write>, k: nat, piece: nat, o: nat)
    requires k < |writes| && Touches(writes[k], piece, o)
    requires forall j | k < j < |writes| :: !Touches(writes[j], piece, o)
    ensures Overlay(writes, piece, o) == writes[k].bytes[o - writes[k].offset]
    decreases |writes|
  {
    if k < |writes| - 1 {
      OverlayIsLatest(writes[..|writes| - 1], k, piece, o);
    }
  }

  lemma {:induction false} UntouchedIsZero(writes: seq<Write>, piece: nat, o: nat)
    requires forall j | 0 <= j < |writes| :: !Touches(writes[j], piece, o)
    ensures Overlay(writes, piece, o) == 0
    decreases |writes|
  {
    if writes != [] {
      UntouchedIsZero(writes[..|writes| - 1], piece, o);
    }
  }

  ghost predicate WritesTo(writes: seq<Write>, piece: nat) {
    exists k | 0 <= k < |writes| :: writes[k].piece == piece
  }

  lemma OverlayOneMore(writes: seq<Write>, w: Write, piece: nat, o: nat)
    ensures Overlay(writes + [w], piece, o) ==
              if Touches(w, piece, o) then w.bytes[o - w.offset] else Overlay(writes, piece, o)
  {
    assert (writes + [w])[..|writes|] == writes;
  }

  lemma WritesToOneMore(writes: seq<Write>, w: Write, piece: nat)
    ensures WritesTo(writes + [w], piece) <==> WritesTo(writes, piece) || w.piece == piece
  {
    var after := writes + [w];
    if w.piece == piece {
      assert after[|writes|].piece == piece;
    }
    if k :| 0 <= k < |writes| && writes[k].piece == piece {
      assert after[k].piece == piece;
    }
  }

  /** A stretch of a buffer; it stays good for as long as the buffer does. */
  datatype Span = Span(buffer: array<Byte>, start: nat, length: nat)

  datatype ReadResult = Data(span: Span) | Eof

  /** A buffer per piece that never moves once it exists. */
  class TempStorage {
    const total: nat
    const pieceLength: nat
    var fileData: map<nat, array<Byte>>
    ghost var writes: seq<Write>

    ghost predicate Valid()
      reads this, fileData.Values
    {
      && pieceLength > 0
      && (forall p | p in fileData ::
            p < NumPieces(total, pieceLength) && fileData[p].Length == PieceSize(total, pieceLength, p))
      && (forall p, q | p in fileData && q in fileData && p != q :: fileData[p] != fileData[q])
      && (forall p: nat :: p in fileData <==> WritesTo(writes, p))
      && (forall p, o: nat | p in fileData && o < fileData[p].Length :: fileData[p][o] == Overlay(writes, p, o))
    }

    constructor (total: nat, pieceLength: nat)
      requires pieceLength > 0
      ensures Valid() && writes == [] && fileData == map[]
      ensures this.total == total && this.pieceLength == pieceLength
    {
      this.total, this.pieceLength, fileData, writes := total, pieceLength, map[], [];
    }

    method Readv(piece: nat, start: nat, length: nat) returns (r: ReadResult)
      requires Valid()
      ensures r.Data? <==> WritesTo(writes, piece) && start < PieceSize(total, pieceLength, piece)
      ensures r.Data? ==>
                && piece in fileData && r.span.buffer == fileData[piece] && r.span.start == start
                && r.span.length == (if length < PieceSize(total, pieceLength, piece) - start
                                     then length else PieceSize(total, pieceLength, piece) - start)
      ensures r.Data? ==> forall o | start <= o < start + r.span.length ::
                o < r.span.buffer.Length && r.span.buffer[o] == Overlay(writes, piece, o)
    {
      if piece !in fileData {
        return Eof;
      }
      var buffer := fileData[piece];
      if buffer.Length <= start {
        return Eof;
      }
      r := Data(Span(buffer, start, if length < buffer.Length - start then length else buffer.Length - start));
    }

    /** The whole piece is allocated on the first write, so that spans handed out stay good. */
    method Allocate(piece: nat)
      requires Valid() && piece < NumPieces(total, pieceLength)
      modifies `fileData
      ensures piece in old(fileData) ==> fileData == old(fileData)
      ensures piece !in old(fileData) ==>
                && piece in fileData && fileData == old(fileData)[piece := fileData[piece]] && fresh(fileData[piece])
                && fileData[piece].Length == PieceSize(total, pieceLength, piece)
                && forall o | 0 <= o < fileData[piece].Length :: fileData[piece][o] == 0
      ensures forall o | 0 <= o < fileData[piece].Length :: fileData[piece][o] == Overlay(writes, piece, o)
    {
      if piece !in fileData {
        PieceSizeBounds(total, pieceLength, piece);
        var size := PieceSize(total, pieceLength, piece);
        var buffer := new Byte[size](_ => 0);
        fileData := fileData[piece := buffer];
        forall o: nat
          ensures Overlay(writes, piece, o) == 0
        {
          UntouchedIsZero(writes, piece, o);
        }
      }
    }

    /** Stands in for std::memcpy. */
    static method CopyInto(data: array<Byte>, offset: nat, bytes: seq<Byte>)
      requires offset + |bytes| <= data.Length
      modifies data
      ensures forall o | 0 <= o < data.Length ::
                data[o] == if offset <= o < offset + |bytes| then bytes[o - offset] else old(data[o])
    {
      forall k | 0 <= k < |bytes| {
        data[offset + k] := bytes[k];
      }
    }

    /** Copies bytes into the buffer of their piece. Buffers that were there stay where they are. */
    method Writev(bytes: seq<Byte>, piece: nat, offset: nat)
      requires Valid() && piece < NumPieces(total, pieceLength)
      requires offset + |bytes| <= PieceSize(total, pieceLength, piece)
      modifies this, fileData.Values
      ensures Valid() && writes == old(writes) + [Write(piece, offset, bytes)]
      ensures forall p | p in old(fileData) :: p in fileData && fileData[p] == old(fileData[p])
      ensures forall p | p in fileData && p !in old(fileData) :: fresh(fileData[p])
    {
      Allocate(piece);
      var data := fileData[piece];
      CopyInto(data, offset, bytes);
      ghost var w := Write(piece, offset, bytes);
      forall p: nat
        ensures WritesTo(writes + [w], p) <==> WritesTo(writes, p) || p == piece
      {
        WritesToOneMore(writes, w, p);
      }
      forall p, o: nat | p in fileData && o < fileData[p].Length
        ensures fileData[p][o] == Overlay(writes + [w], p, o)
      {
        OverlayOneMore(writes, w, p, o);
        if p != piece {
          assert fileData[p] != data;
        }
      }
      writes := writes + [w];
    }
  }

  // ----- slots

  /** The table of storages, with the stack of slots that are empty. */
  datatype Slots<T> = Slots(torrents: seq<Option<T>>, free: seq<nat>)

  /** The table after a new torrent. */
  function Filled<T>(s: Slots<T>, storage: T): Slots<T>
    requires SlotsInv(s)
  {
    if s.free == [] then s.(torrents := s.torrents + [Some(storage)])
    else
      var idx := s.free[|s.free| - 1];
      Slots(s.torrents[idx := Some(storage)], s.free[..|s.free| - 1])
  }

  /** The slot the next torrent will get. */
  function NextSlot<T>(s: Slots<T>): nat {
    if s.free == [] then |s.torrents| else s.free[|s.free| - 1]
  }

  /** The table after removing the torrent of a slot. */
  function Vacated<T>(s: Slots<T>, idx: nat): Slots<T>
    requires idx < |s.torrents|
  {
    Slots(s.torrents[idx := None], s.free + [idx])
  }

  predicate IsLive<T>(s: Slots<T>, idx: nat) {
    idx < |s.torrents| && s.torrents[idx].Some?
  }

  /** The stack holds each empty slot exactly once, and no slot in use. */
  ghost predicate SlotsInv<T>(s: Slots<T>) {
    && (forall i | 0 <= i < |s.free| :: s.free[i] < |s.torrents| && s.torrents[s.free[i]].None?)
    && (forall i, j | 0 <= i < j < |s.free| :: s.free[i] != s.free[j])
    && (forall k | 0 <= k < |s.torrents| && s.torrents[k].None? :: k in s.free)
  }

  /** A new torrent never takes the place of a live one, and moves no other. */
  lemma NewTorrentKeeps<T>(s: Slots<T>, storage: T)
    requires SlotsInv(s)
    ensures SlotsInv(Filled(s, storage))
    ensures !IsLive(s, NextSlot(s))
    ensures IsLive(Filled(s, storage), NextSlot(s)) && Filled(s, storage).torrents[NextSlot(s)].value == storage
    ensures forall k | 0 <= k < |s.torrents| && k != NextSlot(s) ::
              Filled(s, storage).torrents[k] == s.torrents[k]
    ensures |Filled(s, storage).torrents| == if s.free == [] then |s.torrents| + 1 else |s.torrents|
  {
    var after := Filled(s, storage);
    if s.free != [] {
      var last := |s.free| - 1;
      forall k | 0 <= k < |after.torrents| && after.torrents[k].None?
        ensures k in after.free
      {
        var i :| 0 <= i < |s.free| && s.free[i] == k;
        assert after.free[i] == k;
      }
    }
  }

  /** Removing is right exactly when the slot is in use; on an empty slot it would be handed out twice. */
  lemma RemoveTorrentKeepsIff<T>(s: Slots<T>, idx: nat)
    requires SlotsInv(s) && idx < |s.torrents|
    ensures SlotsInv(Vacated(s, idx)) <==> IsLive(s, idx)
  {
    var after := Vacated(s, idx);
    if IsLive(s, idx) {
      forall k | 0 <= k < |after.torrents| && after.torrents[k].None?
        ensures k in after.free
      {
        if k == idx {
          assert after.free[|s.free|] == k;
        } else {
          var i :| 0 <= i < |s.free| && s.free[i] == k;
          assert after.free[i] == k;
        }
      }
    } else {
      var i :| 0 <= i < |s.free| && s.free[i] == idx;
      assert after.free[i] == after.free[|s.free|];
    }
  }

  /** The slot that was emptied last is the first to be used again, and then the stack is as it was. */
  lemma LastEmptiedFirst<T>(s: Slots<T>, idx: nat, storage: T)
    requires SlotsInv(s) && IsLive(s, idx)
    ensures SlotsInv(Vacated(s, idx)) && NextSlot(Vacated(s, idx)) == idx
    ensures Filled(Vacated(s, idx), storage) == s.(torrents := s.torrents[idx := Some(storage)])
  {
    RemoveTorrentKeepsIff(s, idx);
  }

  // ----- runs

  datatype Request<T> = New(storage: T) | Remove(idx: nat)

  ghost predicate Allowed<T>(s: Slots<T>, r: Request<T>) {
    r.Remove? ==> IsLive(s, r.idx)
  }

  ghost function Step<T>(s: Slots<T>, r: Request<T>): Slots<T>
    requires SlotsInv(s) && Allowed(s, r)
    ensures SlotsInv(Step(s, r))
  {
    match r
    case New(storage) => NewTorrentKeeps(s, storage); Filled(s, storage)
    case Remove(idx) => RemoveTorrentKeepsIff(s, idx); Vacated(s, idx)
  }

  ghost predicate AllAllowed<T>(s: Slots<T>, run: seq<Request<T>>)
    requires SlotsInv(s)
    decreases |run|
  {
    run == [] || (Allowed(s, run[0]) && AllAllowed(Step(s, run[0]), run[1..]))
  }

  ghost function Run<T>(s: Slots<T>, run: seq<Request<T>>): (after: Slots<T>)
    requires SlotsInv(s) && AllAllowed(s, run)
    ensures SlotsInv(after)
    decreases |run|
  {
    if run == [] then s else Run(Step(s, run[0]), run[1..])
  }

  /** A storage stays in its slot through every run that does not remove it. */
  lemma {:induction false} StorageStays<T>(s: Slots<T>, run: seq<Request<T>>, idx: nat)
    requires SlotsInv(s) && AllAllowed(s, run) && IsLive(s, idx)
    requires forall i | 0 <= i < |run| :: run[i] != Remove(idx)
    ensures IsLive(Run(s, run), idx) && Run(s, run).torrents[idx] == s.torrents[idx]
    decreases |run|
  {
    if run != [] {
      if run[0].New? {
        NewTorrentKeeps(s, run[0].storage);
      }
      StorageStays(Step(s, run[0]), run[1..], idx);
    }
  }

  ghost function LiveCount<T>(torrents: seq<Option<T>>): nat
    decreases |torrents|
  {
    if torrents == [] then 0
    else LiveCount(torrents[..|torrents| - 1]) + if torrents[|torrents| - 1].Some? then 1 else 0
  }

  lemma {:induction false} LiveCountUpdate<T>(torrents: seq<Option<T>>, k: nat, t: Option<T>)
    requires k < |torrents|
    ensures LiveCount(torrents[k := t]) + (if torrents[k].Some? then 1 else 0)
            == LiveCount(torrents) + (if t.Some? then 1 else 0)
    decreases |torrents|
  {
    var last := |torrents| - 1;
    if k < last {
      assert torrents[k := t][..last] == torrents[..last][k := t];
      LiveCountUpdate(torrents[..last], k, t);
    } else {
      assert torrents[k := t][..last] == torrents[..last];
    }
  }

  /** The most torrents that were in the session at once. */
  ghost function Peak<T>(s: Slots<T>, run: seq<Request<T>>): (peak: nat)
    requires SlotsInv(s) && AllAllowed(s, run)
    ensures peak >= LiveCount(s.torrents)
    decreases |run|
  {
    if run == [] then LiveCount(s.torrents)
    else
      var rest := Peak(Step(s, run[0]), run[1..]);
      if rest > LiveCount(s.torrents) then rest else LiveCount(s.torrents)
  }

  ghost function Empty<T>(): (s: Slots<T>)
    ensures SlotsInv(s)
  {
    Slots([], [])
  }

  /** One step counts live torrents right, and the table stays as long as what is in it and free. */
  lemma StepCounts<T>(s: Slots<T>, r: Request<T>)
    requires SlotsInv(s) && Allowed(s, r) && |s.torrents| == LiveCount(s.torrents) + |s.free|
    ensures var after := Step(s, r);
            && |after.torrents| == LiveCount(after.torrents) + |after.free|
            && LiveCount(after.torrents) == LiveCount(s.torrents) + (if r.New? then 1 else -1)
            && |after.torrents| == (if r.New? && s.free == [] then |s.torrents| + 1 else |s.torrents|)
  {
    match r {
      case New(storage) =>
        if s.free == [] {
          assert (s.torrents + [Some(storage)])[..|s.torrents|] == s.torrents;
        } else {
          LiveCountUpdate(s.torrents, NextSlot(s), Some(storage));
        }
      case Remove(idx) =>
        LiveCountUpdate(s.torrents, idx, None);
    }
  }

  lemma {:induction false} TableFollowsPeak<T>(s: Slots<T>, run: seq<Request<T>>)
    requires SlotsInv(s) && AllAllowed(s, run) && |s.torrents| == LiveCount(s.torrents) + |s.free|
    ensures |Run(s, run).torrents| == if Peak(s, run) > |s.torrents| then Peak(s, run) else |s.torrents|
    decreases |run|
  {
    if run != [] {
      StepCounts(s, run[0]);
      TableFollowsPeak(Step(s, run[0]), run[1..]);
    }
  }

  /** Slots are used again: the table is never longer than the most torrents that were there at once. */
  lemma TableIsPeak<T>(run: seq<Request<T>>)
    requires AllAllowed(Empty(), run)
    ensures |Run(Empty(), run).torrents| == Peak(Empty(), run)
  {
    TableFollowsPeak(Empty(), run);
  }

  // ----- the disk interface

  /** The live storages, and the buffers of their pieces. */
  ghost function Footprint(torrents: seq<Option<TempStorage>>): set<object>
    reads set i | 0 <= i < |torrents| && torrents[i].Some? :: torrents[i].value
  {
    (set i | 0 <= i < |torrents| && torrents[i].Some? :: torrents[i].value as object)
    + (set i, p | 0 <= i < |torrents| && torrents[i].Some? && p in torrents[i].value.fileData ::
         torrents[i].value.fileData[p] as object)
  }

  /** Storages of two slots share neither the object nor a buffer. */
  ghost predicate Apart(a: TempStorage, b: TempStorage)
    reads a, b
  {
    a != b && a.fileData.Values !! b.fileData.Values
  }

  ghost predicate StoragesValid(torrents: seq<Option<TempStorage>>)
    reads Footprint(torrents)
  {
    && (forall i: nat | i < |torrents| && torrents[i].Some? :: torrents[i].value.Valid())
    && (forall i: nat, j: nat | i < |torrents| && j < |torrents| && i != j && torrents[i].Some? && torrents[j].Some? ::
          Apart(torrents[i].value, torrents[j].value))
  }

  lemma FilledStoragesValid(s: Slots<TempStorage>, storage: TempStorage)
    requires SlotsInv(s) && StoragesValid(s.torrents) && storage.Valid() && storage.fileData == map[]
    requires forall i | 0 <= i < |s.torrents| && s.torrents[i].Some? :: s.torrents[i].value != storage
    ensures StoragesValid(Filled(s, storage).torrents)
  {
    var after := Filled(s, storage).torrents;
    var idx := NextSlot(s);
    assert forall i | 0 <= i < |after| && i != idx :: i < |s.torrents| && after[i] == s.torrents[i];
    assert after[idx] == Some(storage);
  }

  lemma VacatedStoragesValid(s: Slots<TempStorage>, idx: nat)
    requires StoragesValid(s.torrents) && idx < |s.torrents|
    ensures StoragesValid(Vacated(s, idx).torrents)
  {
    var after := Vacated(s, idx).torrents;
    assert forall i | 0 <= i < |after| && after[i].Some? :: after[i] == s.torrents[i];
  }

  /** The table of slots in which the torrents of a session keep their storages. */
  class TempDiskIo {
    var torrents: seq<Option<TempStorage>>
    var freeSlots: seq<nat>

    ghost function State(): Slots<TempStorage>
      reads `torrents, `freeSlots
    {
      Slots(torrents, freeSlots)
    }

    ghost predicate Valid()
      reads `torrents, `freeSlots, Footprint(torrents)
    {
      SlotsInv(State()) && StoragesValid(torrents)
    }

    constructor ()
      ensures Valid() && State() == Empty()
    {
      torrents, freeSlots := [], [];
    }

    /** Takes the slot on top of the stack, or appends one. */
    method TakeSlot(storage: TempStorage) returns (idx: nat)
      requires SlotsInv(State())
      modifies `torrents, `freeSlots
      ensures idx == NextSlot(old(State())) && SlotsInv(old(State()))
      ensures State() == Filled(old(State()), storage)
    {
      if freeSlots == [] {
        idx := |torrents|;
        torrents := torrents + [Some(storage)];
      } else {
        idx := freeSlots[|freeSlots| - 1];
        freeSlots := freeSlots[..|freeSlots| - 1];
        torrents := torrents[idx := Some(storage)];
      }
    }

    /** Puts a storage that is not in the table yet into the next slot. */
    method Put(storage: TempStorage) returns (idx: nat)
      requires Valid() && storage.Valid() && storage.fileData == map[]
      requires forall i | 0 <= i < |torrents| && torrents[i].Some? :: torrents[i].value != storage
      modifies `torrents, `freeSlots
      ensures Valid() && idx == NextSlot(old(State())) && SlotsInv(old(State()))
      ensures State() == Filled(old(State()), storage)
    {
      NewTorrentKeeps(State(), storage);
      FilledStoragesValid(State(), storage);
      idx := TakeSlot(storage);
    }

    method NewTorrent(total: nat, pieceLength: nat) returns (idx: nat)
      requires Valid() && pieceLength > 0
      modifies `torrents, `freeSlots
      ensures Valid() && idx == NextSlot(old(State())) && IsLive(State(), idx)
      ensures SlotsInv(old(State())) && State() == Filled(old(State()), torrents[idx].value)
      ensures fresh(torrents[idx].value) && torrents[idx].value.writes == []
      ensures torrents[idx].value.total == total && torrents[idx].value.pieceLength == pieceLength
    {
      var storage := new TempStorage(total, pieceLength);
      NewTorrentKeeps(State(), storage);
      idx := Put(storage);
    }

    method RemoveTorrent(idx: nat)
      requires Valid() && IsLive(State(), idx)
      modifies `torrents, `freeSlots
      ensures Valid() && State() == Vacated(old(State()), idx) && NextSlot(State()) == idx
    {
      ghost var was := State();
      RemoveTorrentKeepsIff(was, idx);
      VacatedStoragesValid(was, idx);
      torrents := torrents[idx := None];
      freeSlots := freeSlots + [idx];
      assert State() == Vacated(was, idx);
    }

    /** What is read is the latest that was written to this storage, whatever went on in the others. */
    method AsyncRead(idx: nat, piece: nat, start: nat, length: nat) returns (r: ReadResult)
      requires Valid() && IsLive(State(), idx)
      ensures var storage := torrents[idx].value;
              && storage.pieceLength > 0
              && (r.Data? <==> WritesTo(storage.writes, piece)
                               && start < PieceSize(storage.total, storage.pieceLength, piece))
      ensures r.Data? ==> forall o | start <= o < start + r.span.length ::
                o < r.span.buffer.Length && r.span.buffer[o] == Overlay(torrents[idx].value.writes, piece, o)
    {
      r := torrents[idx].value.Readv(piece, start, length);
    }

    /** A write reaches its own storage only. */
    method AsyncWrite(idx: nat, bytes: seq<Byte>, piece: nat, start: nat)
      requires Valid() && IsLive(State(), idx)
      requires piece < NumPieces(torrents[idx].value.total, torrents[idx].value.pieceLength)
      requires start + |bytes| <= PieceSize(torrents[idx].value.total, torrents[idx].value.pieceLength, piece)
      modifies torrents[idx].value, torrents[idx].value.fileData.Values
      ensures Valid() && State() == old(State())
      ensures torrents[idx].value.writes == old(torrents[idx].value.writes) + [Write(piece, start, bytes)]
      ensures forall i: nat | i < |torrents| && i != idx && torrents[i].Some? ::
                torrents[i].value.writes == old(torrents[i].value.writes)
    {
      ghost var own := torrents[idx].value;
      forall i: nat | i < |torrents| && i != idx && torrents[i].Some?
        ensures Apart(torrents[i].value, own)
      {
      }
      torrents[idx].value.Writev(bytes, piece, start);
      forall i: nat | i < |torrents| && i != idx && torrents[i].Some?
        ensures torrents[i].value.Valid()
        ensures Apart(torrents[i].value, own) && Apart(own, torrents[i].value)
      {
        assert torrents[i].value.fileData == old(torrents[i].value.fileData);
      }
      forall i: nat, j: nat | i < |torrents| && j < |torrents| && i != j && torrents[i].Some? && torrents[j].Some?
        ensures Apart(torrents[i].value, torrents[j].value)
      {
        if i != idx && j != idx {
          assert torrents[i].value.fileData == old(torrents[i].value.fileData);
          assert torrents[j].value.fileData == old(torrents[j].value.fileData);
        }
      }
    }
  }
}
