/**
 The downloading half of peer_conn in examples/connection_tester.cpp: a request pipeline over
 four piece lists.
 */
module PeerConns {
  import opened Sequences

  /** Pieces are indices, and this stands for "none". */
  const NO_PIECE := -1
  const MAX_OUTSTANDING := 40
  const BLOCK_SIZE := 0x4000

  /** A piece index with a block number. */
  type Block = (int, nat)

  /**
   Messages of BEP 3 ("peer messages") and BEP 6 ("Have All/Have None", "Suggest Piece", "Allowed
   Fast"). HaveAll carries the shuffled order the tester draws for the pieces.
   */
  datatype Message =
    | HaveAll(order: seq<int>)
    | PieceData(piece: int, start: nat, size: nat)
    | Suggest(piece: int)
    | AllowedFast(piece: int)
    | Choke
    | Unchoke
    | Other

  /** The one asynchronous operation the connection is waiting for. */
  datatype Waiting = Handshaking | ForMessage | ForRequestSent | ForHaveSent | Completed

  /** What to ask for: the piece lists and the place in the current piece. */
  datatype Queue = Queue(
    pieces: seq<int>,
    suggested: seq<int>,
    allowedFast: seq<int>,
    choked: bool,
    current: int,
    currentIsAllowed: bool,
    block: nat,
    haveAll: bool,     // history: a have_all message has arrived
    granted: set<int>  // history: the pieces ever moved into allowedFast
  )

  /** What was asked for and answered: two counters, and the history they count. */
  datatype Books = Books(outstanding: int, blocksReceived: nat, requests: seq<Block>, answered: set<Block>)

  datatype Torrent = Torrent(numPieces: nat, blocksPerPiece: nat)

  datatype Peer = Peer(torrent: Torrent, queue: Queue, books: Books, waiting: Waiting)

  ghost function Initial(torrent: Torrent): Peer {
    Peer(torrent, Queue([], [], [], true, NO_PIECE, false, 0, false, {}), Books(0, 0, [], {}), Handshaking)
  }

  // ----- the steps, as functions of the state before

  /** Neither choked with nothing allowed, nor out of pieces. */
  predicate MayRequest(q: Queue) {
    && !(q.choked && q.allowedFast == [] && !q.currentIsAllowed)
    && !(q.pieces == [] && q.suggested == [] && q.current == NO_PIECE)
  }

  /** Chooses the piece to request from next: allowed-fast while choked, then suggestions first. */
  ghost function PickPiece(q: Queue): Queue
    requires MayRequest(q)
  {
    if q.current != NO_PIECE then q
    else if q.choked && q.allowedFast != [] then
      q.(current := q.allowedFast[0], allowedFast := q.allowedFast[1..], currentIsAllowed := true)
    else if q.suggested != [] then
      q.(current := q.suggested[0], suggested := q.suggested[1..], currentIsAllowed := false)
    else
      q.(current := q.pieces[0], pieces := q.pieces[1..], currentIsAllowed := false)
  }

  /** Moves past the block just requested, and off the piece if that was its last. */
  ghost function Advance(q: Queue, blocksPerPiece: nat): Queue {
    if q.block + 1 == blocksPerPiece then q.(block := 0, current := NO_PIECE, currentIsAllowed := false)
    else q.(block := q.block + 1)
  }

  ghost function Enter(books: Books, b: Block): Books {
    books.(requests := books.requests + [b], outstanding := books.outstanding + 1)
  }

  ghost predicate IsComplete(s: Peer) {
    && s.queue.pieces == [] && s.queue.suggested == [] && s.queue.current == NO_PIECE
    && s.books.outstanding == 0 && s.books.blocksReceived >= s.torrent.numPieces * s.torrent.blocksPerPiece
  }

  ghost function SendRequest(s: Peer): Peer
    requires MayRequest(s.queue)
  {
    var q := PickPiece(s.queue);
    s.(queue := Advance(q, s.torrent.blocksPerPiece), books := Enter(s.books, (q.current, q.block)),
       waiting := ForRequestSent)
  }

  ghost function WorkDownload(s: Peer): (t: Peer)
    ensures t.torrent == s.torrent
  {
    if IsComplete(s) then s.(waiting := Completed)
    else if s.books.outstanding < MAX_OUTSTANDING && MayRequest(s.queue) then SendRequest(s)
    else s.(waiting := ForMessage)
  }

  /** Moves a piece from the main list to the back of another, if it is on the main list. */
  ghost function Without(s: seq<int>, piece: int): seq<int> {
    var i := IndexOf(s, piece);
    if i < |s| then s[..i] + s[i + 1..] else s
  }

  ghost function AbsorbQueue(q: Queue, m: Message): Queue {
    match m
    case HaveAll(order) => q.(pieces := order, haveAll := true)
    case PieceData(_, _, _) => q
    case Suggest(piece) =>
      if piece !in q.pieces then q
      else q.(pieces := Without(q.pieces, piece), suggested := q.suggested + [piece])
    case AllowedFast(piece) =>
      if piece !in q.pieces then q
      else q.(pieces := Without(q.pieces, piece), allowedFast := q.allowedFast + [piece],
              granted := q.granted + {piece})
    case Choke => q.(choked := true)
    case Unchoke => q.(choked := false)
    case Other => q
  }

  /** What a message does to the queue and the books, before any new request is considered. */
  ghost function Absorb(s: Peer, m: Message): Peer {
    var books :=
      if m.PieceData? then
        s.books.(blocksReceived := s.books.blocksReceived + 1, outstanding := s.books.outstanding - 1,
                 answered := s.books.answered + {(m.piece, m.start / BLOCK_SIZE)})
      else s.books;
    s.(queue := AbsorbQueue(s.queue, m), books := books)
  }

  /** The tester announces a piece when this block was its last; the message is 9 bytes longer than its data. */
  predicate EndsPiece(blocksPerPiece: nat, m: Message) {
    m.PieceData? && (m.start + (9 + m.size)) / BLOCK_SIZE == blocksPerPiece
  }

  datatype Event = Handshaken | Received(m: Message) | RequestSent | HaveSent

  ghost function Step(s: Peer, e: Event): (t: Peer)
    ensures t.torrent == s.torrent
  {
    match e
    case Handshaken => WorkDownload(s)
    case RequestSent => WorkDownload(s)
    case HaveSent => s.(waiting := ForMessage)
    case Received(m) =>
      if EndsPiece(s.torrent.blocksPerPiece, m) then Absorb(s, m).(waiting := ForHaveSent)
      else WorkDownload(Absorb(s, m))
  }

  // ----- which messages the properties cover

  ghost predicate IsShuffle(order: seq<int>, n: nat) {
    multiset(order) == multiset(seq(n, i => i))
  }

  /** One have_all; data only for a whole block that was requested and not answered yet. */
  ghost predicate Legal(s: Peer, m: Message) {
    match m
    case HaveAll(order) => !s.queue.haveAll && IsShuffle(order, s.torrent.numPieces)
    case PieceData(piece, start, size) =>
      && start % BLOCK_SIZE == 0 && size == BLOCK_SIZE
      && (piece, start / BLOCK_SIZE) in s.books.requests && (piece, start / BLOCK_SIZE) !in s.books.answered
    case _ => true
  }

  ghost predicate Enabled(s: Peer, e: Event) {
    match e
    case Handshaken => s.waiting == Handshaking
    case RequestSent => s.waiting == ForRequestSent
    case HaveSent => s.waiting == ForHaveSent
    case Received(m) => s.waiting == ForMessage && Legal(s, m)
  }

  /** The events, taken in order, are each possible and lead from s to t. */
  ghost predicate Run(s: Peer, events: seq<Event>, t: Peer)
    decreases |events|
  {
    if events == [] then s == t
    else Enabled(s, events[0]) && Run(Step(s, events[0]), events[1..], t)
  }

  // ----- the invariant

  /** The pieces not fully requested yet, with multiplicity. */
  ghost function Pending(q: Queue): multiset<int> {
    multiset(q.pieces) + multiset(q.suggested) + multiset(q.allowedFast)
    + (if q.current == NO_PIECE then multiset{} else multiset{q.current})
  }

  predicate IsBlock(torrent: Torrent, b: Block) {
    0 <= b.0 < torrent.numPieces && b.1 < torrent.blocksPerPiece
  }

  /** The queue's view of what has been requested: all of a piece it has let go of, part of the current one. */
  ghost predicate LetGo(torrent: Torrent, q: Queue, b: Block) {
    q.haveAll && IsBlock(torrent, b) && (b.0 !in Pending(q) || (b.0 == q.current && b.1 < q.block))
  }

  ghost predicate QueueInOrder(torrent: Torrent, q: Queue) {
    && (forall p | p in Pending(q) :: 0 <= p < torrent.numPieces && Pending(q)[p] == 1)
    && (q.current == NO_PIECE ==> q.block == 0 && !q.currentIsAllowed)
    && q.block < torrent.blocksPerPiece
    && (!q.haveAll ==> Pending(q) == multiset{})
  }

  ghost predicate RequestsInOrder(torrent: Torrent, q: Queue, requests: seq<Block>) {
    && Distinct(requests)
    && (!q.haveAll ==> requests == [])
    && (forall b: Block :: b in requests <==> LetGo(torrent, q, b))
  }

  ghost predicate CountsInOrder(books: Books) {
    && (forall b | b in books.answered :: b in books.requests)
    && |books.answered| == books.blocksReceived
    && books.outstanding == |books.requests| - |books.answered|
    && 0 <= books.outstanding <= MAX_OUTSTANDING
  }

  ghost predicate GrantsInOrder(torrent: Torrent, q: Queue) {
    && (forall p | p in q.allowedFast :: p in q.granted)
    && (forall p | p in q.pieces || p in q.suggested :: p !in q.granted)
    && (q.current != NO_PIECE ==> (q.current in q.granted <==> q.currentIsAllowed))
    && (forall p | p in q.granted :: q.haveAll && 0 <= p < torrent.numPieces)
  }

  ghost predicate Inv(s: Peer) {
    && QueueInOrder(s.torrent, s.queue)
    && RequestsInOrder(s.torrent, s.queue, s.books.requests)
    && CountsInOrder(s.books)
    && GrantsInOrder(s.torrent, s.queue)
    && (s.waiting == Completed ==> IsComplete(s))
  }

  lemma InitialInv(torrent: Torrent)
    requires torrent.blocksPerPiece >= 1
    ensures Inv(Initial(torrent))
  {
  }

  // ----- picking a piece and sending a request

  lemma FrontMoves(s: seq<int>)
    requires s != []
    ensures multiset(s) == multiset(s[1..]) + multiset{s[0]}
  {
    assert s == [s[0]] + s[1..];
  }

  /** Which blocks count as requested depends on little, so most steps leave it alone. */
  lemma SameRequests(torrent: Torrent, q: Queue, r: Queue, requests: seq<Block>)
    requires RequestsInOrder(torrent, q, requests)
    requires Pending(r) == Pending(q) && r.haveAll == q.haveAll
    requires r.block == q.block && (r.current == q.current || r.block == 0)
    ensures RequestsInOrder(torrent, r, requests)
  {
    forall b: Block
      ensures b in requests <==> LetGo(torrent, r, b)
    {
      assert LetGo(torrent, r, b) == LetGo(torrent, q, b);
    }
  }

  /** Picking moves a piece from one list to "current". */
  lemma PickMoves(torrent: Torrent, q: Queue)
    requires QueueInOrder(torrent, q) && MayRequest(q)
    ensures Pending(PickPiece(q)) == Pending(q)
    ensures PickPiece(q).current != NO_PIECE
  {
    if q.current == NO_PIECE {
      var from := if q.choked && q.allowedFast != [] then q.allowedFast else if q.suggested != [] then q.suggested else q.pieces;
      FrontMoves(from);
      assert from[0] in Pending(q);
    }
  }

  lemma PickKeeps(torrent: Torrent, q: Queue, requests: seq<Block>)
    requires QueueInOrder(torrent, q) && RequestsInOrder(torrent, q, requests) && GrantsInOrder(torrent, q)
    requires MayRequest(q)
    ensures
      var r := PickPiece(q);
      && r.current != NO_PIECE
      && QueueInOrder(torrent, r) && RequestsInOrder(torrent, r, requests) && GrantsInOrder(torrent, r)
  {
    PickMoves(torrent, q);
    SameRequests(torrent, q, PickPiece(q), requests);
  }

  /** Advancing takes the piece out of the pending ones exactly when this was its last block. */
  lemma AdvanceMoves(torrent: Torrent, q: Queue)
    requires QueueInOrder(torrent, q) && q.current != NO_PIECE
    ensures q.current in Pending(q) && q.haveAll
    ensures Pending(Advance(q, torrent.blocksPerPiece)) ==
            if q.block + 1 == torrent.blocksPerPiece then Pending(q) - multiset{q.current} else Pending(q)
  {
    if q.block + 1 == torrent.blocksPerPiece {
      assert Pending(q) == Pending(Advance(q, torrent.blocksPerPiece)) + multiset{q.current};
    }
  }

  lemma AdvanceKeepsQueue(torrent: Torrent, q: Queue)
    requires QueueInOrder(torrent, q) && q.current != NO_PIECE
    ensures QueueInOrder(torrent, Advance(q, torrent.blocksPerPiece))
  {
    AdvanceMoves(torrent, q);
    var r := Advance(q, torrent.blocksPerPiece);
    forall p | p in Pending(r)
      ensures 0 <= p < torrent.numPieces && Pending(r)[p] == 1
    {
      assert p in Pending(q);
    }
  }

  /** Advancing lets go of the block it moves past, and of no other. */
  lemma AdvanceLetsGo(torrent: Torrent, q: Queue, b: Block)
    requires QueueInOrder(torrent, q) && q.current != NO_PIECE
    ensures LetGo(torrent, Advance(q, torrent.blocksPerPiece), b) <==>
            LetGo(torrent, q, b) || b == (q.current, q.block)
  {
    AdvanceMoves(torrent, q);
    assert q.current in Pending(q) && Pending(q)[q.current] == 1;
    var r := Advance(q, torrent.blocksPerPiece);
    if b.0 == q.current {
      assert b.0 in Pending(r) <==> q.block + 1 != torrent.blocksPerPiece;
    } else {
      assert b.0 in Pending(r) <==> b.0 in Pending(q);
    }
  }

  /** The block about to be requested is new, and afterwards exactly one more has been let go. */
  lemma AdvanceRequests(torrent: Torrent, q: Queue, requests: seq<Block>)
    requires QueueInOrder(torrent, q) && RequestsInOrder(torrent, q, requests) && q.current != NO_PIECE
    ensures (q.current, q.block) !in requests
    ensures RequestsInOrder(torrent, Advance(q, torrent.blocksPerPiece), requests + [(q.current, q.block)])
  {
    var sent: Block := (q.current, q.block);
    AdvanceMoves(torrent, q);
    assert !LetGo(torrent, q, sent);
    forall b: Block
      ensures b in requests + [sent] <==> LetGo(torrent, Advance(q, torrent.blocksPerPiece), b)
    {
      AdvanceLetsGo(torrent, q, b);
      assert b in requests + [sent] <==> b in requests || b == sent;
    }
  }

  lemma EnterKeepsCounts(books: Books, b: Block)
    requires CountsInOrder(books) && books.outstanding < MAX_OUTSTANDING
    ensures CountsInOrder(Enter(books, b))
  {
    assert forall c | c in books.requests :: c in books.requests + [b];
  }

  lemma SendKeepsInv(s: Peer)
    requires Inv(s) && MayRequest(s.queue) && s.books.outstanding < MAX_OUTSTANDING
    ensures Inv(SendRequest(s))
  {
    var q := PickPiece(s.queue);
    PickKeeps(s.torrent, s.queue, s.books.requests);
    AdvanceKeepsQueue(s.torrent, q);
    AdvanceRequests(s.torrent, q, s.books.requests);
    EnterKeepsCounts(s.books, (q.current, q.block));
  }

  lemma WorkKeepsInv(s: Peer)
    requires Inv(s) && s.waiting != Completed
    ensures Inv(WorkDownload(s))
  {
    if !IsComplete(s) && s.books.outstanding < MAX_OUTSTANDING && MayRequest(s.queue) {
      SendKeepsInv(s);
    }
  }

  /** A shuffle of 0..n holds each of these numbers once and nothing else. */
  lemma {:induction false} CountsOfRange(n: nat, p: int)
    ensures multiset(seq(n, i => i))[p] == if 0 <= p < n then 1 else 0
  {
    if n > 0 {
      CountsOfRange(n - 1, p);
      assert seq(n, i => i) == seq(n - 1, i => i) + [n - 1];
    }
  }

  ghost function Elements(s: seq<Block>): set<Block> {
    set b | b in s
  }

  lemma {:induction false} DistinctElements(s: seq<Block>)
    requires Distinct(s)
    ensures |Elements(s)| == |s|
    decreases |s|
  {
    if s != [] {
      var last := |s| - 1;
      DistinctElements(s[..last]);
      assert s == s[..last] + [s[last]];
      assert Elements(s) == Elements(s[..last]) + {s[last]};
    }
  }

  ghost function Row(p: int, blocks: nat): set<Block> {
    set b: nat | b < blocks :: (p, b)
  }

  lemma {:induction false} RowSize(p: int, blocks: nat)
    ensures |Row(p, blocks)| == blocks
  {
    if blocks > 0 {
      RowSize(p, blocks - 1);
      assert Row(p, blocks) == Row(p, blocks - 1) + {(p, blocks - 1)};
    }
  }

  /** Every block of every piece. */
  ghost function Grid(pieces: nat, blocks: nat): set<Block> {
    set p: int, b: nat | 0 <= p < pieces && b < blocks :: (p, b)
  }

  lemma {:induction false} GridSize(pieces: nat, blocks: nat)
    ensures |Grid(pieces, blocks)| == pieces * blocks
  {
    if pieces > 0 {
      GridSize(pieces - 1, blocks);
      RowSize(pieces - 1, blocks);
      assert Grid(pieces, blocks) == Grid(pieces - 1, blocks) + Row(pieces - 1, blocks);
      assert pieces * blocks == (pieces - 1) * blocks + blocks;
    }
  }

  lemma SubsetSize(a: set<Block>, b: set<Block>)
    requires a <= b
    ensures |a| <= |b| && (|a| == |b| ==> a == b)
  {
    assert b == a + (b - a);
    assert |b| == |a| + |b - a|;
  }

  // ----- one message

  lemma ShuffleCounts(order: seq<int>, n: nat)
    requires IsShuffle(order, n)
    ensures forall p: int :: multiset(order)[p] == if 0 <= p < n then 1 else 0
    ensures forall p :: p in order <==> 0 <= p < n
  {
    forall p: int
      ensures multiset(order)[p] == if 0 <= p < n then 1 else 0
    {
      CountsOfRange(n, p);
    }
    forall p: int
      ensures p in order <==> 0 <= p < n
    {
      assert p in order <==> p in multiset(order);
    }
  }

  /** With nothing asked for and no piece moved, the list may be filled. */
  lemma FillKeeps(torrent: Torrent, q: Queue, order: seq<int>)
    requires QueueInOrder(torrent, q) && GrantsInOrder(torrent, q) && RequestsInOrder(torrent, q, [])
    requires q.suggested == [] && q.allowedFast == [] && q.current == NO_PIECE && IsShuffle(order, torrent.numPieces)
    ensures
      var r := AbsorbQueue(q, HaveAll(order));
      QueueInOrder(torrent, r) && GrantsInOrder(torrent, r) && RequestsInOrder(torrent, r, [])
  {
    var r := AbsorbQueue(q, HaveAll(order));
    ShuffleCounts(order, torrent.numPieces);
    assert Pending(r) == multiset(order) && Pending(q) == multiset(q.pieces);
    forall p | p in r.pieces
      ensures p !in r.granted
    {
      assert !LetGo(torrent, q, (p, 0));
    }
    forall b: Block
      ensures !LetGo(torrent, r, b)
    {
      assert IsBlock(torrent, b) ==> b.0 in Pending(r);
    }
  }

  lemma HaveAllKeepsInv(s: Peer, order: seq<int>)
    requires Inv(s) && !s.queue.haveAll && IsShuffle(order, s.torrent.numPieces) && s.waiting == ForMessage
    ensures Inv(Absorb(s, HaveAll(order)))
  {
    var q := s.queue;
    assert |Pending(q)| == 0;
    FillKeeps(s.torrent, q, order);
  }

  lemma PieceDataKeepsInv(s: Peer, m: Message)
    requires Inv(s) && m.PieceData? && Legal(s, m) && s.waiting == ForMessage
    ensures Inv(Absorb(s, m))
  {
    var b: Block := (m.piece, m.start / BLOCK_SIZE);
    DistinctElements(s.books.requests);
    SubsetSize(s.books.answered + {b}, Elements(s.books.requests));
  }

  /** A piece on the main list is nowhere else, and taking it out leaves no second copy. */
  lemma MoveOut(torrent: Torrent, q: Queue, piece: int)
    requires QueueInOrder(torrent, q) && piece in q.pieces
    ensures multiset(q.pieces) == multiset(Without(q.pieces, piece)) + multiset{piece}
    ensures piece !in Without(q.pieces, piece) && forall p | p in Without(q.pieces, piece) :: p in q.pieces
    ensures piece in Pending(q) && piece != q.current && piece !in q.suggested && piece !in q.allowedFast
  {
    var i := IndexOf(q.pieces, piece);
    assert q.pieces == q.pieces[..i] + [piece] + q.pieces[i + 1..];
    assert Pending(q)[piece] == 1;
    assert multiset(Without(q.pieces, piece))[piece] == 0;
  }

  lemma MovePending(torrent: Torrent, q: Queue, m: Message)
    requires QueueInOrder(torrent, q) && (m.Suggest? || m.AllowedFast?) && m.piece in q.pieces
    ensures Pending(AbsorbQueue(q, m)) == Pending(q)
  {
    MoveOut(torrent, q, m.piece);
    AppendCounts(if m.Suggest? then q.suggested else q.allowedFast, m.piece);
  }

  lemma AppendCounts(list: seq<int>, piece: int)
    ensures multiset(list + [piece]) == multiset(list) + multiset{piece}
  {
  }

  lemma MoveGrants(torrent: Torrent, q: Queue, m: Message)
    requires QueueInOrder(torrent, q) && GrantsInOrder(torrent, q)
    requires (m.Suggest? || m.AllowedFast?) && m.piece in q.pieces
    ensures GrantsInOrder(torrent, AbsorbQueue(q, m))
  {
    MoveOut(torrent, q, m.piece);
    assert q.haveAll;
  }

  lemma MoveKeepsInv(s: Peer, m: Message)
    requires Inv(s) && (m.Suggest? || m.AllowedFast?) && s.waiting == ForMessage
    ensures Inv(Absorb(s, m))
  {
    if m.piece in s.queue.pieces {
      MovePending(s.torrent, s.queue, m);
      MoveGrants(s.torrent, s.queue, m);
      SameRequests(s.torrent, s.queue, AbsorbQueue(s.queue, m), s.books.requests);
    }
  }

  lemma ChokeKeepsQueue(torrent: Torrent, q: Queue, choked: bool, requests: seq<Block>)
    requires QueueInOrder(torrent, q) && GrantsInOrder(torrent, q) && RequestsInOrder(torrent, q, requests)
    ensures
      var r := q.(choked := choked);
      QueueInOrder(torrent, r) && GrantsInOrder(torrent, r) && RequestsInOrder(torrent, r, requests)
  {
    var r := q.(choked := choked);
    assert Pending(r) == Pending(q);
    SameRequests(torrent, q, r, requests);
  }

  lemma ChokeKeepsInv(s: Peer, m: Message)
    requires Inv(s) && (m.Choke? || m.Unchoke? || m.Other?) && s.waiting == ForMessage
    ensures Inv(Absorb(s, m))
  {
    var r := AbsorbQueue(s.queue, m);
    ChokeKeepsQueue(s.torrent, s.queue, r.choked, s.books.requests);
    assert r == s.queue.(choked := r.choked);
  }

  lemma AbsorbKeepsInv(s: Peer, m: Message)
    requires Inv(s) && s.waiting == ForMessage && Legal(s, m)
    ensures Inv(Absorb(s, m))
  {
    match m {
      case HaveAll(order) => HaveAllKeepsInv(s, order);
      case PieceData(_, _, _) => PieceDataKeepsInv(s, m);
      case Suggest(_) => MoveKeepsInv(s, m);
      case AllowedFast(_) => MoveKeepsInv(s, m);
      case _ => ChokeKeepsInv(s, m);
    }
  }

  lemma StepKeepsInv(s: Peer, e: Event)
    requires Inv(s) && Enabled(s, e)
    ensures Inv(Step(s, e))
  {
    match e {
      case Received(m) =>
        AbsorbKeepsInv(s, m);
        if !EndsPiece(s.torrent.blocksPerPiece, m) {
          WorkKeepsInv(Absorb(s, m));
        }
      case HaveSent =>
      case _ => WorkKeepsInv(s);
    }
  }

  lemma {:induction false} RunKeepsInv(s: Peer, events: seq<Event>, t: Peer)
    requires Inv(s) && Run(s, events, t)
    ensures Inv(t) && t.torrent == s.torrent
    decreases |events|
  {
    if events != [] {
      StepKeepsInv(s, events[0]);
      RunKeepsInv(Step(s, events[0]), events[1..], t);
    }
  }

  // ----- what holds in every run

  /** In how many of the five places a piece is: the three lists, "current", or fully requested. */
  ghost function Places(s: Peer, p: int): nat {
    multiset(s.queue.pieces)[p] + multiset(s.queue.suggested)[p] + multiset(s.queue.allowedFast)[p]
    + (if s.queue.current == p then 1 else 0)
    + (if forall b: nat | b < s.torrent.blocksPerPiece :: (p, b) in s.books.requests then 1 else 0)
  }

  /** Once have_all has arrived, every piece is in exactly one place, in every run. */
  lemma EachPieceInOnePlace(torrent: Torrent, events: seq<Event>, t: Peer, p: int)
    requires torrent.blocksPerPiece >= 1 && Run(Initial(torrent), events, t)
    requires t.queue.haveAll && 0 <= p < torrent.numPieces
    ensures Places(t, p) == 1
  {
    InitialInv(torrent);
    RunKeepsInv(Initial(torrent), events, t);
    var last: nat := torrent.blocksPerPiece - 1;
    if p in Pending(t.queue) {
      assert !LetGo(torrent, t.queue, (p, last));
      assert (p, last) !in t.books.requests;
    } else {
      forall b: nat | b < torrent.blocksPerPiece
        ensures (p, b) in t.books.requests
      {
        assert LetGo(torrent, t.queue, (p, b));
      }
    }
  }

  /** No block is ever requested twice, and the pipeline counter is exact and bounded. */
  lemma RequestsAreExact(torrent: Torrent, events: seq<Event>, t: Peer)
    requires torrent.blocksPerPiece >= 1 && Run(Initial(torrent), events, t)
    ensures Distinct(t.books.requests)
    ensures forall b | b in t.books.requests :: IsBlock(torrent, b)
    ensures forall b: Block :: b in t.books.answered <==> Delivered(events, b)
    ensures forall b | b in t.books.answered :: b in t.books.requests
    ensures t.books.outstanding == |t.books.requests| - |t.books.answered|
    ensures 0 <= t.books.outstanding <= 40
  {
    AnsweredIff(torrent, events, t);
    InitialInv(torrent);
    RunKeepsInv(Initial(torrent), events, t);
    forall b | b in t.books.requests
      ensures IsBlock(torrent, b)
    {
      assert LetGo(torrent, t.queue, b);
    }
  }

  /** "COMPLETED DOWNLOAD" is reported only after every block was requested once and answered. */
  lemma CompletedMeansDelivered(torrent: Torrent, events: seq<Event>, t: Peer)
    requires torrent.blocksPerPiece >= 1 && Run(Initial(torrent), events, t)
    requires t.waiting == Completed
    ensures |t.books.requests| == torrent.numPieces * torrent.blocksPerPiece && Distinct(t.books.requests)
    ensures forall b: Block | IsBlock(torrent, b) :: b in t.books.requests && b in t.books.answered
  {
    RequestsAreExact(torrent, events, t);
    InitialInv(torrent);
    RunKeepsInv(Initial(torrent), events, t);
    var grid := Grid(torrent.numPieces, torrent.blocksPerPiece);
    GridSize(torrent.numPieces, torrent.blocksPerPiece);
    DistinctElements(t.books.requests);
    SubsetSize(t.books.answered, Elements(t.books.requests));
    SubsetSize(Elements(t.books.requests), grid);
    forall b: Block | IsBlock(torrent, b)
      ensures b in t.books.requests && b in t.books.answered
    {
      assert b in grid;
    }
  }

  // ----- where the code falls short

  /** No piece has left the list of pieces yet. */
  ghost predicate Untouched(s: Peer) {
    && s.queue.suggested == [] && s.queue.allowedFast == [] && s.queue.current == NO_PIECE
    && s.books.requests == []
  }

  /** A piece that waits somewhere else comes to be in two places. */
  lemma LateHaveAllDoubles(torrent: Torrent, q: Queue, order: seq<int>, p: int)
    requires QueueInOrder(torrent, q) && IsShuffle(order, torrent.numPieces)
    requires p in q.suggested || p in q.allowedFast || (p == q.current && p != NO_PIECE)
    ensures !QueueInOrder(torrent, AbsorbQueue(q, HaveAll(order)))
  {
    assert p in Pending(q);
    ShuffleCounts(order, torrent.numPieces);
    assert Pending(AbsorbQueue(q, HaveAll(order)))[p] >= 2;
  }

  /** A requested block of a piece that is not under way looks unrequested again. */
  lemma LateHaveAllForgets(torrent: Torrent, q: Queue, order: seq<int>, requests: seq<Block>, b: Block)
    requires RequestsInOrder(torrent, q, requests) && IsShuffle(order, torrent.numPieces)
    requires b in requests && b.0 != q.current
    ensures !RequestsInOrder(torrent, AbsorbQueue(q, HaveAll(order)), requests)
  {
    assert LetGo(torrent, q, b);
    ShuffleCounts(order, torrent.numPieces);
    assert !LetGo(torrent, AbsorbQueue(q, HaveAll(order)), b);
  }

  lemma LateHaveAllRepeats(s: Peer, order: seq<int>)
    requires Inv(s) && s.queue.haveAll && IsShuffle(order, s.torrent.numPieces) && !Untouched(s)
    ensures !Inv(Absorb(s, HaveAll(order)))
  {
    var q := s.queue;
    if q.suggested != [] {
      LateHaveAllDoubles(s.torrent, q, order, q.suggested[0]);
    } else if q.allowedFast != [] {
      LateHaveAllDoubles(s.torrent, q, order, q.allowedFast[0]);
    } else if q.current != NO_PIECE {
      LateHaveAllDoubles(s.torrent, q, order, q.current);
    } else {
      assert LetGo(s.torrent, q, s.books.requests[0]);
      LateHaveAllForgets(s.torrent, q, order, s.books.requests, s.books.requests[0]);
    }
  }

  /**
   A second have_all puts every piece back on the list. That keeps the books exactly when
   no piece has left the list yet.
   */
  lemma SecondHaveAll(s: Peer, order: seq<int>)
    requires Inv(s) && s.waiting == ForMessage && s.queue.haveAll && IsShuffle(order, s.torrent.numPieces)
    ensures Inv(Absorb(s, HaveAll(order))) <==> Untouched(s)
  {
    if Untouched(s) {
      FillKeeps(s.torrent, s.queue, order);
    } else {
      LateHaveAllRepeats(s, order);
    }
  }

  // ----- what the messages so far decide

  /** Every run that ends in a step is a shorter run with that step after it. */
  lemma {:induction false} RunBack(s: Peer, events: seq<Event>, t: Peer) returns (before: Peer)
    requires Run(s, events, t) && events != []
    ensures
      var last := |events| - 1;
      Run(s, events[..last], before) && Enabled(before, events[last]) && t == Step(before, events[last])
    decreases |events|
  {
    if |events| == 1 {
      before := s;
    } else {
      before := RunBack(Step(s, events[0]), events[1..], t);
      assert events[1..][..|events| - 2] == events[..|events| - 1][1..];
    }
  }

  /** An unchoke has arrived, and no choke since. */
  ghost predicate Unchoked(events: seq<Event>) {
    exists i | 0 <= i < |events| ::
      events[i] == Received(Unchoke) && forall j | i < j < |events| :: events[j] != Received(Choke)
  }

  lemma UnchokedAfter(events: seq<Event>, e: Event)
    ensures Unchoked(events + [e]) <==> e == Received(Unchoke) || (e != Received(Choke) && Unchoked(events))
  {
    var all := events + [e];
    assert all[|events|] == e && forall i | 0 <= i < |events| :: all[i] == events[i];
    if Unchoked(events) && e != Received(Choke) {
      var i :| 0 <= i < |events| && events[i] == Received(Unchoke)
               && forall j | i < j < |events| :: events[j] != Received(Choke);
      assert all[i] == Received(Unchoke);
    }
    if Unchoked(all) && e != Received(Unchoke) {
      var i :| 0 <= i < |all| && all[i] == Received(Unchoke) && forall j | i < j < |all| :: all[j] != Received(Choke);
      assert events[i] == Received(Unchoke);
    }
  }

  lemma WorkChokesNothing(s: Peer)
    ensures WorkDownload(s).queue.choked == s.queue.choked && WorkDownload(s).queue.haveAll == s.queue.haveAll
  {
  }

  lemma StepChokes(s: Peer, e: Event)
    ensures Step(s, e).queue.choked <==> e == Received(Choke) || (s.queue.choked && e != Received(Unchoke))
    ensures Step(s, e).queue.haveAll <==> s.queue.haveAll || (e.Received? && e.m.HaveAll?)
  {
    WorkChokesNothing(s);
    if e.Received? {
      WorkChokesNothing(Absorb(s, e.m));
    }
  }

  /** The peer counts as choked until an unchoke arrives, and again from each choke to the next unchoke. */
  lemma {:induction false} ChokedIff(torrent: Torrent, events: seq<Event>, t: Peer)
    requires Run(Initial(torrent), events, t)
    ensures t.queue.choked <==> !Unchoked(events)
    decreases |events|
  {
    if events != [] {
      var front, last := events[..|events| - 1], events[|events| - 1];
      var before := RunBack(Initial(torrent), events, t);
      ChokedIff(torrent, front, before);
      assert events == front + [last];
      UnchokedAfter(front, last);
      StepChokes(before, last);
    }
  }

  // ----- the order of the requests

  /** The last request was not for the last block of its piece. */
  ghost predicate UnderWay(torrent: Torrent, requests: seq<Block>) {
    requests != [] && requests[|requests| - 1].1 + 1 != torrent.blocksPerPiece
  }

  /** A request is for the next block of the piece under way, or for the first block of another. */
  ghost predicate FollowsOn(torrent: Torrent, requests: seq<Block>, b: Block) {
    if UnderWay(torrent, requests) then b == (requests[|requests| - 1].0, requests[|requests| - 1].1 + 1) else b.1 == 0
  }

  ghost predicate InSequence(torrent: Torrent, requests: seq<Block>) {
    forall k | 0 <= k < |requests| :: FollowsOn(torrent, requests[..k], requests[k])
  }

  /** The place in the current piece is the one after the last request. */
  ghost predicate AtPlace(torrent: Torrent, q: Queue, requests: seq<Block>) {
    if UnderWay(torrent, requests) then
      q.current != NO_PIECE && FollowsOn(torrent, requests, (q.current, q.block))
    else q.current == NO_PIECE && q.block == 0
  }

  lemma OneMoreInSequence(torrent: Torrent, requests: seq<Block>, b: Block)
    requires InSequence(torrent, requests) && FollowsOn(torrent, requests, b)
    ensures InSequence(torrent, requests + [b])
  {
    var all := requests + [b];
    forall k | 0 <= k < |all|
      ensures FollowsOn(torrent, all[..k], all[k])
    {
      assert all[..k] == requests[..k];
      assert k == |requests| ==> requests[..k] == requests;
    }
  }

  lemma PickFollowsOn(torrent: Torrent, q: Queue, requests: seq<Block>)
    requires AtPlace(torrent, q, requests) && MayRequest(q)
    ensures FollowsOn(torrent, requests, (PickPiece(q).current, PickPiece(q).block))
  {
  }

  lemma AdvanceIsAtPlace(torrent: Torrent, q: Queue, requests: seq<Block>)
    requires q.current != NO_PIECE
    ensures AtPlace(torrent, Advance(q, torrent.blocksPerPiece), requests + [(q.current, q.block)])
  {
  }

  ghost predicate InPlace(s: Peer) {
    AtPlace(s.torrent, s.queue, s.books.requests) && InSequence(s.torrent, s.books.requests)
  }

  lemma WorkKeepsPlace(s: Peer)
    requires QueueInOrder(s.torrent, s.queue) && InPlace(s)
    ensures InPlace(WorkDownload(s))
  {
    if MayRequest(s.queue) {
      var q := PickPiece(s.queue);
      PickMoves(s.torrent, s.queue);
      PickFollowsOn(s.torrent, s.queue, s.books.requests);
      OneMoreInSequence(s.torrent, s.books.requests, (q.current, q.block));
      AdvanceIsAtPlace(s.torrent, q, s.books.requests);
    }
  }

  lemma AbsorbKeepsPlace(s: Peer, m: Message)
    requires InPlace(s)
    ensures InPlace(Absorb(s, m)) && Absorb(s, m).books.requests == s.books.requests
  {
    assert AbsorbQueue(s.queue, m).current == s.queue.current && AbsorbQueue(s.queue, m).block == s.queue.block;
  }

  lemma StepKeepsPlace(s: Peer, e: Event)
    requires Inv(s) && Enabled(s, e) && InPlace(s)
    ensures InPlace(Step(s, e))
  {
    match e {
      case Received(m) =>
        AbsorbKeepsInv(s, m);
        AbsorbKeepsPlace(s, m);
        if !EndsPiece(s.torrent.blocksPerPiece, m) {
          WorkKeepsPlace(Absorb(s, m));
        }
      case HaveSent =>
      case _ => WorkKeepsPlace(s);
    }
  }

  lemma {:induction false} RunKeepsPlace(s: Peer, events: seq<Event>, t: Peer)
    requires Inv(s) && InPlace(s) && Run(s, events, t)
    ensures InPlace(t)
    decreases |events|
  {
    if events != [] {
      StepKeepsInv(s, events[0]);
      StepKeepsPlace(s, events[0]);
      RunKeepsPlace(Step(s, events[0]), events[1..], t);
    }
  }

  /** In every run the blocks of a piece are requested one after the other from the first, with no other piece in between. */
  lemma RequestsInSequence(torrent: Torrent, events: seq<Event>, t: Peer)
    requires torrent.blocksPerPiece >= 1 && Run(Initial(torrent), events, t)
    ensures InSequence(torrent, t.books.requests) && InPlace(t) && t.torrent == torrent
  {
    InitialInv(torrent);
    RunKeepsPlace(Initial(torrent), events, t);
    RunKeepsInv(Initial(torrent), events, t);
  }

  /** The peer sent an allowed-fast message for the piece, whatever became of it here. */
  ghost predicate WasAllowed(events: seq<Event>, piece: int) {
    Received(AllowedFast(piece)) in events
  }

  /** Only a message puts a piece among the granted ones. */
  lemma {:induction false} GrantedWereAllowed(s: Peer, events: seq<Event>, t: Peer)
    requires Run(s, events, t)
    ensures forall p | p in t.queue.granted :: p in s.queue.granted || WasAllowed(events, p)
    decreases |events|
  {
    if events != [] {
      GrantedWereAllowed(Step(s, events[0]), events[1..], t);
      StepGrants(s, events[0]);
      if events[0].Received? {
        AbsorbGrants(s.queue, events[0].m);
      }
      assert events == [events[0]] + events[1..];
    }
  }

  lemma WorkGrantsNothing(s: Peer)
    ensures WorkDownload(s).queue.granted == s.queue.granted
  {
    if MayRequest(s.queue) {
      var q := PickPiece(s.queue);
      assert q.granted == s.queue.granted && Advance(q, s.torrent.blocksPerPiece).granted == q.granted;
    }
  }

  lemma AbsorbGrants(q: Queue, m: Message)
    ensures AbsorbQueue(q, m).granted == if m.AllowedFast? && m.piece in q.pieces then q.granted + {m.piece} else q.granted
  {
  }

  lemma StepGrants(s: Peer, e: Event)
    ensures Step(s, e).queue.granted ==
            if e.Received? then AbsorbQueue(s.queue, e.m).granted else s.queue.granted
  {
    match e {
      case Received(m) =>
        if !EndsPiece(s.torrent.blocksPerPiece, m) {
          WorkGrantsNothing(Absorb(s, m));
        }
      case HaveSent =>
      case _ => WorkGrantsNothing(s);
    }
  }

  /** The state in which a step considers a new request: the message, if it is one, has been taken in. */
  ghost function Ready(s: Peer, e: Event): Peer {
    if e.Received? then Absorb(s, e.m) else s
  }

  lemma ReadyInv(s: Peer, e: Event)
    requires Inv(s) && Enabled(s, e)
    ensures Inv(Ready(s, e)) && Ready(s, e).books.requests == s.books.requests
    ensures Ready(s, e).queue.current == s.queue.current && Ready(s, e).queue.block == s.queue.block
  {
    if e.Received? {
      AbsorbKeepsInv(s, e.m);
    }
  }

  /** A step that sends a request does nothing else after taking in its message. */
  lemma StepSends(s: Peer, e: Event)
    requires Step(s, e).books.requests != s.books.requests
    ensures MayRequest(Ready(s, e).queue) && Step(s, e) == SendRequest(Ready(s, e))
  {
    assert Ready(s, e).books.requests == s.books.requests;
  }

  /** While it counts as choked, a peer with no piece under way is only asked for pieces it allowed. */
  lemma ChokedStarts(torrent: Torrent, events: seq<Event>, s: Peer, e: Event)
    requires torrent.blocksPerPiece >= 1 && Run(Initial(torrent), events, s) && Enabled(s, e)
    requires !Unchoked(events + [e]) && !UnderWay(torrent, s.books.requests)
    requires Step(s, e).books.requests != s.books.requests
    ensures
      var q := PickPiece(Ready(s, e).queue);
      MayRequest(Ready(s, e).queue) && WasAllowed(events + [e], q.current) && q.block == 0
  {
    RunSnoc(Initial(torrent), events, s, e);
    RequestsInSequence(torrent, events, s);
    InitialInv(torrent);
    RunKeepsInv(Initial(torrent), events, s);
    ReadyInv(s, e);
    StepSends(s, e);
    ChokedIff(torrent, events + [e], Step(s, e));
    GrantedWereAllowed(Initial(torrent), events + [e], Step(s, e));
    var q := Ready(s, e).queue;
    assert q.choked && q.allowedFast != [];
    assert q.allowedFast[0] in q.granted;
  }

  /**
   In every run, as long as no unchoke is the last of the chokes and unchokes, no request is sent
   unless the peer has allowed some piece by a message, or a piece is under way.
   */
  lemma ChokedIsQuiet(torrent: Torrent, events: seq<Event>, s: Peer, e: Event)
    requires torrent.blocksPerPiece >= 1 && Run(Initial(torrent), events, s) && Enabled(s, e)
    requires !Unchoked(events + [e]) && NoneAllowed(events + [e]) && !UnderWay(torrent, s.books.requests)
    ensures Step(s, e).books.requests == s.books.requests
  {
    if Step(s, e).books.requests != s.books.requests {
      ChokedStarts(torrent, events, s, e);
    }
  }

  /**
   BEP 6 lets a choked peer be asked only for pieces it allowed. In every run, a request sent
   while choked is for such a piece exactly when a new piece is started, or when the peer
   allowed the piece that was under way.
   */
  lemma ChokedRequestIsAllowedIff(torrent: Torrent, events: seq<Event>, s: Peer, e: Event, b: Block)
    requires torrent.blocksPerPiece >= 1 && Run(Initial(torrent), events, s) && Enabled(s, e)
    requires !Unchoked(events + [e]) && Step(s, e).books.requests == s.books.requests + [b]
    ensures
      var requests := s.books.requests;
      WasAllowed(events + [e], b.0) <==>
      !UnderWay(torrent, requests) || WasAllowed(events + [e], requests[|requests| - 1].0)
  {
    StepSends(s, e);
    assert (s.books.requests + [b])[|s.books.requests|] == b;
    if UnderWay(torrent, s.books.requests) {
      RunSnoc(Initial(torrent), events, s, e);
      RequestsInSequence(torrent, events + [e], Step(s, e));
      assert (s.books.requests + [b])[..|s.books.requests|] == s.books.requests;
      assert FollowsOn(torrent, s.books.requests, b);
    } else {
      ChokedStarts(torrent, events, s, e);
    }
  }

  // ----- which piece is started next

  /** The events since the first have_all. */
  ghost function Since(events: seq<Event>): seq<Event>
    decreases |events|
  {
    if events == [] then []
    else if events[0].Received? && events[0].m.HaveAll? then events[1..]
    else Since(events[1..])
  }

  /** The order of the pieces that came with it. */
  ghost function Order(events: seq<Event>): seq<int>
    decreases |events|
  {
    if events == [] then []
    else if events[0].Received? && events[0].m.HaveAll? then events[0].m.order
    else Order(events[1..])
  }

  ghost predicate Announced(events: seq<Event>) {
    exists e | e in events :: e.Received? && e.m.HaveAll?
  }

  lemma {:induction false} SinceAfter(events: seq<Event>, e: Event)
    ensures Announced(events) ==> Since(events + [e]) == Since(events) + [e] && Order(events + [e]) == Order(events)
    ensures !Announced(events) ==> Since(events + [e]) == Since(events) == []
    ensures !Announced(events) && e.Received? && e.m.HaveAll? ==> Order(events + [e]) == e.m.order
    ensures Announced(events + [e]) <==> Announced(events) || (e.Received? && e.m.HaveAll?)
    decreases |events|
  {
    var all := events + [e];
    assert forall d :: d in all <==> d in events || d == e;
    if events == [] {
      assert all[1..] == [];
    } else {
      assert all[1..] == events[1..] + [e];
      assert forall d :: d in events <==> d == events[0] || d in events[1..];
      SinceAfter(events[1..], e);
    }
  }

  /** When the piece was first suggested, or allowed, since have_all; and its place in the shuffled order. */
  ghost function SuggestedAt(events: seq<Event>, p: int): nat {
    IndexOf(Since(events), Received(Suggest(p)))
  }

  ghost function AllowedAt(events: seq<Event>, p: int): nat {
    IndexOf(Since(events), Received(AllowedFast(p)))
  }

  ghost function PlaceOf(events: seq<Event>, p: int): nat {
    IndexOf(Order(events), p)
  }

  ghost predicate IsSuggested(events: seq<Event>, p: int) {
    Received(Suggest(p)) in Since(events)
  }

  ghost predicate IsAllowed(events: seq<Event>, p: int) {
    Received(AllowedFast(p)) in Since(events)
  }

  /** The three lists hold pieces that the messages so far put there, in the order of these messages. */
  ghost predicate PiecesWait(events: seq<Event>, pieces: seq<int>) {
    && (forall p | p in pieces :: !IsSuggested(events, p) && !IsAllowed(events, p))
    && (forall i, j | 0 <= i < j < |pieces| :: PlaceOf(events, pieces[i]) < PlaceOf(events, pieces[j]))
  }

  ghost predicate SuggestedWait(events: seq<Event>, suggested: seq<int>) {
    && (forall p | p in suggested :: IsSuggested(events, p))
    && (forall i, j | 0 <= i < j < |suggested| :: SuggestedAt(events, suggested[i]) < SuggestedAt(events, suggested[j]))
  }

  ghost predicate AllowedWait(events: seq<Event>, allowed: seq<int>) {
    && (forall p | p in allowed :: IsAllowed(events, p))
    && (forall i, j | 0 <= i < j < |allowed| :: AllowedAt(events, allowed[i]) < AllowedAt(events, allowed[j]))
  }

  ghost predicate ListsWait(events: seq<Event>, q: Queue) {
    && PiecesWait(events, q.pieces) && SuggestedWait(events, q.suggested) && AllowedWait(events, q.allowedFast)
    && (q.haveAll <==> Announced(events))
  }

  /** A new event does not change where an old one first occurred, and comes after it itself. */
  lemma IndexOfAfter(events: seq<Event>, e: Event, x: Event)
    ensures x in events ==> IndexOf(events + [e], x) == IndexOf(events, x) < |events|
    ensures x !in events ==> IndexOf(events + [e], x) >= |events|
  {
    var all := events + [e];
    assert forall k | 0 <= k < |events| :: all[k] == events[k];
    assert forall k | 0 <= k <= |events| :: all[..k] == events[..k];
  }

  lemma SuggestedWaitsOn(events: seq<Event>, e: Event, suggested: seq<int>)
    requires SuggestedWait(events, suggested)
    ensures SuggestedWait(events + [e], suggested)
  {
    SinceAfter(events, e);
    forall p | p in suggested
      ensures IsSuggested(events + [e], p) && SuggestedAt(events + [e], p) == SuggestedAt(events, p)
    {
      IndexOfAfter(Since(events), e, Received(Suggest(p)));
    }
  }

  lemma AllowedWaitsOn(events: seq<Event>, e: Event, allowed: seq<int>)
    requires AllowedWait(events, allowed)
    ensures AllowedWait(events + [e], allowed)
  {
    SinceAfter(events, e);
    forall p | p in allowed
      ensures IsAllowed(events + [e], p) && AllowedAt(events + [e], p) == AllowedAt(events, p)
    {
      IndexOfAfter(Since(events), e, Received(AllowedFast(p)));
    }
  }

  lemma PiecesWaitOn(events: seq<Event>, e: Event, pieces: seq<int>)
    requires PiecesWait(events, pieces) && Announced(events)
    requires e.Received? && (e.m.Suggest? || e.m.AllowedFast?) ==> e.m.piece !in pieces
    ensures PiecesWait(events + [e], pieces)
  {
    SinceAfter(events, e);
    assert forall d :: d in Since(events + [e]) <==> d in Since(events) || d == e;
  }

  /** Where an element that stays comes from: its own place, or the next. */
  lemma WithoutAt(pieces: seq<int>, p: int, k: nat) returns (a: nat)
    requires k < |Without(pieces, p)|
    ensures a < |pieces| && Without(pieces, p)[k] == pieces[a]
    ensures a == if k < IndexOf(pieces, p) then k else k + 1
  {
    a := if k < IndexOf(pieces, p) then k else k + 1;
  }

  /** Taking out one piece keeps the order of the others. */
  lemma WithoutWaits(events: seq<Event>, pieces: seq<int>, p: int)
    requires PiecesWait(events, pieces)
    ensures PiecesWait(events, Without(pieces, p))
  {
    var rest := Without(pieces, p);
    forall i, j | 0 <= i < j < |rest|
      ensures PlaceOf(events, rest[i]) < PlaceOf(events, rest[j])
    {
      var a := WithoutAt(pieces, p, i);
      var b := WithoutAt(pieces, p, j);
    }
    forall q | q in rest
      ensures q in pieces
    {
      var k :| 0 <= k < |rest| && rest[k] == q;
      var a := WithoutAt(pieces, p, k);
    }
  }

  lemma NowSuggested(events: seq<Event>, suggested: seq<int>, p: int)
    requires SuggestedWait(events, suggested) && Announced(events) && !IsSuggested(events, p)
    ensures SuggestedWait(events + [Received(Suggest(p))], suggested + [p])
  {
    var e := Received(Suggest(p));
    SuggestedWaitsOn(events, e, suggested);
    SinceAfter(events, e);
    IndexOfAfter(Since(events), e, e);
    forall q | q in suggested
      ensures SuggestedAt(events + [e], q) < |Since(events)|
    {
      IndexOfAfter(Since(events), e, Received(Suggest(q)));
    }
  }

  lemma NowAllowed(events: seq<Event>, allowed: seq<int>, p: int)
    requires AllowedWait(events, allowed) && Announced(events) && !IsAllowed(events, p)
    ensures AllowedWait(events + [Received(AllowedFast(p))], allowed + [p])
  {
    var e := Received(AllowedFast(p));
    AllowedWaitsOn(events, e, allowed);
    SinceAfter(events, e);
    IndexOfAfter(Since(events), e, e);
    forall q | q in allowed
      ensures AllowedAt(events + [e], q) < |Since(events)|
    {
      IndexOfAfter(Since(events), e, Received(AllowedFast(q)));
    }
  }

  /** Any other event leaves the lists as they are. */
  lemma ListsWaitOn(torrent: Torrent, events: seq<Event>, e: Event, q: Queue)
    requires QueueInOrder(torrent, q) && ListsWait(events, q)
    requires e.Received? ==> !e.m.HaveAll? && (e.m.Suggest? || e.m.AllowedFast? ==> e.m.piece !in q.pieces)
    ensures ListsWait(events + [e], q)
  {
    SinceAfter(events, e);
    SuggestedWaitsOn(events, e, q.suggested);
    AllowedWaitsOn(events, e, q.allowedFast);
    if Announced(events) {
      PiecesWaitOn(events, e, q.pieces);
    } else {
      assert |Pending(q)| == 0;
    }
  }

  lemma FilledWaits(torrent: Torrent, events: seq<Event>, q: Queue, order: seq<int>)
    requires QueueInOrder(torrent, q) && ListsWait(events, q) && !q.haveAll && IsShuffle(order, torrent.numPieces)
    ensures ListsWait(events + [Received(HaveAll(order))], AbsorbQueue(q, HaveAll(order)))
  {
    SinceAfter(events, Received(HaveAll(order)));
    assert |Pending(q)| == 0;
    ShuffleCounts(order, torrent.numPieces);
    CountedOnceIsDistinct(order);
  }

  lemma MovedWaits(torrent: Torrent, events: seq<Event>, q: Queue, m: Message)
    requires QueueInOrder(torrent, q) && ListsWait(events, q)
    requires (m.Suggest? || m.AllowedFast?) && m.piece in q.pieces
    ensures ListsWait(events + [Received(m)], AbsorbQueue(q, m))
  {
    MoveOut(torrent, q, m.piece);
    assert Announced(events);
    SinceAfter(events, Received(m));
    WithoutWaits(events, q.pieces, m.piece);
    PiecesWaitOn(events, Received(m), Without(q.pieces, m.piece));
    if m.Suggest? {
      NowSuggested(events, q.suggested, m.piece);
      AllowedWaitsOn(events, Received(m), q.allowedFast);
    } else {
      SuggestedWaitsOn(events, Received(m), q.suggested);
      NowAllowed(events, q.allowedFast, m.piece);
    }
  }

  lemma ReadyListsWait(events: seq<Event>, s: Peer, e: Event)
    requires QueueInOrder(s.torrent, s.queue) && Enabled(s, e) && ListsWait(events, s.queue)
    ensures ListsWait(events + [e], Ready(s, e).queue)
  {
    if e.Received? && e.m.HaveAll? {
      FilledWaits(s.torrent, events, s.queue, e.m.order);
    } else if e.Received? && (e.m.Suggest? || e.m.AllowedFast?) && e.m.piece in s.queue.pieces {
      MovedWaits(s.torrent, events, s.queue, e.m);
    } else {
      ListsWaitOn(s.torrent, events, e, s.queue);
    }
  }

  /** A list without its front element waits on in the same order. */
  lemma TailsWait(events: seq<Event>, list: seq<int>)
    requires list != []
    ensures PiecesWait(events, list) ==> PiecesWait(events, list[1..])
    ensures SuggestedWait(events, list) ==> SuggestedWait(events, list[1..])
    ensures AllowedWait(events, list) ==> AllowedWait(events, list[1..])
  {
    assert forall p | p in list[1..] :: p in list;
  }

  lemma PickListsWait(events: seq<Event>, q: Queue)
    requires ListsWait(events, q) && MayRequest(q)
    ensures ListsWait(events, PickPiece(q))
  {
    if q.current == NO_PIECE {
      TailsWait(events, if q.choked && q.allowedFast != [] then q.allowedFast else if q.suggested != [] then q.suggested else q.pieces);
    }
  }

  lemma WorkListsWait(events: seq<Event>, s: Peer)
    requires ListsWait(events, s.queue)
    ensures ListsWait(events, WorkDownload(s).queue)
  {
    if MayRequest(s.queue) {
      var q := PickPiece(s.queue);
      PickListsWait(events, s.queue);
      assert ListsWait(events, Advance(q, s.torrent.blocksPerPiece));
    }
  }

  lemma StepListsWait(events: seq<Event>, s: Peer, e: Event)
    requires QueueInOrder(s.torrent, s.queue) && Enabled(s, e) && ListsWait(events, s.queue)
    ensures ListsWait(events + [e], Step(s, e).queue)
  {
    ReadyListsWait(events, s, e);
    WorkListsWait(events + [e], Ready(s, e));
  }

  lemma {:induction false} RunListsWait(torrent: Torrent, events: seq<Event>, t: Peer)
    requires torrent.blocksPerPiece >= 1 && Run(Initial(torrent), events, t)
    ensures ListsWait(events, t.queue)
    decreases |events|
  {
    if events != [] {
      var front, last := events[..|events| - 1], events[|events| - 1];
      var before := RunBack(Initial(torrent), events, t);
      RunListsWait(torrent, front, before);
      InitialInv(torrent);
      RunKeepsInv(Initial(torrent), front, before);
      StepListsWait(front, before, last);
      assert events == front + [last];
    }
  }

  /** A piece that waits nowhere has been begun. */
  lemma NotWaitingIsBegun(torrent: Torrent, q: Queue, requests: seq<Block>, p: int)
    requires QueueInOrder(torrent, q) && RequestsInOrder(torrent, q, requests) && q.haveAll && 0 <= p < torrent.numPieces
    requires p !in q.pieces && p !in q.suggested && p !in q.allowedFast && p != q.current
    ensures (p, 0) in requests
  {
    assert LetGo(torrent, q, (p, 0));
  }

  /** What a choice of piece p leaves behind: none that was suggested, allowed or listed before it. */
  ghost predicate NoneOlder(torrent: Torrent, all: seq<Event>, requests: seq<Block>, p: int) {
    if Unchoked(all) then
      && (forall q | 0 <= q < torrent.numPieces && !IsAllowed(all, q) && SuggestedAt(all, q) < SuggestedAt(all, p) ::
            (q, 0) in requests)
      && (!IsSuggested(all, p) ==>
            forall q | 0 <= q < torrent.numPieces && !IsAllowed(all, q) && PlaceOf(all, q) < PlaceOf(all, p) ::
              (q, 0) in requests)
    else
      && IsAllowed(all, p)
      && forall q | 0 <= q < torrent.numPieces && !IsSuggested(all, q) && AllowedAt(all, q) < AllowedAt(all, p) ::
           (q, 0) in requests
  }

  lemma SuggestedPickLeavesNoneOlder(torrent: Torrent, all: seq<Event>, q: Queue, requests: seq<Block>)
    requires QueueInOrder(torrent, q) && RequestsInOrder(torrent, q, requests) && ListsWait(all, q) && MayRequest(q)
    requires q.current == NO_PIECE && !q.choked && Unchoked(all) && q.suggested != []
    ensures NoneOlder(torrent, all, requests, q.suggested[0])
  {
    var p := q.suggested[0];
    assert p in Pending(q);
    forall o | 0 <= o < torrent.numPieces && !IsAllowed(all, o) && SuggestedAt(all, o) < SuggestedAt(all, p)
      ensures (o, 0) in requests
    {
      assert IsSuggested(all, o);
      NotWaitingIsBegun(torrent, q, requests, o);
    }
  }

  lemma ListedPickLeavesNoneOlder(torrent: Torrent, all: seq<Event>, q: Queue, requests: seq<Block>)
    requires QueueInOrder(torrent, q) && RequestsInOrder(torrent, q, requests) && ListsWait(all, q) && MayRequest(q)
    requires q.current == NO_PIECE && !q.choked && Unchoked(all) && q.suggested == []
    ensures NoneOlder(torrent, all, requests, q.pieces[0])
  {
    var p := q.pieces[0];
    assert p in Pending(q);
    forall o | 0 <= o < torrent.numPieces && !IsAllowed(all, o)
               && (SuggestedAt(all, o) < SuggestedAt(all, p) || PlaceOf(all, o) < PlaceOf(all, p))
      ensures (o, 0) in requests
    {
      NotWaitingIsBegun(torrent, q, requests, o);
    }
  }

  lemma AllowedPickLeavesNoneOlder(torrent: Torrent, all: seq<Event>, q: Queue, requests: seq<Block>)
    requires QueueInOrder(torrent, q) && RequestsInOrder(torrent, q, requests) && ListsWait(all, q) && MayRequest(q)
    requires q.current == NO_PIECE && q.choked && !Unchoked(all) && q.allowedFast != []
    ensures NoneOlder(torrent, all, requests, q.allowedFast[0])
  {
    var p := q.allowedFast[0];
    assert p in Pending(q);
    forall o | 0 <= o < torrent.numPieces && !IsSuggested(all, o) && AllowedAt(all, o) < AllowedAt(all, p)
      ensures (o, 0) in requests
    {
      assert IsAllowed(all, o);
      NotWaitingIsBegun(torrent, q, requests, o);
    }
  }

  /**
   In every run, when a piece is started, every piece that should have come before it has been
   started: while unchoked, those suggested earlier, and if this one was never suggested all that
   were and those before it in the shuffled order; while choked it is an allowed piece, and those
   allowed earlier have been. Pieces that were both suggested and allowed are on the list of the
   message that came first, and not spoken of.
   */
  lemma OldestFirst(torrent: Torrent, events: seq<Event>, s: Peer, e: Event, p: int)
    requires torrent.blocksPerPiece >= 1 && Run(Initial(torrent), events, s) && Enabled(s, e)
    requires Step(s, e).books.requests == s.books.requests + [(p, 0)]
    ensures NoneOlder(torrent, events + [e], s.books.requests, p)
  {
    var all, ready := events + [e], Ready(s, e);
    InitialInv(torrent);
    RunKeepsInv(Initial(torrent), events, s);
    RequestsInSequence(torrent, events, s);
    StepSends(s, e);
    ReadyInv(s, e);
    RunListsWait(torrent, events, s);
    ReadyListsWait(events, s, e);
    RunSnoc(Initial(torrent), events, s, e);
    ChokedIff(torrent, all, Step(s, e));
    var sent := PickPiece(ready.queue);
    assert (s.books.requests + [(p, 0)])[|s.books.requests|] == (p, 0) == (sent.current, sent.block);
    assert s.queue.current == NO_PIECE;
    if ready.queue.choked {
      AllowedPickLeavesNoneOlder(torrent, all, ready.queue, s.books.requests);
    } else if ready.queue.suggested != [] {
      SuggestedPickLeavesNoneOlder(torrent, all, ready.queue, s.books.requests);
    } else {
      ListedPickLeavesNoneOlder(torrent, all, ready.queue, s.books.requests);
    }
  }

  // ----- when the pipeline is filled, and when the download is complete

  /** The step looks for more to do: it is neither a have message sent nor the last block of a piece. */
  ghost predicate LooksForWork(torrent: Torrent, e: Event) {
    e != HaveSent && !(e.Received? && e.m.PieceData? && e.m.start == (torrent.blocksPerPiece - 1) * 0x4000)
  }

  /** A have message is sent exactly after the last block of a piece. */
  lemma HaveIsSentIff(s: Peer, e: Event)
    requires s.torrent.blocksPerPiece >= 1 && Enabled(s, e)
    ensures Step(s, e).waiting == ForHaveSent <==>
            e.Received? && e.m.PieceData? && e.m.start == (s.torrent.blocksPerPiece - 1) * 0x4000
    ensures LooksForWork(s.torrent, e) ==> Step(s, e) == WorkDownload(Ready(s, e))
    ensures !LooksForWork(s.torrent, e) ==> Step(s, e).books.requests == s.books.requests
    ensures e == HaveSent ==> Step(s, e) == s.(waiting := ForMessage)
  {
    if e.Received? && e.m.PieceData? {
      assert e.m.start == e.m.start / 0x4000 * 0x4000;
      assert (e.m.start + 9 + 0x4000) / 0x4000 == e.m.start / 0x4000 + 1;
    }
  }

  /** A piece that waits, or is under way, has a block that was not requested yet: its last. */
  lemma PendingIsUnfinished(torrent: Torrent, q: Queue, requests: seq<Block>, p: int)
    requires QueueInOrder(torrent, q) && RequestsInOrder(torrent, q, requests) && p in Pending(q)
    ensures IsBlock(torrent, (p, torrent.blocksPerPiece - 1)) && (p, torrent.blocksPerPiece - 1) !in requests
  {
    assert !LetGo(torrent, q, (p, torrent.blocksPerPiece - 1));
  }

  lemma AllAnsweredIsComplete(s: Peer)
    requires Inv(s) && forall b: Block | IsBlock(s.torrent, b) :: b in s.books.answered
    ensures IsComplete(s)
  {
    forall p: int
      ensures p !in Pending(s.queue)
    {
      if p in Pending(s.queue) {
        PendingIsUnfinished(s.torrent, s.queue, s.books.requests, p);
      }
    }
    NothingPending(s.queue);
    DistinctElements(s.books.requests);
    forall b | b in s.books.requests
      ensures b in s.books.answered
    {
      assert LetGo(s.torrent, s.queue, b);
    }
    SubsetSize(Elements(s.books.requests), s.books.answered);
    GridSize(s.torrent.numPieces, s.torrent.blocksPerPiece);
    SubsetSize(Grid(s.torrent.numPieces, s.torrent.blocksPerPiece), s.books.answered);
  }

  lemma NothingPending(q: Queue)
    requires forall p: int :: p !in Pending(q)
    ensures q.pieces == [] && q.suggested == [] && q.current == NO_PIECE
  {
    var pending := Pending(q);
    assert forall p: int :: p !in pending;
    assert pending == multiset{};
    assert |pending| == 0;
  }

  lemma WorkAnswersNothing(s: Peer)
    ensures WorkDownload(s).books.answered == s.books.answered
    ensures WorkDownload(s).waiting == Completed <==> IsComplete(s)
  {
  }

  /** In every run, a step that looks for work finds the download complete exactly when every block was answered. */
  lemma CompletedIff(torrent: Torrent, events: seq<Event>, s: Peer, e: Event)
    requires torrent.blocksPerPiece >= 1 && Run(Initial(torrent), events, s) && Enabled(s, e) && LooksForWork(torrent, e)
    ensures Step(s, e).waiting == Completed <==> forall b: Block | IsBlock(torrent, b) :: b in Step(s, e).books.answered
  {
    InitialInv(torrent);
    RunKeepsInv(Initial(torrent), events, s);
    RunSnoc(Initial(torrent), events, s, e);
    HaveIsSentIff(s, e);
    ReadyInv(s, e);
    WorkAnswersNothing(Ready(s, e));
    if Step(s, e).waiting == Completed {
      CompletedMeansDelivered(torrent, events + [e], Step(s, e));
    }
    if forall b: Block | IsBlock(torrent, b) :: b in Ready(s, e).books.answered {
      AllAnsweredIsComplete(Ready(s, e));
    }
  }

  /** The block was answered by one of the messages. */
  ghost predicate Delivered(events: seq<Event>, b: Block) {
    exists e | e in events :: e.Received? && e.m.PieceData? && b == (e.m.piece, e.m.start / 0x4000)
  }

  lemma StepAnswers(s: Peer, e: Event)
    ensures Step(s, e).books.answered ==
            if e.Received? && e.m.PieceData? then s.books.answered + {(e.m.piece, e.m.start / 0x4000)} else s.books.answered
  {
  }

  lemma {:induction false} AnsweredIff(torrent: Torrent, events: seq<Event>, t: Peer)
    requires Run(Initial(torrent), events, t)
    ensures forall b: Block :: b in t.books.answered <==> Delivered(events, b)
    decreases |events|
  {
    if events != [] {
      var front, last := events[..|events| - 1], events[|events| - 1];
      var before := RunBack(Initial(torrent), events, t);
      AnsweredIff(torrent, front, before);
      StepAnswers(before, last);
      assert events == front + [last];
      assert forall e :: e in events <==> e in front || e == last;
    }
  }

  /**
   Whatever the messages so far let the peer ask for has been asked for: while unchoked all that
   is not on the allowed list, while choked the pieces that were allowed before they were begun.
   */
  ghost predicate AskedForAll(torrent: Torrent, all: seq<Event>, requests: seq<Block>, granted: set<int>) {
    || (forall b: Block | IsBlock(torrent, b) :: b in requests || IsAllowed(all, b.0))
    || (!Unchoked(all)
        && (forall p | 0 <= p < torrent.numPieces && IsAllowed(all, p) && !IsSuggested(all, p) :: (p, 0) in requests)
        && (forall b: Block | IsBlock(torrent, b) && b.0 in granted :: b in requests))
  }

  lemma NothingToRequest(torrent: Torrent, all: seq<Event>, q: Queue, requests: seq<Block>)
    requires QueueInOrder(torrent, q) && RequestsInOrder(torrent, q, requests) && ListsWait(all, q) && q.haveAll
    requires AtPlace(torrent, q, requests) && GrantsInOrder(torrent, q) && !MayRequest(q)
    requires q.choked <==> !Unchoked(all)
    ensures AskedForAll(torrent, all, requests, q.granted)
  {
    if q.pieces == [] && q.suggested == [] && q.current == NO_PIECE {
      forall b: Block | IsBlock(torrent, b)
        ensures b in requests || IsAllowed(all, b.0)
      {
        assert b.0 in Pending(q) ==> b.0 in q.allowedFast;
        assert LetGo(torrent, q, b) || IsAllowed(all, b.0);
      }
    } else {
      forall p | 0 <= p < torrent.numPieces && IsAllowed(all, p) && !IsSuggested(all, p)
        ensures (p, 0) in requests
      {
        if p == q.current {
          assert LetGo(torrent, q, (p, 0));
        } else {
          NotWaitingIsBegun(torrent, q, requests, p);
        }
      }
      forall b: Block | IsBlock(torrent, b) && b.0 in q.granted
        ensures b in requests
      {
        assert b.0 !in Pending(q);
        assert LetGo(torrent, q, b);
      }
    }
  }

  /** A piece that is allowed before it is suggested or begun is among the granted ones from then on. */
  lemma AllowedIsGranted(torrent: Torrent, events: seq<Event>, s: Peer, p: int)
    requires torrent.blocksPerPiece >= 1 && Run(Initial(torrent), events, s) && s.waiting == ForMessage
    requires Announced(events) && 0 <= p < torrent.numPieces
    requires !IsSuggested(events, p) && (p, 0) !in s.books.requests
    ensures Enabled(s, Received(AllowedFast(p))) && p in Step(s, Received(AllowedFast(p))).queue.granted
  {
    InitialInv(torrent);
    RunKeepsInv(Initial(torrent), events, s);
    RunListsWait(torrent, events, s);
    RequestsInSequence(torrent, events, s);
    StepGrants(s, Received(AllowedFast(p)));
    AbsorbGrants(s.queue, AllowedFast(p));
    if p == s.queue.current {
      assert LetGo(torrent, s.queue, (p, 0));
    } else if p !in s.queue.pieces && p !in s.queue.allowedFast {
      NotWaitingIsBegun(torrent, s.queue, s.books.requests, p);
    }
  }

  lemma {:induction false} GrantedStays(s: Peer, events: seq<Event>, t: Peer)
    requires Run(s, events, t)
    ensures s.queue.granted <= t.queue.granted
    decreases |events|
  {
    if events != [] {
      StepGrants(s, events[0]);
      if events[0].Received? {
        AbsorbGrants(s.queue, events[0].m);
      }
      GrantedStays(Step(s, events[0]), events[1..], t);
    }
  }

  /**
   The pipeline is kept full in every run: a step that looks for work only goes on to wait for a
   message when forty requests are unanswered or there is nothing the peer may be asked for.
   */
  lemma PipelineIsFull(torrent: Torrent, events: seq<Event>, s: Peer, e: Event)
    requires torrent.blocksPerPiece >= 1 && Run(Initial(torrent), events, s) && Enabled(s, e) && LooksForWork(torrent, e)
    requires Announced(events + [e]) && Step(s, e).waiting == ForMessage
    ensures
      var t := Step(s, e);
      || |t.books.requests| - |t.books.answered| == 40
      || AskedForAll(torrent, events + [e], t.books.requests, t.queue.granted)
  {
    var all, ready := events + [e], Ready(s, e);
    InitialInv(torrent);
    RunKeepsInv(Initial(torrent), events, s);
    RequestsInSequence(torrent, events, s);
    HaveIsSentIff(s, e);
    ReadyInv(s, e);
    RunListsWait(torrent, events, s);
    ReadyListsWait(events, s, e);
    RunSnoc(Initial(torrent), events, s, e);
    ChokedIff(torrent, all, Step(s, e));
    if ready.books.outstanding < 40 {
      NothingToRequest(torrent, all, ready.queue, s.books.requests);
    }
  }

  lemma {:induction false} RunSnoc(s: Peer, events: seq<Event>, t: Peer, e: Event)
    requires Run(s, events, t) && Enabled(t, e)
    ensures Run(s, events + [e], Step(t, e))
    decreases |events|
  {
    if events == [] {
      assert ([e])[1..] == [];
    } else {
      assert (events + [e])[1..] == events[1..] + [e];
      RunSnoc(Step(s, events[0]), events[1..], t, e);
    }
  }

  ghost predicate NoneAllowed(events: seq<Event>) {
    forall e | e in events :: !(e.Received? && e.m.AllowedFast?)
  }

  const TWO_PIECES := Torrent(2, 50)

  /** k blocks into piece 0 of a two-piece torrent, the last request still being written. */
  ghost function Busy(k: nat): Peer {
    Peer(TWO_PIECES, Queue([1], [], [], false, 0, false, k, true, {}), Books(k, 0, seq(k, i requires 0 <= i < k => (0, i)), {}),
         ForRequestSent)
  }

  lemma FirstRequest() returns (events: seq<Event>)
    ensures Run(Initial(TWO_PIECES), events, Busy(1)) && NoneAllowed(events)
  {
    var start := Initial(TWO_PIECES);
    var shaken := start.(waiting := ForMessage);
    RunSnoc(start, [], start, Handshaken);
    assert seq(2, i => i) == [0, 1];
    var filled := shaken.(queue := shaken.queue.(pieces := [0, 1], haveAll := true));
    RunSnoc(start, [Handshaken], shaken, Received(HaveAll([0, 1])));
    RunSnoc(start, [Handshaken, Received(HaveAll([0, 1]))], filled, Received(Unchoke));
    events := [Handshaken, Received(HaveAll([0, 1])), Received(Unchoke)];
    assert Step(filled, Received(Unchoke)) == Busy(1);
  }

  lemma {:induction false} BusyIsReached(k: nat) returns (events: seq<Event>)
    requires 1 <= k <= MAX_OUTSTANDING
    ensures Run(Initial(TWO_PIECES), events, Busy(k)) && NoneAllowed(events)
    decreases k
  {
    if k == 1 {
      events := FirstRequest();
    } else {
      var earlier := BusyIsReached(k - 1);
      RunSnoc(Initial(TWO_PIECES), earlier, Busy(k - 1), RequestSent);
      assert Busy(k - 1).books.requests + [(0, k - 1)] == Busy(k).books.requests;
      events := earlier + [RequestSent];
    }
  }

  /** The same connection with a full pipeline, after piece 1 was allowed and the peer choked. */
  ghost function ChokedMidPiece(): Peer {
    var busy := Busy(MAX_OUTSTANDING);
    busy.(queue := busy.queue.(pieces := [], allowedFast := [1], granted := {1}, choked := true), waiting := ForMessage)
  }

  lemma ChokedMidPieceIsReached() returns (events: seq<Event>)
    ensures Run(Initial(TWO_PIECES), events, ChokedMidPiece()) && !WasAllowed(events, 0)
  {
    var start := Initial(TWO_PIECES);
    var busy := Busy(MAX_OUTSTANDING);
    events := BusyIsReached(MAX_OUTSTANDING);
    RunSnoc(start, events, busy, RequestSent);
    var full := busy.(waiting := ForMessage);
    events := events + [RequestSent];
    RunSnoc(start, events, full, Received(AllowedFast(1)));
    var allowed := full.(queue := full.queue.(pieces := [], allowedFast := [1], granted := {1}));
    assert Step(full, Received(AllowedFast(1))) == allowed;
    events := events + [Received(AllowedFast(1))];
    RunSnoc(start, events, allowed, Received(Choke));
    events := events + [Received(Choke)];
  }

  /**
   A run that ends with a choked peer being asked for a piece it never allowed: with piece 0
   under way, the peer allows piece 1 and chokes, and the next block asked for is of piece 0.
   */
  lemma ChokedRequestNotAllowed() returns (events: seq<Event>, m: Message)
    ensures
      var s := ChokedMidPiece();
      && Run(Initial(TWO_PIECES), events, s) && Enabled(s, Received(m)) && !Unchoked(events + [Received(m)])
      && |Step(s, Received(m)).books.requests| == |s.books.requests| + 1
      && !WasAllowed(events + [Received(m)], Step(s, Received(m)).books.requests[|s.books.requests|].0)
  {
    events := ChokedMidPieceIsReached();
    m := PieceData(0, 0, BLOCK_SIZE);
    ChokedIff(TWO_PIECES, events, ChokedMidPiece());
    UnchokedAfter(events, Received(m));
    assert ChokedMidPiece().books.requests[0] == (0, 0);
  }

  // ----- the connection object

  class PeerConn {
    const numPieces: nat
    const blocksPerPiece: nat
    var pieces: seq<int>
    var suggested: seq<int>
    var allowedFast: seq<int>
    var choked: bool
    var current: int
    var currentIsAllowed: bool
    var block: nat
    var outstanding: int
    var blocksReceived: nat
    var waiting: Waiting
    ghost var haveAll: bool
    ghost var requests: seq<Block>
    ghost var answered: set<Block>
    ghost var granted: set<int>

    ghost function QueueNow(): Queue
      reads this`pieces, this`suggested, this`allowedFast, this`choked, this`current, this`currentIsAllowed
      reads this`block, this`haveAll, this`granted
    {
      Queue(pieces, suggested, allowedFast, choked, current, currentIsAllowed, block, haveAll, granted)
    }

    ghost function BooksNow(): Books
      reads this`outstanding, this`blocksReceived, this`requests, this`answered
    {
      Books(outstanding, blocksReceived, requests, answered)
    }

    ghost function State(): Peer
      reads this
    {
      Peer(Torrent(numPieces, blocksPerPiece), QueueNow(), BooksNow(), waiting)
    }

    constructor (pieceCount: nat, blocksPp: nat)
      ensures State() == Initial(Torrent(pieceCount, blocksPp))
    {
      numPieces, blocksPerPiece := pieceCount, blocksPp;
      pieces, suggested, allowedFast := [], [], [];
      choked, current, currentIsAllowed, block := true, NO_PIECE, false, 0;
      outstanding, blocksReceived, waiting := 0, 0, Handshaking;
      haveAll, requests, answered, granted := false, [], {}, {};
    }

    /** The choosing half of WriteRequest; its last else is the source's assertion failure. */
    method PickNextPiece()
      requires MayRequest(QueueNow())
      modifies this`pieces, this`suggested, this`allowedFast, this`current, this`currentIsAllowed
      ensures QueueNow() == PickPiece(old(QueueNow()))
    {
      if current == NO_PIECE {
        if choked && allowedFast != [] {
          current := allowedFast[0];
          allowedFast := allowedFast[1..];
          currentIsAllowed := true;
        } else if suggested != [] {
          current := suggested[0];
          suggested := suggested[1..];
          currentIsAllowed := false;
        } else if pieces != [] {
          current := pieces[0];
          pieces := pieces[1..];
          currentIsAllowed := false;
        } else {
          assert false;
        }
      }
    }

    /** The sending half of WriteRequest. */
    method SendBlock()
      modifies this`requests, this`waiting, this`outstanding, this`block, this`current, this`currentIsAllowed
      ensures QueueNow() == Advance(old(QueueNow()), blocksPerPiece)
      ensures BooksNow() == Enter(old(BooksNow()), (old(current), old(block)))
      ensures waiting == ForRequestSent
    {
      requests := requests + [(current, block)];
      waiting := ForRequestSent;
      outstanding := outstanding + 1;
      block := block + 1;
      if block == blocksPerPiece {
        block := 0;
        current := NO_PIECE;
        currentIsAllowed := false;
      }
    }

    /** Sends one request if there is anything to ask for. */
    method WriteRequest() returns (sent: bool)
      modifies this
      ensures sent <==> MayRequest(old(QueueNow()))
      ensures State() == if sent then SendRequest(old(State())) else old(State())
    {
      if choked && allowedFast == [] && !currentIsAllowed {
        return false;
      }
      if pieces == [] && suggested == [] && current == NO_PIECE {
        return false;
      }
      PickNextPiece();
      SendBlock();
      return true;
    }

    /** Reports completion, or sends a request, or waits for the next message. */
    method DoWorkDownload()
      modifies this
      ensures State() == WorkDownload(old(State()))
    {
      if pieces == [] && suggested == [] && current == NO_PIECE && outstanding == 0
         && blocksReceived >= numPieces * blocksPerPiece {
        waiting := Completed;
        return;
      }
      if outstanding < MAX_OUTSTANDING {
        var sent := WriteRequest();
        if sent {
          return;
        }
      }
      waiting := ForMessage;
    }

    method OnHandshake()
      modifies this
      ensures State() == Step(old(State()), Handshaken)
    {
      DoWorkDownload();
    }

    method OnRequestSent()
      modifies this
      ensures State() == Step(old(State()), RequestSent)
    {
      DoWorkDownload();
    }

    method OnHaveSent()
      modifies this
      ensures State() == Step(old(State()), HaveSent)
    {
      waiting := ForMessage;
    }

    /** Finds a piece on the main list and takes it out. */
    method TakeOut(piece: int) returns (found: bool)
      modifies this`pieces
      ensures found <==> piece in old(pieces)
      ensures pieces == Without(old(pieces), piece)
    {
      var i := IndexOf(pieces, piece);
      found := i < |pieces|;
      if found {
        pieces := pieces[..i] + pieces[i + 1..];
      }
    }

    method OnSuggest(piece: int)
      modifies this`pieces, this`suggested
      ensures QueueNow() == AbsorbQueue(old(QueueNow()), Suggest(piece))
    {
      var found := TakeOut(piece);
      if found {
        suggested := suggested + [piece];
      }
    }

    method OnAllowedFast(piece: int)
      modifies this`pieces, this`allowedFast, this`granted
      ensures QueueNow() == AbsorbQueue(old(QueueNow()), AllowedFast(piece))
    {
      var found := TakeOut(piece);
      if found {
        allowedFast := allowedFast + [piece];
        granted := granted + {piece};
      }
    }

    /** The branches of OnMessage that touch the lists. */
    method TakeInQueue(m: Message)
      modifies this`pieces, this`suggested, this`allowedFast, this`choked, this`haveAll, this`granted
      ensures QueueNow() == AbsorbQueue(old(QueueNow()), m)
    {
      match m {
        case HaveAll(order) =>
          pieces := order;
          haveAll := true;
        case Suggest(piece) =>
          OnSuggest(piece);
        case AllowedFast(piece) =>
          OnAllowedFast(piece);
        case Choke =>
          choked := true;
        case Unchoke =>
          choked := false;
        case _ =>
      }
    }

    /** All branches of OnMessage, up to the point where new requests are considered. */
    method TakeIn(m: Message)
      modifies this`pieces, this`suggested, this`allowedFast, this`choked, this`haveAll, this`granted
      modifies this`outstanding, this`blocksReceived, this`answered
      ensures State() == Absorb(old(State()), m)
    {
      TakeInQueue(m);
      if m.PieceData? {
        blocksReceived := blocksReceived + 1;
        outstanding := outstanding - 1;
        answered := answered + {(m.piece, m.start / BLOCK_SIZE)};
      }
    }

    method OnMessage(m: Message)
      modifies this
      ensures State() == Step(old(State()), Received(m))
      ensures choked <==> m.Choke? || (old(choked) && !m.Unchoke?)
    {
      StepChokes(State(), Received(m));
      TakeIn(m);
      if EndsPiece(blocksPerPiece, m) {
        waiting := ForHaveSent;
      } else {
        DoWorkDownload();
      }
    }
  }
}
