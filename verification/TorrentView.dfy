/**
 The torrent list of examples/torrent_view.cpp: which torrents pass the filter, in which order,
 and the window of rows around the selected one.
 */
module TorrentViews {
  import opened Options
  import opened Sequences
  import opened StringOrder

  const HEADER_SIZE := 2

  type Handle = nat

  datatype State =
    | QueuedForChecking | CheckingFiles | DownloadingMetadata | Downloading
    | Finished | Seeding | Allocating | CheckingResumeData

  datatype Status = Status(
    handle: Handle, queuePosition: int, seedRank: int, infoHash: int, name: string, totalDone: int,
    paused: bool, autoManaged: bool, state: State)

  datatype Order = Queue | Name | Size

  // ----- filters

  /** The filters by number, as the tabs list them; any other number shows everything. */
  const ALL := 0
  const DOWNLOADING := 1
  const NOT_PAUSED := 2
  const SEEDING := 3
  const QUEUED := 4
  const STOPPED := 5
  const CHECKING := 6

  predicate ShowTorrent(filter: int, st: Status) {
    if filter == DOWNLOADING then !st.paused && !st.state.Seeding? && !st.state.Finished?
    else if filter == NOT_PAUSED then !st.paused
    else if filter == SEEDING then !st.paused && (st.state.Seeding? || st.state.Finished?)
    else if filter == QUEUED then st.paused && st.autoManaged
    else if filter == STOPPED then st.paused && !st.autoManaged
    else if filter == CHECKING then st.state.CheckingFiles?
    else true
  }

  /** How many of the torrents a tab shows. */
  ghost function Shown(filter: int, torrents: seq<Status>): nat
    decreases |torrents|
  {
    if torrents == [] then 0
    else Shown(filter, torrents[1..]) + if ShowTorrent(filter, torrents[0]) then 1 else 0
  }

  /** Four of the tabs share all torrents out among them, and two of these make up the non-paused ones. */
  lemma {:induction false} TabsAddUp(torrents: seq<Status>)
    ensures Shown(1, torrents) + Shown(3, torrents) + Shown(4, torrents) + Shown(5, torrents)
            == Shown(0, torrents) == |torrents|
    ensures Shown(1, torrents) + Shown(3, torrents) == Shown(2, torrents)
    decreases |torrents|
  {
    if torrents != [] {
      TabsAddUp(torrents[1..]);
    }
  }

  // ----- orders

  /** By queue position; those without one come last, the highest seed rank first. */
  predicate CmpTorrentPosition(a: Status, b: Status) {
    if a.queuePosition != -1 && b.queuePosition != -1 then a.queuePosition < b.queuePosition
    else if a.queuePosition == -1 && b.queuePosition == -1 then
      if a.seedRank != b.seedRank then a.seedRank > b.seedRank else a.infoHash < b.infoHash
    else a.queuePosition != -1
  }

  predicate Before(order: Order, a: Status, b: Status) {
    match order
    case Queue => CmpTorrentPosition(a, b)
    case Name => Less(a.name, b.name)
    case Size => a.totalDone > b.totalDone
  }

  /** What std::sort needs of a comparison: a strict order, and ties that form classes. */
  lemma StrictWeakOrder(order: Order, a: Status, b: Status, c: Status)
    ensures !Before(order, a, a)
    ensures Before(order, a, b) ==> !Before(order, b, a)
    ensures Before(order, a, b) && Before(order, b, c) ==> Before(order, a, c)
    ensures !Before(order, a, b) && !Before(order, b, c) ==> !Before(order, a, c)
  {
    if order == Name {
      LessIsTotal(a.name, b.name);
      LessIsTotal(b.name, c.name);
      LessIsTotal(a.name, c.name);
      if Before(order, a, b) && Before(order, b, c) {
        LessIsTransitive(a.name, b.name, c.name);
      }
      if Before(order, c, b) && Before(order, b, a) {
        LessIsTransitive(c.name, b.name, a.name);
      }
    }
  }

  /**
   Whether a may stand above b, from what the status says. By queue: queued torrents first, in the
   order of their positions, then the others, the highest seed rank first. By name: in the order
   of the characters. By size: the most downloaded first.
   */
  ghost predicate MayStandAbove(order: Order, a: Status, b: Status) {
    match order
    case Queue =>
      && (b.queuePosition != -1 ==> a.queuePosition != -1 && a.queuePosition <= b.queuePosition)
      && (a.queuePosition == -1 && b.queuePosition == -1 ==>
            a.seedRank > b.seedRank || (a.seedRank == b.seedRank && a.infoHash <= b.infoHash))
    case Name => a.name == b.name || ComesBefore(a.name, b.name)
    case Size => a.totalDone >= b.totalDone
  }

  lemma MayStandAboveIff(order: Order, a: Status, b: Status)
    ensures MayStandAbove(order, a, b) <==> !Before(order, b, a)
  {
    if order == Name {
      LessIsTotal(a.name, b.name);
      LessIff(a.name, b.name);
    }
  }

  ghost predicate InMap(handles: seq<Handle>, all: map<Handle, Status>) {
    forall i | 0 <= i < |handles| :: handles[i] in all
  }

  ghost predicate Sorted(handles: seq<Handle>, all: map<Handle, Status>, order: Order)
    requires InMap(handles, all)
  {
    forall i, j | 0 <= i < j < |handles| :: !Before(order, all[handles[j]], all[handles[i]])
  }

  /** Every torrent of the list may stand above those further down. */
  ghost predicate ReadsInOrder(handles: seq<Handle>, all: map<Handle, Status>, order: Order)
    requires InMap(handles, all)
  {
    forall i, j | 0 <= i < j < |handles| :: MayStandAbove(order, all[handles[i]], all[handles[j]])
  }

  lemma SortedReadsInOrder(handles: seq<Handle>, all: map<Handle, Status>, order: Order)
    requires InMap(handles, all)
    ensures Sorted(handles, all, order) <==> ReadsInOrder(handles, all, order)
  {
    forall i, j | 0 <= i < j < |handles|
      ensures MayStandAbove(order, all[handles[i]], all[handles[j]]) <==> !Before(order, all[handles[j]], all[handles[i]])
    {
      MayStandAboveIff(order, all[handles[i]], all[handles[j]]);
    }
  }

  lemma InsertedIsSorted(handles: seq<Handle>, all: map<Handle, Status>, order: Order, k: nat, h: Handle)
    requires InMap(handles, all) && Sorted(handles, all, order) && k <= |handles| && h in all
    requires forall i | 0 <= i < k :: !Before(order, all[h], all[handles[i]])
    requires k < |handles| ==> Before(order, all[h], all[handles[k]])
    ensures InMap(handles[..k] + [h] + handles[k..], all)
    ensures Sorted(handles[..k] + [h] + handles[k..], all, order)
  {
    forall j | k <= j < |handles|
      ensures !Before(order, all[handles[j]], all[h])
    {
      StrictWeakOrder(order, all[handles[j]], all[h], all[handles[k]]);
    }
  }

  /** Stands in for std::sort: all that is promised is a sorted list of the same elements. */
  method Sort(handles: seq<Handle>, all: map<Handle, Status>, order: Order) returns (sorted: seq<Handle>)
    requires InMap(handles, all)
    ensures InMap(sorted, all) && Sorted(sorted, all, order)
    ensures multiset(sorted) == multiset(handles)
  {
    sorted := [];
    for n := 0 to |handles|
      invariant InMap(sorted, all) && Sorted(sorted, all, order)
      invariant multiset(sorted) == multiset(handles[..n])
    {
      var h, k := handles[n], |sorted|;
      k := 0;
      while k < |sorted| && !Before(order, all[h], all[sorted[k]])
        invariant k <= |sorted|
        invariant forall i | 0 <= i < k :: !Before(order, all[h], all[sorted[i]])
      {
        k := k + 1;
      }
      InsertedIsSorted(sorted, all, order, k, h);
      assert sorted == sorted[..k] + sorted[k..];
      assert handles[..n + 1] == handles[..n] + [h];
      sorted := sorted[..k] + [h] + sorted[k..];
    }
    assert handles[..|handles|] == handles;
  }

  // ----- the view

  datatype View = View(
    all: map<Handle, Status>, filtered: seq<Handle>, active: int, scroll: int,
    filter: int, order: Order, height: int)

  /** The list has every torrent that passes the filter once, and nothing else: no handle dangles. */
  ghost predicate ListsFiltered(filtered: seq<Handle>, all: map<Handle, Status>, filter: int) {
    forall h: Handle :: multiset(filtered)[h] == if h in all && ShowTorrent(filter, all[h]) then 1 else 0
  }

  ghost predicate Exact(v: View) {
    ListsFiltered(v.filtered, v.all, v.filter)
  }

  /** Whether a torrent is done downloading. */
  ghost predicate IsDone(st: Status) {
    st.state == Seeding || st.state == Finished
  }

  /** What each tab lists, by its number and in terms of the flags and states of the torrents. */
  ghost predicate TabLists(v: View) {
    forall h: Handle ::
      && (v.filter == 0 ==> (h in v.filtered <==> h in v.all))
      && (v.filter == 1 ==> (h in v.filtered <==> h in v.all && !v.all[h].paused && !IsDone(v.all[h])))
      && (v.filter == 2 ==> (h in v.filtered <==> h in v.all && !v.all[h].paused))
      && (v.filter == 3 ==> (h in v.filtered <==> h in v.all && !v.all[h].paused && IsDone(v.all[h])))
      && (v.filter == 4 ==> (h in v.filtered <==> h in v.all && v.all[h].paused && v.all[h].autoManaged))
      && (v.filter == 5 ==> (h in v.filtered <==> h in v.all && v.all[h].paused && !v.all[h].autoManaged))
      && (v.filter == 6 ==> (h in v.filtered <==> h in v.all && v.all[h].state == CheckingFiles))
      && (v.filter < 0 || v.filter > 6 ==> (h in v.filtered <==> h in v.all))
  }

  lemma ExactMeans(v: View)
    requires Exact(v)
    ensures TabLists(v) && Distinct(v.filtered)
    ensures forall h :: h in v.filtered <==> h in v.all && ShowTorrent(v.filter, v.all[h])
  {
    forall h
      ensures h in v.filtered <==> h in v.all && ShowTorrent(v.filter, v.all[h])
    {
      assert h in v.filtered <==> multiset(v.filtered)[h] > 0;
    }
    CountedOnceIsDistinct(v.filtered);
  }

  /** The window shows the selected row. It does not speak of the length of the list. */
  predicate InWindow(v: View) {
    0 <= v.scroll <= v.active < v.scroll + v.height - HEADER_SIZE
  }

  /** The selected row is one of the list; row 0 when there is none. */
  predicate InList(v: View) {
    0 <= v.active && (v.active < |v.filtered| || v.active == 0)
  }

  function Clamped(active: int, n: nat): int {
    var active := if active >= n then n - 1 else active;
    if active < 0 then 0 else active
  }

  /** What a rebuild may leave: a sorted list of what passes, the selection and the window moved to fit. */
  ghost predicate Rebuilt(before: View, after: View) {
    var n := |after.filtered|;
    && after.all == before.all && after.filter == before.filter && after.order == before.order
    && after.height == before.height
    && Exact(after) && InMap(after.filtered, after.all) && Sorted(after.filtered, after.all, after.order)
    && after.active == Clamped(before.active, n)
    && after.scroll == if before.scroll + before.height - HEADER_SIZE > n
                       then if n - before.height + HEADER_SIZE > 0 then n - before.height + HEADER_SIZE else 0
                       else before.scroll
  }

  lemma RebuildKeepsWindow(before: View, after: View)
    requires Rebuilt(before, after) && InWindow(before)
    ensures InWindow(after) && InList(after)
  {
  }

  /**
   A rebuild moves as little as it can: the selected row number stays unless the list has become
   too short for it, and the window stays unless it would show rows past the end; then its last
   row is the last of the list, or it starts at the top.
   */
  lemma RebuildMovesLittle(before: View, after: View)
    requires Rebuilt(before, after) && before.active >= 0
    ensures
      var n := |after.filtered|;
      && after.active == (if before.active < n then before.active else if n > 0 then n - 1 else 0)
      && (before.scroll + before.height - 2 <= n ==> after.scroll == before.scroll)
      && (before.scroll + before.height - 2 > n ==>
            after.scroll + before.height - 2 == n || (after.scroll == 0 && n < before.height - 2))
  {
  }

  // ----- the keys

  function ScrollStep(height: int): int {
    Max(height / 3, 8)
  }

  function ArrowUp(v: View): View {
    if v.filtered == [] || v.active <= 0 then v
    else if v.active - 1 < v.scroll then
      v.(active := v.active - 1, scroll := Max(0, v.active - 1 - ScrollStep(v.height)))
    else v.(active := v.active - 1)
  }

  function ArrowDown(v: View): View {
    var maxPos := |v.filtered| - 1;
    var bottomPos := v.height - HEADER_SIZE - 1;
    if v.filtered == [] || v.active >= maxPos then v
    else if v.active - v.scroll + 1 > bottomPos then
      v.(active := v.active + 1, scroll := Min(maxPos, v.active + 1 + ScrollStep(v.height)) - bottomPos)
    else v.(active := v.active + 1)
  }

  lemma ArrowsKeepWindow(v: View)
    requires InWindow(v) && v.height >= 11
    ensures InWindow(ArrowUp(v)) && InWindow(ArrowDown(v))
    ensures InList(v) ==> InList(ArrowUp(v)) && InList(ArrowDown(v))
  {
  }

  /**
   Each key moves the selection by one row and stops at the ends. The window only moves when the
   row would leave it, and then so far that at least eight rows and a third of the height come in
   on the side the selection moves to, or the list ends there.
   */
  lemma KeysMoveByOne(v: View)
    requires v.filtered != [] && InList(v)
    ensures
      var up, down := ArrowUp(v), ArrowDown(v);
      && up == v.(active := up.active, scroll := up.scroll) && down == v.(active := down.active, scroll := down.scroll)
      && up.active == (if v.active == 0 then 0 else v.active - 1)
      && down.active == (if v.active == |v.filtered| - 1 then v.active else v.active + 1)
      && (down != v ==> ArrowUp(down).active == v.active)
    ensures
      var up := ArrowUp(v);
      && (up.active >= v.scroll || up == v ==> up.scroll == v.scroll)
      && (up.active < v.scroll && up != v ==>
            up.scroll == 0 || (up.active - up.scroll >= 8 && up.active - up.scroll >= v.height / 3
                               && (up.active - up.scroll == 8 || up.active - up.scroll == v.height / 3)))
    ensures
      var down := ArrowDown(v);
      var last := down.scroll + v.height - 3;
      && (down.active < v.scroll + v.height - 2 || down == v ==> down.scroll == v.scroll)
      && (down.active >= v.scroll + v.height - 2 && down != v ==>
            || (last == |v.filtered| - 1 && last - down.active <= Max(8, v.height / 3))
            || (last - down.active >= 8 && last - down.active >= v.height / 3
                && (last - down.active == 8 || last - down.active == v.height / 3)))
  {
  }

  /** A torrent with nothing special about it, queued at the position its handle says. */
  ghost function Plain(h: Handle): Status {
    Status(h, h, 0, h, "", 0, false, true, Downloading)
  }

  ghost function PlainMap(n: nat): map<Handle, Status> {
    map h: Handle | h < n :: Plain(h)
  }

  /** A list of n plain torrents, all shown, with the selection and the window at the given rows. */
  ghost function Sample(n: nat, active: int, scroll: int, height: int): View {
    View(PlainMap(n), seq<Handle>(n, i requires 0 <= i < n => i), active, scroll, ALL, Queue, height)
  }

  lemma SampleIsExact(n: nat, active: int, scroll: int, height: int)
    ensures Exact(Sample(n, active, scroll, height))
    ensures
      var v := Sample(n, active, scroll, height);
      InMap(v.filtered, v.all) && Sorted(v.filtered, v.all, v.order)
  {
    var listed := Sample(n, active, scroll, height).filtered;
    forall h: Handle
      ensures multiset(listed)[h] == if h < n then 1 else 0
    {
      DistinctIsCountedOnce(listed, h);
      if h < n {
        assert listed[h] == h;
      }
      assert h in listed <==> multiset(listed)[h] > 0;
    }
  }

  /** An exact list, with the selection in it and on the screen. */
  ghost predicate InSight(v: View, height: int) {
    v.height == height && Exact(v) && InList(v) && InWindow(v)
  }

  /** The step of at least eight rows only fits into a window of eleven lines: below that the down key loses the row. */
  lemma ArrowDownKeepsWindowIff(height: int)
    requires height > HEADER_SIZE
    ensures (forall v | InSight(v, height) :: InWindow(ArrowDown(v))) <==> height >= 11
  {
    if height >= 11 {
      forall v | InSight(v, height)
        ensures InWindow(ArrowDown(v))
      {
        ArrowsKeepWindow(v);
      }
    } else {
      var v := Sample(20, height - 3, 0, height);
      SampleIsExact(20, height - 3, 0, height);
      assert InSight(v, height) && !InWindow(ArrowDown(v));
    }
  }

  lemma ArrowUpKeepsWindowIff(height: int)
    requires height > HEADER_SIZE
    ensures (forall v | InSight(v, height) :: InWindow(ArrowUp(v))) <==> height >= 11
  {
    if height >= 11 {
      forall v | InSight(v, height)
        ensures InWindow(ArrowUp(v))
      {
        ArrowsKeepWindow(v);
      }
    } else {
      var v := Sample(40, 20, 20, height);
      SampleIsExact(40, 20, 20, height);
      assert InSight(v, height) && !InWindow(ArrowUp(v));
    }
  }

  // ----- updates

  ghost function Updated(all: map<Handle, Status>, st: seq<Status>): map<Handle, Status>
    decreases |st|
  {
    if st == [] then all else Updated(all[st[0].handle := st[0]], st[1..])
  }

  /** A torrent that an update does not speak of keeps its status. */
  lemma {:induction false} UpdatedLeavesOthers(all: map<Handle, Status>, st: seq<Status>, h: Handle)
    requires forall i | 0 <= i < |st| :: st[i].handle != h
    ensures h in Updated(all, st) <==> h in all
    ensures h in all ==> Updated(all, st)[h] == all[h]
    decreases |st|
  {
    if st != [] {
      UpdatedLeavesOthers(all[st[0].handle := st[0]], st[1..], h);
    }
  }

  /** One that it speaks of has the last status given for it. */
  lemma {:induction false} UpdatedIsLatest(all: map<Handle, Status>, st: seq<Status>, i: nat)
    requires i < |st| && forall j | i < j < |st| :: st[j].handle != st[i].handle
    ensures st[i].handle in Updated(all, st) && Updated(all, st)[st[i].handle] == st[i]
    decreases |st|
  {
    if i > 0 {
      UpdatedIsLatest(all[st[0].handle := st[0]], st[1..], i - 1);
    } else {
      UpdatedLeavesOthers(all[st[0].handle := st[0]], st[1..], st[0].handle);
    }
  }

  /** A torrent appears in the list or drops out of it at some point of the update. */
  ghost predicate NeedsRebuild(all: map<Handle, Status>, filter: int, st: seq<Status>)
    decreases |st|
  {
    st != [] && (ChangesList(all, filter, st[0]) || NeedsRebuild(all[st[0].handle := st[0]], filter, st[1..]))
  }

  predicate ChangesList(all: map<Handle, Status>, filter: int, t: Status) {
    (t.handle in all && ShowTorrent(filter, all[t.handle])) != ShowTorrent(filter, t)
  }

  /** Without such a change the list may be left alone. */
  lemma {:induction false} ListOutlivesUpdate(
      filtered: seq<Handle>, all: map<Handle, Status>, filter: int, st: seq<Status>)
    requires ListsFiltered(filtered, all, filter) && !NeedsRebuild(all, filter, st)
    ensures ListsFiltered(filtered, Updated(all, st), filter)
    decreases |st|
  {
    if st != [] {
      ListOutlivesUpdate(filtered, all[st[0].handle := st[0]], filter, st[1..]);
    }
  }

  ghost function Erased(s: seq<Handle>, h: Handle): seq<Handle>
    decreases |s|
  {
    if s == [] then [] else if s[0] == h then s[1..] else [s[0]] + Erased(s[1..], h)
  }

  lemma {:induction false} ErasedIsOneLess(s: seq<Handle>, h: Handle)
    ensures multiset(Erased(s, h)) == multiset(s) - multiset{h}
    decreases |s|
  {
    if s != [] {
      assert s == [s[0]] + s[1..];
      if s[0] != h {
        ErasedIsOneLess(s[1..], h);
      }
    }
  }

  lemma {:induction false} ErasedAt(s: seq<Handle>, h: Handle, j: nat)
    requires j <= |s| && h !in s[..j] && (j < |s| ==> s[j] == h)
    ensures Erased(s, h) == if j < |s| then s[..j] + s[j + 1..] else s
    decreases |s|
  {
    if j > 0 {
      assert s[0] == s[..j][0] && s[1..][..j - 1] == s[..j][1..];
      ErasedAt(s[1..], h, j - 1);
      assert s == [s[0]] + s[1..];
    }
  }

  /** Removing a torrent; when it is not shown, the list is not searched at all. */
  ghost function Removed(v: View, h: Handle): View {
    if h !in v.all then v
    else v.(all := v.all - {h},
            filtered := if ShowTorrent(v.filter, v.all[h]) then Erased(v.filtered, h) else v.filtered)
  }

  lemma RemovedKeepsExact(v: View, h: Handle)
    requires Exact(v)
    ensures Exact(Removed(v, h))
  {
    ErasedIsOneLess(v.filtered, h);
  }

  /** The torrent is gone from the map and from the list, and no other torrent is. */
  lemma RemovedGoesAlone(v: View, h: Handle)
    requires Exact(v)
    ensures h !in Removed(v, h).all && h !in Removed(v, h).filtered
    ensures forall other | other != h ::
              && (other in Removed(v, h).filtered <==> other in v.filtered)
              && (other in Removed(v, h).all <==> other in v.all)
              && (other in v.all ==> Removed(v, h).all[other] == v.all[other])
  {
    RemovedKeepsExact(v, h);
    ExactMeans(v);
    ExactMeans(Removed(v, h));
  }

  // ----- runs

  datatype Event =
    | Update(st: seq<Status>) | SetFilter(filter: int) | SetSortOrder(order: Order)
    | Up | Down | GetActive | Remove(h: Handle)

  ghost predicate Next(v: View, e: Event, after: View) {
    match e
    case Update(st) =>
      if NeedsRebuild(v.all, v.filter, st) then Rebuilt(v.(all := Updated(v.all, st)), after)
      else after == v.(all := Updated(v.all, st))
    case SetFilter(filter) =>
      if filter == v.filter then after == v else Rebuilt(v.(filter := filter), after)
    case SetSortOrder(order) =>
      if order == v.order then after == v
      else
        && after == v.(order := order, filtered := after.filtered)
        && multiset(after.filtered) == multiset(v.filtered)
        && InMap(after.filtered, after.all) && Sorted(after.filtered, after.all, order)
    case Up => after == ArrowUp(v)
    case Down => after == ArrowDown(v)
    case GetActive => after == v.(active := Clamped(v.active, |v.filtered|))
    case Remove(h) => after == Removed(v, h)
  }

  ghost predicate IsRun(views: seq<View>, events: seq<Event>) {
    && |views| == |events| + 1
    && forall i | 0 <= i < |events| :: Next(views[i], events[i], views[i + 1])
  }

  lemma NextKeepsExact(v: View, e: Event, after: View)
    requires Exact(v) && Next(v, e, after)
    ensures Exact(after)
  {
    match e {
      case Update(st) =>
        if !NeedsRebuild(v.all, v.filter, st) {
          ListOutlivesUpdate(v.filtered, v.all, v.filter, st);
        }
      case Remove(h) => RemovedKeepsExact(v, h);
      case _ =>
    }
  }

  /** In every run the list shows exactly the torrents that its tab stands for, each once. */
  lemma {:induction false} AlwaysExact(views: seq<View>, events: seq<Event>, n: nat)
    requires IsRun(views, events) && Exact(views[0]) && n < |views|
    ensures Exact(views[n]) && TabLists(views[n]) && Distinct(views[n].filtered)
    decreases n
  {
    if n > 0 {
      AlwaysExact(views, events, n - 1);
      NextKeepsExact(views[n - 1], events[n - 1], views[n]);
    }
    ExactMeans(views[n]);
  }

  // ----- which tabs a torrent leaves and enters

  /** From one view to the next the torrent drops out of some tabs and appears in others; all else is listed as before. */
  ghost predicate ChangesTabs(v: View, after: View, h: Handle, left: set<int>, entered: set<int>) {
    && after.filter == v.filter
    && (v.filter in left ==> h in v.filtered && h !in after.filtered)
    && (v.filter in entered ==> h !in v.filtered && h in after.filtered)
    && (v.filter !in left && v.filter !in entered ==> (h in v.filtered <==> h in after.filtered))
    && (forall other | other != h :: other in v.filtered <==> other in after.filtered)
  }

  /** Step n of the run is an update of one torrent that is known already. */
  ghost predicate UpdatesOne(views: seq<View>, events: seq<Event>, n: nat, t: Status) {
    && IsRun(views, events) && Exact(views[0]) && n < |events|
    && events[n] == Update([t]) && t.handle in views[n].all
  }

  lemma AfterUpdateOfOne(views: seq<View>, events: seq<Event>, n: nat, t: Status)
    requires UpdatesOne(views, events, n, t)
    ensures TabLists(views[n]) && TabLists(views[n + 1])
    ensures views[n + 1].filter == views[n].filter && views[n + 1].all == views[n].all[t.handle := t]
  {
    AlwaysExact(views, events, n);
    AlwaysExact(views, events, n + 1);
    assert [t][1..] == [];
    assert Updated(views[n].all, [t]) == Updated(views[n].all[t.handle := t], []) == views[n].all[t.handle := t];
    assert Next(views[n], events[n], views[n + 1]);
  }

  /** A running torrent that finishes goes from tab 1 to tab 3, in every run; one under check also leaves tab 6. */
  lemma FinishingChangesTabs(views: seq<View>, events: seq<Event>, n: nat, t: Status)
    requires UpdatesOne(views, events, n, t)
    requires
      var was := views[n].all[t.handle];
      && !was.paused && was.state != Finished && was.state != Seeding
      && (t.state == Finished || t.state == Seeding) && t == was.(state := t.state)
    ensures
      ChangesTabs(views[n], views[n + 1], t.handle,
                  if views[n].all[t.handle].state == CheckingFiles then {1, 6} else {1}, {3})
  {
    AfterUpdateOfOne(views, events, n, t);
  }

  /** One that is paused leaves tab 2 and its tab 1 or 3, for tab 4 if it is auto-managed and tab 5 if not. */
  lemma PausingChangesTabs(views: seq<View>, events: seq<Event>, n: nat, t: Status)
    requires UpdatesOne(views, events, n, t)
    requires !views[n].all[t.handle].paused && t == views[n].all[t.handle].(paused := true)
    ensures
      ChangesTabs(views[n], views[n + 1], t.handle,
                  {2, if t.state == Finished || t.state == Seeding then 3 else 1}, {if t.autoManaged then 4 else 5})
  {
    AfterUpdateOfOne(views, events, n, t);
  }

  /** A paused one that is no longer auto-managed goes from tab 4 to tab 5. */
  lemma StoppingChangesTabs(views: seq<View>, events: seq<Event>, n: nat, t: Status)
    requires UpdatesOne(views, events, n, t)
    requires views[n].all[t.handle].paused && views[n].all[t.handle].autoManaged
    requires t == views[n].all[t.handle].(autoManaged := false)
    ensures ChangesTabs(views[n], views[n + 1], t.handle, {4}, {5})
  {
    AfterUpdateOfOne(views, events, n, t);
  }

  lemma NextKeepsWindow(v: View, e: Event, after: View)
    requires InWindow(v) && InList(v) && v.height >= 11 && !e.Remove? && Next(v, e, after)
    ensures InWindow(after) && InList(after) && after.height == v.height
  {
    match e {
      case Update(st) =>
        if NeedsRebuild(v.all, v.filter, st) {
          RebuildKeepsWindow(v.(all := Updated(v.all, st)), after);
        }
      case SetFilter(filter) =>
        if filter != v.filter {
          RebuildKeepsWindow(v.(filter := filter), after);
        }
      case SetSortOrder(order) =>
        assert |multiset(after.filtered)| == |multiset(v.filtered)| || order == v.order;
      case Up => ArrowsKeepWindow(v);
      case Down => ArrowsKeepWindow(v);
      case _ =>
    }
  }

  /** In every run without removals, from eleven lines on, the selected row is one of the list and on the screen. */
  lemma {:induction false} SelectionStaysInSight(views: seq<View>, events: seq<Event>, n: nat)
    requires IsRun(views, events) && n < |views|
    requires InWindow(views[0]) && InList(views[0]) && views[0].height >= 11
    requires forall i | 0 <= i < |events| :: !events[i].Remove?
    ensures InWindow(views[n]) && InList(views[n]) && views[n].height == views[0].height
    decreases n
  {
    if n > 0 {
      SelectionStaysInSight(views, events, n - 1);
      NextKeepsWindow(views[n - 1], events[n - 1], views[n]);
    }
  }

  /** The view as it is made. */
  ghost function Start(height: int): View {
    View(map[], [], 0, 0, ALL, Queue, height)
  }

  ghost function PlainStatuses(n: nat): seq<Status> {
    seq<Status>(n, i requires 0 <= i < n => Plain(i))
  }

  lemma {:induction false} PlainUpdate(n: nat, k: nat)
    requires k <= n
    ensures Updated(PlainMap(k), PlainStatuses(n)[k..]) == PlainMap(n)
    decreases n - k
  {
    if k < n {
      var left := PlainStatuses(n)[k..];
      assert left[0] == Plain(k) && left[1..] == PlainStatuses(n)[k + 1..];
      assert PlainMap(k)[k := Plain(k)] == PlainMap(k + 1);
      PlainUpdate(n, k + 1);
    }
  }

  lemma SampleIsRebuilt(n: nat, height: int)
    ensures Rebuilt(Start(height).(all := PlainMap(n)), Sample(n, 0, 0, height))
  {
    SampleIsExact(n, 0, 0, height);
  }

  lemma FirstPlainNeedsRebuild(st: seq<Status>)
    requires st != [] && st[0] == Plain(0)
    ensures NeedsRebuild(map[], ALL, st)
  {
    assert ChangesList(map[], ALL, st[0]);
  }

  lemma SampleIsReached(n: nat, height: int)
    requires n > 0
    ensures Next(Start(height), Update(PlainStatuses(n)), Sample(n, 0, 0, height))
  {
    var st := PlainStatuses(n);
    assert st[0..] == st && PlainMap(0) == map[];
    PlainUpdate(n, 0);
    SampleIsRebuilt(n, height);
    FirstPlainNeedsRebuild(st);
  }

  ghost predicate RunWithoutRemoval(views: seq<View>, events: seq<Event>, height: int) {
    IsRun(views, events) && views[0] == Start(height) && forall i | 0 <= i < |events| :: !events[i].Remove?
  }

  ghost predicate AlwaysInSight(views: seq<View>) {
    forall i | 0 <= i < |views| :: InWindow(views[i]) && InList(views[i])
  }

  /** Twenty torrents arrive, and the down key is pressed until the selection drops out of the window. */
  ghost function LosingView(height: int, i: nat): View {
    if i == 0 then Start(height)
    else if i < height - 1 then Sample(20, i - 1, 0, height)
    else ArrowDown(Sample(20, height - 3, 0, height))
  }

  ghost function LosingEvent(i: nat): Event {
    if i == 0 then Update(PlainStatuses(20)) else Down
  }

  lemma LosingNext(height: int, i: nat)
    requires HEADER_SIZE < height < 11 && i < height - 1
    ensures Next(LosingView(height, i), LosingEvent(i), LosingView(height, i + 1))
  {
    if i == 0 {
      SampleIsReached(20, height);
    }
  }

  lemma SelectionIsLost(height: int) returns (views: seq<View>, events: seq<Event>)
    requires HEADER_SIZE < height < 11
    ensures RunWithoutRemoval(views, events, height) && !AlwaysInSight(views)
  {
    views := seq(height, i requires 0 <= i < height => LosingView(height, i));
    events := seq(height - 1, i requires 0 <= i < height - 1 => LosingEvent(i));
    forall i | 0 <= i < |events|
      ensures Next(views[i], events[i], views[i + 1])
    {
      LosingNext(height, i);
    }
    assert !InWindow(views[height - 1]);
  }

  /** So the selection stays in sight in all such runs exactly from eleven lines on. */
  lemma SelectionStaysInSightIff(height: int)
    ensures (forall views, events | RunWithoutRemoval(views, events, height) :: AlwaysInSight(views)) <==> height >= 11
  {
    if height >= 11 {
      forall views, events | RunWithoutRemoval(views, events, height)
        ensures AlwaysInSight(views)
      {
        forall i | 0 <= i < |views|
          ensures InWindow(views[i]) && InList(views[i])
        {
          SelectionStaysInSight(views, events, i);
        }
      }
    } else if height > HEADER_SIZE {
      var views, events := SelectionIsLost(height);
    } else {
      var views, events := [Start(height)], [];
      assert RunWithoutRemoval(views, events, height) && !InWindow(views[0]);
    }
  }

  /** A removal leaves the window and only puts the selection past the end when it was on the last row, or past it. */
  lemma RemovalKeepsSelectionIff(v: View, h: Handle)
    requires Exact(v) && InWindow(v) && InList(v)
    ensures InWindow(Removed(v, h))
    ensures InList(Removed(v, h)) <==> !(h in v.filtered && v.active > 0 && v.active == |v.filtered| - 1)
  {
    ExactMeans(v);
    if h in v.filtered {
      ErasedIsOneLess(v.filtered, h);
      assert |multiset(Removed(v, h).filtered)| == |v.filtered| - 1;
    }
  }

  // ----- when the list is in order

  ghost predicate InOrder(v: View) {
    InMap(v.filtered, v.all) && Sorted(v.filtered, v.all, v.order)
  }

  /** No torrent of the list should come before the one just above it. */
  ghost predicate NeighboursInOrder(handles: seq<Handle>, all: map<Handle, Status>, order: Order)
    requires InMap(handles, all)
  {
    forall k | 0 <= k < |handles| - 1 :: !Before(order, all[handles[k + 1]], all[handles[k]])
  }

  lemma {:induction false} NeighboursReach(handles: seq<Handle>, all: map<Handle, Status>, order: Order, i: nat, j: nat)
    requires InMap(handles, all) && NeighboursInOrder(handles, all, order) && i < j < |handles|
    ensures !Before(order, all[handles[j]], all[handles[i]])
    decreases j - i
  {
    if i + 1 < j {
      NeighboursReach(handles, all, order, i, j - 1);
      assert !Before(order, all[handles[j - 1 + 1]], all[handles[j - 1]]);
      StrictWeakOrder(order, all[handles[j]], all[handles[j - 1]], all[handles[i]]);
    }
  }

  /** It is enough to look at neighbours. */
  lemma SortedIffNeighbours(handles: seq<Handle>, all: map<Handle, Status>, order: Order)
    requires InMap(handles, all)
    ensures Sorted(handles, all, order) <==> NeighboursInOrder(handles, all, order)
  {
    if NeighboursInOrder(handles, all, order) {
      forall i, j | 0 <= i < j < |handles|
        ensures !Before(order, all[handles[j]], all[handles[i]])
      {
        NeighboursReach(handles, all, order, i, j);
      }
    }
  }

  lemma {:induction false} UpdatedKeepsKeys(all: map<Handle, Status>, st: seq<Status>)
    ensures all.Keys <= Updated(all, st).Keys
    decreases |st|
  {
    if st != [] {
      UpdatedKeepsKeys(all[st[0].handle := st[0]], st[1..]);
    }
  }

  /** An update that does not rebuild leaves the list as it is; then the new statuses of neighbours decide. */
  ghost predicate KeepsOrder(v: View, e: Event) {
    e.Update? && !NeedsRebuild(v.all, v.filter, e.st) ==>
      && InMap(v.filtered, Updated(v.all, e.st))
      && NeighboursInOrder(v.filtered, Updated(v.all, e.st), v.order)
  }

  /** What is left are the others, each one or no place further down. */
  lemma ErasedPlaces(s: seq<Handle>, h: Handle, i: nat)
    requires Distinct(s) && i < |Erased(s, h)|
    ensures
      var k := if i < IndexOf(s, h) then i else i + 1;
      k < |s| && Erased(s, h)[i] == s[k] && s[k] != h
  {
    var j := IndexOf(s, h);
    ErasedAt(s, h, j);
    if i < j {
      assert s[..j][i] == s[i];
    } else {
      assert s[j] == h && s[i + 1] != s[j];
    }
  }

  lemma ErasedStaysSorted(s: seq<Handle>, h: Handle, all: map<Handle, Status>, order: Order)
    requires InMap(s, all) && Sorted(s, all, order) && Distinct(s)
    ensures InMap(Erased(s, h), all - {h}) && Sorted(Erased(s, h), all - {h}, order)
  {
    var left := Erased(s, h);
    forall i | 0 <= i < |left|
      ensures left[i] in all - {h}
    {
      ErasedPlaces(s, h, i);
    }
    forall i, j | 0 <= i < j < |left|
      ensures !Before(order, all[left[j]], all[left[i]])
    {
      ErasedPlaces(s, h, i);
      ErasedPlaces(s, h, j);
    }
  }

  lemma UpdateKeepsOrderIff(v: View, st: seq<Status>, after: View)
    requires InOrder(v) && Next(v, Update(st), after)
    ensures InOrder(after) <==> KeepsOrder(v, Update(st))
  {
    if !NeedsRebuild(v.all, v.filter, st) {
      UpdatedKeepsKeys(v.all, st);
      SortedIffNeighbours(v.filtered, Updated(v.all, st), v.order);
    }
  }

  lemma RemovalKeepsOrder(v: View, h: Handle)
    requires Exact(v) && InOrder(v)
    ensures InOrder(Removed(v, h))
  {
    ExactMeans(v);
    if h in v.filtered {
      ErasedStaysSorted(v.filtered, h, v.all, v.order);
    } else if h in v.all {
      assert InMap(v.filtered, v.all - {h});
    }
  }

  /** After one step the list is still in order exactly when it was not an update that changes places. */
  lemma OrderSurvivesIff(v: View, e: Event, after: View)
    requires Exact(v) && InOrder(v) && Next(v, e, after)
    ensures InOrder(after) <==> KeepsOrder(v, e)
  {
    match e {
      case Update(st) => UpdateKeepsOrderIff(v, st, after);
      case Remove(h) => RemovalKeepsOrder(v, h);
      case Up => assert after.filtered == v.filtered;
      case Down => assert after.filtered == v.filtered;
      case _ =>
    }
  }

  /** Over runs: the list is in order all the time exactly when no step was such an update. */
  lemma AlwaysInOrderIff(views: seq<View>, events: seq<Event>)
    requires IsRun(views, events) && Exact(views[0]) && InOrder(views[0])
    ensures (forall n | 0 <= n < |views| :: InOrder(views[n])) <==>
            (forall n | 0 <= n < |events| :: KeepsOrder(views[n], events[n]))
  {
    if forall n | 0 <= n < |views| :: InOrder(views[n]) {
      forall n | 0 <= n < |events|
        ensures KeepsOrder(views[n], events[n])
      {
        AlwaysExact(views, events, n);
        assert InOrder(views[n]) && InOrder(views[n + 1]);
        OrderSurvivesIff(views[n], events[n], views[n + 1]);
      }
    }
    if forall n | 0 <= n < |events| :: KeepsOrder(views[n], events[n]) {
      forall n | 0 <= n < |views|
        ensures InOrder(views[n])
      {
        OrderUpTo(views, events, n);
      }
    }
  }

  lemma {:induction false} OrderUpTo(views: seq<View>, events: seq<Event>, n: nat)
    requires IsRun(views, events) && Exact(views[0]) && InOrder(views[0]) && n < |views|
    requires forall k | 0 <= k < |events| :: KeepsOrder(views[k], events[k])
    ensures InOrder(views[n])
    decreases n
  {
    if n > 0 {
      OrderUpTo(views, events, n - 1);
      AlwaysExact(views, events, n - 1);
      OrderSurvivesIff(views[n - 1], events[n - 1], views[n]);
    }
  }

  /** Two torrents arrive, then the first moves to queue position 7: it stays on top of the list. */
  lemma OrderIsLost(height: int) returns (views: seq<View>, events: seq<Event>)
    ensures IsRun(views, events) && views[0] == Start(height) && |views| == 3 && !InOrder(views[2])
  {
    var moved := Plain(0).(queuePosition := 7);
    var two := Sample(2, 0, 0, height);
    var last := two.(all := two.all[0 := moved]);
    views, events := [Start(height), two, last], [Update(PlainStatuses(2)), Update([moved])];
    SampleIsReached(2, height);
    assert [moved][1..] == [];
    assert Updated(two.all, [moved]) == two.all[0 := moved];
    assert !NeedsRebuild(two.all, ALL, [moved]);
    assert Next(two, events[1], last);
    assert Before(Queue, last.all[last.filtered[1]], last.all[last.filtered[0]]);
  }

  // ----- the object

  /** An order in which the hash map may be walked. */
  ghost predicate Enumerates(keys: seq<Handle>, all: map<Handle, Status>) {
    forall h: Handle :: multiset(keys)[h] == if h in all then 1 else 0
  }

  lemma EnumeratedIsKey(keys: seq<Handle>, all: map<Handle, Status>, i: nat)
    requires Enumerates(keys, all) && i < |keys|
    ensures keys[i] in all
  {
    assert multiset(keys)[keys[i]] > 0;
  }

  ghost predicate ListsFilteredOf(filtered: seq<Handle>, keys: seq<Handle>, all: map<Handle, Status>, filter: int) {
    forall h: Handle :: multiset(filtered)[h] == if h in all && ShowTorrent(filter, all[h]) then multiset(keys)[h] else 0
  }

  class TorrentView {
    var allHandles: map<Handle, Status>
    var filteredHandles: seq<Handle>
    var activeTorrent: int
    var scrollPosition: int
    var torrentFilter: int
    var sortOrder: Order
    const height: int

    ghost function Current(): View
      reads this
    {
      View(allHandles, filteredHandles, activeTorrent, scrollPosition, torrentFilter, sortOrder, height)
    }

    constructor (height: int)
      ensures Current() == Start(height)
    {
      allHandles, filteredHandles, activeTorrent, scrollPosition := map[], [], 0, 0;
      torrentFilter, sortOrder := ALL, Queue;
      this.height := height;
    }

    /** The handles in the order in which the hash map is walked, which is left open. */
    method WalkKeys() returns (keys: seq<Handle>)
      ensures Enumerates(keys, allHandles)
    {
      keys := [];
      var left := allHandles.Keys;
      while left != {}
        invariant left <= allHandles.Keys
        invariant forall h: Handle :: multiset(keys)[h] == if h in allHandles && h !in left then 1 else 0
      {
        var h :| h in left;
        keys := keys + [h];
        left := left - {h};
      }
    }

    /** Lists what passes the filter. */
    method CollectFiltered()
      modifies `filteredHandles
      ensures ListsFiltered(filteredHandles, allHandles, torrentFilter)
      ensures InMap(filteredHandles, allHandles)
    {
      var keys := WalkKeys();
      filteredHandles := [];
      for i := 0 to |keys|
        invariant InMap(filteredHandles, allHandles)
        invariant ListsFilteredOf(filteredHandles, keys[..i], allHandles, torrentFilter)
      {
        EnumeratedIsKey(keys, allHandles, i);
        assert keys[..i + 1] == keys[..i] + [keys[i]];
        if ShowTorrent(torrentFilter, allHandles[keys[i]]) {
          filteredHandles := filteredHandles + [keys[i]];
        }
      }
      assert keys[..|keys|] == keys;
    }

    method UpdateSortOrder()
      requires InMap(filteredHandles, allHandles)
      modifies `filteredHandles
      ensures multiset(filteredHandles) == old(multiset(filteredHandles))
      ensures InMap(filteredHandles, allHandles) && Sorted(filteredHandles, allHandles, sortOrder)
    {
      filteredHandles := Sort(filteredHandles, allHandles, sortOrder);
    }

    method ClampSelection()
      modifies `activeTorrent
      ensures activeTorrent == Clamped(old(activeTorrent), |filteredHandles|)
    {
      if activeTorrent >= |filteredHandles| {
        activeTorrent := |filteredHandles| - 1;
      }
      if activeTorrent < 0 {
        activeTorrent := 0;
      }
    }

    method UpdateFilteredTorrents()
      modifies `filteredHandles, `activeTorrent, `scrollPosition
      ensures Rebuilt(old(Current()), Current())
      ensures TabLists(Current()) && ReadsInOrder(filteredHandles, allHandles, sortOrder)
    {
      CollectFiltered();
      ClampSelection();
      ghost var n := |filteredHandles|;
      UpdateSortOrder();
      assert |multiset(filteredHandles)| == n;
      if scrollPosition + height - HEADER_SIZE > |filteredHandles| {
        scrollPosition := Max(0, |filteredHandles| - height + HEADER_SIZE);
      }
      ExactMeans(Current());
      SortedReadsInOrder(filteredHandles, allHandles, sortOrder);
    }

    method SetFilter(filter: int)
      modifies `torrentFilter, `filteredHandles, `activeTorrent, `scrollPosition
      ensures Next(old(Current()), Event.SetFilter(filter), Current())
    {
      if filter == torrentFilter {
        return;
      }
      torrentFilter := filter;
      UpdateFilteredTorrents();
    }

    method SetSortOrder(order: Order)
      requires InMap(filteredHandles, allHandles)
      modifies `sortOrder, `filteredHandles
      ensures Next(old(Current()), Event.SetSortOrder(order), Current())
    {
      if order == sortOrder {
        return;
      }
      sortOrder := order;
      UpdateSortOrder();
    }

    /** Stands in for std::find. */
    method FindHandle(h: Handle) returns (j: nat)
      ensures j <= |filteredHandles| && h !in filteredHandles[..j]
      ensures j < |filteredHandles| ==> filteredHandles[j] == h
    {
      j := 0;
      while j < |filteredHandles| && filteredHandles[j] != h
        invariant j <= |filteredHandles| && h !in filteredHandles[..j]
      {
        j := j + 1;
      }
    }

    method RemoveTorrent(h: Handle)
      modifies `allHandles, `filteredHandles
      ensures Next(old(Current()), Remove(h), Current())
    {
      if h !in allHandles {
        return;
      }
      if ShowTorrent(torrentFilter, allHandles[h]) {
        var j := FindHandle(h);
        ErasedAt(filteredHandles, h, j);
        if j < |filteredHandles| {
          filteredHandles := filteredHandles[..j] + filteredHandles[j + 1..];
        }
      }
      allHandles := allHandles - {h};
    }

    /** Takes in the new statuses; the list is only put right again by the rebuild that follows. */
    method TakeIn(st: seq<Status>) returns (needFilterUpdate: bool)
      modifies `allHandles, `filteredHandles
      ensures allHandles == Updated(old(allHandles), st)
      ensures needFilterUpdate == NeedsRebuild(old(allHandles), torrentFilter, st)
      ensures !needFilterUpdate ==> filteredHandles == old(filteredHandles)
    {
      needFilterUpdate := false;
      for i := 0 to |st|
        invariant Updated(allHandles, st[i..]) == Updated(old(allHandles), st)
        invariant (needFilterUpdate || NeedsRebuild(allHandles, torrentFilter, st[i..]))
                  == NeedsRebuild(old(allHandles), torrentFilter, st)
        invariant !needFilterUpdate ==> filteredHandles == old(filteredHandles)
      {
        var t := st[i];
        assert st[i..][0] == t && st[i..][1..] == st[i + 1..];
        if t.handle !in allHandles {
          allHandles := allHandles[t.handle := t];
          if ShowTorrent(torrentFilter, t) {
            filteredHandles := filteredHandles + [t.handle];
            needFilterUpdate := true;
          }
        } else {
          var prevShow := ShowTorrent(torrentFilter, allHandles[t.handle]);
          allHandles := allHandles[t.handle := t];
          if prevShow != ShowTorrent(torrentFilter, t) {
            needFilterUpdate := true;
          }
        }
      }
    }

    method UpdateTorrents(st: seq<Status>)
      modifies `allHandles, `filteredHandles, `activeTorrent, `scrollPosition
      ensures Next(old(Current()), Update(st), Current())
    {
      var needFilterUpdate := TakeIn(st);
      if needFilterUpdate {
        UpdateFilteredTorrents();
      }
    }

    method ArrowUp()
      modifies `activeTorrent, `scrollPosition
      ensures Next(old(Current()), Up, Current())
    {
      if filteredHandles == [] || activeTorrent <= 0 {
        return;
      }
      if activeTorrent - 1 < scrollPosition {
        var scrollStep := Max(height / 3, 8);
        activeTorrent := activeTorrent - 1;
        scrollPosition := Max(0, activeTorrent - scrollStep);
        return;
      }
      activeTorrent := activeTorrent - 1;
    }

    method ArrowDown()
      modifies `activeTorrent, `scrollPosition
      ensures Next(old(Current()), Down, Current())
    {
      if filteredHandles == [] {
        return;
      }
      var maxPos := |filteredHandles| - 1;
      if activeTorrent >= maxPos {
        return;
      }
      var bottomPos := height - HEADER_SIZE - 1;
      if activeTorrent - scrollPosition + 1 > bottomPos {
        var scrollStep := Max(height / 3, 8);
        activeTorrent := activeTorrent + 1;
        scrollPosition := Min(maxPos, activeTorrent + scrollStep) - bottomPos;
        return;
      }
      activeTorrent := activeTorrent + 1;
    }

    /** The selected torrent; clamps the selection when torrents went away since. */
    method GetActiveHandle() returns (h: Option<Handle>)
      modifies `activeTorrent
      ensures Next(old(Current()), GetActive, Current())
      ensures h.None? <==> filteredHandles == []
      ensures h.Some? ==> 0 <= activeTorrent < |filteredHandles| && h.value == filteredHandles[activeTorrent]
    {
      ClampSelection();
      if filteredHandles == [] {
        return None;
      }
      h := Some(filteredHandles[activeTorrent]);
    }
  }
}
