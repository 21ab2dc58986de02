/**
 The file list of gtk/FileList.cc: the walk that fills in the rows of a tree, and the click
 that gives a subtree its next priority.
 */
module FileTrees {
  import opened Options
  import opened Sequences

  /**
   The tree is walked in post-order with an explicit stack, and directory rows are filled in from
   their children's rows, through an 8-bit priority column. A node is a row of the tree: its
   identity, its file index (-1 for a directory), its children.
   */
  datatype Node = Node(id: nat, index: int, kids: seq<Node>)

  /** The columns the walk computes. */
  datatype Row = Row(have: int, size: int, priority: Byte)

  type Byte = b: nat | b < 0x100

  const NOT_SET := 1000
  const MIXED := 1001
  const DONT_DOWNLOAD := 0
  const LOW_PRIORITY := 1
  const DEFAULT_PRIORITY := 4
  const TOP_PRIORITY := 7

  /** What an 8-bit priority column keeps of a value written to it. */
  function Narrow(priority: nat): Byte {
    priority % 0x100
  }

  /** The mark a mixed directory is read back with: 233. */
  const MIXED_MARK := Narrow(MIXED)

  /** Per file: its size, the bytes downloaded (empty until progress is known), its priority. */
  datatype Files = Files(sizes: seq<nat>, have: seq<nat>, priorities: seq<Byte>)

  ghost predicate KnowsFile(files: Files, index: int) {
    && 0 <= index < |files.sizes| && index < |files.priorities| && (files.have == [] || index < |files.have|)
    && files.priorities[index] <= TOP_PRIORITY
  }

  function At(s: seq<nat>, index: int): nat {
    if 0 <= index < |s| then s[index] else 0
  }

  function PriorityOf(files: Files, index: int): Byte {
    if 0 <= index < |files.priorities| then files.priorities[index] else DONT_DOWNLOAD
  }

  // ----- what a row should show, from the files below it

  /** The file indices of the leaves, in order. */
  ghost function Leaves(forest: seq<Node>): seq<int>
    decreases forest
  {
    if forest == [] then []
    else (if forest[0].kids == [] then [forest[0].index] else Leaves(forest[0].kids)) + Leaves(forest[1..])
  }

  ghost function LeavesOf(n: Node): seq<int> {
    if n.kids == [] then [n.index] else Leaves(n.kids)
  }

  ghost predicate AllKnown(files: Files, indices: seq<int>) {
    forall i | i in indices :: KnowsFile(files, i)
  }

  /** Bytes to download: the sizes of the files that are not switched off. */
  ghost function ChosenSize(files: Files, indices: seq<int>): int
    decreases |indices|
  {
    if indices == [] then 0
    else (if PriorityOf(files, indices[0]) == DONT_DOWNLOAD then 0 else At(files.sizes, indices[0]))
         + ChosenSize(files, indices[1..])
  }

  /** Bytes downloaded of those files. */
  ghost function ChosenHave(files: Files, indices: seq<int>): int
    decreases |indices|
  {
    if indices == [] then 0
    else (if PriorityOf(files, indices[0]) == DONT_DOWNLOAD then 0 else At(files.have, indices[0]))
         + ChosenHave(files, indices[1..])
  }

  /** The common priority of the files, or the mixed mark if they differ. */
  ghost function CommonPriority(files: Files, indices: seq<int>): Byte
    requires indices != []
  {
    if forall i | i in indices :: PriorityOf(files, i) == PriorityOf(files, indices[0])
    then PriorityOf(files, indices[0])
    else MIXED_MARK
  }

  /** What the row of n should show. A file always shows its own size and progress. */
  ghost function Target(files: Files, n: Node): Row {
    if n.kids == [] then Row(At(files.have, n.index), At(files.sizes, n.index), PriorityOf(files, n.index))
    else
      LeavesNotEmpty(n.kids);
      Row(ChosenHave(files, Leaves(n.kids)), ChosenSize(files, Leaves(n.kids)),
          CommonPriority(files, Leaves(n.kids)))
  }

  lemma {:induction false} LeavesNotEmpty(forest: seq<Node>)
    requires forest != []
    ensures Leaves(forest) != []
    decreases forest
  {
    if forest[0].kids != [] {
      LeavesNotEmpty(forest[0].kids);
    }
  }

  lemma {:induction false} LeavesAppend(a: seq<Node>, b: seq<Node>)
    ensures Leaves(a + b) == Leaves(a) + Leaves(b)
    decreases |a|
  {
    if a == [] {
      assert a + b == b;
    } else {
      assert (a + b)[1..] == a[1..] + b;
      LeavesAppend(a[1..], b);
    }
  }

  lemma LeavesSnoc(forest: seq<Node>, n: Node)
    ensures Leaves(forest + [n]) == Leaves(forest) + LeavesOf(n)
  {
    LeavesAppend(forest, [n]);
    assert Leaves([n]) == LeavesOf(n) + Leaves([n][1..]);
  }

  lemma {:induction false} ChosenAppend(files: Files, a: seq<int>, b: seq<int>)
    ensures ChosenSize(files, a + b) == ChosenSize(files, a) + ChosenSize(files, b)
    ensures ChosenHave(files, a + b) == ChosenHave(files, a) + ChosenHave(files, b)
    decreases |a|
  {
    if a == [] {
      assert a + b == b;
    } else {
      assert (a + b)[1..] == a[1..] + b;
      ChosenAppend(files, a[1..], b);
    }
  }

  lemma {:induction false} NothingChosen(files: Files, a: seq<int>)
    requires forall i | i in a :: PriorityOf(files, i) == DONT_DOWNLOAD
    ensures ChosenSize(files, a) == 0 && ChosenHave(files, a) == 0
    decreases |a|
  {
    if a != [] {
      NothingChosen(files, a[1..]);
    }
  }

  lemma CommonAppend(files: Files, a: seq<int>, b: seq<int>)
    requires AllKnown(files, a) && AllKnown(files, b) && a != [] && b != []
    ensures AllKnown(files, a + b)
    ensures CommonPriority(files, a + b) ==
            if CommonPriority(files, a) == CommonPriority(files, b) then CommonPriority(files, a) else MIXED_MARK
  {
    assert (a + b)[0] == a[0];
    assert b[0] in a + b && a[0] in a + b;
    assert forall i :: i in a + b <==> i in a || i in b;
    assert PriorityOf(files, a[0]) <= TOP_PRIORITY && PriorityOf(files, b[0]) <= TOP_PRIORITY;
  }

  // ----- what one directory row is given, from its children's rows

  /** The running value of new_priority: unset, a child's stored priority, or the mixed mark as an int. */
  function Combine(priority: nat, child: nat): nat {
    if priority == NOT_SET then child
    else if priority != child then MIXED
    else priority
  }

  function RowAt(rows: map<nat, Row>, id: nat): Row {
    if id in rows then rows[id] else Row(0, 0, DONT_DOWNLOAD)
  }

  ghost predicate ShowTargets(files: Files, rows: map<nat, Row>, nodes: seq<Node>) {
    forall n | n in nodes :: AllKnown(files, LeavesOf(n)) && n.id in rows && rows[n.id] == Target(files, n)
  }

  /** The three running totals of the loop over the immediate children. */
  datatype Totals = Totals(have: int, size: int, priority: nat)

  function AddChild(t: Totals, child: Row): Totals {
    var chosen := child.priority != DONT_DOWNLOAD;
    Totals(t.have + (if chosen then child.have else 0), t.size + (if chosen then child.size else 0),
           Combine(t.priority, child.priority))
  }

  ghost function Aggregate(rows: map<nat, Row>, kids: seq<Node>): Totals
    decreases |kids|
  {
    if kids == [] then Totals(0, 0, NOT_SET)
    else
      var last := |kids| - 1;
      AddChild(Aggregate(rows, kids[..last]), RowAt(rows, kids[last].id))
  }

  /** The rows of the first children, and the leaves below them, grow together. */
  lemma AggregateSnoc(rows: map<nat, Row>, kids: seq<Node>, n: Node)
    ensures Aggregate(rows, kids + [n]) == AddChild(Aggregate(rows, kids), RowAt(rows, n.id))
  {
    assert (kids + [n])[..|kids|] == kids;
  }

  /** What the running totals stand for, once at least one child has been taken in. */
  ghost predicate Totalled(files: Files, t: Totals, indices: seq<int>) {
    && AllKnown(files, indices) && indices != []
    && t.have == ChosenHave(files, indices) && t.size == ChosenSize(files, indices)
    && Narrow(t.priority) == CommonPriority(files, indices)
    && (t.priority == MIXED || t.priority < 0x100)
  }

  lemma FirstChild(files: Files, n: Node, row: Row)
    requires AllKnown(files, LeavesOf(n)) && row == Target(files, n)
    ensures Totalled(files, AddChild(Totals(0, 0, NOT_SET), row), LeavesOf(n))
  {
    ChildAdds(files, n, row);
  }

  lemma NextChild(files: Files, t: Totals, indices: seq<int>, n: Node, row: Row)
    requires Totalled(files, t, indices)
    requires AllKnown(files, LeavesOf(n)) && row == Target(files, n)
    ensures Totalled(files, AddChild(t, row), indices + LeavesOf(n))
  {
    ChildAdds(files, n, row);
    ChosenAppend(files, indices, LeavesOf(n));
    CommonAppend(files, indices, LeavesOf(n));
  }

  /** Summing the children's rows gives the sums over all files below, switched-off ones left out. */
  lemma {:induction false} AggregateMeetsTarget(files: Files, rows: map<nat, Row>, kids: seq<Node>)
    requires ShowTargets(files, rows, kids) && kids != []
    ensures Totalled(files, Aggregate(rows, kids), Leaves(kids))
    ensures SaysPriority(Narrow(Aggregate(rows, kids).priority), files.priorities, Leaves(kids))
    decreases |kids|
  {
    var last := |kids| - 1;
    var n := kids[last];
    assert kids == kids[..last] + [n];
    AggregateSnoc(rows, kids[..last], n);
    LeavesSnoc(kids[..last], n);
    if last == 0 {
      assert kids[..last] == [];
      assert Leaves(kids) == LeavesOf(n);
      FirstChild(files, n, rows[n.id]);
    } else {
      AggregateMeetsTarget(files, rows, kids[..last]);
      NextChild(files, Aggregate(rows, kids[..last]), Leaves(kids[..last]), n, rows[n.id]);
    }
    CommonSays(files, Leaves(kids));
  }

  /** A child's row, taken in unless its priority is zero, adds exactly what the files below it add. */
  lemma ChildAdds(files: Files, n: Node, row: Row)
    requires AllKnown(files, LeavesOf(n)) && row == Target(files, n)
    ensures LeavesOf(n) != [] && row.priority == CommonPriority(files, LeavesOf(n))
    ensures ChosenSize(files, LeavesOf(n)) == if row.priority != DONT_DOWNLOAD then row.size else 0
    ensures ChosenHave(files, LeavesOf(n)) == if row.priority != DONT_DOWNLOAD then row.have else 0
  {
    if n.kids == [] {
      assert LeavesOf(n)[1..] == [];
    } else {
      LeavesNotEmpty(n.kids);
      if row.priority == DONT_DOWNLOAD {
        NothingChosen(files, Leaves(n.kids));
      }
    }
  }

  // ----- the order of the walk

  /** Every node of the forest, each after all its descendants. */
  ghost function PostOrder(forest: seq<Node>): seq<Node>
    decreases forest
  {
    if forest == [] then []
    else PostOrder(forest[0].kids) + [forest[0]] + PostOrder(forest[1..])
  }

  /** The nodes still to come, for a stack of sibling lists: below the top, each list's head is under way. */
  ghost function Remaining(stack: seq<seq<Node>>): seq<Node> {
    if stack == [] then []
    else PostOrder(stack[|stack| - 1]) + Unfinished(stack[..|stack| - 1])
  }

  ghost function Unfinished(stack: seq<seq<Node>>): seq<Node>
    decreases |stack|
  {
    if stack == [] then []
    else
      var top := stack[|stack| - 1];
      if top == [] then Unfinished(stack[..|stack| - 1])
      else [top[0]] + PostOrder(top[1..]) + Unfinished(stack[..|stack| - 1])
  }

  ghost function Weight(forest: seq<Node>): nat
    decreases forest
  {
    if forest == [] then 0 else 3 + Weight(forest[0].kids) + Weight(forest[1..])
  }

  /** Bounds the steps left: pushing, stepping and popping all lower it. */
  ghost function StackWeight(stack: seq<seq<Node>>): nat {
    if stack == [] then 0 else 1 + Weight(stack[|stack| - 1]) + UnfinishedWeight(stack[..|stack| - 1])
  }

  ghost function UnfinishedWeight(stack: seq<seq<Node>>): nat
    decreases |stack|
  {
    if stack == [] then 0
    else
      var top := stack[|stack| - 1];
      (if top == [] then 1 else 2 + Weight(top[1..])) + UnfinishedWeight(stack[..|stack| - 1])
  }

  lemma PostOrderParts(forest: seq<Node>)
    requires forest != []
    ensures PostOrder(forest) == PostOrder(forest[0].kids) + [forest[0]] + PostOrder(forest[1..])
    ensures Weight(forest) == 3 + Weight(forest[0].kids) + Weight(forest[1..])
  {
  }

  lemma TopOf(lower: seq<seq<Node>>, top: seq<Node>)
    ensures Remaining(lower + [top]) == PostOrder(top) + Unfinished(lower)
    ensures StackWeight(lower + [top]) == 1 + Weight(top) + UnfinishedWeight(lower)
  {
    assert (lower + [top])[..|lower|] == lower;
  }

  lemma UnfinishedTop(lower: seq<seq<Node>>, top: seq<Node>)
    requires top != []
    ensures Unfinished(lower + [top]) == [top[0]] + PostOrder(top[1..]) + Unfinished(lower)
    ensures UnfinishedWeight(lower + [top]) == 2 + Weight(top[1..]) + UnfinishedWeight(lower)
  {
    assert (lower + [top])[..|lower|] == lower;
  }

  ghost predicate AllUnderWay(lower: seq<seq<Node>>) {
    forall k | 0 <= k < |lower| :: lower[k] != []
  }

  /** The walk so far and the walk still to come make up the whole order. */
  ghost predicate OnTrack(forest: seq<Node>, stack: seq<seq<Node>>, visited: seq<Node>) {
    && (stack != [] ==> AllUnderWay(stack[..|stack| - 1]))
    && visited + Remaining(stack) == PostOrder(forest)
  }

  lemma StartOnTrack(forest: seq<Node>)
    ensures OnTrack(forest, if forest == [] then [] else [forest], [])
  {
    if forest != [] {
      TopOf([], forest);
      assert [] + [forest] == [forest];
    }
  }

  lemma PushRemaining(lower: seq<seq<Node>>, top: seq<Node>)
    requires top != []
    ensures Remaining((lower + [top]) + [top[0].kids]) == Remaining(lower + [top])
    ensures StackWeight((lower + [top]) + [top[0].kids]) < StackWeight(lower + [top])
  {
    TopOf(lower, top);
    TopOf(lower + [top], top[0].kids);
    UnfinishedTop(lower, top);
    PostOrderParts(top);
    Regroup(PostOrder(top[0].kids), [top[0]], PostOrder(top[1..]), Unfinished(lower));
  }

  lemma PushOnTrack(forest: seq<Node>, lower: seq<seq<Node>>, top: seq<Node>, visited: seq<Node>)
    requires top != [] && AllUnderWay(lower) && visited + Remaining(lower + [top]) == PostOrder(forest)
    ensures OnTrack(forest, (lower + [top]) + [top[0].kids], visited)
    ensures StackWeight((lower + [top]) + [top[0].kids]) < StackWeight(lower + [top])
  {
    PushRemaining(lower, top);
    assert ((lower + [top]) + [top[0].kids])[..|lower| + 1] == lower + [top];
  }

  lemma StepRemaining(lower: seq<seq<Node>>, top: seq<Node>)
    requires top != [] && top[0].kids == []
    ensures Remaining(lower + [top]) == [top[0]] + Remaining(lower + [top[1..]])
    ensures StackWeight(lower + [top[1..]]) < StackWeight(lower + [top])
  {
    TopOf(lower, top);
    TopOf(lower, top[1..]);
    PostOrderParts(top);
    Regroup([], [top[0]], PostOrder(top[1..]), Unfinished(lower));
  }

  lemma PopRemaining(lower: seq<seq<Node>>, top: seq<Node>)
    requires top != []
    ensures Remaining((lower + [top]) + [[]]) == [top[0]] + Remaining(lower + [top[1..]])
    ensures StackWeight(lower + [top[1..]]) < StackWeight((lower + [top]) + [[]])
  {
    TopOf(lower + [top], []);
    UnfinishedTop(lower, top);
    TopOf(lower, top[1..]);
    Regroup([], [top[0]], PostOrder(top[1..]), Unfinished(lower));
  }

  lemma StepOnTrack(forest: seq<Node>, lower: seq<seq<Node>>, top: seq<Node>, visited: seq<Node>)
    requires top != [] && top[0].kids == []
    requires AllUnderWay(lower) && visited + Remaining(lower + [top]) == PostOrder(forest)
    ensures PostOrder(forest) == visited + ([top[0]] + Remaining(lower + [top[1..]]))
    ensures OnTrack(forest, lower + [top[1..]], visited + [top[0]])
    ensures StackWeight(lower + [top[1..]]) < StackWeight(lower + [top])
  {
    StepRemaining(lower, top);
    MoveOver(visited, top[0], Remaining(lower + [top[1..]]));
    assert (lower + [top[1..]])[..|lower|] == lower;
  }

  lemma PopOnTrack(forest: seq<Node>, lower: seq<seq<Node>>, top: seq<Node>, visited: seq<Node>)
    requires top != []
    requires AllUnderWay(lower) && visited + Remaining((lower + [top]) + [[]]) == PostOrder(forest)
    ensures PostOrder(forest) == visited + ([top[0]] + Remaining(lower + [top[1..]]))
    ensures OnTrack(forest, lower + [top[1..]], visited + [top[0]])
    ensures StackWeight(lower + [top[1..]]) < StackWeight((lower + [top]) + [[]])
  {
    PopRemaining(lower, top);
    MoveOver(visited, top[0], Remaining(lower + [top[1..]]));
    assert (lower + [top[1..]])[..|lower|] == lower;
  }

  lemma PopOf(full: seq<seq<Node>>, lower: seq<seq<Node>>, top: seq<Node>)
    requires |full| >= 2 && full[|full| - 1] == [] && AllUnderWay(full[..|full| - 1])
    requires lower == full[..|full| - 1][..|full| - 2] && top == full[..|full| - 1][|full| - 2]
    ensures full == (lower + [top]) + [[]] && top != [] && AllUnderWay(lower)
  {
  }

  lemma LastPop(forest: seq<Node>, full: seq<seq<Node>>, visited: seq<Node>)
    requires |full| == 1 && full[0] == [] && OnTrack(forest, full, visited)
    ensures visited == PostOrder(forest) && OnTrack(forest, [], visited)
    ensures StackWeight([]) < StackWeight(full)
  {
    var none: seq<seq<Node>> := [];
    TopOf(none, []);
    assert none + [[]] == full;
    assert visited + [] == visited;
  }

  // ----- the whole walk, as a fold of one row update over the nodes in order

  ghost function RefreshRow(files: Files, rows: map<nat, Row>, n: Node): map<nat, Row> {
    var t := if n.kids == [] then Totals(At(files.have, n.index), At(files.sizes, n.index), PriorityOf(files, n.index))
             else Aggregate(rows, n.kids);
    rows[n.id := Row(t.have, t.size, Narrow(t.priority))]
  }

  ghost function RefreshRows(files: Files, rows: map<nat, Row>, nodes: seq<Node>): map<nat, Row>
    decreases |nodes|
  {
    if nodes == [] then rows
    else RefreshRow(files, RefreshRows(files, rows, nodes[..|nodes| - 1]), nodes[|nodes| - 1])
  }

  lemma RefreshSnoc(files: Files, rows: map<nat, Row>, nodes: seq<Node>, n: Node)
    ensures RefreshRows(files, rows, nodes + [n]) == RefreshRow(files, RefreshRows(files, rows, nodes), n)
  {
    assert (nodes + [n])[..|nodes|] == nodes;
  }

  lemma {:induction false} RefreshAppend(files: Files, rows: map<nat, Row>, a: seq<Node>, b: seq<Node>)
    ensures RefreshRows(files, rows, a + b) == RefreshRows(files, RefreshRows(files, rows, a), b)
    decreases |b|
  {
    if b == [] {
      assert a + b == a;
    } else {
      var last := |b| - 1;
      assert (a + b)[..|a + b| - 1] == a + b[..last];
      RefreshAppend(files, rows, a, b[..last]);
    }
  }

  ghost predicate DistinctIds(nodes: seq<Node>) {
    forall i, j | 0 <= i < j < |nodes| :: nodes[i].id != nodes[j].id
  }

  ghost function Ids(nodes: seq<Node>): set<nat> {
    set n | n in nodes :: n.id
  }

  /** Rows of nodes that are not visited stay as they are. */
  lemma {:induction false} RefreshLeavesOthers(files: Files, rows: map<nat, Row>, nodes: seq<Node>)
    ensures RefreshRows(files, rows, nodes).Keys == rows.Keys + Ids(nodes)
    ensures forall id | id in rows && id !in Ids(nodes) :: RefreshRows(files, rows, nodes)[id] == rows[id]
    decreases |nodes|
  {
    if nodes != [] {
      var last := |nodes| - 1;
      RefreshLeavesOthers(files, rows, nodes[..last]);
      assert nodes == nodes[..last] + [nodes[last]];
      assert Ids(nodes) == Ids(nodes[..last]) + {nodes[last].id};
    }
  }

  lemma RefreshKeepsTargets(files: Files, rows: map<nat, Row>, nodes: seq<Node>, done: seq<Node>)
    requires ShowTargets(files, rows, done) && Ids(nodes) !! Ids(done)
    ensures ShowTargets(files, RefreshRows(files, rows, nodes), done)
  {
    RefreshLeavesOthers(files, rows, nodes);
    assert forall n | n in done :: n.id in Ids(done);
  }

  lemma DistinctParts(a: seq<Node>, b: seq<Node>)
    requires DistinctIds(a + b)
    ensures DistinctIds(a) && DistinctIds(b) && Ids(a) !! Ids(b)
  {
    assert forall i | 0 <= i < |a| :: (a + b)[i] == a[i];
    assert forall i | 0 <= i < |b| :: (a + b)[|a| + i] == b[i];
    forall n, m | n in a && m in b
      ensures n.id != m.id
    {
      var i :| 0 <= i < |a| && a[i] == n;
      var j :| 0 <= j < |b| && b[j] == m;
      assert (a + b)[i].id != (a + b)[|a| + j].id;
    }
  }

  lemma {:induction false} KidsAreVisited(forest: seq<Node>)
    ensures forall n | n in forest :: n in PostOrder(forest)
    decreases |forest|
  {
    if forest != [] {
      KidsAreVisited(forest[1..]);
      assert forall n | n in forest :: n == forest[0] || n in forest[1..];
    }
  }

  lemma RefreshNode(files: Files, rows: map<nat, Row>, n: Node)
    requires AllKnown(files, LeavesOf(n)) && ShowTargets(files, rows, n.kids)
    ensures
      var after := RefreshRow(files, rows, n);
      n.id in after && after[n.id] == Target(files, n)
  {
    if n.kids == [] {
      assert KnowsFile(files, LeavesOf(n)[0]);
    } else {
      AggregateMeetsTarget(files, rows, n.kids);
    }
  }

  /** After the walk every row of the forest, at any depth, shows its target. */
  lemma {:induction false} RefreshMeetsTargets(files: Files, rows: map<nat, Row>, forest: seq<Node>)
    requires AllKnown(files, Leaves(forest)) && DistinctIds(PostOrder(forest))
    ensures ShowTargets(files, RefreshRows(files, rows, PostOrder(forest)), PostOrder(forest))
    decreases forest
  {
    if forest != [] {
      var n, rest := forest[0], forest[1..];
      var below, after := PostOrder(n.kids), PostOrder(rest);
      PostOrderParts(forest);
      DistinctParts(below + [n], after);
      DistinctParts(below, [n]);
      assert LeavesOf(n) <= Leaves(forest) && AllKnown(files, LeavesOf(n));
      assert AllKnown(files, Leaves(n.kids));
      RefreshMeetsTargets(files, rows, n.kids);
      var rows1 := RefreshRows(files, rows, below);
      KidsAreVisited(n.kids);
      RefreshNode(files, rows1, n);
      RefreshSnoc(files, rows, below, n);
      var rows2 := RefreshRows(files, rows, below + [n]);
      RefreshKeepsTargets(files, rows1, [n], below);
      RefreshMeetsTargets(files, rows2, rest);
      RefreshAppend(files, rows, below + [n], after);
      RefreshKeepsTargets(files, rows2, after, below + [n]);
    }
  }

  // ----- which files a click is about

  /** The row at a tree path, a path being the child numbers from the top down. */
  ghost function NodeAt(forest: seq<Node>, path: seq<nat>): Option<Node>
    decreases |path|
  {
    if path == [] || path[0] >= |forest| then None
    else if |path| == 1 then Some(forest[path[0]])
    else NodeAt(forest[path[0]].kids, path[1..])
  }

  /**
   The files found by visiting every row, top down, and keeping those whose path is the
   target or lies below it. The forest is what is left of the children of prefix from k on.
   */
  function ScanSubtree(forest: seq<Node>, prefix: seq<nat>, k: nat, target: seq<nat>): seq<int>
    decreases forest
  {
    if forest == [] then []
    else
      var path := prefix + [k];
      (if forest[0].kids != [] then ScanSubtree(forest[0].kids, path, 0, target)
       else if target <= path then [forest[0].index] else [])
      + ScanSubtree(forest[1..], prefix, k + 1, target)
  }

  lemma {:induction false} ScanBelow(forest: seq<Node>, prefix: seq<nat>, k: nat, target: seq<nat>)
    requires target <= prefix
    ensures ScanSubtree(forest, prefix, k, target) == Leaves(forest)
    decreases forest
  {
    if forest != [] {
      ScanBelow(forest[0].kids, prefix + [k], 0, target);
      ScanBelow(forest[1..], prefix, k + 1, target);
    }
  }

  lemma {:induction false} ScanBeside(forest: seq<Node>, prefix: seq<nat>, k: nat, target: seq<nat>, d: nat)
    requires d < |prefix| && d < |target| && prefix[d] != target[d]
    ensures ScanSubtree(forest, prefix, k, target) == []
    decreases forest
  {
    if forest != [] {
      assert (prefix + [k])[d] == prefix[d];
      ScanBeside(forest[0].kids, prefix + [k], 0, target, d);
      ScanBeside(forest[1..], prefix, k + 1, target, d);
    }
  }

  /** The row that a path leads to, counting the children of the list from k on. */
  ghost function NodeFrom(forest: seq<Node>, k: nat, path: seq<nat>): Option<Node>
    requires path != []
  {
    if path[0] < k || path[0] - k >= |forest| then None
    else if |path| == 1 then Some(forest[path[0] - k])
    else NodeAt(forest[path[0] - k].kids, path[1..])
  }

  ghost function FilesBelow(n: Option<Node>): seq<int> {
    match n case Some(n) => LeavesOf(n) case None => []
  }

  lemma NodeFromLater(forest: seq<Node>, k: nat, path: seq<nat>)
    requires forest != [] && path != []
    ensures NodeFrom(forest[1..], k + 1, path) == if path[0] == k then None else NodeFrom(forest, k, path)
  {
    if k < path[0] < k + |forest| {
      assert forest[1..][path[0] - (k + 1)] == forest[path[0] - k];
    }
  }

  /** Nothing is found in the first child when the path leads elsewhere. */
  lemma ScanElsewhere(forest: seq<Node>, prefix: seq<nat>, k: nat, target: seq<nat>)
    requires forest != [] && prefix < target && target[|prefix|] != k
    ensures ScanSubtree(forest, prefix, k, target) == ScanSubtree(forest[1..], prefix, k + 1, target)
  {
    var path := prefix + [k];
    assert path[|prefix|] != target[|prefix|];
    if forest[0].kids != [] {
      ScanBeside(forest[0].kids, path, 0, target, |prefix|);
    }
    assert ScanSubtree(forest, prefix, k, target) == [] + ScanSubtree(forest[1..], prefix, k + 1, target);
  }

  /** Scanning by path finds exactly the files below the row at that path. */
  lemma {:induction false} ScanFinds(forest: seq<Node>, prefix: seq<nat>, k: nat, target: seq<nat>)
    requires prefix < target
    ensures ScanSubtree(forest, prefix, k, target) == FilesBelow(NodeFrom(forest, k, target[|prefix|..]))
    decreases forest, 1
  {
    if forest != [] {
      ScanFinds(forest[1..], prefix, k + 1, target);
      NodeFromLater(forest, k, target[|prefix|..]);
      if target[|prefix|] == k {
        ScanHere(forest, prefix, k, target);
      } else {
        ScanElsewhere(forest, prefix, k, target);
      }
    }
  }

  /** The child the path ends at, or goes through. */
  lemma {:induction false} ScanHere(forest: seq<Node>, prefix: seq<nat>, k: nat, target: seq<nat>)
    requires forest != [] && prefix < target && target[|prefix|] == k
    ensures
      var path := prefix + [k];
      (if forest[0].kids != [] then ScanSubtree(forest[0].kids, path, 0, target)
       else if target <= path then [forest[0].index] else [])
      == FilesBelow(NodeFrom(forest, k, target[|prefix|..]))
    decreases forest, 0
  {
    var path := prefix + [k];
    var rel := target[|prefix|..];
    assert rel[0] == k && path <= target;
    if |rel| == 1 {
      assert target == path;
      assert NodeFrom(forest, k, rel) == Some(forest[0]);
      ScanBelow(forest[0].kids, path, 0, target);
    } else {
      assert path < target && target[|path|..] == rel[1..];
      assert NodeFrom(forest, k, rel) == NodeAt(forest[0].kids, rel[1..]);
      ScanFinds(forest[0].kids, path, 0, target);
      FromZero(forest[0].kids, rel[1..]);
    }
  }

  lemma FromZero(forest: seq<Node>, path: seq<nat>)
    requires path != []
    ensures NodeFrom(forest, 0, path) == NodeAt(forest, path)
  {
  }

  predicate IsActive(n: Node, ancestors: seq<Node>, selected: set<nat>) {
    n.id in selected || exists a | a in ancestors :: a.id in selected
  }

  /** The files whose own row, or some row above them, is selected. */
  function SelectedFiles(forest: seq<Node>, ancestors: seq<Node>, selected: set<nat>): seq<int>
    decreases forest
  {
    if forest == [] then []
    else
      (if forest[0].kids != [] then SelectedFiles(forest[0].kids, ancestors + [forest[0]], selected)
       else if IsActive(forest[0], ancestors, selected) then [forest[0].index] else [])
      + SelectedFiles(forest[1..], ancestors, selected)
  }

  lemma {:induction false} AllBelowSelected(forest: seq<Node>, ancestors: seq<Node>, selected: set<nat>)
    requires exists a | a in ancestors :: a.id in selected
    ensures SelectedFiles(forest, ancestors, selected) == Leaves(forest)
    decreases forest
  {
    if forest != [] {
      assert forall a | a in ancestors :: a in ancestors + [forest[0]];
      AllBelowSelected(forest[0].kids, ancestors + [forest[0]], selected);
      AllBelowSelected(forest[1..], ancestors, selected);
    }
  }

  /** Everything below a selected row is taken. */
  lemma {:induction false} SelectedCovers(forest: seq<Node>, ancestors: seq<Node>, selected: set<nat>, n: Node)
    requires n in PostOrder(forest) && n.id in selected
    ensures forall i | i in LeavesOf(n) :: i in SelectedFiles(forest, ancestors, selected)
    decreases forest
  {
    var first := forest[0];
    PostOrderParts(forest);
    if n == first {
      if n.kids != [] {
        assert n in ancestors + [n];
        AllBelowSelected(n.kids, ancestors + [n], selected);
      }
    } else if n in PostOrder(first.kids) {
      SelectedCovers(first.kids, ancestors + [first], selected, n);
    } else {
      SelectedCovers(forest[1..], ancestors, selected, n);
    }
  }

  /** And nothing else is: every file taken lies below some selected row. */
  lemma {:induction false} SelectedIsSound(forest: seq<Node>, ancestors: seq<Node>, selected: set<nat>, i: int)
    requires i in SelectedFiles(forest, ancestors, selected)
    ensures (exists a | a in ancestors :: a.id in selected) ||
            (exists n | n in PostOrder(forest) :: n.id in selected && i in LeavesOf(n))
    decreases forest
  {
    var first := forest[0];
    PostOrderParts(forest);
    var head := if first.kids != [] then SelectedFiles(first.kids, ancestors + [first], selected)
                else if IsActive(first, ancestors, selected) then [first.index] else [];
    if i !in head {
      SelectedIsSound(forest[1..], ancestors, selected, i);
    } else if first.kids == [] {
      assert first in PostOrder(forest) && i in LeavesOf(first);
    } else {
      SelectedIsSound(first.kids, ancestors + [first], selected, i);
      if first.id in selected {
        SelectedAreLeaves(first.kids, ancestors + [first], selected, i);
        assert first in PostOrder(forest) && i in LeavesOf(first);
      }
    }
  }

  lemma {:induction false} SelectedAreLeaves(forest: seq<Node>, ancestors: seq<Node>, selected: set<nat>, i: int)
    requires i in SelectedFiles(forest, ancestors, selected)
    ensures i in Leaves(forest)
    decreases forest
  {
    var first := forest[0];
    if first.kids != [] && i in SelectedFiles(first.kids, ancestors + [first], selected) {
      SelectedAreLeaves(first.kids, ancestors + [first], selected, i);
    } else if i in SelectedFiles(forest[1..], ancestors, selected) {
      SelectedAreLeaves(forest[1..], ancestors, selected, i);
    }
  }

  /** The file lies below some selected row. */
  ghost predicate BelowSelection(forest: seq<Node>, selected: set<nat>, i: int) {
    exists m | m in PostOrder(forest) :: m.id in selected && i in LeavesOf(m)
  }

  /** The files taken for a selection are exactly those below its rows. */
  lemma SelectedIff(forest: seq<Node>, selected: set<nat>, i: int)
    ensures i in SelectedFiles(forest, [], selected) <==> BelowSelection(forest, selected, i)
    ensures i in SelectedFiles(forest, [], selected) ==> i in Leaves(forest)
  {
    if i in SelectedFiles(forest, [], selected) {
      SelectedIsSound(forest, [], selected, i);
      SelectedAreLeaves(forest, [], selected, i);
    }
    if m :| m in PostOrder(forest) && m.id in selected && i in LeavesOf(m) {
      SelectedCovers(forest, [], selected, m);
    }
  }

  /** A click on a selected row is about the whole selection, one on another row about the files below that row. */
  ghost predicate ClickIsAbout(forest: seq<Node>, selected: set<nat>, n: Node, i: int) {
    if n.id in selected then BelowSelection(forest, selected, i) else i in LeavesOf(n)
  }

  lemma {:induction false} NodeAtIsVisited(forest: seq<Node>, path: seq<nat>)
    requires NodeAt(forest, path).Some?
    ensures NodeAt(forest, path).value in PostOrder(forest)
    decreases |path|
  {
    var child := forest[path[0]];
    KidsAreVisited(forest);
    if |path| > 1 {
      NodeAtIsVisited(child.kids, path[1..]);
      VisitedBelow(forest, child, NodeAt(forest, path).value);
    }
  }

  lemma {:induction false} VisitedBelow(forest: seq<Node>, child: Node, n: Node)
    requires child in forest && n in PostOrder(child.kids)
    ensures n in PostOrder(forest)
    decreases |forest|
  {
    PostOrderParts(forest);
    if forest[0] != child {
      VisitedBelow(forest[1..], child, n);
    }
  }

  lemma {:induction false} LeavesOfVisited(forest: seq<Node>, n: Node, i: int)
    requires n in PostOrder(forest) && i in LeavesOf(n)
    ensures i in Leaves(forest)
    decreases forest
  {
    PostOrderParts(forest);
    if n in PostOrder(forest[0].kids) {
      LeavesOfVisited(forest[0].kids, n, i);
    } else if n in PostOrder(forest[1..]) {
      LeavesOfVisited(forest[1..], n, i);
    }
  }

  lemma {:induction false} VisitedKids(forest: seq<Node>, n: Node)
    requires n in PostOrder(forest)
    ensures forall k | k in n.kids :: k in PostOrder(forest)
    decreases forest
  {
    PostOrderParts(forest);
    if n == forest[0] {
      KidsAreVisited(n.kids);
    } else if n in PostOrder(forest[0].kids) {
      VisitedKids(forest[0].kids, n);
    } else {
      VisitedKids(forest[1..], n);
    }
  }

  lemma LeavesOfNotEmpty(n: Node)
    ensures LeavesOf(n) != []
  {
    if n.kids != [] {
      LeavesNotEmpty(n.kids);
    }
  }

  lemma ShownPriority(files: Files, n: Node)
    ensures LeavesOf(n) != [] && Target(files, n).priority == CommonPriority(files, LeavesOf(n))
  {
    LeavesOfNotEmpty(n);
  }

  /** The same look-up, for a path that exists. */
  function Lookup(forest: seq<Node>, path: seq<nat>): (n: Node)
    requires NodeAt(forest, path).Some?
    ensures NodeAt(forest, path) == Some(n)
    decreases |path|
  {
    if |path| == 1 then forest[path[0]] else Lookup(forest[path[0]].kids, path[1..])
  }

  /** The priority after this one, round robin; anything else, mixed included, goes to the default. */
  function NextPriority(priority: Byte): Byte {
    if priority == DEFAULT_PRIORITY then TOP_PRIORITY
    else if priority == TOP_PRIORITY then LOW_PRIORITY
    else if priority == LOW_PRIORITY then DONT_DOWNLOAD
    else DEFAULT_PRIORITY
  }

  lemma {:induction false} UniformPriority(files: Files, indices: seq<int>, p: Byte)
    requires indices != [] && forall i | i in indices :: PriorityOf(files, i) == p
    ensures CommonPriority(files, indices) == p
  {
    assert indices[0] in indices;
  }

  /**
   What a click comes to: exactly the files it is about have the new priority, all others keep
   theirs, and every row over such files alone, the clicked one first of all, shows it.
   */
  ghost predicate Toggled(forest: seq<Node>, selected: set<nat>, n: Node, p: Byte, was: Files, now: Files,
                          rows: map<nat, Row>) {
    && (forall i: int :: PriorityOf(now, i) == if ClickIsAbout(forest, selected, n, i) then p else PriorityOf(was, i))
    && (forall i | i in LeavesOf(n) :: ClickIsAbout(forest, selected, n, i))
    && (forall m | m in PostOrder(forest) && (forall i | i in LeavesOf(m) :: ClickIsAbout(forest, selected, n, i)) ::
          RowAt(rows, m.id).priority == p)
    && RowAt(rows, n.id).priority == p
  }

  /** The calls ask for that priority, for exactly the files the click is about. */
  ghost predicate AsksFor(calls: seq<(int, Byte)>, forest: seq<Node>, selected: set<nat>, n: Node, p: Byte) {
    forall i: int, q: Byte :: (i, q) in calls <==> q == p && ClickIsAbout(forest, selected, n, i)
  }

  lemma CallsAreFor(indices: seq<int>, forest: seq<Node>, selected: set<nat>, n: Node, p: Byte)
    requires forall i: int :: i in indices <==> ClickIsAbout(forest, selected, n, i)
    ensures AsksFor(seq(|indices|, k requires 0 <= k < |indices| => (indices[k], p)), forest, selected, n, p)
  {
    var calls := seq(|indices|, k requires 0 <= k < |indices| => (indices[k], p));
    forall i: int, q: Byte
      ensures (i, q) in calls <==> q == p && i in indices
    {
      if q == p && i in indices {
        var k :| 0 <= k < |indices| && indices[k] == i;
        assert calls[k] == (i, q);
      }
    }
  }

  // ----- what the rows say, told from the files alone

  /** All these files have that priority. */
  ghost predicate AllHave(priorities: seq<Byte>, indices: seq<int>, p: nat) {
    forall i | i in indices :: 0 <= i < |priorities| && priorities[i] == p
  }

  /** Two of these files have different priorities. */
  ghost predicate SomeDiffer(priorities: seq<Byte>, indices: seq<int>) {
    exists i, j | i in indices && j in indices ::
      0 <= i < |priorities| && 0 <= j < |priorities| && priorities[i] != priorities[j]
  }

  /** A priority of the library says that all files have it, 233 says that two differ, and nothing else is shown. */
  ghost predicate SaysPriority(shown: nat, priorities: seq<Byte>, indices: seq<int>) {
    && (forall p: nat | p <= 7 :: shown == p <==> AllHave(priorities, indices, p))
    && (shown == 233 <==> SomeDiffer(priorities, indices))
    && (shown <= 7 || shown == 233)
  }

  /** The bytes of each of these files, or none for a file with priority 0. */
  ghost function Counted(bytes: seq<nat>, priorities: seq<Byte>, indices: seq<int>): seq<int> {
    seq(|indices|, k requires 0 <= k < |indices| =>
      if 0 <= indices[k] < |bytes| && indices[k] < |priorities| && priorities[indices[k]] != 0 then bytes[indices[k]] else 0)
  }

  /** A file's row says its own bytes, a directory's row the sums over the files below that are not switched off. */
  ghost predicate SaysBytes(row: Row, files: Files, n: Node) {
    if n.kids == [] then
      && 0 <= n.index < |files.sizes| && row.size == files.sizes[n.index]
      && row.have == if n.index < |files.have| then files.have[n.index] else 0
    else
      && row.size == Sum(Counted(files.sizes, files.priorities, LeavesOf(n)))
      && row.have == Sum(Counted(files.have, files.priorities, LeavesOf(n)))
  }

  ghost predicate RowsTell(files: Files, rows: map<nat, Row>, nodes: seq<Node>) {
    forall n | n in nodes ::
      && n.id in rows && SaysBytes(rows[n.id], files, n)
      && SaysPriority(rows[n.id].priority, files.priorities, LeavesOf(n))
  }

  lemma CommonSays(files: Files, indices: seq<int>)
    requires AllKnown(files, indices) && indices != []
    ensures SaysPriority(CommonPriority(files, indices), files.priorities, indices)
  {
    assert indices[0] in indices && KnowsFile(files, indices[0]);
    forall i | i in indices
      ensures PriorityOf(files, i) == files.priorities[i] <= 7
    {
      assert KnowsFile(files, i);
    }
  }

  lemma {:induction false} ChosenIsCounted(files: Files, indices: seq<int>)
    requires AllKnown(files, indices)
    ensures ChosenSize(files, indices) == Sum(Counted(files.sizes, files.priorities, indices))
    ensures ChosenHave(files, indices) == Sum(Counted(files.have, files.priorities, indices))
    decreases |indices|
  {
    if indices != [] {
      var front, last := indices[..|indices| - 1], indices[|indices| - 1];
      assert indices == front + [last] && [last][1..] == [];
      assert KnowsFile(files, last);
      ChosenIsCounted(files, front);
      ChosenAppend(files, front, [last]);
      assert Counted(files.sizes, files.priorities, indices)[..|front|] == Counted(files.sizes, files.priorities, front);
      assert Counted(files.have, files.priorities, indices)[..|front|] == Counted(files.have, files.priorities, front);
    }
  }

  /** The rows that the walk leaves say of the files what they should, whatever goes through the 8-bit column. */
  lemma TargetsTell(files: Files, rows: map<nat, Row>, nodes: seq<Node>)
    requires ShowTargets(files, rows, nodes)
    ensures RowsTell(files, rows, nodes)
  {
    forall n | n in nodes
      ensures SaysBytes(rows[n.id], files, n) && SaysPriority(rows[n.id].priority, files.priorities, LeavesOf(n))
    {
      ShownPriority(files, n);
      CommonSays(files, LeavesOf(n));
      ChosenIsCounted(files, LeavesOf(n));
      assert n.kids == [] ==> KnowsFile(files, LeavesOf(n)[0]);
    }
  }

  /** After a walk over any rows, every row of the forest tells of the files below it. */
  lemma RefreshTells(files: Files, rows: map<nat, Row>, forest: seq<Node>)
    requires AllKnown(files, Leaves(forest)) && DistinctIds(PostOrder(forest))
    ensures RowsTell(files, RefreshRows(files, rows, PostOrder(forest)), PostOrder(forest))
  {
    RefreshMeetsTargets(files, rows, forest);
    TargetsTell(files, RefreshRows(files, rows, PostOrder(forest)), PostOrder(forest));
  }

  /**
   The priority a click gives, by those of the files below the row that was clicked: 4, 7, 1 and 0
   follow each other round and round, and any others come in at 4.
   */
  ghost predicate ComesNext(priorities: seq<Byte>, indices: seq<int>, p: nat) {
    && (AllHave(priorities, indices, 4) ==> p == 7)
    && (AllHave(priorities, indices, 7) ==> p == 1)
    && (AllHave(priorities, indices, 1) ==> p == 0)
    && (AllHave(priorities, indices, 0) ==> p == 4)
    && (SomeDiffer(priorities, indices) ==> p == 4)
    && (forall q | q in {2, 3, 5, 6} && AllHave(priorities, indices, q) :: p == 4)
  }

  lemma ClickGoesRound(files: Files, rows: map<nat, Row>, nodes: seq<Node>, n: Node)
    requires RowsTell(files, rows, nodes) && n in nodes
    ensures ComesNext(files.priorities, LeavesOf(n), NextPriority(RowAt(rows, n.id).priority))
  {
    assert SaysPriority(rows[n.id].priority, files.priorities, LeavesOf(n));
  }

  // ----- the widget

  class FileList {
    /** The tree of rows does not change during a walk; the columns of the rows do. */
    const forest: seq<Node>
    var rows: map<nat, Row>
    var selected: set<nat>
    const sizes: seq<nat>
    var priorities: seq<Byte>
    /** Whether the torrent is already in the session; if not, nothing is downloaded yet. */
    const hasTorrent: bool
    var progress: seq<nat>
    /** The priorities asked of the session, file by file, in the order of the calls. */
    ghost var asked: seq<(int, Byte)>

    ghost function FilesNow(): Files
      reads this`priorities, this`progress
    {
      Files(sizes, if hasTorrent then progress else [], priorities)
    }

    /** What the walk relies on and does not change. */
    ghost predicate Sound()
      reads this`priorities, this`progress
    {
      DistinctIds(PostOrder(forest)) && AllKnown(FilesNow(), Leaves(forest))
    }

    ghost predicate HasRows()
      reads this`rows
    {
      Ids(PostOrder(forest)) <= rows.Keys
    }

    ghost predicate Valid()
      reads this`rows, this`priorities, this`progress
    {
      Sound() && HasRows()
    }

    /** Where a walk that started from the rows "was" has got to. */
    ghost predicate Walked(was: map<nat, Row>, stack: seq<seq<Node>>, visited: seq<Node>)
      reads this`rows, this`priorities, this`progress
    {
      && HasRows() && rows == RefreshRows(FilesNow(), was, visited)
      && OnTrack(forest, stack, visited)
    }

    constructor (forest: seq<Node>, rows: map<nat, Row>, sizes: seq<nat>, priorities: seq<Byte>,
                 hasTorrent: bool, progress: seq<nat>)
      requires DistinctIds(PostOrder(forest)) && Ids(PostOrder(forest)) <= rows.Keys
      requires AllKnown(Files(sizes, if hasTorrent then progress else [], priorities), Leaves(forest))
      ensures Valid() && this.forest == forest && this.rows == rows && this.sizes == sizes
      ensures this.priorities == priorities && this.hasTorrent == hasTorrent && this.progress == progress
      ensures selected == {} && asked == []
    {
      this.forest, this.rows, this.sizes, this.priorities := forest, rows, sizes, priorities;
      this.hasTorrent, this.progress, this.selected := hasTorrent, progress, {};
      asked := [];
    }

    /** The loop over the immediate children. */
    method SumChildren(kids: seq<Node>) returns (have: int, size: int, priority: nat)
      requires forall n | n in kids :: n.id in rows
      ensures Totals(have, size, priority) == Aggregate(rows, kids)
    {
      have, size, priority := 0, 0, NOT_SET;
      for k := 0 to |kids|
        invariant Totals(have, size, priority) == Aggregate(rows, kids[..k])
      {
        var child := rows[kids[k].id];
        if child.priority != DONT_DOWNLOAD {
          have := have + child.have;
          size := size + child.size;
        }
        if priority == NOT_SET {
          priority := child.priority;
        } else if priority != child.priority {
          priority := MIXED;
        }
        AggregateSnoc(rows, kids[..k], kids[k]);
        assert kids[..k + 1] == kids[..k] + [kids[k]];
      }
      assert kids[..|kids|] == kids;
    }

    /** Recomputes one row and writes back the columns that changed. */
    method RefreshFilesForeach(n: Node)
      requires n.id in rows && forall k | k in n.kids :: k.id in rows
      requires n.kids == [] ==> KnowsFile(FilesNow(), n.index)
      modifies this`rows
      ensures rows == RefreshRow(FilesNow(), old(rows), n)
    {
      var newHave, newSize, newPriority := 0, 0, 0;
      if n.kids == [] {
        newHave := if !hasTorrent || progress == [] then 0 else progress[n.index];
        newSize := sizes[n.index];
        newPriority := priorities[n.index];
      } else {
        newHave, newSize, newPriority := SumChildren(n.kids);
      }
      var row := rows[n.id];
      if newSize != row.size {
        rows := rows[n.id := rows[n.id].(size := newSize)];
      }
      if newHave != row.have {
        rows := rows[n.id := rows[n.id].(have := newHave)];
      }
      if newPriority != row.priority {
        rows := rows[n.id := rows[n.id].(priority := Narrow(newPriority))];
      }
    }

    /** One call of the row update, at its place in the order of the walk. */
    method Visit(n: Node, ghost was: map<nat, Row>, ghost visited: seq<Node>, ghost rest: seq<Node>)
      requires Sound() && HasRows() && PostOrder(forest) == visited + ([n] + rest)
      requires rows == RefreshRows(FilesNow(), was, visited)
      modifies this`rows
      ensures HasRows() && rows == RefreshRows(FilesNow(), was, visited + [n])
    {
      assert n in PostOrder(forest);
      VisitedKids(forest, n);
      if n.kids == [] {
        LeavesOfVisited(forest, n, n.index);
      }
      RefreshSnoc(FilesNow(), was, visited, n);
      RefreshFilesForeach(n);
    }

    /** Runs the leaf the topmost iterator stands at, and moves the iterator on. */
    method VisitLeaf(lower: seq<seq<Node>>, top: seq<Node>, ghost was: map<nat, Row>, ghost visited: seq<Node>)
      requires Sound() && top != [] && top[0].kids == [] && Walked(was, lower + [top], visited)
      modifies this`rows
      ensures Walked(was, lower + [top[1..]], visited + [top[0]])
      ensures StackWeight(lower + [top[1..]]) < StackWeight(lower + [top])
    {
      assert (lower + [top])[..|lower|] == lower;
      StepOnTrack(forest, lower, top, visited);
      Visit(top[0], was, visited, Remaining(lower + [top[1..]]));
    }

    /** Runs the directory whose children are done, and moves its iterator on. */
    method VisitParent(lower: seq<seq<Node>>, top: seq<Node>, ghost was: map<nat, Row>, ghost visited: seq<Node>)
      requires Sound() && top != [] && AllUnderWay(lower) && Walked(was, (lower + [top]) + [[]], visited)
      modifies this`rows
      ensures Walked(was, lower + [top[1..]], visited + [top[0]])
      ensures StackWeight(lower + [top[1..]]) < StackWeight((lower + [top]) + [[]])
    {
      PopOnTrack(forest, lower, top, visited);
      Visit(top[0], was, visited, Remaining(lower + [top[1..]]));
    }

    /** One round of the inner loop: goes down to the children of a directory, or runs a leaf. */
    method NextSibling(stack: seq<seq<Node>>, ghost was: map<nat, Row>, ghost before: seq<Node>)
      returns (next: seq<seq<Node>>, ghost visited: seq<Node>)
      requires Sound() && Walked(was, stack, before) && stack != [] && stack[|stack| - 1] != []
      modifies this`rows
      ensures Walked(was, next, visited) && next != []
      ensures StackWeight(next) < StackWeight(stack)
    {
      var lower, top := stack[..|stack| - 1], stack[|stack| - 1];
      FrontAndLast(stack);
      if top[0].kids != [] {
        PushOnTrack(forest, lower, top, before);
        next, visited := stack + [top[0].kids], before;
      } else {
        VisitLeaf(lower, top, was, before);
        next, visited := lower + [top[1..]], before + [top[0]];
      }
    }

    /** The inner loop: goes down to first children, and runs the siblings that are leaves. */
    method RunSiblings(start: seq<seq<Node>>, ghost was: map<nat, Row>, ghost before: seq<Node>)
      returns (stack: seq<seq<Node>>, ghost visited: seq<Node>)
      requires Sound() && Walked(was, start, before) && start != []
      modifies this`rows
      ensures Walked(was, stack, visited) && stack != [] && stack[|stack| - 1] == []
      ensures StackWeight(stack) <= StackWeight(start)
    {
      stack, visited := start, before;
      while stack[|stack| - 1] != []
        invariant Walked(was, stack, visited) && stack != [] && StackWeight(stack) <= StackWeight(start)
        decreases StackWeight(stack)
      {
        stack, visited := NextSibling(stack, was, visited);
      }
    }

    /** The rest of the outer loop: back up to the parent directory, if any, and runs it. */
    method FinishSiblings(full: seq<seq<Node>>, ghost was: map<nat, Row>, ghost before: seq<Node>)
      returns (stack: seq<seq<Node>>, ghost visited: seq<Node>)
      requires Sound() && Walked(was, full, before) && full != [] && full[|full| - 1] == []
      modifies this`rows
      ensures Walked(was, stack, visited) && StackWeight(stack) < StackWeight(full)
      ensures stack == [] ==> visited == PostOrder(forest)
    {
      var popped := full[..|full| - 1];
      if popped == [] {
        LastPop(forest, full, before);
        stack, visited := [], before;
      } else {
        var lower, top := popped[..|popped| - 1], popped[|popped| - 1];
        PopOf(full, lower, top);
        VisitParent(lower, top, was, before);
        stack, visited := lower + [top[1..]], before + [top[0]];
      }
    }

    /** Calls the row update on each node bottom up, with a stack of sibling iterators. */
    method ForeachPostorder()
      requires Valid()
      modifies this`rows
      ensures Valid() && rows == RefreshRows(FilesNow(), old(rows), PostOrder(forest))
    {
      var stack: seq<seq<Node>> := [];
      ghost var visited: seq<Node> := [];
      if forest != [] {
        stack := [forest];
      }
      StartOnTrack(forest);
      while stack != []
        invariant Walked(old(rows), stack, visited) && (stack == [] ==> visited == PostOrder(forest))
        decreases StackWeight(stack)
      {
        stack, visited := RunSiblings(stack, old(rows), visited);
        stack, visited := FinishSiblings(stack, old(rows), visited);
      }
    }

    /** One refresh: afterwards every row, at any depth, shows what the files below it amount to. */
    method Refresh()
      requires Valid()
      modifies this`rows
      ensures Valid() && rows.Keys == old(rows.Keys)
      ensures ShowTargets(FilesNow(), rows, PostOrder(forest)) && RowsTell(FilesNow(), rows, PostOrder(forest))
      ensures forall id | id in rows && id !in Ids(PostOrder(forest)) :: rows[id] == old(rows)[id]
    {
      RefreshMeetsTargets(FilesNow(), rows, forest);
      RefreshLeavesOthers(FilesNow(), rows, PostOrder(forest));
      ForeachPostorder();
      TargetsTell(FilesNow(), rows, PostOrder(forest));
    }

    /** The files a click on the row at path is about: the selection if the row is in it, else the row's subtree. */
    method GetActiveFilesForPath(path: seq<nat>) returns (indices: seq<int>)
      requires Valid() && NodeAt(forest, path).Some?
      ensures
        var n := NodeAt(forest, path).value;
        && (forall i: int :: i in indices <==> ClickIsAbout(forest, selected, n, i))
        && (n.id !in selected ==> indices == LeavesOf(n))
        && (forall i | i in LeavesOf(n) :: i in indices)
        && (forall i | i in indices :: i in Leaves(forest))
    {
      ghost var n := NodeAt(forest, path).value;
      NodeAtIsVisited(forest, path);
      if IsSelected(path) {
        indices := SelectedFiles(forest, [], selected);
        forall i: int
          ensures i in indices <==> BelowSelection(forest, selected, i)
          ensures i in indices ==> i in Leaves(forest)
        {
          SelectedIff(forest, selected, i);
        }
      } else {
        indices := ScanSubtree(forest, [], 0, path);
        ScanFinds(forest, [], 0, path);
        assert path[0..] == path;
        FromZero(forest, path);
        forall i | i in indices
          ensures i in Leaves(forest)
        {
          LeavesOfVisited(forest, n, i);
        }
      }
    }

    predicate IsSelected(path: seq<nat>)
      requires NodeAt(forest, path).Some?
      reads this
    {
      Lookup(forest, path).id in selected
    }

    /** Writes one priority to each of the files; directories (index -1) are skipped. */
    method SetPriorities(indices: seq<int>, priority: Byte)
      requires forall i | i in indices :: i == -1 || 0 <= i < |priorities|
      modifies this`priorities
      ensures |priorities| == |old(priorities)|
      ensures forall i | 0 <= i < |priorities| ::
                priorities[i] == if i in indices then priority else old(priorities)[i]
    {
      for k := 0 to |indices|
        invariant |priorities| == |old(priorities)|
        invariant forall i | 0 <= i < |priorities| ::
                    priorities[i] == if i in indices[..k] then priority else old(priorities)[i]
      {
        assert indices[k] in indices;
        assert indices[..k + 1] == indices[..k] + [indices[k]];
        if indices[k] == -1 {
          continue;
        }
        priorities := priorities[indices[k] := priority];
      }
      assert indices[..|indices|] == indices;
    }

    /** Gives some files a priority and refreshes; a row all of whose files are among them then shows it. */
    method SetAndRefresh(indices: seq<int>, priority: Byte)
      requires Valid() && priority <= TOP_PRIORITY
      requires forall i | i in indices :: i in Leaves(forest)
      modifies this`rows, this`priorities
      ensures Valid() && ShowTargets(FilesNow(), rows, PostOrder(forest))
      ensures forall i: int ::
                PriorityOf(FilesNow(), i) == if i in indices then priority else PriorityOf(old(FilesNow()), i)
      ensures forall n | n in PostOrder(forest) && (forall i | i in LeavesOf(n) :: i in indices) ::
                RowAt(rows, n.id).priority == priority
    {
      forall i | i in indices
        ensures 0 <= i < |priorities|
      {
        assert KnowsFile(FilesNow(), i);
      }
      ghost var was := FilesNow();
      SetPriorities(indices, priority);
      forall i | i in Leaves(forest)
        ensures KnowsFile(FilesNow(), i)
      {
        assert KnowsFile(was, i);
      }
      Refresh();
      forall n | n in PostOrder(forest) && (forall i | i in LeavesOf(n) :: i in indices)
        ensures RowAt(rows, n.id).priority == priority
      {
        LeavesOfNotEmpty(n);
        UniformPriority(FilesNow(), LeavesOf(n), priority);
        ShownPriority(FilesNow(), n);
      }
    }

    /** A click with the torrent not in the session yet: priorities are written here. */
    method ToggleBeforeAdding(path: seq<nat>)
      requires Valid() && !hasTorrent && NodeAt(forest, path).Some?
      modifies this`rows, this`priorities
      ensures Valid() && ShowTargets(FilesNow(), rows, PostOrder(forest))
      ensures
        var n := NodeAt(forest, path).value;
        Toggled(forest, selected, n, NextPriority(RowAt(old(rows), n.id).priority), old(FilesNow()), FilesNow(), rows)
    {
      NodeAtIsVisited(forest, path);
      var indices := GetActiveFilesForPath(path);
      var oldPriority := rows[Lookup(forest, path).id].priority;
      SetAndRefresh(indices, NextPriority(oldPriority));
    }

    /** Asks the session for one priority for each of the files the click on a row is about. */
    method AskSession(path: seq<nat>, priority: Byte) returns (ghost calls: seq<(int, Byte)>)
      requires Valid() && NodeAt(forest, path).Some?
      modifies this`asked
      ensures asked == old(asked) + calls
      ensures AsksFor(calls, forest, selected, NodeAt(forest, path).value, priority)
    {
      var indices := GetActiveFilesForPath(path);
      calls := [];
      for k := 0 to |indices|
        invariant calls == seq(k, j requires 0 <= j < k => (indices[j], priority))
        invariant asked == old(asked) + calls
      {
        asked := asked + [(indices[k], priority)];
        calls := calls + [(indices[k], priority)];
      }
      CallsAreFor(indices, forest, selected, NodeAt(forest, path).value, priority);
    }

    /** Takes over the priorities the session reports, and refreshes. */
    method ShowReported(reported: seq<Byte>)
      requires Valid()
      requires AllKnown(Files(sizes, if hasTorrent then progress else [], reported), Leaves(forest))
      modifies this`rows, this`priorities
      ensures Valid() && priorities == reported && ShowTargets(FilesNow(), rows, PostOrder(forest))
    {
      priorities := reported;
      Refresh();
    }

    /** A click with the torrent in the session, which may report other priorities than it was asked for. */
    method ToggleInSession(path: seq<nat>, reported: seq<Byte>) returns (ghost calls: seq<(int, Byte)>)
      requires Valid() && NodeAt(forest, path).Some?
      requires AllKnown(Files(sizes, if hasTorrent then progress else [], reported), Leaves(forest))
      modifies this`rows, this`priorities, this`asked
      ensures Valid() && priorities == reported && ShowTargets(FilesNow(), rows, PostOrder(forest))
      ensures asked == old(asked) + calls
      ensures
        var n := NodeAt(forest, path).value;
        AsksFor(calls, forest, selected, n, NextPriority(RowAt(old(rows), n.id).priority))
    {
      NodeAtIsVisited(forest, path);
      calls := AskSession(path, NextPriority(rows[Lookup(forest, path).id].priority));
      ShowReported(reported);
    }

    /**
     A click on the priority column of the row at path: the files it is about get the priority
     after the one the row shows, here or in the session, and the tree is refreshed. With the
     torrent in the session the refresh shows the priorities the session reports then.
     */
    method OnViewPathToggled(isPriorityColumn: bool, path: seq<nat>, reported: seq<Byte>)
      returns (handled: bool, ghost calls: seq<(int, Byte)>)
      requires Valid()
      requires path != [] ==> NodeAt(forest, path).Some?
      requires hasTorrent ==> AllKnown(Files(sizes, progress, reported), Leaves(forest))
      modifies this`rows, this`priorities, this`asked
      ensures Valid() && handled == (isPriorityColumn && path != [])
      ensures asked == old(asked) + calls && (!handled || !hasTorrent ==> calls == [])
      ensures !handled ==> rows == old(rows) && priorities == old(priorities)
      ensures handled ==>
        var n := NodeAt(forest, path).value;
        var p := NextPriority(RowAt(old(rows), n.id).priority);
        && (old(RowsTell(FilesNow(), rows, PostOrder(forest))) ==> ComesNext(old(priorities), LeavesOf(n), p))
        && ShowTargets(FilesNow(), rows, PostOrder(forest)) && RowsTell(FilesNow(), rows, PostOrder(forest))
        && if hasTorrent then priorities == reported && AsksFor(calls, forest, selected, n, p)
           else Toggled(forest, selected, n, p, old(FilesNow()), FilesNow(), rows)
    {
      calls := [];
      handled := path != [] && isPriorityColumn;
      if !handled {
        return;
      }
      BeforeClick(path);
      if hasTorrent {
        calls := ToggleInSession(path, reported);
      } else {
        ToggleBeforeAdding(path);
      }
      TargetsTell(FilesNow(), rows, PostOrder(forest));
    }

    /** What the row shows before a click decides what the click gives. */
    lemma BeforeClick(path: seq<nat>)
      requires Valid() && NodeAt(forest, path).Some?
      ensures
        var n := NodeAt(forest, path).value;
        RowsTell(FilesNow(), rows, PostOrder(forest)) ==>
          ComesNext(priorities, LeavesOf(n), NextPriority(RowAt(rows, n.id).priority))
    {
      NodeAtIsVisited(forest, path);
      if RowsTell(FilesNow(), rows, PostOrder(forest)) {
        ClickGoesRound(FilesNow(), rows, PostOrder(forest), NodeAt(forest, path).value);
      }
    }
  }
}
