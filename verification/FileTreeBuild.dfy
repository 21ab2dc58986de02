/** How gtk/FileList.cc grows the tree of rows from the paths of a torrent's files. */
module FileTreeBuild {
  import opened Sequences
  import opened StringViews
  import F = FileTrees

  const NO_FILE := -1

  /**
   The grown tree: per node its parent, file index and children. A map from (parent, token) to node
   is kept while it grows, nodes are prepended to their parent, and a second pass copies the tree
   into rows. Node 0 is the root, which is not shown.
   */
  datatype Arena = Arena(parents: seq<int>, indices: seq<int>, children: seq<seq<nat>>)

  /** Parents come before their children, and the child lists say the same as the parent links. */
  ghost predicate IsTree(a: Arena) {
    && |a.parents| >= 1 && |a.indices| == |a.parents| == |a.children|
    && (forall n | 1 <= n < |a.parents| :: 0 <= a.parents[n] < n && n in a.children[a.parents[n]])
    && (forall p | 0 <= p < |a.parents| :: Distinct(a.children[p]))
    && (forall p | 0 <= p < |a.parents| :: forall c | c in a.children[p] :: IsChildOf(a, p, c))
  }

  ghost predicate IsChildOf(a: Arena, p: int, c: nat) {
    p < c < |a.parents| && a.parents[c] == p
  }

  /** No list of tokens is a prefix of another one, nor empty: no path names a directory of another. */
  ghost predicate PrefixFree(files: seq<seq<string>>) {
    && (forall j | 0 <= j < |files| :: files[j] != [])
    && (forall j, k | 0 <= j < |files| && 0 <= k < |files| && files[j] <= files[k] :: j == k)
  }

  // ----- copying the grown tree into rows

  /** The row of node n with everything below it. */
  function ToNode(a: Arena, n: nat): F.Node
    requires IsTree(a) && n < |a.parents|
    decreases |a.parents| - n, 0
  {
    F.Node(n, a.indices[n], ToNodes(a, n, a.children[n]))
  }

  /** The rows of some children of p. Each is prepended in turn, so they come out in reverse. */
  function ToNodes(a: Arena, p: nat, cs: seq<nat>): seq<F.Node>
    requires IsTree(a) && p < |a.parents| && forall c | c in cs :: c in a.children[p]
    decreases |a.parents| - p - 1, |cs| + 1
  {
    if cs == [] then []
    else
      assert cs[0] in cs && IsChildOf(a, p, cs[0]);
      ToNodes(a, p, cs[1..]) + [ToNode(a, cs[0])]
  }

  /** n is m, or a directory above it. */
  ghost predicate IsAbove(a: Arena, n: nat, m: nat)
    requires IsTree(a) && m < |a.parents|
    decreases m
  {
    m == n || (m > 0 && IsAbove(a, n, a.parents[m]))
  }

  lemma {:induction false} AboveIsSmaller(a: Arena, n: nat, m: nat)
    requires IsTree(a) && m < |a.parents| && IsAbove(a, n, m)
    ensures n <= m
    decreases m
  {
    if m != n {
      AboveIsSmaller(a, n, a.parents[m]);
    }
  }

  /** Two different children of one node have nothing below them in common. */
  lemma {:induction false} SiblingsAreApart(a: Arena, c: nat, d: nat, m: nat)
    requires IsTree(a) && m < |a.parents| && 1 <= c < |a.parents| && 1 <= d < |a.parents|
    requires a.parents[c] == a.parents[d] && IsAbove(a, c, m) && IsAbove(a, d, m)
    ensures c == d
    decreases m
  {
    if m == c {
      if m != d {
        AboveIsSmaller(a, d, a.parents[c]);
      }
    } else if m == d {
      AboveIsSmaller(a, c, a.parents[d]);
    } else {
      SiblingsAreApart(a, c, d, a.parents[m]);
    }
  }

  /** What lies below p is p itself and what lies below its children. */
  lemma {:induction false} AboveByChild(a: Arena, p: nat, m: nat) returns (c: nat)
    requires IsTree(a) && m < |a.parents| && p < |a.parents| && IsAbove(a, p, m) && m != p
    ensures c in a.children[p] && c < |a.parents| && IsAbove(a, c, m)
    decreases m
  {
    if a.parents[m] == p {
      c := m;
    } else {
      c := AboveByChild(a, p, a.parents[m]);
    }
  }

  lemma {:induction false} AboveFromChild(a: Arena, p: nat, c: nat, m: nat)
    requires IsTree(a) && p < |a.parents| && c in a.children[p] && m < |a.parents| && IsAbove(a, c, m)
    ensures IsAbove(a, p, m)
    decreases m
  {
    if m != c {
      AboveFromChild(a, p, c, a.parents[m]);
    }
  }

  lemma {:induction false} RootIsAboveAll(a: Arena, m: nat)
    requires IsTree(a) && m < |a.parents|
    ensures IsAbove(a, 0, m)
    decreases m
  {
    if m > 0 {
      RootIsAboveAll(a, a.parents[m]);
    }
  }

  lemma {:induction false} PostOrderAppend(x: seq<F.Node>, y: seq<F.Node>)
    ensures F.PostOrder(x + y) == F.PostOrder(x) + F.PostOrder(y)
    decreases |x|
  {
    if x == [] {
      assert x + y == y;
    } else {
      assert (x + y)[1..] == x[1..] + y;
      PostOrderAppend(x[1..], y);
    }
  }

  lemma PostOrderOne(n: F.Node)
    ensures F.PostOrder([n]) == F.PostOrder(n.kids) + [n]
  {
    assert [n][1..] == [];
  }

  /** The nodes visited are the copies of some arena nodes, each one once. */
  ghost predicate Copies(a: Arena, visited: seq<F.Node>, ms: set<nat>)
    requires IsTree(a)
  {
    && (forall m | m in ms :: m < |a.parents| && ToNode(a, m) in visited)
    && (forall n | n in visited :: n.id in ms && n.id < |a.parents| && n == ToNode(a, n.id))
    && F.DistinctIds(visited)
  }

  lemma CopiesAppend(a: Arena, v: seq<F.Node>, w: seq<F.Node>, ms: set<nat>, ns: set<nat>)
    requires IsTree(a) && Copies(a, v, ms) && Copies(a, w, ns) && ms !! ns
    ensures Copies(a, v + w, ms + ns)
  {
    forall i, j | 0 <= i < j < |v + w|
      ensures (v + w)[i].id != (v + w)[j].id
    {
      if i < |v| <= j {
        assert v[i] in v && w[j - |v|] in w;
      }
    }
  }

  ghost function Below(a: Arena, n: nat): set<nat>
    requires IsTree(a)
  {
    set m: nat | m < |a.parents| && IsAbove(a, n, m)
  }

  ghost function BelowAny(a: Arena, cs: seq<nat>): set<nat>
    requires IsTree(a)
  {
    set m: nat | m < |a.parents| && IsBelowAny(a, cs, m)
  }

  ghost predicate IsBelowAny(a: Arena, cs: seq<nat>, m: nat)
    requires IsTree(a) && m < |a.parents|
  {
    exists c | c in cs :: IsAbove(a, c, m)
  }

  /** Every node but the root. */
  ghost function Shown(a: Arena): set<nat>
    requires IsTree(a)
  {
    Below(a, 0) - {0}
  }

  /** Copying a subtree visits exactly the nodes below, once each. */
  lemma {:induction false} CopyOfNode(a: Arena, n: nat)
    requires IsTree(a) && n < |a.parents|
    ensures Copies(a, F.PostOrder([ToNode(a, n)]), Below(a, n))
    decreases |a.parents| - n, 0
  {
    PostOrderOne(ToNode(a, n));
    CopyOfNodes(a, n, a.children[n]);
    forall m: nat
      ensures m in Below(a, n) <==> m in BelowAny(a, a.children[n]) + {n}
    {
      if m in Below(a, n) && m != n {
        var c := AboveByChild(a, n, m);
      }
      if m in BelowAny(a, a.children[n]) {
        var c :| c in a.children[n] && IsAbove(a, c, m);
        AboveFromChild(a, n, c, m);
      }
    }
    assert n !in BelowAny(a, a.children[n]) by {
      forall c | c in a.children[n]
        ensures !IsAbove(a, c, n)
      {
        assert IsChildOf(a, n, c);
        if IsAbove(a, c, n) {
          AboveIsSmaller(a, c, n);
        }
      }
    }
    CopiesAppend(a, F.PostOrder(ToNodes(a, n, a.children[n])), [ToNode(a, n)], BelowAny(a, a.children[n]), {n});
    assert Below(a, n) == BelowAny(a, a.children[n]) + {n};
  }

  /** What lies below some siblings is what lies below the first or below the rest, never both. */
  lemma SiblingsSplit(a: Arena, p: nat, cs: seq<nat>)
    requires IsTree(a) && p < |a.parents| && Distinct(cs) && cs != [] && forall c | c in cs :: c in a.children[p]
    ensures BelowAny(a, cs) == BelowAny(a, cs[1..]) + Below(a, cs[0])
    ensures BelowAny(a, cs[1..]) !! Below(a, cs[0])
  {
    var c, rest := cs[0], cs[1..];
    assert c in cs && IsChildOf(a, p, c);
    forall m | m in BelowAny(a, rest)
      ensures m !in Below(a, c)
    {
      var d :| d in rest && IsAbove(a, d, m);
      assert IsChildOf(a, p, d);
      if IsAbove(a, c, m) {
        SiblingsAreApart(a, c, d, m);
      }
    }
    assert forall d | d in cs :: d == c || d in rest;
  }

  lemma {:induction false} CopyOfNodes(a: Arena, p: nat, cs: seq<nat>)
    requires IsTree(a) && p < |a.parents| && Distinct(cs) && forall c | c in cs :: c in a.children[p]
    ensures Copies(a, F.PostOrder(ToNodes(a, p, cs)), BelowAny(a, cs))
    decreases |a.parents| - p - 1, |cs| + 1
  {
    if cs != [] {
      var c, rest := cs[0], cs[1..];
      assert c in cs && IsChildOf(a, p, c);
      PostOrderAppend(ToNodes(a, p, rest), [ToNode(a, c)]);
      CopyOfNodes(a, p, rest);
      CopyOfNode(a, c);
      SiblingsSplit(a, p, cs);
      CopiesAppend(a, F.PostOrder(ToNodes(a, p, rest)), F.PostOrder([ToNode(a, c)]), BelowAny(a, rest), Below(a, c));
    }
  }

  /** The whole forest shown: every node but the root, once. */
  function Forest(a: Arena): seq<F.Node>
    requires IsTree(a)
  {
    ToNodes(a, 0, a.children[0])
  }

  lemma ForestHoldsAll(a: Arena)
    requires IsTree(a)
    ensures Copies(a, F.PostOrder(Forest(a)), Shown(a))
    ensures forall m: nat :: m in Shown(a) <==> 1 <= m < |a.parents|
  {
    CopyOfNodes(a, 0, a.children[0]);
    forall m: nat | m < |a.parents|
      ensures m in BelowAny(a, a.children[0]) <==> m != 0
      ensures IsAbove(a, 0, m)
    {
      RootIsAboveAll(a, m);
      if m != 0 {
        var c := AboveByChild(a, 0, m);
      } else {
        forall c | c in a.children[0]
          ensures !IsAbove(a, c, 0)
        {
          assert IsChildOf(a, 0, c);
        }
      }
    }
    assert BelowAny(a, a.children[0]) == Shown(a);
  }

  /** The file indices of the nodes without children, in visiting order. */
  ghost function LeafIndices(nodes: seq<F.Node>): seq<int>
    decreases |nodes|
  {
    if nodes == [] then []
    else (if nodes[0].kids == [] then [nodes[0].index] else []) + LeafIndices(nodes[1..])
  }

  lemma {:induction false} LeafIndicesAppend(v: seq<F.Node>, w: seq<F.Node>)
    ensures LeafIndices(v + w) == LeafIndices(v) + LeafIndices(w)
    decreases |v|
  {
    if v == [] {
      assert v + w == w;
    } else {
      assert (v + w)[1..] == v[1..] + w;
      LeafIndicesAppend(v[1..], w);
    }
  }

  lemma {:induction false} LeavesInPostOrder(forest: seq<F.Node>)
    ensures F.Leaves(forest) == LeafIndices(F.PostOrder(forest))
    decreases forest
  {
    if forest != [] {
      var n, rest := forest[0], forest[1..];
      F.PostOrderParts(forest);
      LeavesInPostOrder(n.kids);
      LeavesInPostOrder(rest);
      LeafIndicesAppend(F.PostOrder(n.kids) + [n], F.PostOrder(rest));
      LeafIndicesAppend(F.PostOrder(n.kids), [n]);
      assert [n][1..] == [];
    }
  }

  lemma {:induction false} LeafIndicesMembers(nodes: seq<F.Node>)
    ensures forall n | n in nodes && n.kids == [] :: n.index in LeafIndices(nodes)
    ensures forall i | i in LeafIndices(nodes) :: exists n :: n in nodes && n.kids == [] && n.index == i
    decreases |nodes|
  {
    if nodes != [] {
      LeafIndicesMembers(nodes[1..]);
      assert forall n | n in nodes :: n == nodes[0] || n in nodes[1..];
    }
  }

  /** If no two leaves carry the same index, the list of indices has no repeats. */
  lemma {:induction false} LeafIndicesDistinct(nodes: seq<F.Node>)
    requires F.DistinctIds(nodes)
    requires forall m, n | m in nodes && n in nodes && m.kids == [] && n.kids == [] && m.index == n.index :: m.id == n.id
    ensures Distinct(LeafIndices(nodes))
    decreases |nodes|
  {
    if nodes != [] {
      var rest := nodes[1..];
      LeafIndicesDistinct(rest);
      LeafIndicesMembers(rest);
      if nodes[0].kids == [] {
        forall k | 0 <= k < |LeafIndices(rest)|
          ensures LeafIndices(rest)[k] != nodes[0].index
        {
          var i := LeafIndices(rest)[k];
          assert i in LeafIndices(rest);
          var n :| n in rest && n.kids == [] && n.index == i;
          var j :| 0 <= j < |rest| && rest[j] == n;
          assert nodes[j + 1] == n && nodes[0].id != nodes[j + 1].id;
        }
      }
    }
  }

  /** Every file of the torrent has a leaf, each leaf has a file, and file numbers do not repeat. */
  ghost predicate OneLeafPerFile(forest: seq<F.Node>, numFiles: nat) {
    && Distinct(F.Leaves(forest))
    && (forall i: int :: i in F.Leaves(forest) <==> 0 <= i < numFiles)
  }

  /** leaf lists, per file, the one childless node that carries its index. */
  ghost predicate LeavesAre(a: Arena, leaf: seq<nat>) {
    && |a.indices| == |a.children|
    && (forall j | 0 <= j < |leaf| :: 1 <= leaf[j] < |a.indices| && a.indices[leaf[j]] == j && a.children[leaf[j]] == [])
    && (forall n | 1 <= n < |a.indices| && a.children[n] == [] ::
          0 <= a.indices[n] < |leaf| && leaf[a.indices[n]] == n)
  }

  lemma ForestHasOneLeafPerFile(a: Arena, leaf: seq<nat>)
    requires IsTree(a) && LeavesAre(a, leaf)
    ensures OneLeafPerFile(Forest(a), |leaf|)
    ensures F.DistinctIds(F.PostOrder(Forest(a)))
  {
    var visited := F.PostOrder(Forest(a));
    ForestHoldsAll(a);
    LeavesInPostOrder(Forest(a));
    LeafIndicesMembers(visited);
    forall n | n in visited
      ensures n.kids == [] <==> a.children[n.id] == []
      ensures 1 <= n.id < |a.parents| && n.index == a.indices[n.id]
    {
      KidsOf(a, n.id);
    }
    LeafIndicesDistinct(visited);
    forall j | 0 <= j < |leaf|
      ensures j in F.Leaves(Forest(a))
    {
      assert leaf[j] in Shown(a) && ToNode(a, leaf[j]) in visited;
    }
  }

  lemma {:induction false} ToNodesLength(a: Arena, p: nat, cs: seq<nat>)
    requires IsTree(a) && p < |a.parents| && forall c | c in cs :: c in a.children[p]
    ensures |ToNodes(a, p, cs)| == |cs|
    decreases |cs|
  {
    if cs != [] {
      ToNodesLength(a, p, cs[1..]);
    }
  }

  lemma KidsOf(a: Arena, n: nat)
    requires IsTree(a) && n < |a.parents|
    ensures ToNode(a, n).kids == [] <==> a.children[n] == []
  {
    ToNodesLength(a, n, a.children[n]);
  }

  // ----- growing the tree

  /**
   The tree while it grows, with the lookup map, and three histories: the label path of each
   node from the root, the file each node was made for, and the node each file ended at.
   */
  datatype Draft = Draft(arena: Arena, names: seq<string>, lengths: seq<nat>, lookup: map<(nat, string), nat>,
                         labels: seq<seq<string>>, owner: seq<nat>, leaf: seq<nat>)

  const BARE := Draft(Arena([-1], [NO_FILE], [[]]), [""], [0], map[], [[]], [0], [])

  ghost predicate SameLengths(d: Draft) {
    && |d.arena.parents| == |d.arena.indices| == |d.arena.children| == |d.names| == |d.lengths|
    && |d.names| == |d.labels| == |d.owner| && |d.names| >= 1
  }

  /** The lookup map and the nodes say the same thing. */
  ghost predicate IsIndexed(d: Draft)
    requires SameLengths(d)
  {
    && d.labels[0] == []
    && (forall n {:trigger d.names[n]} {:trigger d.arena.parents[n]} | 1 <= n < |d.names| ::
          && 0 <= d.arena.parents[n] < n
          && d.labels[n] == d.labels[d.arena.parents[n]] + [d.names[n]]
          && (d.arena.parents[n], d.names[n]) in d.lookup && d.lookup[(d.arena.parents[n], d.names[n])] == n)
    && (forall key | key in d.lookup ::
          && 1 <= d.lookup[key] < |d.names|
          && d.arena.parents[d.lookup[key]] == key.0 && d.names[d.lookup[key]] == key.1)
  }

  /** A node lies on the path of the file it was made for; it carries that file's data if the path ends there. */
  ghost predicate IsOwned(d: Draft, files: seq<seq<string>>, sizes: seq<nat>)
    requires SameLengths(d) && |sizes| == |files|
  {
    forall n | 1 <= n < |d.names| ::
      && d.owner[n] < |files| && d.labels[n] <= files[d.owner[n]]
      && (if d.labels[n] == files[d.owner[n]]
          then d.arena.indices[n] == d.owner[n] && d.lengths[n] == sizes[d.owner[n]]
          else d.arena.indices[n] == NO_FILE && d.lengths[n] == 0)
  }

  /** The first files end at their leaf. */
  ghost predicate EndsAt(d: Draft, files: seq<seq<string>>)
    requires SameLengths(d)
  {
    |d.leaf| <= |files| && forall j | 0 <= j < |d.leaf| :: d.leaf[j] < |d.labels| && d.labels[d.leaf[j]] == files[j]
  }

  ghost predicate Holds(d: Draft, files: seq<seq<string>>, sizes: seq<nat>) {
    && |sizes| == |files| && SameLengths(d) && IsTree(d.arena) && IsIndexed(d)
    && IsOwned(d, files, sizes) && EndsAt(d, files)
  }

  /** The draft with one more node, prepended to the children of its parent. */
  ghost function Added(d: Draft, parent: nat, token: string, index: int, length: nat, file: nat): Draft
    requires SameLengths(d) && parent < |d.names|
  {
    var n := |d.names|;
    Draft(Arena(d.arena.parents + [parent], d.arena.indices + [index],
                d.arena.children[parent := [n] + d.arena.children[parent]] + [[]]),
          d.names + [token], d.lengths + [length], d.lookup[(parent, token) := n],
          d.labels + [d.labels[parent] + [token]], d.owner + [file], d.leaf)
  }

  lemma AddKeepsIndex(d: Draft, parent: nat, token: string, index: int, length: nat, file: nat)
    requires SameLengths(d) && IsIndexed(d) && parent < |d.names| && (parent, token) !in d.lookup
    ensures IsIndexed(Added(d, parent, token, index, length, file))
  {
  }

  lemma AddKeepsOwners(d: Draft, files: seq<seq<string>>, sizes: seq<nat>, parent: nat, token: string,
                       index: int, length: nat, file: nat)
    requires |sizes| == |files| && SameLengths(d) && parent < |d.names| && file < |files|
    requires IsOwned(d, files, sizes) && EndsAt(d, files)
    requires d.labels[parent] + [token] <= files[file]
    requires if d.labels[parent] + [token] == files[file] then index == file && length == sizes[file]
             else index == NO_FILE && length == 0
    ensures
      var e := Added(d, parent, token, index, length, file);
      IsOwned(e, files, sizes) && EndsAt(e, files)
  {
  }

  lemma PrependKeepsTree(a: Arena, parent: nat, index: int)
    requires IsTree(a) && parent < |a.parents|
    ensures IsTree(Arena(a.parents + [parent], a.indices + [index],
                         a.children[parent := [|a.parents|] + a.children[parent]] + [[]]))
  {
    var n := |a.parents|;
    var b := Arena(a.parents + [parent], a.indices + [index], a.children[parent := [n] + a.children[parent]] + [[]]);
    forall p | 0 <= p < |b.parents|
      ensures Distinct(b.children[p])
      ensures forall c | c in b.children[p] :: IsChildOf(b, p, c)
    {
      if p < n {
        assert forall c | c in a.children[p] :: IsChildOf(a, p, c) && IsChildOf(b, p, c);
        if p == parent {
          assert IsChildOf(b, p, n);
        }
      }
    }
    forall m | 1 <= m < |b.parents|
      ensures 0 <= b.parents[m] < m && m in b.children[b.parents[m]]
    {
      if m < n {
        assert m in a.children[a.parents[m]];
      } else {
        assert b.children[parent][0] == n;
      }
    }
  }

  lemma AddHolds(d: Draft, files: seq<seq<string>>, sizes: seq<nat>, parent: nat, token: string,
                 index: int, length: nat, file: nat)
    requires Holds(d, files, sizes) && parent < |d.names| && (parent, token) !in d.lookup && file < |files|
    requires d.labels[parent] + [token] <= files[file]
    requires if d.labels[parent] + [token] == files[file] then index == file && length == sizes[file]
             else index == NO_FILE && length == 0
    ensures Holds(Added(d, parent, token, index, length, file), files, sizes)
  {
    PrependKeepsTree(d.arena, parent, index);
    AddKeepsIndex(d, parent, token, index, length, file);
    AddKeepsOwners(d, files, sizes, parent, token, index, length, file);
  }

  /** One more file to come changes nothing yet. */
  lemma MoreFiles(d: Draft, files: seq<seq<string>>, sizes: seq<nat>, tokens: seq<string>, size: nat)
    requires Holds(d, files, sizes)
    ensures Holds(d, files + [tokens], sizes + [size])
  {
  }

  /** A node's label path is its parent's and its own name. */
  lemma LabelParts(d: Draft, n: nat)
    requires SameLengths(d) && IsIndexed(d) && n < |d.names|
    ensures d.labels[n] == [] <==> n == 0
    ensures n > 0 ==>
      && 0 <= d.arena.parents[n] < n && d.labels[n][..|d.labels[n]| - 1] == d.labels[d.arena.parents[n]]
      && d.labels[n][|d.labels[n]| - 1] == d.names[n]
  {
    if n > 0 {
      assert d.labels[n] == d.labels[d.arena.parents[n]] + [d.names[n]];
    }
  }

  /** Two nodes with the same label path are the same node; so no two siblings share a label. */
  lemma {:induction false} LabelsIdentify(d: Draft, m: nat, n: nat)
    requires SameLengths(d) && IsIndexed(d) && m < |d.names| && n < |d.names| && d.labels[m] == d.labels[n]
    ensures m == n
    decreases m
  {
    LabelParts(d, m);
    LabelParts(d, n);
    if m > 0 {
      LabelsIdentify(d, d.arena.parents[m], d.arena.parents[n]);
      assert (d.arena.parents[m], d.names[m]) in d.lookup;
      assert d.lookup[(d.arena.parents[m], d.names[m])] == m;
      assert d.lookup[(d.arena.parents[n], d.names[n])] == n;
    }
  }

  /** Above a node, for every shorter label path there is a node, and it has a child. */
  lemma {:induction false} NodeOnPath(d: Draft, m: nat, depth: nat) returns (n: nat)
    requires SameLengths(d) && IsTree(d.arena) && IsIndexed(d) && m < |d.names| && depth < |d.labels[m]|
    ensures n < |d.names| && d.labels[n] == d.labels[m][..depth] && d.arena.children[n] != []
    decreases m
  {
    var up := d.arena.parents[m];
    assert m in d.arena.children[up];
    if depth == |d.labels[up]| {
      n := up;
    } else {
      n := NodeOnPath(d, up, depth);
      assert d.labels[up][..depth] == d.labels[m][..depth];
    }
  }

  /** A node with a child lies strictly inside some file's path; and a node strictly inside has a child. */
  lemma ChildMeansInside(d: Draft, files: seq<seq<string>>, sizes: seq<nat>, n: nat) returns (k: nat)
    requires Holds(d, files, sizes) && n < |d.names| && d.arena.children[n] != []
    ensures k < |files| && d.labels[n] < files[k]
  {
    var c := d.arena.children[n][0];
    assert IsChildOf(d.arena, n, c);
    k := d.owner[c];
    assert |d.labels[n]| < |d.labels[c]| <= |files[k]|;
  }

  lemma InsideMeansChild(d: Draft, files: seq<seq<string>>, sizes: seq<nat>, n: nat, k: nat)
    requires Holds(d, files, sizes) && n < |d.names| && k < |d.leaf| && d.labels[n] < files[k]
    ensures d.arena.children[n] != []
  {
    var m := NodeOnPath(d, d.leaf[k], |d.labels[n]|);
    LabelsIdentify(d, m, n);
  }

  lemma EndCarriesIndex(d: Draft, files: seq<seq<string>>, sizes: seq<nat>, j: nat)
    requires Holds(d, files, sizes) && j < |d.leaf| && PrefixFree(files)
    ensures 1 <= d.leaf[j] < |d.names| && d.arena.indices[d.leaf[j]] == j && d.arena.children[d.leaf[j]] == []
  {
    var n := d.leaf[j];
    assert d.labels[n] == files[j];
    assert n >= 1;
    assert files[j] <= files[d.owner[n]];
    if d.arena.children[n] != [] {
      var k := ChildMeansInside(d, files, sizes, n);
      assert false;
    }
  }

  lemma ChildlessIsEnd(d: Draft, files: seq<seq<string>>, sizes: seq<nat>, n: nat)
    requires Holds(d, files, sizes) && |d.leaf| == |files|
    requires 1 <= n < |d.names| && d.arena.children[n] == []
    ensures 0 <= d.arena.indices[n] < |d.leaf| && d.leaf[d.arena.indices[n]] == n
  {
    var j := d.owner[n];
    if d.labels[n] != files[j] {
      InsideMeansChild(d, files, sizes, n, j);
    }
    LabelsIdentify(d, d.leaf[j], n);
  }

  /** Without prefixes among the paths, the ends of the paths are exactly the childless nodes. */
  lemma PrefixFreeLeaves(d: Draft, files: seq<seq<string>>, sizes: seq<nat>)
    requires Holds(d, files, sizes) && |d.leaf| == |files| && PrefixFree(files)
    ensures LeavesAre(d.arena, d.leaf)
  {
    forall j | 0 <= j < |files|
      ensures 1 <= d.leaf[j] < |d.names| && d.arena.indices[d.leaf[j]] == j && d.arena.children[d.leaf[j]] == []
    {
      EndCarriesIndex(d, files, sizes, j);
    }
    forall n | 1 <= n < |d.names| && d.arena.children[n] == []
      ensures 0 <= d.arena.indices[n] < |d.leaf| && d.leaf[d.arena.indices[n]] == n
    {
      ChildlessIsEnd(d, files, sizes, n);
    }
  }

  /** A leaf that carries file j is where the path of file j ends. */
  lemma LeafOfFile(d: Draft, files: seq<seq<string>>, sizes: seq<nat>, j: nat) returns (n: nat)
    requires Holds(d, files, sizes) && |d.leaf| == |files| && j < |files|
    requires j in F.Leaves(Forest(d.arena))
    ensures 1 <= n < |d.names| && d.arena.children[n] == [] && d.arena.indices[n] == j && d.labels[n] == files[j]
  {
    var visited := F.PostOrder(Forest(d.arena));
    ForestHoldsAll(d.arena);
    LeavesInPostOrder(Forest(d.arena));
    LeafIndicesMembers(visited);
    var x :| x in visited && x.kids == [] && x.index == j;
    n := x.id;
    KidsOf(d.arena, n);
  }

  lemma OneLeafMeansPrefixFree(d: Draft, files: seq<seq<string>>, sizes: seq<nat>, j: nat, k: nat)
    requires Holds(d, files, sizes) && |d.leaf| == |files| && OneLeafPerFile(Forest(d.arena), |files|)
    requires j < |files| && k < |files|
    ensures files[j] != [] && (files[j] <= files[k] ==> j == k)
  {
    var m := LeafOfFile(d, files, sizes, j);
    var n := LeafOfFile(d, files, sizes, k);
    LabelParts(d, m);
    if files[j] < files[k] {
      InsideMeansChild(d, files, sizes, m, k);
    }
    if files[j] == files[k] {
      LabelsIdentify(d, m, n);
    }
  }

  /**
   The tree shows one leaf per file, and no leaf without a file, exactly when no path is
   empty and none equals or is a directory of another.
   */
  lemma OneLeafPerFileIff(d: Draft, files: seq<seq<string>>, sizes: seq<nat>)
    requires Holds(d, files, sizes) && |d.leaf| == |files|
    ensures OneLeafPerFile(Forest(d.arena), |files|) <==> PrefixFree(files)
  {
    if PrefixFree(files) {
      PrefixFreeLeaves(d, files, sizes);
      ForestHasOneLeafPerFile(d.arena, d.leaf);
    }
    if OneLeafPerFile(Forest(d.arena), |files|) {
      forall j, k | 0 <= j < |files| && 0 <= k < |files|
        ensures files[j] != [] && (files[j] <= files[k] ==> j == k)
      {
        OneLeafMeansPrefixFree(d, files, sizes, j, k);
      }
    }
  }

  // ----- the loops over files and tokens

  /** Part way down a path: the first k tokens of the newest file lead to the node parent. */
  ghost predicate OnPath(d: Draft, files: seq<seq<string>>, sizes: seq<nat>, parent: nat, k: nat) {
    && Holds(d, files, sizes) && files != [] && |d.leaf| == |files| - 1
    && parent < |d.names| && k <= |files[|files| - 1]|
    && d.labels[parent] == files[|files| - 1][..k]
  }

  lemma StepIntoOld(d: Draft, files: seq<seq<string>>, sizes: seq<nat>, parent: nat, k: nat)
    requires OnPath(d, files, sizes, parent, k) && k < |files[|files| - 1]|
    requires (parent, files[|files| - 1][k]) in d.lookup
    ensures OnPath(d, files, sizes, d.lookup[(parent, files[|files| - 1][k])], k + 1)
  {
    var path := files[|files| - 1];
    assert path[..k + 1] == path[..k] + [path[k]];
  }

  lemma StepIntoNew(d: Draft, files: seq<seq<string>>, sizes: seq<nat>, parent: nat, k: nat, isLeaf: bool)
    requires OnPath(d, files, sizes, parent, k) && k < |files[|files| - 1]|
    requires (parent, files[|files| - 1][k]) !in d.lookup
    requires isLeaf <==> k + 1 == |files[|files| - 1]|
    ensures
      var file: nat := |files| - 1;
      var e := Added(d, parent, files[file][k], if isLeaf then file else NO_FILE, if isLeaf then sizes[file] else 0, file);
      OnPath(e, files, sizes, |d.names|, k + 1)
  {
    var file: nat := |files| - 1;
    var path := files[file];
    assert path[..k + 1] == path[..k] + [path[k]];
    AddHolds(d, files, sizes, parent, path[k], if isLeaf then file else NO_FILE, if isLeaf then sizes[file] else 0, file);
  }

  lemma ReachEnd(d: Draft, files: seq<seq<string>>, sizes: seq<nat>, parent: nat)
    requires files != [] && OnPath(d, files, sizes, parent, |files[|files| - 1]|)
    ensures Holds(d.(leaf := d.leaf + [parent]), files, sizes)
  {
    var path := files[|files| - 1];
    assert path[..|path|] == path;
  }

  lemma SplitStep(path: string, rest: string, k: nat)
    requires rest != [] && k <= |Split(path, '/')| && Split(rest, '/') == Split(path, '/')[k..]
    ensures k < |Split(path, '/')| && Token(rest, '/') == Split(path, '/')[k]
    ensures Split(Rest(rest, '/'), '/') == Split(path, '/')[k + 1..]
    ensures Rest(rest, '/') == [] <==> k + 1 == |Split(path, '/')|
  {
    assert Split(rest, '/') == [Token(rest, '/')] + Split(Rest(rest, '/'), '/');
    assert Split(path, '/')[k..][1..] == Split(path, '/')[k + 1..];
  }

  /** All that the loops themselves need: nodes of the map exist. */
  ghost predicate Wired(d: Draft) {
    SameLengths(d) && forall key | key in d.lookup :: d.lookup[key] < |d.names|
  }

  lemma AddKeepsWiring(d: Draft, parent: nat, token: string, index: int, length: nat, file: nat)
    requires Wired(d) && parent < |d.names|
    ensures Wired(Added(d, parent, token, index, length, file))
  {
  }

  /** The draft and the end node after walking down the rest of a path from the node parent. */
  ghost function Walked(d: Draft, file: nat, parent: nat, rest: string, size: nat): (r: (Draft, nat))
    requires Wired(d) && parent < |d.names|
    ensures Wired(r.0) && r.1 < |r.0.names| && r.0.leaf == d.leaf
    decreases |rest|
  {
    if |rest| == 0 then (d, parent)
    else
      var token, left := Token(rest, '/'), Rest(rest, '/');
      if (parent, token) in d.lookup then Walked(d, file, d.lookup[(parent, token)], left, size)
      else
        var index, length := if left == [] then file else NO_FILE, if left == [] then size else 0;
        AddKeepsWiring(d, parent, token, index, length, file);
        Walked(Added(d, parent, token, index, length, file), file, |d.names|, left, size)
  }

  /** The draft after one more file. */
  ghost function AddedFile(d: Draft, file: nat, path: string, size: nat): (e: Draft)
    requires Wired(d)
    ensures Wired(e) && |e.leaf| == |d.leaf| + 1
  {
    var (e, end) := Walked(d, file, 0, path, size);
    e.(leaf := e.leaf + [end])
  }

  /** Walking on from part way down a path ends at the node of the whole path. */
  lemma {:induction false} WalkReachesEnd(d: Draft, files: seq<seq<string>>, sizes: seq<nat>, parent: nat, k: nat,
                                          path: string, rest: string)
    requires OnPath(d, files, sizes, parent, k) && files[|files| - 1] == Split(path, '/')
    requires Split(rest, '/') == Split(path, '/')[k..] && Wired(d)
    ensures
      var (e, end) := Walked(d, |files| - 1, parent, rest, sizes[|files| - 1]);
      OnPath(e, files, sizes, end, |Split(path, '/')|)
    decreases |rest|
  {
    if rest != [] {
      var file: nat := |files| - 1;
      var token, left := Token(rest, '/'), Rest(rest, '/');
      SplitStep(path, rest, k);
      if (parent, token) in d.lookup {
        StepIntoOld(d, files, sizes, parent, k);
        WalkReachesEnd(d, files, sizes, d.lookup[(parent, token)], k + 1, path, left);
      } else {
        var index, length := if left == [] then file else NO_FILE, if left == [] then sizes[file] else 0;
        StepIntoNew(d, files, sizes, parent, k, left == []);
        AddKeepsWiring(d, parent, token, index, length, file);
        WalkReachesEnd(Added(d, parent, token, index, length, file), files, sizes, |d.names|, k + 1, path, left);
      }
    }
  }

  lemma AddedFileHolds(d: Draft, files: seq<seq<string>>, sizes: seq<nat>, path: string, size: nat,
                       all: seq<seq<string>>, allSizes: seq<nat>)
    requires Holds(d, files, sizes) && |d.leaf| == |files|
    requires all == files + [Split(path, '/')] && allSizes == sizes + [size]
    ensures Wired(d) && Holds(AddedFile(d, |files|, path, size), all, allSizes)
  {
    MoreFiles(d, files, sizes, Split(path, '/'), size);
    WalkReachesEnd(d, all, allSizes, 0, 0, path, path);
    var (e, end) := Walked(d, |files|, 0, path, size);
    ReachEnd(e, all, allSizes, end);
  }

  class TreeBuilder {
    var parents: seq<int>
    var names: seq<string>
    var indices: seq<int>
    var lengths: seq<nat>
    var children: seq<seq<nat>>
    var lookup: map<(nat, string), nat>
    ghost var labels: seq<seq<string>>
    ghost var owner: seq<nat>
    ghost var leaf: seq<nat>

    ghost function Grown(): Draft
      reads this
    {
      Draft(Arena(parents, indices, children), names, lengths, lookup, labels, owner, leaf)
    }

    constructor ()
      ensures Grown() == BARE
    {
      parents, names, indices, lengths, children := [-1], [""], [NO_FILE], [0], [[]];
      lookup := map[];
      labels, owner, leaf := [[]], [0], [];
    }

    /** Prepends a node to the children of its parent and enters it in the map. */
    method AddNode(parent: nat, token: string, index: int, length: nat, ghost file: nat) returns (node: nat)
      requires SameLengths(Grown()) && parent < |names|
      modifies this
      ensures node == |old(names)| && Grown() == Added(old(Grown()), parent, token, index, length, file)
    {
      node := |names|;
      parents := parents + [parent];
      names := names + [token];
      indices := indices + [index];
      lengths := lengths + [length];
      children := children[parent := [node] + children[parent]] + [[]];
      lookup := lookup[(parent, token) := node];
      labels := labels + [labels[parent] + [token]];
      owner := owner + [file];
    }

    /** Walks down the path of one more file, adding the nodes that are missing. */
    method AddFile(file: nat, path: string, size: nat)
      requires Wired(Grown())
      modifies this
      ensures Grown() == AddedFile(old(Grown()), file, path, size)
    {
      var parent: nat, rest := 0, path;
      while rest != []
        invariant Wired(Grown()) && parent < |names|
        invariant Walked(Grown(), file, parent, rest, size) == Walked(old(Grown()), file, 0, path, size)
        decreases |rest|
      {
        var token := Token(rest, '/');
        rest := Rest(rest, '/');
        var isLeaf := rest == [];
        if (parent, token) !in lookup {
          AddKeepsWiring(Grown(), parent, token, if isLeaf then file else NO_FILE, if isLeaf then size else 0, file);
          var node := AddNode(parent, token, if isLeaf then file else NO_FILE, if isLeaf then size else 0, file);
        }
        parent := lookup[(parent, token)];
      }
      leaf := leaf + [parent];
    }

    /**
     Climbs from a node to the top, collecting names, and turns them round. For a torrent whose
     handle has become invalid the name is empty.
     */
    method BuildFilename(node: nat, isValid: bool, savePath: string) returns (tokens: seq<string>)
      requires SameLengths(Grown()) && IsIndexed(Grown()) && node < |names|
      ensures tokens == if isValid then [savePath] + labels[node] else []
    {
      tokens := [];
      var child: int := node;
      while child != 0
        invariant |labels| == |names| && 0 <= child < |names| && |tokens| <= |labels[node]|
        invariant Reversed(labels[child]) == Reversed(labels[node])[|tokens|..]
        invariant tokens == Reversed(labels[node])[..|tokens|]
        decreases child
      {
        LabelParts(Grown(), child);
        ReversedLast(labels[child]);
        tokens := tokens + [names[child]];
        child := parents[child];
      }
      if !isValid {
        return [];
      }
      LabelParts(Grown(), 0);
      assert tokens == Reversed(labels[node]);
      ReversedTwice(labels[node]);
      ReversedLast(tokens + [savePath]);
      tokens := Reversed(tokens + [savePath]);
    }
  }

  // ----- a torrent's files, from paths to refreshed rows

  /** Each path, split into its labels. */
  ghost function Tokens(paths: seq<string>): (tokens: seq<seq<string>>)
    ensures |tokens| == |paths|
    ensures forall i | 0 <= i < |paths| :: tokens[i] == Split(paths[i], '/')
    decreases |paths|
  {
    if paths == [] then []
    else
      var last := |paths| - 1;
      Tokens(paths[..last]) + [Split(paths[last], '/')]
  }

  /** The draft after all the files of a torrent, in order. */
  ghost function Grown(paths: seq<string>, sizes: seq<nat>): (d: Draft)
    requires |sizes| == |paths|
    ensures Wired(d) && |d.leaf| == |paths|
    decreases |paths|
  {
    if paths == [] then BARE
    else
      var last := |paths| - 1;
      AddedFile(Grown(paths[..last], sizes[..last]), last, paths[last], sizes[last])
  }

  lemma BareHolds()
    ensures Holds(BARE, [], [])
  {
  }

  lemma {:induction false} GrownHolds(paths: seq<string>, sizes: seq<nat>)
    requires |sizes| == |paths|
    ensures Holds(Grown(paths, sizes), Tokens(paths), sizes)
    decreases |paths|
  {
    if paths == [] {
      BareHolds();
    } else {
      var last := |paths| - 1;
      var d := Grown(paths[..last], sizes[..last]);
      GrownHolds(paths[..last], sizes[..last]);
      AddedFileHolds(d, Tokens(paths[..last]), sizes[..last], paths[last], sizes[last], Tokens(paths), sizes);
    }
  }

  // ----- the order of siblings

  ghost predicate NewestFirst(cs: seq<nat>) {
    forall i, j | 0 <= i < j < |cs| :: cs[i] > cs[j]
  }

  /** The children of each node stand with the newest first, and no node was made for an earlier file than an older one. */
  ghost predicate Stacked(d: Draft) {
    && SameLengths(d)
    && (forall p | 0 <= p < |d.names| :: NewestFirst(d.arena.children[p]))
    && (forall p | 0 <= p < |d.names| :: forall c | c in d.arena.children[p] :: c < |d.names|)
    && (forall m, n | 0 <= m < n < |d.names| :: d.owner[m] <= d.owner[n])
  }

  lemma AddStacks(d: Draft, parent: nat, token: string, index: int, length: nat, file: nat)
    requires Stacked(d) && parent < |d.names| && forall n | 0 <= n < |d.names| :: d.owner[n] <= file
    ensures Stacked(Added(d, parent, token, index, length, file))
    ensures forall n | 0 <= n <= |d.names| :: Added(d, parent, token, index, length, file).owner[n] <= file
  {
    var e := Added(d, parent, token, index, length, file);
    forall p | 0 <= p < |e.names|
      ensures NewestFirst(e.arena.children[p]) && forall c | c in e.arena.children[p] :: c < |e.names|
    {
      if p < |d.names| {
        assert NewestFirst(d.arena.children[p]);
        assert forall i | 0 <= i < |d.arena.children[p]| :: d.arena.children[p][i] in d.arena.children[p];
      }
    }
  }

  lemma {:induction false} WalkStacks(d: Draft, file: nat, parent: nat, rest: string, size: nat)
    requires Wired(d) && parent < |d.names| && Stacked(d) && forall n | 0 <= n < |d.names| :: d.owner[n] <= file
    ensures
      var e := Walked(d, file, parent, rest, size).0;
      Stacked(e) && forall n | 0 <= n < |e.names| :: e.owner[n] <= file
    decreases |rest|
  {
    if rest != [] {
      var token, left := Token(rest, '/'), Rest(rest, '/');
      if (parent, token) in d.lookup {
        WalkStacks(d, file, d.lookup[(parent, token)], left, size);
      } else {
        var index, length := if left == [] then file else NO_FILE, if left == [] then size else 0;
        AddKeepsWiring(d, parent, token, index, length, file);
        AddStacks(d, parent, token, index, length, file);
        WalkStacks(Added(d, parent, token, index, length, file), file, |d.names|, left, size);
      }
    }
  }

  lemma {:induction false} GrownStacks(paths: seq<string>, sizes: seq<nat>)
    requires |sizes| == |paths|
    ensures Stacked(Grown(paths, sizes))
    ensures forall n | 0 <= n < |Grown(paths, sizes).names| :: Grown(paths, sizes).owner[n] <= |paths|
    decreases |paths|
  {
    if paths != [] {
      var last := |paths| - 1;
      GrownStacks(paths[..last], sizes[..last]);
      WalkStacks(Grown(paths[..last], sizes[..last]), last, 0, paths[last], sizes[last]);
    }
  }

  /** Copying turns the order of siblings round. */
  lemma {:induction false} CopyTurnsRound(a: Arena, p: nat, cs: seq<nat>)
    requires IsTree(a) && p < |a.parents| && forall c | c in cs :: c in a.children[p]
    ensures |ToNodes(a, p, cs)| == |cs|
    ensures forall i | 0 <= i < |cs| :: ToNodes(a, p, cs)[i].id == cs[|cs| - 1 - i]
    decreases |cs|
  {
    if cs != [] {
      assert cs[0] in cs && IsChildOf(a, p, cs[0]);
      CopyTurnsRound(a, p, cs[1..]);
    }
  }

  /** Rows of which each was made no later than the next, for no later a file. */
  ghost predicate OldestFirst(d: Draft, rows: seq<F.Node>) {
    forall i, j | 0 <= i < j < |rows| ::
      rows[i].id < rows[j].id < |d.owner| && d.owner[rows[i].id] <= d.owner[rows[j].id]
  }

  lemma CopiedOldestFirst(d: Draft, p: nat)
    requires IsTree(d.arena) && Stacked(d) && p < |d.names|
    ensures OldestFirst(d, ToNodes(d.arena, p, d.arena.children[p]))
  {
    var cs := d.arena.children[p];
    CopyTurnsRound(d.arena, p, cs);
    var rows := ToNodes(d.arena, p, cs);
    forall i, j | 0 <= i < j < |rows|
      ensures rows[i].id < rows[j].id < |d.owner| && d.owner[rows[i].id] <= d.owner[rows[j].id]
    {
      assert NewestFirst(cs) && cs[|cs| - 1 - j] > cs[|cs| - 1 - i] && cs[|cs| - 1 - j] in cs;
    }
  }

  /** At every level the rows that are made stand in the order in which the files first needed them. */
  lemma SiblingsStandInOrder(paths: seq<string>, sizes: seq<nat>)
    requires |sizes| == |paths|
    ensures
      var d := Grown(paths, sizes);
      && IsTree(d.arena) && OldestFirst(d, Forest(d.arena))
      && forall n | n in F.PostOrder(Forest(d.arena)) :: OldestFirst(d, n.kids)
  {
    var d := Grown(paths, sizes);
    GrownHolds(paths, sizes);
    GrownStacks(paths, sizes);
    ForestHoldsAll(d.arena);
    CopiedOldestFirst(d, 0);
    forall n | n in F.PostOrder(Forest(d.arena))
      ensures OldestFirst(d, n.kids)
    {
      CopiedOldestFirst(d, n.id);
    }
  }

  /**
   From the top down to where file j ends, the names joined with slashes are the path of file j,
   save for a final slash. Without prefixes among the paths this is the leaf that carries j.
   */
  lemma LeafSpellsPath(paths: seq<string>, sizes: seq<nat>, j: nat)
    requires |sizes| == |paths| && j < |paths|
    ensures
      var d := Grown(paths, sizes);
      && j < |d.leaf| && d.leaf[j] < |d.labels| && Join(d.labels[d.leaf[j]], '/') == Chop(paths[j], '/')
      && (PrefixFree(Tokens(paths)) ==>
            && d.leaf[j] < |d.arena.indices| && d.arena.indices[d.leaf[j]] == j
            && d.leaf[j] < |d.arena.children| && d.arena.children[d.leaf[j]] == [])
  {
    var d := Grown(paths, sizes);
    GrownHolds(paths, sizes);
    JoinOfSplit(paths[j], '/');
    if PrefixFree(Tokens(paths)) {
      EndCarriesIndex(d, Tokens(paths), sizes, j);
    }
  }

  /** Grows the tree for all files of a torrent, in order. */
  method GrowTree(paths: seq<string>, sizes: seq<nat>) returns (b: TreeBuilder)
    requires |sizes| == |paths|
    ensures fresh(b) && b.Grown() == Grown(paths, sizes)
  {
    b := new TreeBuilder();
    for i := 0 to |paths|
      invariant fresh(b) && b.Grown() == Grown(paths[..i], sizes[..i])
    {
      b.AddFile(i, paths[i], sizes[i]);
      assert paths[..i + 1][..i] == paths[..i] && sizes[..i + 1][..i] == sizes[..i];
    }
    assert paths[..|paths|] == paths && sizes[..|sizes|] == sizes;
  }

  lemma {:induction false} NoneLeft(indices: seq<int>)
    requires forall i: int :: i !in indices
    ensures indices == []
  {
    if indices != [] {
      var first := FirstOf(indices);
      assert false;
    }
  }

  lemma FirstOf(indices: seq<int>) returns (first: int)
    requires indices != []
    ensures first in indices
  {
    first := indices[0];
  }

  /** Taking n - 1 out of the numbers below n, in any order, leaves those below n - 1. */
  lemma TakeOutLast(indices: seq<int>, n: nat) returns (front: seq<int>, back: seq<int>)
    requires n > 0 && Distinct(indices) && forall i: int :: i in indices <==> 0 <= i < n
    ensures indices == front + [n - 1] + back && Distinct(front + back)
    ensures forall i: int :: i in front + back <==> 0 <= i < n - 1
  {
    assert n - 1 in indices;
    var k :| 0 <= k < |indices| && indices[k] == n - 1;
    front, back := indices[..k], indices[k + 1..];
    assert indices == front + [n - 1] + back;
    assert forall j | 0 <= j < |front + back| :: (front + back)[j] == indices[if j < k then j else j + 1];
    forall i: int
      ensures i in front + back <==> 0 <= i < n - 1
    {
      assert i in indices <==> i in front || i == n - 1 || i in back;
    }
  }

  /** The files 0..n in any order, none switched off: together they are as big as all of them. */
  lemma {:induction false} ChosenSizeOfAll(files: F.Files, indices: seq<int>, n: nat)
    requires n <= |files.sizes| && n <= |files.priorities| && Distinct(indices)
    requires forall i: int :: i in indices <==> 0 <= i < n
    requires forall i | 0 <= i < n :: files.priorities[i] != F.DONT_DOWNLOAD
    ensures F.ChosenSize(files, indices) == Sum(files.sizes[..n])
    decreases n
  {
    if n == 0 {
      NoneLeft(indices);
    } else {
      var front, back := TakeOutLast(indices, n);
      F.ChosenAppend(files, front + [n - 1], back);
      F.ChosenAppend(files, front, [n - 1]);
      F.ChosenAppend(files, front, back);
      assert [n - 1][1..] == [];
      ChosenSizeOfAll(files, front + back, n - 1);
      assert files.sizes[..n][..n - 1] == files.sizes[..n - 1];
    }
  }

  /** The priorities, cut or filled up with the default to one per file. */
  function Resized(priorities: seq<F.Byte>, numFiles: nat): (r: seq<F.Byte>)
    ensures |r| == numFiles
    ensures forall i | 0 <= i < numFiles :: r[i] == if i < |priorities| then priorities[i] else 4
  {
    seq(numFiles, i requires 0 <= i < numFiles => if i < |priorities| then priorities[i] else F.DEFAULT_PRIORITY)
  }

  /** The rows shown for a torrent with these files. */
  ghost function FileForest(paths: seq<string>, sizes: seq<nat>): seq<F.Node>
    requires |sizes| == |paths|
  {
    GrownHolds(paths, sizes);
    Forest(Grown(paths, sizes).arena)
  }

  /** The row a node starts with: its length, and its file's priority if it is a file. */
  function FirstRow(a: Arena, lengths: seq<nat>, priorities: seq<F.Byte>, n: nat): F.Row
    requires n < |a.indices| && n < |a.children| && n < |lengths|
  {
    var priority := if a.children[n] == [] && 0 <= a.indices[n] < |priorities| then priorities[a.indices[n]]
                    else F.DEFAULT_PRIORITY;
    F.Row(0, lengths[n], priority)
  }

  /** Every leaf of a grown tree carries the number of some file. */
  lemma LeavesAreFiles(d: Draft, files: seq<seq<string>>, sizes: seq<nat>)
    requires Holds(d, files, sizes) && |d.leaf| == |files|
    ensures F.DistinctIds(F.PostOrder(Forest(d.arena)))
    ensures forall i | i in F.Leaves(Forest(d.arena)) :: 0 <= i < |files|
    ensures forall n | n in F.PostOrder(Forest(d.arena)) :: 1 <= n.id < |d.names|
  {
    var visited := F.PostOrder(Forest(d.arena));
    ForestHoldsAll(d.arena);
    LeavesInPostOrder(Forest(d.arena));
    LeafIndicesMembers(visited);
    forall n | n in visited && n.kids == []
      ensures 0 <= n.index < |files|
    {
      KidsOf(d.arena, n.id);
      ChildlessIsEnd(d, files, sizes, n.id);
    }
  }

  /** The files of a torrent with a directory of its own: they all lie below that one. */
  ghost predicate UnderOneName(files: seq<seq<string>>, name: string) {
    forall j | 0 <= j < |files| :: |files[j]| >= 2 && files[j][0] == name
  }

  lemma TopsAreCalled(d: Draft, files: seq<seq<string>>, sizes: seq<nat>, name: string, c: nat)
    requires Holds(d, files, sizes) && UnderOneName(files, name) && c in d.arena.children[0]
    ensures 1 <= c < |d.names| && d.labels[c] == [name]
  {
    assert IsChildOf(d.arena, 0, c);
    assert d.labels[c] == [] + [d.names[c]] && d.labels[c] <= files[d.owner[c]];
  }

  /** Then the tree has a single top row, and it is a directory. */
  lemma OneTop(d: Draft, files: seq<seq<string>>, sizes: seq<nat>, name: string)
    requires Holds(d, files, sizes) && |d.leaf| == |files| > 0 && UnderOneName(files, name)
    ensures |Forest(d.arena)| == 1 && Forest(d.arena)[0].kids != []
  {
    var tops := d.arena.children[0];
    var root := NodeOnPath(d, d.leaf[0], 0);
    LabelParts(d, root);
    var top := NodeOnPath(d, d.leaf[0], 1);
    assert d.labels[top] == [name];
    forall c | c in tops
      ensures c == top
    {
      TopsAreCalled(d, files, sizes, name, c);
      LabelsIdentify(d, c, top);
    }
    OnlyElement(tops, top);
    ToNodesLength(d.arena, 0, tops);
    assert ToNodes(d.arena, 0, []) == [] && tops[1..] == [];
    assert Forest(d.arena)[0] == ToNode(d.arena, top);
    KidsOf(d.arena, top);
  }

  /** Opening a torrent of several files, none switched off: its one top row shows the sum of all file sizes. */
  lemma TopRowShowsTotal(paths: seq<string>, sizes: seq<nat>, name: string, files: F.Files, rows: map<nat, F.Row>)
    requires |sizes| == |paths| > 0 && PrefixFree(Tokens(paths)) && UnderOneName(Tokens(paths), name)
    requires files.sizes == sizes && |files.priorities| == |sizes|
    requires forall p | p in files.priorities :: p != 0
    requires F.ShowTargets(files, rows, F.PostOrder(FileForest(paths, sizes)))
    ensures |FileForest(paths, sizes)| == 1 && F.RowAt(rows, FileForest(paths, sizes)[0].id).size == Sum(sizes)
  {
    var d := Grown(paths, sizes);
    GrownHolds(paths, sizes);
    OneTop(d, Tokens(paths), sizes, name);
    OneLeafPerFileIff(d, Tokens(paths), sizes);
    var top := FileForest(paths, sizes)[0];
    assert FileForest(paths, sizes) == [top];
    forall i | 0 <= i < |paths|
      ensures files.priorities[i] != F.DONT_DOWNLOAD
    {
      assert files.priorities[i] in files.priorities;
    }
    TopShowsTotal(files, top, rows, |paths|);
  }

  /** A directory over all the files of a torrent, none switched off, shows the torrent's size. */
  lemma TopShowsTotal(files: F.Files, top: F.Node, rows: map<nat, F.Row>, numFiles: nat)
    requires top.kids != [] && F.ShowTargets(files, rows, F.PostOrder([top])) && OneLeafPerFile([top], numFiles)
    requires |files.sizes| == |files.priorities| == numFiles
    requires forall i | 0 <= i < numFiles :: files.priorities[i] != F.DONT_DOWNLOAD
    ensures F.RowAt(rows, top.id).size == Sum(files.sizes)
  {
    PostOrderOne(top);
    assert top in F.PostOrder([top]);
    assert F.Leaves([top]) == F.LeavesOf(top) by {
      assert [top][1..] == [];
    }
    ChosenSizeOfAll(files, F.Leaves(top.kids), numFiles);
    assert files.sizes[..numFiles] == files.sizes;
  }

  /**
   Opening a torrent that is still to be added: its paths are grown into a tree, the tree is
   copied into rows, and the rows are refreshed.
   */
  method SetTorrentWhenAdd(paths: seq<string>, sizes: seq<nat>, priorities: seq<F.Byte>) returns (list: F.FileList)
    requires |sizes| == |paths| && forall p | p in priorities :: p <= 7
    ensures fresh(list) && list.Valid() && !list.hasTorrent && list.sizes == sizes
    ensures list.priorities == Resized(priorities, |paths|)
    ensures list.forest == FileForest(paths, sizes)
    ensures OneLeafPerFile(list.forest, |paths|) <==> PrefixFree(Tokens(paths))
    ensures F.ShowTargets(list.FilesNow(), list.rows, F.PostOrder(list.forest))
    ensures F.RowsTell(list.FilesNow(), list.rows, F.PostOrder(list.forest))
  {
    var b := GrowTree(paths, sizes);
    ghost var d := b.Grown();
    GrownHolds(paths, sizes);
    LeavesAreFiles(d, Tokens(paths), sizes);
    OneLeafPerFileIff(d, Tokens(paths), sizes);
    var a := Arena(b.parents, b.indices, b.children);
    var all := Resized(priorities, |paths|);
    var lengths := b.lengths;
    var rows := map n: nat | 0 <= n < |lengths| :: FirstRow(a, lengths, all, n);
    assert F.Ids(F.PostOrder(Forest(a))) <= rows.Keys;
    forall i | 0 <= i < |all|
      ensures all[i] <= F.TOP_PRIORITY
    {
      assert i < |priorities| ==> priorities[i] in priorities;
    }
    list := new F.FileList(Forest(a), rows, sizes, all, false, []);
    list.Refresh();
  }
}
