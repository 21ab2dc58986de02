/**
 The list-to-tree-model adapter of gtk/ListModelAdapter.cc: item ids, with a map from id to
 position.
 */
module ListModelAdapters {
  import opened Options
  import opened Sequences

  /** The stamp every iterator of this model carries; a cleared iterator has stamp 0. */
  const STAMP := 1

  /** A tree iterator: it names a row by item id, never by position. */
  datatype Iter = Iter(stamp: int, itemId: int)

  const CLEARED := Iter(0, 0)

  /** What listeners are told while an "items changed" notification is worked off one row at a time. */
  datatype Event = RowDeleted(position: nat) | RowInserted(position: nat, id: int)

  /** The map is exactly the inverse of the list: same id set, and each id's own index. */
  ghost predicate InverseOf(positions: map<int, nat>, items: seq<int>) {
    && (forall k | 0 <= k < |items| :: items[k] in positions && positions[items[k]] == k)
    && (forall id | id in positions :: positions[id] < |items| && items[positions[id]] == id)
  }

  /** An inverse is unique, and a list has one exactly when its ids are distinct. */
  lemma InverseIsUnique(p: map<int, nat>, q: map<int, nat>, items: seq<int>)
    requires InverseOf(p, items) && InverseOf(q, items)
    ensures p == q
  {
    assert forall id | id in p :: items[p[id]] == id && id in q;
    assert forall id | id in q :: items[q[id]] == id && id in p;
  }

  lemma InverseExistsIffDistinct(items: seq<int>)
    ensures (exists p: map<int, nat> :: InverseOf(p, items)) <==> Distinct(items)
  {
    if Distinct(items) {
      var p := BuildInverse(items);
    }
  }

  lemma {:induction false} BuildInverse(items: seq<int>) returns (p: map<int, nat>)
    requires Distinct(items)
    ensures InverseOf(p, items)
  {
    if items == [] {
      p := map[];
    } else {
      var last := |items| - 1;
      var q := BuildInverse(items[..last]);
      p := q[items[last] := last];
      assert forall k | 0 <= k < last :: items[k] == items[..last][k];
    }
  }

  ghost predicate Applicable(items: seq<int>, e: Event) {
    match e
    case RowDeleted(p) => p < |items|
    case RowInserted(p, _) => p <= |items|
  }

  /** What a listener that mirrors the list does with one event. */
  ghost function Apply(items: seq<int>, e: Event): seq<int>
    requires Applicable(items, e)
  {
    match e
    case RowDeleted(p) => items[..p] + items[p + 1..]
    case RowInserted(p, id) => items[..p] + [id] + items[p..]
  }

  /** Replaying all events, in order, on the list as it was before; None if one does not fit. */
  ghost function Replay(items: seq<int>, events: seq<Event>): Option<seq<int>>
    decreases |events|
  {
    if |events| == 0 then Some(items)
    else if !Applicable(items, events[0]) then None
    else Replay(Apply(items, events[0]), events[1..])
  }

  /** Replaying two stretches one after the other; the one-event case is what each loop step adds. */
  lemma {:induction false} ReplayAppend(items: seq<int>, first: seq<Event>, second: seq<Event>)
    ensures Replay(items, first + second) ==
            match Replay(items, first)
            case None => None
            case Some(now) => Replay(now, second)
    decreases |first|
  {
    if first == [] {
      assert first + second == second;
    } else {
      assert (first + second)[1..] == first[1..] + second;
      if Applicable(items, first[0]) {
        ReplayAppend(Apply(items, first[0]), first[1..], second);
      }
    }
  }

  /** The first i of the deletions a notification announces. */
  ghost function Deletions(position: nat, removed: nat, i: nat): seq<Event>
    requires i <= removed
  {
    seq(i, j requires 0 <= j < i => RowDeleted(position + removed - 1 - j))
  }

  /** The first i of the insertions it announces. */
  ghost function Insertions(position: nat, adaptee: seq<int>, i: nat): seq<Event>
    requires position + i <= |adaptee|
  {
    seq(i, j requires 0 <= j < i => RowInserted(position + j, adaptee[position + j]))
  }

  lemma DeletionsSnoc(position: nat, removed: nat, i: nat)
    requires i < removed
    ensures Deletions(position, removed, i + 1) ==
            Deletions(position, removed, i) + [RowDeleted(position + removed - i - 1)]
  {
  }

  lemma InsertionsSnoc(position: nat, adaptee: seq<int>, i: nat)
    requires position + i < |adaptee|
    ensures Insertions(position, adaptee, i + 1) ==
            Insertions(position, adaptee, i) + [RowInserted(position + i, adaptee[position + i])]
  {
  }

  lemma {:induction false} ReplayDeletions(items: seq<int>, position: nat, removed: nat, i: nat)
    requires position + removed <= |items| && i <= removed
    ensures Replay(items, Deletions(position, removed, i)) ==
            Some(items[..position + removed - i] + items[position + removed..])
    decreases i
  {
    if i == 0 {
      assert items[..position + removed] + items[position + removed..] == items;
    } else {
      ReplayDeletions(items, position, removed, i - 1);
      DeletionsSnoc(position, removed, i - 1);
      ReplayAppend(items, Deletions(position, removed, i - 1), [RowDeleted(position + removed - i)]);
      DeleteStep(items, position + removed - i, position + removed);
    }
  }

  lemma {:induction false} ReplayInsertions(adaptee: seq<int>, position: nat, end: nat, i: nat)
    requires position + i <= end <= |adaptee|
    ensures Replay(adaptee[..position] + adaptee[end..], Insertions(position, adaptee, i)) ==
            Some(adaptee[..position + i] + adaptee[end..])
    decreases i
  {
    if i > 0 {
      ReplayInsertions(adaptee, position, end, i - 1);
      InsertionsSnoc(position, adaptee, i - 1);
      var start := adaptee[..position] + adaptee[end..];
      ReplayAppend(start, Insertions(position, adaptee, i - 1), [RowInserted(position + i - 1, adaptee[position + i - 1])]);
      InsertStep(adaptee, position + i - 1, end);
    }
  }

  /** One step of the removal loop, where the items between at and end are already gone. */
  lemma DeleteStep(items: seq<int>, at: nat, end: nat)
    requires at < end <= |items|
    ensures Apply(items[..at + 1] + items[end..], RowDeleted(at)) == items[..at] + items[end..]
  {
  }

  /** One step of the insertion loop, where the adaptee's ids from end on are already in place. */
  lemma InsertStep(adaptee: seq<int>, at: nat, end: nat)
    requires at < end <= |adaptee|
    ensures Apply(adaptee[..at] + adaptee[end..], RowInserted(at, adaptee[at])) == adaptee[..at + 1] + adaptee[end..]
  {
  }

  lemma NotYetInserted(adaptee: seq<int>, at: nat, end: nat)
    requires Distinct(adaptee) && at < end <= |adaptee|
    ensures adaptee[at] !in adaptee[..at] + adaptee[end..]
  {
    var s := adaptee[..at] + adaptee[end..];
    forall k | 0 <= k < |s|
      ensures s[k] != adaptee[at]
    {
      assert s[k] == adaptee[if k < at then k else k - at + end];
    }
  }

  /** Replaying a whole notification on the old list gives the adaptee's list. */
  lemma ReplayNotification(items: seq<int>, position: nat, removed: nat, added: nat, adaptee: seq<int>)
    requires position + removed <= |items| && position + added <= |adaptee|
    requires adaptee[..position] == items[..position]
    requires adaptee[position + added..] == items[position + removed..]
    ensures Replay(items, Deletions(position, removed, removed) + Insertions(position, adaptee, added)) == Some(adaptee)
  {
    ReplayDeletions(items, position, removed, removed);
    ReplayInsertions(adaptee, position, position + added, added);
    ReplayAppend(items, Deletions(position, removed, removed), Insertions(position, adaptee, added));
    assert adaptee[..position + added] + adaptee[position + added..] == adaptee;
  }

  /** Where the items sit after one removal or insertion. */
  lemma RemovedAt(items: seq<int>, p: nat)
    requires Distinct(items) && p < |items|
    ensures
      var after := Apply(items, RowDeleted(p));
      && Distinct(after)
      && |after| == |items| - 1
      && (forall k | 0 <= k < p :: after[k] == items[k])
      && (forall k | p <= k < |after| :: after[k] == items[k + 1])
      && items[p] !in after
  {
  }

  lemma InsertedAt(items: seq<int>, p: nat, id: int)
    requires Distinct(items) && p <= |items| && id !in items
    ensures
      var after := Apply(items, RowInserted(p, id));
      && Distinct(after)
      && |after| == |items| + 1 && after[p] == id
      && (forall k | 0 <= k < p :: after[k] == items[k])
      && (forall k | p <= k < |items| :: after[k + 1] == items[k])
  {
  }

  /** How far the recorded position of the item at k moves when those from min on are shifted. */
  ghost predicate ShiftedFrom(was: map<int, nat>, now: map<int, nat>, items: seq<int>, min: nat, delta: int) {
    forall k | 0 <= k < |items| && items[k] in was ::
      items[k] in now && now[items[k]] == was[items[k]] + (if min <= k then delta else 0)
  }

  /** Shifting every later position down by one repairs the map after a removal. */
  lemma RemovalKeepsInverse(was: map<int, nat>, items: seq<int>, p: nat, now: map<int, nat>)
    requires InverseOf(was, items) && p < |items|
    requires now.Keys == was.Keys - {items[p]}
    requires ShiftedFrom(was - {items[p]}, now, Apply(items, RowDeleted(p)), p, -1)
    ensures InverseOf(now, Apply(items, RowDeleted(p)))
  {
    var after := Apply(items, RowDeleted(p));
    RemovedAt(items, p);
    forall k | 0 <= k < |after|
      ensures after[k] in now && now[after[k]] == k
    {
      assert after[k] == items[if k < p then k else k + 1];
    }
    forall id | id in now
      ensures now[id] < |after| && after[now[id]] == id
    {
      var at := was[id];
      assert at != p && after[if at < p then at else at - 1] == id;
    }
  }

  /** Shifting every later position up by one, then adding the new id, repairs it after an insertion. */
  lemma InsertionKeepsInverse(was: map<int, nat>, items: seq<int>, p: nat, id: int, now: map<int, nat>)
    requires InverseOf(was, items) && p <= |items| && id !in items
    requires now.Keys == was.Keys + {id} && now[id] == p
    requires ShiftedFrom(was, now, Apply(items, RowInserted(p, id)), p, 1)
    ensures InverseOf(now, Apply(items, RowInserted(p, id)))
  {
    var after := Apply(items, RowInserted(p, id));
    InsertedAt(items, p, id);
    forall k | 0 <= k < |after|
      ensures after[k] in now && now[after[k]] == k
    {
      if k != p {
        assert after[k] == items[if k < p then k else k - 1];
      }
    }
    forall x | x in now
      ensures now[x] < |after| && after[now[x]] == x
    {
      if x != id {
        var at := was[x];
        assert after[if at < p then at else at + 1] == x;
      }
    }
  }

  class ListModelAdapter {
    var items: seq<int>
    var itemPositions: map<int, nat>

    /** Every event announced so far, and the list a listener that mirrored them all holds. */
    ghost var announced: seq<Event>
    ghost var mirror: seq<int>

    /** The index agrees with the list, and so does every mirroring listener. */
    ghost predicate Valid()
      reads this
    {
      InverseOf(itemPositions, items) && mirror == items
    }

    /** A new adapter announces the whole adaptee as insertions. */
    constructor (adaptee: seq<int>)
      requires Distinct(adaptee)
      ensures Valid() && items == adaptee
      ensures announced == Insertions(0, adaptee, |adaptee|)
    {
      items := [];
      itemPositions := map[];
      announced := [];
      mirror := [];
      new;
      OnAdapteeItemsChanged(0, 0, |adaptee|, adaptee);
      assert announced == Insertions(0, adaptee, |adaptee|);
    }

    method FindItemPositionById(itemId: int) returns (position: Option<nat>)
      requires Valid()
      ensures position.None? <==> itemId !in items
      ensures position.Some? ==> position.value < |items| && items[position.value] == itemId
    {
      if itemId in itemPositions {
        position := Some(itemPositions[itemId]);
      } else {
        position := None;
      }
    }

    /** Shifts the recorded position of every item from minPosition on that has one. */
    method AdjustItemPositions(minPosition: nat, adjustment: int)
      requires Distinct(items) && minPosition <= |items|
      requires forall k | minPosition <= k < |items| && items[k] in itemPositions ::
                 0 <= itemPositions[items[k]] + adjustment
      modifies this`itemPositions
      ensures itemPositions.Keys == old(itemPositions.Keys)
      ensures ShiftedFrom(old(itemPositions), itemPositions, items, minPosition, adjustment)
      ensures forall id | id in itemPositions && id !in items :: itemPositions[id] == old(itemPositions)[id]
    {
      for i := minPosition to |items|
        invariant itemPositions.Keys == old(itemPositions.Keys)
        invariant forall k | 0 <= k < |items| && items[k] in itemPositions ::
                    itemPositions[items[k]] ==
                    old(itemPositions)[items[k]] + (if minPosition <= k < i then adjustment else 0)
        invariant forall id | id in itemPositions && id !in items :: itemPositions[id] == old(itemPositions)[id]
      {
        var id := items[i];
        if id in itemPositions {
          itemPositions := itemPositions[id := itemPositions[id] + adjustment];
        }
      }
    }

    /**
     Emits a row event. Listeners run inside the emission, so at this point the index must
     already agree with the list, and the event must be exactly what happened to the list
     since the previous emission.
     */
    ghost method Emit(e: Event)
      requires InverseOf(itemPositions, items)
      requires Applicable(mirror, e) && items == Apply(mirror, e)
      modifies this`announced, this`mirror
      ensures Valid() && announced == old(announced) + [e]
    {
      announced := announced + [e];
      mirror := items;
    }

    /** Takes the row at removedPosition out of the list and the map, and announces it. */
    method RemoveRow(removedPosition: nat)
      requires Valid() && removedPosition < |items|
      modifies this
      ensures Valid()
      ensures items == Apply(old(items), RowDeleted(removedPosition))
      ensures announced == old(announced) + [RowDeleted(removedPosition)]
    {
      var id := items[removedPosition];
      items := items[..removedPosition] + items[removedPosition + 1..];
      itemPositions := itemPositions - {id};
      RemovedAt(old(items), removedPosition);
      AdjustItemPositions(removedPosition, -1);
      RemovalKeepsInverse(old(itemPositions), old(items), removedPosition, itemPositions);
      Emit(RowDeleted(removedPosition));
    }

    /** Puts a new id at addedPosition into the list and the map, and announces it. */
    method InsertRow(addedPosition: nat, id: int)
      requires Valid() && addedPosition <= |items| && id !in items
      modifies this
      ensures Valid()
      ensures items == Apply(old(items), RowInserted(addedPosition, id))
      ensures announced == old(announced) + [RowInserted(addedPosition, id)]
    {
      items := items[..addedPosition] + [id] + items[addedPosition..];
      InsertedAt(old(items), addedPosition, id);
      AdjustItemPositions(addedPosition, 1);
      itemPositions := if id in itemPositions then itemPositions else itemPositions[id := addedPosition];
      InsertionKeepsInverse(old(itemPositions), old(items), addedPosition, id, itemPositions);
      Emit(RowInserted(addedPosition, id));
    }

    /** The removal loop: rows position + removed - 1 down to position go. */
    method RemoveRows(position: nat, removed: nat)
      requires Valid() && position + removed <= |items|
      modifies this
      ensures Valid() && items == old(items)[..position] + old(items)[position + removed..]
      ensures announced == old(announced) + Deletions(position, removed, removed)
    {
      ghost var was := items;
      for i := 0 to removed
        invariant Valid()
        invariant items == was[..position + removed - i] + was[position + removed..]
        invariant announced == old(announced) + Deletions(position, removed, i)
      {
        var at := position + removed - i - 1;
        DeletionsSnoc(position, removed, i);
        DeleteStep(was, at, position + removed);
        RemoveRow(at);
      }
    }

    /** The insertion loop: the adaptee's ids come in from position upwards. */
    method InsertRows(position: nat, added: nat, adaptee: seq<int>)
      requires Valid() && Distinct(adaptee) && position <= |items| && position + added <= |adaptee|
      requires items == adaptee[..position] + adaptee[position + added..]
      modifies this
      ensures Valid() && items == adaptee
      ensures announced == old(announced) + Insertions(position, adaptee, added)
    {
      for i := 0 to added
        invariant Valid()
        invariant items == adaptee[..position + i] + adaptee[position + added..]
        invariant announced == old(announced) + Insertions(position, adaptee, i)
      {
        var at, id := position + i, adaptee[position + i];
        InsertionsSnoc(position, adaptee, i);
        NotYetInserted(adaptee, at, position + added);
        InsertStep(adaptee, at, position + added);
        InsertRow(at, id);
      }
    }

    /**
     Works off one notification, removals first. The two index bounds are the source's own
     assertions; the rest of the precondition is what the notification means, namely that
     the adaptee changed nowhere else, and that ids identify items.
     */
    method OnAdapteeItemsChanged(position: nat, removed: nat, added: nat, adaptee: seq<int>)
      requires Valid()
      requires position + removed <= |items| && position + added <= |adaptee|
      requires adaptee[..position] == items[..position]
      requires adaptee[position + added..] == items[position + removed..]
      requires Distinct(adaptee)
      modifies this
      ensures Valid() && items == adaptee
      ensures announced == old(announced) + Deletions(position, removed, removed) + Insertions(position, adaptee, added)
      ensures Replay(old(items), Deletions(position, removed, removed) + Insertions(position, adaptee, added))
           == Some(adaptee)
    {
      RemoveRows(position, removed);
      InsertRows(position, added, adaptee);
      ReplayNotification(old(items), position, removed, added, adaptee);
    }

    method IterNext(iter: Iter) returns (ok: bool, next: Iter)
      requires Valid()
      ensures ok <==> iter.stamp == STAMP && iter.itemId in items && iter.itemId != items[|items| - 1]
      ensures ok ==> exists k :: 0 <= k < |items| - 1 && items[k] == iter.itemId && next == Iter(STAMP, items[k + 1])
      ensures !ok ==> next == CLEARED
    {
      ok, next := false, CLEARED;
      if iter.stamp != 0 {
        if iter.stamp != STAMP {
          return;
        }
        var position := FindItemPositionById(iter.itemId);
        if position.Some? {
          assert items[position.value] == iter.itemId;
          if position.value + 1 < |items| {
            ok, next := true, Iter(STAMP, items[position.value + 1]);
          }
        }
      }
    }

    method IterChildren(hasParent: bool) returns (ok: bool, iter: Iter)
      ensures ok <==> !hasParent && items != []
      ensures iter == if ok then Iter(STAMP, items[0]) else CLEARED
    {
      if hasParent || items == [] {
        return false, CLEARED;
      }
      return true, Iter(STAMP, items[0]);
    }

    method IterNthRootChild(position: int) returns (ok: bool, iter: Iter)
      ensures ok <==> 0 <= position < |items|
      ensures iter == if ok then Iter(STAMP, items[position]) else CLEARED
    {
      if position < 0 || position >= |items| {
        return false, CLEARED;
      }
      return true, Iter(STAMP, items[position]);
    }

    /** The empty path means "no such row". */
    method GetPath(iter: Iter) returns (path: seq<nat>)
      requires Valid()
      ensures path == [] <==> iter.stamp != STAMP || iter.itemId !in items
      ensures path != [] ==> |path| == 1 && path[0] < |items| && items[path[0]] == iter.itemId
    {
      path := [];
      if iter.stamp != 0 {
        if iter.stamp != STAMP {
          return;
        }
        var position := FindItemPositionById(iter.itemId);
        if position.Some? {
          path := [position.value];
        }
      }
    }

    /**
     A client of the tree-model interface: first child, then next until there is none,
     asking for each row's path on the way and undoing it again.
     */
    method WalkRows() returns (visited: seq<int>)
      requires Valid()
      ensures visited == items
    {
      visited := [];
      var ok, iter := IterChildren(false);
      while ok
        invariant |visited| <= |items| && visited == items[..|visited|]
        invariant ok <==> |visited| < |items|
        invariant ok ==> iter == Iter(STAMP, items[|visited|])
        decreases |items| - |visited|
      {
        var path := GetPath(iter);
        assert path == [|visited|];
        var same, again := IterNthRootChild(path[0]);
        assert same && again == iter;
        visited := visited + [iter.itemId];
        ok, iter := IterNext(iter);
      }
    }
  }
}
