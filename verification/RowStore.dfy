/**
 The mark-and-sweep refresh that gtk/DetailsDialog.cc gives its tracker list and its peer
 list: a store of rows beside a hash from key to row reference. The two lists differ in what
 a row shows and how it is updated, so both are parameters here.
 */
module RowStores {
  import opened Sequences

  /** A row keeps its identity for as long as it is in the store. */
  datatype Row<D> = Row(id: nat, key: string, data: D, updated: bool)

  /** How entries name their row, what a new row shows, and what an update makes of a row. */
  datatype Format<!E, !D> = Format(keyOf: E -> string, initial: E -> D, update: (D, E) -> D)

  ghost predicate DistinctKeys<D(!new)>(rows: seq<Row<D>>) {
    forall i, j | 0 <= i < j < |rows| :: rows[i].key != rows[j].key
  }

  ghost predicate DistinctIds<D(!new)>(rows: seq<Row<D>>) {
    forall i, j | 0 <= i < j < |rows| :: rows[i].id != rows[j].id
  }

  ghost predicate IdsBelow<D(!new)>(rows: seq<Row<D>>, next: nat) {
    forall r | r in rows :: r.id < next
  }

  ghost function Keys<D>(rows: seq<Row<D>>): set<string> {
    set r | r in rows :: r.key
  }

  ghost function EntryKeys<E, D>(f: Format<E, D>, entries: seq<E>): set<string> {
    set i | 0 <= i < |entries| :: f.keyOf(entries[i])
  }

  /** The hash holds exactly the keys of the rows, and refers to the row with that key. */
  ghost predicate Agrees<D>(hash: map<string, nat>, rows: seq<Row<D>>) {
    && (forall i | 0 <= i < |rows| :: rows[i].key in hash && hash[rows[i].key] == rows[i].id)
    && hash.Keys == Keys(rows)
  }

  // ----- the four passes, as functions

  function Unmarked<D>(rows: seq<Row<D>>): (r: seq<Row<D>>) {
    seq(|rows|, i requires 0 <= i < |rows| => rows[i].(updated := false))
  }

  /** Appends a row for each entry whose key has none yet. */
  ghost function WithNew<E, D>(f: Format<E, D>, rows: seq<Row<D>>, entries: seq<E>, next: nat): seq<Row<D>>
    decreases |entries|
  {
    if entries == [] then rows
    else if f.keyOf(entries[0]) in Keys(rows) then WithNew(f, rows, entries[1..], next)
    else WithNew(f, rows + [Row(next, f.keyOf(entries[0]), f.initial(entries[0]), false)], entries[1..], next + 1)
  }

  function Touched<E, D>(f: Format<E, D>, r: Row<D>, e: E): Row<D> {
    if r.key == f.keyOf(e) then Row(r.id, r.key, f.update(r.data, e), true) else r
  }

  /** Updates, for each entry in turn, every row with its key. */
  ghost function TouchedAll<E, D>(f: Format<E, D>, rows: seq<Row<D>>, entries: seq<E>): seq<Row<D>>
    decreases |entries|
  {
    if entries == [] then rows
    else
      TouchedAll(f, seq(|rows|, i requires 0 <= i < |rows| => Touched(f, rows[i], entries[0])), entries[1..])
  }

  ghost function Swept<D>(rows: seq<Row<D>>): seq<Row<D>>
    decreases |rows|
  {
    if rows == [] then []
    else (if rows[0].updated then [rows[0]] else []) + Swept(rows[1..])
  }

  ghost function Refreshed<E, D>(f: Format<E, D>, rows: seq<Row<D>>, entries: seq<E>, next: nat): seq<Row<D>> {
    Swept(TouchedAll(f, WithNew(f, Unmarked(rows), entries, next), entries))
  }

  // ----- what they do to keys and identities

  lemma EntryKeysFirst<E, D>(f: Format<E, D>, entries: seq<E>)
    requires entries != []
    ensures EntryKeys(f, entries) == {f.keyOf(entries[0])} + EntryKeys(f, entries[1..])
  {
    assert forall i | 1 <= i < |entries| :: entries[i] == entries[1..][i - 1];
  }

  lemma AppendRow<D(!new)>(rows: seq<Row<D>>, row: Row<D>)
    requires DistinctKeys(rows) && DistinctIds(rows) && IdsBelow(rows, row.id) && row.key !in Keys(rows)
    ensures DistinctKeys(rows + [row]) && DistinctIds(rows + [row]) && IdsBelow(rows + [row], row.id + 1)
    ensures Keys(rows + [row]) == Keys(rows) + {row.key}
  {
    forall i | 0 <= i < |rows|
      ensures rows[i].key != row.key && rows[i].id != row.id
    {
      assert rows[i] in rows;
    }
  }

  lemma {:induction false} WithNewAppends<E, D(!new)>(f: Format<E, D>, rows: seq<Row<D>>, entries: seq<E>, next: nat)
    ensures
      var all := WithNew(f, rows, entries, next);
      rows <= all && (forall k | |rows| <= k < |all| :: all[k].id >= next && !all[k].updated)
    decreases |entries|
  {
    if entries != [] {
      var key := f.keyOf(entries[0]);
      if key in Keys(rows) {
        WithNewAppends(f, rows, entries[1..], next);
      } else {
        var longer := rows + [Row(next, key, f.initial(entries[0]), false)];
        WithNewAppends(f, longer, entries[1..], next + 1);
        assert rows <= longer;
      }
    }
  }

  lemma {:induction false} WithNewShape<E, D(!new)>(f: Format<E, D>, rows: seq<Row<D>>, entries: seq<E>, next: nat)
    requires DistinctKeys(rows) && DistinctIds(rows) && IdsBelow(rows, next)
    ensures
      var all := WithNew(f, rows, entries, next);
      DistinctKeys(all) && DistinctIds(all) && Keys(all) == Keys(rows) + EntryKeys(f, entries)
    decreases |entries|
  {
    if entries != [] {
      var e, rest := entries[0], entries[1..];
      EntryKeysFirst(f, entries);
      if f.keyOf(e) in Keys(rows) {
        WithNewShape(f, rows, rest, next);
      } else {
        var row := Row(next, f.keyOf(e), f.initial(e), false);
        AppendRow(rows, row);
        WithNewShape(f, rows + [row], rest, next + 1);
      }
    }
  }

  /** What the entries, in order, make of one row. */
  ghost function TouchedBy<E, D>(f: Format<E, D>, r: Row<D>, entries: seq<E>): Row<D>
    decreases |entries|
  {
    if entries == [] then r else TouchedBy(f, Touched(f, r, entries[0]), entries[1..])
  }

  lemma {:induction false} TouchedAllShape<E, D>(f: Format<E, D>, rows: seq<Row<D>>, entries: seq<E>)
    ensures |TouchedAll(f, rows, entries)| == |rows|
    ensures forall i | 0 <= i < |rows| :: TouchedAll(f, rows, entries)[i] == TouchedBy(f, rows[i], entries)
    decreases |entries|
  {
    if entries != [] {
      TouchedAllShape(f, seq(|rows|, i requires 0 <= i < |rows| => Touched(f, rows[i], entries[0])), entries[1..]);
    }
  }

  lemma {:induction false} TouchedByShape<E, D>(f: Format<E, D>, r: Row<D>, entries: seq<E>)
    ensures TouchedBy(f, r, entries).id == r.id && TouchedBy(f, r, entries).key == r.key
    ensures TouchedBy(f, r, entries).updated <==> r.updated || r.key in EntryKeys(f, entries)
    decreases |entries|
  {
    if entries != [] {
      TouchedByShape(f, Touched(f, r, entries[0]), entries[1..]);
      EntryKeysFirst(f, entries);
    }
  }

  lemma {:induction false} SweptMembers<D(!new)>(rows: seq<Row<D>>)
    ensures forall r :: r in Swept(rows) <==> r in rows && r.updated
    decreases |rows|
  {
    if rows != [] {
      SweptMembers(rows[1..]);
      assert forall r :: r in rows <==> r == rows[0] || r in rows[1..];
    }
  }

  lemma {:induction false} SweptKeepsDistinct<D(!new)>(rows: seq<Row<D>>)
    requires DistinctKeys(rows) && DistinctIds(rows)
    ensures DistinctKeys(Swept(rows)) && DistinctIds(Swept(rows))
    decreases |rows|
  {
    if rows != [] {
      SweptKeepsDistinct(rows[1..]);
      SweptMembers(rows[1..]);
      forall r | r in Swept(rows[1..])
        ensures r.key != rows[0].key && r.id != rows[0].id
      {
        LaterRow(rows, r);
      }
    }
  }

  lemma LaterRow<D(!new)>(rows: seq<Row<D>>, r: Row<D>)
    requires DistinctKeys(rows) && DistinctIds(rows) && rows != [] && r in rows[1..]
    ensures r.key != rows[0].key && r.id != rows[0].id
  {
    var i :| 0 <= i < |rows[1..]| && rows[1..][i] == r;
    assert rows[i + 1] == r;
  }

  /** No entry before has the key of this one. */
  ghost predicate IsFirst<E, D>(f: Format<E, D>, entries: seq<E>, i: nat) {
    i < |entries| && forall j | 0 <= j < i :: f.keyOf(entries[j]) != f.keyOf(entries[i])
  }

  /** The row as it is made for the first entry with its key. */
  ghost predicate MadeNew<E, D(!new)>(f: Format<E, D>, r: Row<D>, entries: seq<E>) {
    exists i: nat | IsFirst(f, entries, i) :: r == Row(r.id, f.keyOf(entries[i]), f.initial(entries[i]), false)
  }

  lemma MadeNewLater<E, D(!new)>(f: Format<E, D>, r: Row<D>, entries: seq<E>)
    requires entries != [] && MadeNew(f, r, entries[1..]) && r.key != f.keyOf(entries[0])
    ensures MadeNew(f, r, entries)
  {
    var rest := entries[1..];
    var i: nat :| IsFirst(f, rest, i) && r == Row(r.id, f.keyOf(rest[i]), f.initial(rest[i]), false);
    assert entries[i + 1] == rest[i];
    forall j | 0 <= j < i + 1
      ensures f.keyOf(entries[j]) != r.key
    {
      if j > 0 {
        assert entries[j] == rest[j - 1];
      }
    }
    assert IsFirst(f, entries, i + 1);
  }

  /** Every row that is added is made for the first entry with its key. */
  lemma {:induction false} AddedAreMadeNew<E, D(!new)>(f: Format<E, D>, rows: seq<Row<D>>, entries: seq<E>, next: nat, k: nat)
    requires DistinctKeys(rows) && DistinctIds(rows) && IdsBelow(rows, next)
    requires |rows| <= k < |WithNew(f, rows, entries, next)|
    ensures MadeNew(f, WithNew(f, rows, entries, next)[k], entries)
    decreases |entries|
  {
    var e, rest := entries[0], entries[1..];
    if f.keyOf(e) in Keys(rows) {
      LaterKey(f, rows, rest, next, k);
      AddedAreMadeNew(f, rows, rest, next, k);
      MadeNewLater(f, WithNew(f, rows, rest, next)[k], entries);
    } else {
      var row := Row(next, f.keyOf(e), f.initial(e), false);
      AppendRow(rows, row);
      if k == |rows| {
        WithNewAppends(f, rows + [row], rest, next + 1);
        assert IsFirst(f, entries, 0) && (rows + [row])[k] == row;
      } else {
        LaterKey(f, rows + [row], rest, next + 1, k);
        AddedAreMadeNew(f, rows + [row], rest, next + 1, k);
        MadeNewLater(f, WithNew(f, rows + [row], rest, next + 1)[k], entries);
      }
    }
  }

  lemma LaterKey<E, D(!new)>(f: Format<E, D>, rows: seq<Row<D>>, entries: seq<E>, next: nat, k: nat)
    requires DistinctKeys(rows) && DistinctIds(rows) && IdsBelow(rows, next)
    requires |rows| <= k < |WithNew(f, rows, entries, next)|
    ensures WithNew(f, rows, entries, next)[k].key !in Keys(rows)
  {
    WithNewShape(f, rows, entries, next);
    WithNewAppends(f, rows, entries, next);
    NewKey(rows, WithNew(f, rows, entries, next), k);
  }

  /** The entries that name one row, in order. */
  ghost function EntriesFor<E, D>(f: Format<E, D>, entries: seq<E>, key: string): seq<E>
    decreases |entries|
  {
    if entries == [] then []
    else (if f.keyOf(entries[0]) == key then [entries[0]] else []) + EntriesFor(f, entries[1..], key)
  }

  /** What updates by some entries, one after the other, make of what a row shows. */
  ghost function UpdatedBy<E, D>(update: (D, E) -> D, data: D, entries: seq<E>): D
    decreases |entries|
  {
    if entries == [] then data else UpdatedBy(update, update(data, entries[0]), entries[1..])
  }

  /** The row x is the row r after an update by each entry that names it, and no other. */
  ghost predicate BroughtUpToDate<E, D(!new)>(f: Format<E, D>, x: Row<D>, r: Row<D>, entries: seq<E>) {
    x.id == r.id && x.key == r.key && x.data == UpdatedBy(f.update, r.data, EntriesFor(f, entries, r.key))
  }

  lemma {:induction false} TouchedIsUpToDate<E, D(!new)>(f: Format<E, D>, r: Row<D>, entries: seq<E>)
    ensures BroughtUpToDate(f, TouchedBy(f, r, entries), r, entries)
    decreases |entries|
  {
    if entries != [] {
      var e, rest := entries[0], entries[1..];
      TouchedIsUpToDate(f, Touched(f, r, e), rest);
      if f.keyOf(e) == r.key {
        assert EntriesFor(f, entries, r.key)[1..] == EntriesFor(f, rest, r.key);
      } else {
        assert EntriesFor(f, entries, r.key) == EntriesFor(f, rest, r.key);
      }
    }
  }

  /**
   The row is an old one, updated by the entries with its key, one after the other; or its key and
   its identity are new, and it is what these entries make of the row made for the first of them.
   */
  ghost predicate OldOrNew<E, D(!new)>(f: Format<E, D>, x: Row<D>, rows: seq<Row<D>>, entries: seq<E>, next: nat) {
    || (exists o | o in rows :: BroughtUpToDate(f, x, o, entries))
    || (x.key !in Keys(rows) && x.id >= next && exists r | MadeNew(f, r, entries) :: BroughtUpToDate(f, x, r, entries))
  }

  /** An old row whose key is among the entries is still there, under its identity. */
  ghost predicate Survives<D(!new)>(o: Row<D>, rows: seq<Row<D>>) {
    exists x | x in rows :: x.id == o.id && x.key == o.key
  }

  /** Same keys and identities, row by row. */
  ghost predicate SameRows<D(!new)>(rows: seq<Row<D>>, others: seq<Row<D>>) {
    |rows| == |others| && forall i | 0 <= i < |rows| :: rows[i].key == others[i].key && rows[i].id == others[i].id
  }

  lemma KeysWithin<D(!new)>(rows: seq<Row<D>>, others: seq<Row<D>>)
    requires SameRows(rows, others)
    ensures Keys(rows) <= Keys(others)
  {
    forall r | r in rows
      ensures r.key in Keys(others)
    {
      var i :| 0 <= i < |rows| && rows[i] == r;
      assert others[i] in others;
    }
  }

  lemma SameKeys<D(!new)>(rows: seq<Row<D>>, others: seq<Row<D>>, next: nat)
    requires SameRows(rows, others) && DistinctKeys(rows) && DistinctIds(rows)
    ensures Keys(rows) == Keys(others) && DistinctKeys(others) && DistinctIds(others)
    ensures IdsBelow(rows, next) ==> IdsBelow(others, next)
  {
    KeysWithin(rows, others);
    KeysWithin(others, rows);
    if IdsBelow(rows, next) {
      forall r | r in others
        ensures r.id < next
      {
        var i :| 0 <= i < |others| && others[i] == r;
        assert rows[i] in rows;
      }
    }
  }

  /** Sweeping rows of which exactly those with wanted keys are marked leaves exactly these keys. */
  lemma KeptKeys<D(!new)>(touched: seq<Row<D>>, wanted: set<string>)
    requires wanted <= Keys(touched) && forall r | r in touched :: r.updated <==> r.key in wanted
    ensures Keys(Swept(touched)) == wanted
  {
    SweptMembers(touched);
    forall key | key in wanted
      ensures key in Keys(Swept(touched))
    {
      var r :| r in touched && r.key == key;
      assert r in Swept(touched);
    }
  }

  /** After the update pass the rows are the same, and marked exactly if some entry has their key. */
  lemma UpdatedRows<E, D(!new)>(f: Format<E, D>, all: seq<Row<D>>, entries: seq<E>)
    requires forall r | r in all :: !r.updated
    ensures
      var touched := TouchedAll(f, all, entries);
      && SameRows(all, touched)
      && (forall r | r in touched :: r.updated <==> r.key in EntryKeys(f, entries))
      && (forall r | r in all :: TouchedBy(f, r, entries) in touched)
      && (forall x | x in touched :: exists r | r in all :: x == TouchedBy(f, r, entries))
  {
    var touched := TouchedAll(f, all, entries);
    TouchedAllShape(f, all, entries);
    forall i | 0 <= i < |all|
      ensures touched[i].key == all[i].key && touched[i].id == all[i].id
      ensures touched[i].updated <==> all[i].key in EntryKeys(f, entries)
    {
      TouchedByShape(f, all[i], entries);
      assert all[i] in all;
    }
    forall x | x in touched
      ensures exists r | r in all :: x == TouchedBy(f, r, entries)
    {
      var i :| 0 <= i < |touched| && touched[i] == x;
      assert all[i] in all;
    }
    forall r | r in all
      ensures TouchedBy(f, r, entries) in touched
    {
      var i :| 0 <= i < |all| && all[i] == r;
      assert touched[i] in touched;
    }
  }

  /** The rows before the update pass: the old ones unmarked, then new ones. */
  lemma RowsBeforeUpdate<E, D(!new)>(f: Format<E, D>, rows: seq<Row<D>>, entries: seq<E>, next: nat)
    requires DistinctKeys(rows) && DistinctIds(rows) && IdsBelow(rows, next)
    ensures
      var all := WithNew(f, Unmarked(rows), entries, next);
      && DistinctKeys(all) && DistinctIds(all) && Keys(all) == Keys(rows) + EntryKeys(f, entries)
      && (forall r | r in all :: !r.updated)
      && (forall o | o in rows :: o.(updated := false) in all)
      && (forall r | r in all ::
            || (r.key !in Keys(rows) && r.id >= next && MadeNew(f, r, entries))
            || exists o | o in rows :: r == o.(updated := false))
  {
    var plain := Unmarked(rows);
    SameKeys(rows, plain, next);
    WithNewShape(f, plain, entries, next);
    WithNewAppends(f, plain, entries, next);
    var all := WithNew(f, plain, entries, next);
    assert forall i | 0 <= i < |rows| :: all[i] == plain[i] && plain[i] == rows[i].(updated := false);
    forall r | r in all
      ensures !r.updated
      ensures (r.key !in Keys(rows) && r.id >= next && MadeNew(f, r, entries)) || exists o | o in rows :: r == o.(updated := false)
    {
      var i :| 0 <= i < |all| && all[i] == r;
      if i < |rows| {
        assert rows[i] in rows;
      } else {
        NewKey(plain, all, i);
        AddedAreMadeNew(f, plain, entries, next, i);
      }
    }
    forall o | o in rows
      ensures o.(updated := false) in all
    {
      var i :| 0 <= i < |rows| && rows[i] == o;
      assert all[i] in all;
    }
  }

  lemma NewKey<D(!new)>(rows: seq<Row<D>>, all: seq<Row<D>>, k: nat)
    requires rows <= all && DistinctKeys(all) && |rows| <= k < |all|
    ensures all[k].key !in Keys(rows)
  {
    forall r | r in rows
      ensures r.key != all[k].key
    {
      var i :| 0 <= i < |rows| && rows[i] == r;
      assert all[i] == r;
    }
  }

  /** After a refresh there is one row per key among the entries; old rows keep their identity. */
  lemma RefreshedShape<E, D(!new)>(f: Format<E, D>, rows: seq<Row<D>>, entries: seq<E>, next: nat)
    requires DistinctKeys(rows) && DistinctIds(rows) && IdsBelow(rows, next)
    ensures
      var after := Refreshed(f, rows, entries, next);
      && DistinctKeys(after) && DistinctIds(after) && Keys(after) == EntryKeys(f, entries)
      && (forall x | x in after :: OldOrNew(f, x, rows, entries, next))
      && (forall o | o in rows && o.key in EntryKeys(f, entries) :: Survives(o, after))
  {
    var all := WithNew(f, Unmarked(rows), entries, next);
    RowsBeforeUpdate(f, rows, entries, next);
    var touched := TouchedAll(f, all, entries);
    UpdatedRows(f, all, entries);
    SameKeys(all, touched, 0);
    KeptKeys(touched, EntryKeys(f, entries));
    SweptMembers(touched);
    SweptKeepsDistinct(touched);
    forall x | x in Swept(touched)
      ensures OldOrNew(f, x, rows, entries, next)
    {
      var r :| r in all && x == TouchedBy(f, r, entries);
      TouchedByShape(f, r, entries);
      TouchedIsUpToDate(f, r, entries);
      if o :| o in rows && r == o.(updated := false) {
        assert BroughtUpToDate(f, x, o, entries);
      }
    }
    forall o | o in rows && o.key in EntryKeys(f, entries)
      ensures Survives(o, Swept(touched))
    {
      var r := o.(updated := false);
      TouchedByShape(f, r, entries);
      assert TouchedBy(f, r, entries) in Swept(touched);
    }
  }

  lemma WithNewStep<E, D>(f: Format<E, D>, rows: seq<Row<D>>, entries: seq<E>, j: nat, next: nat)
    requires j < |entries|
    ensures
      var key := f.keyOf(entries[j]);
      WithNew(f, rows, entries[j..], next) ==
      if key in Keys(rows) then WithNew(f, rows, entries[j + 1..], next)
      else WithNew(f, rows + [Row(next, key, f.initial(entries[j]), false)], entries[j + 1..], next + 1)
  {
    assert entries[j..][0] == entries[j] && entries[j..][1..] == entries[j + 1..];
  }

  // ----- the store

  /** The position of the row with an identity, which a row reference stands for. */
  function PositionOf<D>(rows: seq<Row<D>>, id: nat): (i: nat)
    ensures i <= |rows|
    ensures i < |rows| ==> rows[i].id == id
    ensures i == |rows| ==> forall k | 0 <= k < |rows| :: rows[k].id != id
  {
    if rows == [] || rows[0].id == id then 0
    else
      var i := 1 + PositionOf(rows[1..], id);
      assert forall k | 1 <= k < |rows| :: rows[k] == rows[1..][k - 1];
      i
  }

  /** The hash refers to the one row with the key. */
  lemma ReferredRow<D(!new)>(rows: seq<Row<D>>, hash: map<string, nat>, key: string) returns (i: nat)
    requires DistinctIds(rows) && Agrees(hash, rows) && key in hash
    ensures i < |rows| && i == PositionOf(rows, hash[key]) && rows[i].key == key
  {
    i := PositionOf(rows, hash[key]);
    assert key in Keys(rows);
    var r :| r in rows && r.key == key;
    var k :| 0 <= k < |rows| && rows[k] == r;
    assert rows[k].id == hash[key];
  }

  /** Updating the one row the hash refers to is the same as updating every row with that key. */
  lemma TouchByReference<E, D(!new)>(f: Format<E, D>, rows: seq<Row<D>>, hash: map<string, nat>, e: E)
    requires DistinctKeys(rows) && DistinctIds(rows) && Agrees(hash, rows) && f.keyOf(e) in hash
    ensures
      var i := PositionOf(rows, hash[f.keyOf(e)]);
      && i < |rows|
      && rows[i := Row(rows[i].id, rows[i].key, f.update(rows[i].data, e), true)] ==
         seq(|rows|, k requires 0 <= k < |rows| => Touched(f, rows[k], e))
  {
    var i := ReferredRow(rows, hash, f.keyOf(e));
    forall k | 0 <= k < |rows| && k != i
      ensures Touched(f, rows[k], e) == rows[k]
    {
      assert rows[k].key != rows[i].key;
    }
  }

  /** No key and no identity twice, identities still to be given out unused, and the hash in step. */
  ghost predicate InStep<D(!new)>(rows: seq<Row<D>>, hash: map<string, nat>, next: nat) {
    DistinctKeys(rows) && DistinctIds(rows) && IdsBelow(rows, next) && Agrees(hash, rows)
  }

  lemma SameRowsInStep<D(!new)>(rows: seq<Row<D>>, others: seq<Row<D>>, hash: map<string, nat>, next: nat)
    requires InStep(rows, hash, next) && SameRows(rows, others)
    ensures InStep(others, hash, next)
  {
    SameKeys(rows, others, next);
  }

  lemma AppendInStep<D(!new)>(rows: seq<Row<D>>, hash: map<string, nat>, row: Row<D>)
    requires InStep(rows, hash, row.id) && row.key !in hash
    ensures InStep(rows + [row], hash[row.key := row.id], row.id + 1)
  {
    AppendRow(rows, row);
  }

  lemma EraseInStep<D(!new)>(rows: seq<Row<D>>, hash: map<string, nat>, next: nat, i: nat)
    requires InStep(rows, hash, next) && i < |rows|
    ensures InStep(rows[..i] + rows[i + 1..], hash - {rows[i].key}, next)
  {
    EraseKeepsDistinct(rows, i, next);
    EraseKeepsHash(rows, hash, i);
  }

  class Store<E, !D(!new)> {
    const f: Format<E, D>
    var rows: seq<Row<D>>
    var hash: map<string, nat>
    var nextId: nat

    ghost predicate Valid()
      reads this
    {
      InStep(rows, hash, nextId)
    }

    constructor (f: Format<E, D>)
      ensures Valid() && rows == [] && this.f == f
    {
      this.f, rows, hash, nextId := f, [], map[], 0;
    }

    /** Marks every row as not updated. */
    method MarkAll()
      requires Valid()
      modifies this`rows
      ensures Valid() && rows == Unmarked(old(rows))
    {
      ghost var was := rows;
      for i := 0 to |rows|
        invariant |rows| == |was|
        invariant forall k | 0 <= k < i :: rows[k] == was[k].(updated := false)
        invariant forall k | i <= k < |was| :: rows[k] == was[k]
      {
        rows := rows[i := rows[i].(updated := false)];
      }
      SameRowsInStep(was, rows, hash, nextId);
      assert rows == Unmarked(was);
    }

    /** Appends a row for an entry whose key the hash does not have. */
    method AddOne(e: E)
      requires Valid()
      modifies this`rows, this`hash, this`nextId
      ensures Valid() && hash.Keys == old(hash).Keys + {f.keyOf(e)}
      ensures rows == if f.keyOf(e) in old(hash) then old(rows)
                      else old(rows) + [Row(old(nextId), f.keyOf(e), f.initial(e), false)]
      ensures nextId == old(nextId) + (if f.keyOf(e) in old(hash) then 0 else 1)
    {
      var key := f.keyOf(e);
      if key !in hash {
        var row := Row(nextId, key, f.initial(e), false);
        AppendInStep(rows, hash, row);
        rows := rows + [row];
        hash := hash[key := nextId];
        nextId := nextId + 1;
      }
    }

    method AddNext(entries: seq<E>, j: nat)
      requires Valid() && j < |entries|
      modifies this`rows, this`hash, this`nextId
      ensures Valid() && hash.Keys == old(hash).Keys + {f.keyOf(entries[j])} && nextId >= old(nextId)
      ensures WithNew(f, rows, entries[j + 1..], nextId) == WithNew(f, old(rows), entries[j..], old(nextId))
    {
      WithNewStep(f, rows, entries, j, nextId);
      AddOne(entries[j]);
    }

    /** Appends a row for every entry whose key the hash does not have. */
    method AddNew(entries: seq<E>)
      requires Valid()
      modifies this`rows, this`hash, this`nextId
      ensures Valid() && rows == WithNew(f, old(rows), entries, old(nextId)) && nextId >= old(nextId)
      ensures forall i | 0 <= i < |entries| :: f.keyOf(entries[i]) in hash
    {
      for j := 0 to |entries|
        invariant Valid() && nextId >= old(nextId)
        invariant WithNew(f, rows, entries[j..], nextId) == WithNew(f, old(rows), entries, old(nextId))
        invariant forall i | 0 <= i < j :: f.keyOf(entries[i]) in hash
      {
        AddNext(entries, j);
      }
    }

    method UpdateRow(e: E)
      requires Valid() && f.keyOf(e) in hash
      modifies this`rows
      ensures Valid() && rows == seq(|old(rows)|, k requires 0 <= k < |old(rows)| => Touched(f, old(rows)[k], e))
    {
      TouchByReference(f, rows, hash, e);
      ghost var was := rows;
      var i := PositionOf(rows, hash[f.keyOf(e)]);
      rows := rows[i := Row(rows[i].id, rows[i].key, f.update(rows[i].data, e), true)];
      SameRowsInStep(was, rows, hash, nextId);
    }

    /** Updates the row of every entry, found through the hash. */
    method UpdateRows(entries: seq<E>)
      requires Valid() && forall i | 0 <= i < |entries| :: f.keyOf(entries[i]) in hash
      modifies this`rows
      ensures Valid() && rows == TouchedAll(f, old(rows), entries)
    {
      for j := 0 to |entries|
        invariant Valid()
        invariant TouchedAll(f, rows, entries[j..]) == TouchedAll(f, old(rows), entries)
      {
        assert entries[j..][0] == entries[j] && entries[j..][1..] == entries[j + 1..];
        UpdateRow(entries[j]);
      }
    }

    method EraseRow(i: nat)
      requires Valid() && i < |rows|
      modifies this`rows, this`hash
      ensures Valid() && rows == old(rows)[..i] + old(rows)[i + 1..]
    {
      EraseInStep(rows, hash, nextId, i);
      hash := hash - {rows[i].key};
      rows := rows[..i] + rows[i + 1..];
    }

    /** Erases the rows that were not updated, and their keys from the hash. */
    method Sweep()
      requires Valid()
      modifies this`rows, this`hash
      ensures Valid() && rows == Swept(old(rows))
    {
      var iter := 0;
      while iter < |rows|
        invariant Valid() && iter <= |rows|
        invariant rows[..iter] + Swept(rows[iter..]) == Swept(old(rows))
        decreases |rows| - iter
      {
        SweepStep(rows, iter);
        if rows[iter].updated {
          iter := iter + 1;
        } else {
          EraseRow(iter);
        }
      }
    }

    /**
     One refresh. Afterwards the hash, the rows and the entries have the same keys, no key has
     two rows, and rows whose key stays keep their identity.
     */
    method Refresh(entries: seq<E>)
      requires Valid()
      modifies this
      ensures Valid() && nextId >= old(nextId)
      ensures rows == Refreshed(f, old(rows), entries, old(nextId))
      ensures hash.Keys == Keys(rows) == EntryKeys(f, entries)
      ensures forall o | o in old(rows) && o.key in EntryKeys(f, entries) :: Survives(o, rows)
      ensures forall x | x in rows :: OldOrNew(f, x, old(rows), entries, old(nextId))
    {
      RefreshedShape(f, rows, entries, nextId);
      MarkAll();
      AddNew(entries);
      UpdateRows(entries);
      Sweep();
    }
  }

  /** Going past a marked row, or erasing an unmarked one, leaves the outcome of the sweep as it is. */
  lemma SweepStep<D(!new)>(rows: seq<Row<D>>, iter: nat)
    requires iter < |rows|
    ensures
      var erased := rows[..iter] + rows[iter + 1..];
      rows[..iter] + Swept(rows[iter..]) ==
      if rows[iter].updated then rows[..iter + 1] + Swept(rows[iter + 1..])
      else erased[..iter] + Swept(erased[iter..])
  {
    var row, left := rows[iter], rows[iter + 1..];
    assert rows[iter..] == [row] + left && rows[..iter + 1] == rows[..iter] + [row];
    var erased := rows[..iter] + left;
    assert erased[..iter] == rows[..iter] && erased[iter..] == left;
    if row.updated {
      MoveOver(rows[..iter], row, Swept(left));
    } else {
      assert Swept(rows[iter..]) == [] + Swept(left);
    }
  }

  lemma EraseKeepsDistinct<D(!new)>(rows: seq<Row<D>>, i: nat, next: nat)
    requires DistinctKeys(rows) && DistinctIds(rows) && IdsBelow(rows, next) && i < |rows|
    ensures
      var left := rows[..i] + rows[i + 1..];
      DistinctKeys(left) && DistinctIds(left) && IdsBelow(left, next)
  {
    var left := rows[..i] + rows[i + 1..];
    assert forall k | 0 <= k < |left| :: left[k] == rows[if k < i then k else k + 1];
  }

  lemma EraseMembers<D(!new)>(rows: seq<Row<D>>, i: nat)
    requires DistinctKeys(rows) && i < |rows|
    ensures forall r :: r in rows[..i] + rows[i + 1..] <==> r in rows && r.key != rows[i].key
  {
    var left := rows[..i] + rows[i + 1..];
    forall r | r in rows && r.key != rows[i].key
      ensures r in left
    {
      var k :| 0 <= k < |rows| && rows[k] == r;
      assert left[if k < i then k else k - 1] == r;
    }
    forall r | r in left
      ensures r in rows && r.key != rows[i].key
    {
      var k :| 0 <= k < |left| && left[k] == r;
      assert rows[if k < i then k else k + 1] == r;
    }
  }

  lemma EraseKeys<D(!new)>(rows: seq<Row<D>>, i: nat)
    requires DistinctKeys(rows) && i < |rows|
    ensures Keys(rows[..i] + rows[i + 1..]) == Keys(rows) - {rows[i].key}
  {
    EraseMembers(rows, i);
  }

  lemma EraseKeepsHash<D(!new)>(rows: seq<Row<D>>, hash: map<string, nat>, i: nat)
    requires DistinctKeys(rows) && Agrees(hash, rows) && i < |rows|
    ensures Agrees(hash - {rows[i].key}, rows[..i] + rows[i + 1..])
  {
    var left := rows[..i] + rows[i + 1..];
    EraseKeys(rows, i);
    forall k | 0 <= k < |left|
      ensures left[k].key in hash - {rows[i].key} && hash[left[k].key] == left[k].id
    {
      assert left[k] in left;
      assert left[k] == rows[if k < i then k else k + 1];
    }
  }
}
