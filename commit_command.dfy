// The `commit` command: writes every staged completion to the item table in
// one batch update and takes it out of the CompletedSet. It never touches the
// WorkingSet.

module CommitCommand {
  import opened Basics
  import opened Dates
  import opened Tables
  import opened WorkingSets
  import opened CompletedSets

  /** The item after its staged completion: the override pool if one was
      staged, the staged recall date, and one more recall (a Java `int`, so
      the count wraps at 2^31 - 1). */
  function Committed(it: Item, s: Staged): (c: Item)
    ensures c.id == it.id && c.name == it.name && c.link == it.link
    ensures s.pool.None? ==> c.pool == it.pool
    ensures s.pool.Some? ==> c.pool == s.pool.value
    ensures c.lastRecall == s.lastRecall
    ensures IsInt32(it.totalRecalls) && it.totalRecalls < Int32Max ==> c.totalRecalls == it.totalRecalls + 1
  {
    var pool := if s.pool.Some? then s.pool.value else it.pool;
    Item(it.id, it.name, it.link, pool, s.lastRecall, Wrap32(it.totalRecalls + 1))
  }

  /** The fetched rows after their completions, in fetch order. */
  function CommitAll(items: seq<Item>, staged: map<int, Staged>): (r: seq<Item>)
    requires forall i :: 0 <= i < |items| ==> items[i].id in staged
    ensures |r| == |items| && IdsOf(r) == IdsOf(items)
  {
    seq(|items|, i requires 0 <= i < |items| => Committed(items[i], staged[items[i].id]))
  }

  /** Committing one more fetched row appends its completion. */
  lemma CommitAllSnoc(items: seq<Item>, staged: map<int, Staged>, i: nat)
    requires i < |items| && forall j :: 0 <= j < |items| ==> items[j].id in staged
    ensures CommitAll(items[..i + 1], staged) == CommitAll(items[..i], staged) + [Committed(items[i], staged[items[i].id])]
  {
  }

  /** The table a successful commit leaves: every row with a staged entry
      carries its completion, every other row is as it was. */
  function CommitRows(rows: map<int, Item>, staged: map<int, Staged>): (m: map<int, Item>)
    ensures m.Keys == rows.Keys
    ensures forall id :: id in rows && id !in staged ==> m[id] == rows[id]
  {
    map id | id in rows :: if id in staged then Committed(rows[id], staged[id]) else rows[id]
  }

  /** A fetched row's id is one of the staged ids. */
  lemma FetchedAreStaged(rows: map<int, Item>, staged: map<int, Staged>, fetched: seq<Item>)
    requires Elems(IdsOf(fetched)) == staged.Keys * rows.Keys
    ensures forall i :: 0 <= i < |fetched| ==> fetched[i].id in staged
  {
    forall i | 0 <= i < |fetched| ensures fetched[i].id in staged {
      assert IdsOf(fetched)[i] == fetched[i].id;
      assert IdsOf(fetched)[i] in Elems(IdsOf(fetched));
    }
  }

  /** One row of the table after the batch update of the committed rows. */
  lemma UpdateCommittedRow(rows: map<int, Item>, staged: map<int, Staged>, fetched: seq<Item>, id: int)
    requires Elems(IdsOf(fetched)) == staged.Keys * rows.Keys
    requires forall i :: 0 <= i < |fetched| ==> fetched[i].id in rows && fetched[i] == rows[fetched[i].id]
    requires forall i :: 0 <= i < |fetched| ==> fetched[i].id in staged
    requires id in rows
    ensures id in UpdateAll(rows, CommitAll(fetched, staged))
    ensures UpdateAll(rows, CommitAll(fetched, staged))[id] == CommitRows(rows, staged)[id]
  {
    var updated := CommitAll(fetched, staged);
    UpdateAllLookup(rows, updated, id);
    var last := LastWith(updated, id);
    if id in staged {
      assert id in Elems(IdsOf(fetched));
      var j :| 0 <= j < |IdsOf(fetched)| && IdsOf(fetched)[j] == id;
      assert updated[j].id == id;
      var k :| 0 <= k < |updated| && updated[k] == last.value;
      assert fetched[k].id == id;
    } else {
      forall k | 0 <= k < |updated| ensures updated[k].id != id {
        assert IdsOf(fetched)[k] == fetched[k].id;
        assert IdsOf(fetched)[k] in Elems(IdsOf(fetched));
      }
    }
  }

  /** The batch update of the committed rows has exactly the effect
      CommitRows describes, whatever order the rows were fetched in. */
  lemma UpdateCommitted(rows: map<int, Item>, staged: map<int, Staged>, fetched: seq<Item>)
    requires Elems(IdsOf(fetched)) == staged.Keys * rows.Keys
    requires forall i :: 0 <= i < |fetched| ==> fetched[i].id in rows && fetched[i] == rows[fetched[i].id]
    ensures forall i :: 0 <= i < |fetched| ==> fetched[i].id in staged
    ensures UpdateAll(rows, CommitAll(fetched, staged)) == CommitRows(rows, staged)
  {
    FetchedAreStaged(rows, staged, fetched);
    var m, c := UpdateAll(rows, CommitAll(fetched, staged)), CommitRows(rows, staged);
    UpdateAllLookup(rows, CommitAll(fetched, staged), 0);
    forall id | id in rows ensures m[id] == c[id] {
      UpdateCommittedRow(rows, staged, fetched, id);
    }
  }

  /** The refusals of run(): nothing is staged, the staged rows could not be
      fetched, or the WorkingSet is not empty and `--force` is absent. */
  predicate Refused(staged: map<int, Staged>, wsIds: set<int>, force: bool, fetchOk: bool) {
    |staged| == 0 || !fetchOk || (wsIds != {} && !force)
  }

  /** The checks and the fetch before the first change: the rows of the
      staged ids that the table holds, or None when the command is refused. */
  method FetchStaged(force: bool, db: Table, ws: WorkingSet, cs: CompletedSet, fetchOk: bool)
    returns (fetched: Option<seq<Item>>)
    requires db.Valid() && ws.Valid() && cs.Valid()
    ensures fetched.None? <==> Refused(cs.items, ws.ids, force, fetchOk)
    ensures fetched.Some? ==> Distinct(IdsOf(fetched.value))
    ensures fetched.Some? ==> Elems(IdsOf(fetched.value)) == cs.items.Keys * db.rows.Keys
    ensures fetched.Some? ==> forall i :: 0 <= i < |fetched.value| ==>
              fetched.value[i].id in db.rows && fetched.value[i] == db.rows[fetched.value[i].id]
  {
    if |cs.items| == 0 {
      return None;
    }
    var ids := ListIds(cs.items.Keys);
    fetched := db.GetItemsFromList(ids, fetchOk);
    if fetched.None? {
      return None;
    }
    if ws.ids != {} && !force {
      return None;
    }
  }

  /** The ids of the first i fetched rows are the first i ids. */
  lemma IdsOfPrefix(items: seq<Item>, i: nat)
    requires i < |items|
    ensures IdsOf(items[..i + 1]) == IdsOf(items[..i]) + [items[i].id]
    ensures Distinct(IdsOf(items)) ==> items[i].id !in Elems(IdsOf(items[..i]))
  {
    assert IdsOf(items[..i + 1]) == IdsOf(items[..i]) + [items[i].id];
    if Distinct(IdsOf(items)) {
      forall j | 0 <= j < i ensures IdsOf(items[..i])[j] != items[i].id {
        assert IdsOf(items)[j] == IdsOf(items[..i])[j];
        assert IdsOf(items)[i] == items[i].id;
      }
    }
  }

  /** The staged entries left after removing the ids in `ids`, one
      removeItem call each. */
  function Without(m: map<int, Staged>, ids: seq<int>): map<int, Staged> {
    if ids == [] then m else Without(m, ids[..|ids| - 1]) - {ids[|ids| - 1]}
  }

  /** Removing the ids one at a time removes exactly the set of them. */
  lemma {:induction false} WithoutElems(m: map<int, Staged>, ids: seq<int>)
    ensures Without(m, ids) == m - Elems(ids)
  {
    if ids != [] {
      var front, id := ids[..|ids| - 1], ids[|ids| - 1];
      assert ids == front + [id];
      WithoutElems(m, front);
      ElemsSnoc(front, id);
    }
  }

  /** One round of the loop over the fetched rows: the row gets its
      completion and its staged entry is removed from the CompletedSet. */
  method CommitOne(cs: CompletedSet, it: Item) returns (c: Item)
    requires cs.Valid() && it.id in cs.items
    modifies cs
    ensures cs.Valid() && cs.setDate == old(cs.setDate)
    ensures c == Committed(it, old(cs.items)[it.id])
    ensures cs.items == old(cs.items) - {it.id}
  {
    c := Committed(it, cs.items[it.id]);
    var removed := cs.RemoveItem(it.id);
  }

  /** The loop over the fetched rows, in fetch order. */
  method ApplyCompletions(cs: CompletedSet, fetched: seq<Item>) returns (updated: seq<Item>)
    requires cs.Valid() && Distinct(IdsOf(fetched))
    requires forall i :: 0 <= i < |fetched| ==> fetched[i].id in cs.items
    modifies cs
    ensures cs.Valid() && cs.setDate == old(cs.setDate)
    ensures updated == CommitAll(fetched, old(cs.items))
    ensures cs.items == old(cs.items) - Elems(IdsOf(fetched))
  {
    ghost var staged0 := cs.items;
    updated := [];
    var i := 0;
    while i < |fetched|
      invariant 0 <= i <= |fetched|
      invariant cs.Valid() && cs.setDate == old(cs.setDate)
      invariant updated == CommitAll(fetched[..i], staged0)
      invariant cs.items == Without(staged0, IdsOf(fetched[..i]))
    {
      IdsOfPrefix(fetched, i);
      CommitAllSnoc(fetched, staged0, i);
      WithoutElems(staged0, IdsOf(fetched[..i]));
      var c := CommitOne(cs, fetched[i]);
      updated := updated + [c];
      assert IdsOf(fetched[..i + 1])[..i] == IdsOf(fetched[..i]);
      i := i + 1;
    }
    assert fetched[..i] == fetched;
    WithoutElems(staged0, IdsOf(fetched));
  }

  /** The completions and the single batch update. On success the table holds
      the committed rows; either way the staged entries of the fetched rows
      are gone from the CompletedSet. */
  method ApplyAndUpdate(db: Table, cs: CompletedSet, fetched: seq<Item>, updateOk: bool) returns (ok: bool)
    requires db.Valid() && cs.Valid() && Distinct(IdsOf(fetched))
    requires Elems(IdsOf(fetched)) == cs.items.Keys * db.rows.Keys
    requires forall i :: 0 <= i < |fetched| ==> fetched[i].id in db.rows && fetched[i] == db.rows[fetched[i].id]
    modifies db, cs
    ensures db.Valid() && cs.Valid() && cs.setDate == old(cs.setDate)
    ensures ok == updateOk
    ensures db.rows == if ok then CommitRows(old(db.rows), old(cs.items)) else old(db.rows)
    ensures cs.items == old(cs.items) - old(db.rows).Keys
  {
    UpdateCommitted(db.rows, cs.items, fetched);
    ghost var staged0 := cs.items;
    var updated := ApplyCompletions(cs, fetched);
    assert staged0 - Elems(IdsOf(fetched)) == staged0 - old(db.rows).Keys;
    ok := db.UpdateItemsBatch(updated, updateOk);
  }

  /** Offering the entries of the ids in `order` to a CompletedSet holding
      `m`, one addItem call each: an id already staged keeps its entry. */
  function OfferEach(m: map<int, Staged>, entries: map<int, Staged>, order: seq<int>): map<int, Staged> {
    if order == [] then m
    else
      var p := OfferEach(m, entries, order[..|order| - 1]);
      var id := order[|order| - 1];
      if id in p || id !in entries then p else p[id := entries[id]]
  }

  /** Offering entries never overwrites: the result is the offered entries
      with every entry already staged laid over them. */
  lemma {:induction false} OfferEachMerges(m: map<int, Staged>, entries: map<int, Staged>, order: seq<int>)
    ensures OfferEach(m, entries, order) == (entries - (entries.Keys - Elems(order))) + m
  {
    if order != [] {
      var front, id := order[..|order| - 1], order[|order| - 1];
      assert order == front + [id];
      OfferEachMerges(m, entries, front);
      ElemsSnoc(front, id);
    }
  }

  /** Offering every entry, in any order, merges them all under `m`. */
  lemma OfferEachAll(m: map<int, Staged>, entries: map<int, Staged>, order: seq<int>)
    requires Elems(order) == entries.Keys
    ensures OfferEach(m, entries, order) == entries + m
  {
    OfferEachMerges(m, entries, order);
    assert entries - (entries.Keys - Elems(order)) == entries;
  }

  /** Offering one more id extends the fold by one step. */
  lemma OfferEachSnoc(m: map<int, Staged>, entries: map<int, Staged>, order: seq<int>, id: int)
    ensures Elems(order + [id]) == Elems(order) + {id}
    ensures var p := OfferEach(m, entries, order);
            OfferEach(m, entries, order + [id]) == if id in p || id !in entries then p else p[id := entries[id]]
  {
    assert (order + [id])[..|order|] == order;
    ElemsSnoc(order, id);
  }

  /** One round of the rollback loop: addItem(id, pool, date). */
  method OfferOne(cs: CompletedSet, id: int, s: Staged)
    requires cs.Valid() && IsInt32(id) && ValidDate(s.lastRecall)
    modifies cs
    ensures cs.Valid() && cs.setDate == old(cs.setDate)
    ensures cs.items == if id in old(cs.items) then old(cs.items) else old(cs.items)[id := s]
  {
    var added := cs.AddItem(id, s.pool, s.lastRecall);
  }

  /** The rollback loop: addItem(key, pool, date) for every entry of
      `entries`, in the map's iteration order. */
  method Restage(cs: CompletedSet, entries: map<int, Staged>)
    requires cs.Valid() && Storable(entries)
    modifies cs
    ensures cs.Valid() && cs.setDate == old(cs.setDate)
    ensures cs.items == entries + old(cs.items)
  {
    ghost var m0 := cs.items;
    ghost var order: seq<int> := [];
    var rest := entries.Keys;
    while rest != {}
      invariant cs.Valid() && cs.setDate == old(cs.setDate)
      invariant rest + Elems(order) == entries.Keys
      invariant cs.items == OfferEach(m0, entries, order)
      decreases |rest|
    {
      NonEmptyHasElement(rest);
      var id :| id in rest;
      OfferOne(cs, id, entries[id]);
      OfferEachSnoc(m0, entries, order, id);
      order := order + [id];
      rest := rest - {id};
    }
    OfferEachAll(m0, entries, order);
  }

  /** The batch and the rollback as written: the entries re-offered are
      those of `getItems()` after the loop. */
  method UpdateOrRestageLive(db: Table, cs: CompletedSet, fetched: seq<Item>, updateOk: bool) returns (ok: bool)
    requires db.Valid() && cs.Valid() && Distinct(IdsOf(fetched))
    requires Elems(IdsOf(fetched)) == cs.items.Keys * db.rows.Keys
    requires forall i :: 0 <= i < |fetched| ==> fetched[i].id in db.rows && fetched[i] == db.rows[fetched[i].id]
    modifies db, cs
    ensures db.Valid() && cs.Valid()
    ensures ok == updateOk
    ensures db.rows == if ok then CommitRows(old(db.rows), old(cs.items)) else old(db.rows)
    ensures cs.items == old(cs.items) - old(db.rows).Keys
  {
    ok := ApplyAndUpdate(db, cs, fetched, updateOk);
    if !ok {
      Restage(cs, cs.items);
    }
  }

  /** The batch and the rollback from a copy taken before the loop. */
  method UpdateOrRestageCopy(db: Table, cs: CompletedSet, fetched: seq<Item>, updateOk: bool) returns (ok: bool)
    requires db.Valid() && cs.Valid() && Distinct(IdsOf(fetched))
    requires Elems(IdsOf(fetched)) == cs.items.Keys * db.rows.Keys
    requires forall i :: 0 <= i < |fetched| ==> fetched[i].id in db.rows && fetched[i] == db.rows[fetched[i].id]
    modifies db, cs
    ensures db.Valid() && cs.Valid()
    ensures ok == updateOk
    ensures ok ==> db.rows == CommitRows(old(db.rows), old(cs.items)) && cs.items == old(cs.items) - old(db.rows).Keys
    ensures !ok ==> db.rows == old(db.rows) && cs.items == old(cs.items)
  {
    var snapshot := cs.items;
    ok := ApplyAndUpdate(db, cs, fetched, updateOk);
    if !ok {
      Restage(cs, snapshot);
      RestageCopyRestores(snapshot, old(db.rows));
    }
  }

  /** run() as written: on a failed batch it re-offers the entries of
      `getItems()`, which is the CompletedSet's own map and has already lost
      the entries of every fetched row, so nothing comes back; it then returns
      normally, so the command exits 0 even though the batch failed. */
  method RunAsWritten(force: bool, db: Table, ws: WorkingSet, cs: CompletedSet, fetchOk: bool, updateOk: bool)
    returns (r: ExitCode)
    requires db.Valid() && ws.Valid() && cs.Valid()
    modifies db, cs
    ensures db.Valid() && cs.Valid()
    ensures r != Fail
    ensures r == Rejected <==> Refused(old(cs.items), ws.ids, force, fetchOk)
    ensures r == Rejected ==> db.rows == old(db.rows) && cs.items == old(cs.items)
    ensures r == Ok ==> cs.items == old(cs.items) - old(db.rows).Keys
    ensures r == Ok ==> db.rows == if updateOk then CommitRows(old(db.rows), old(cs.items)) else old(db.rows)
  {
    var fetched := FetchStaged(force, db, ws, cs, fetchOk);
    if fetched.None? {
      return Rejected;
    }
    var ok := UpdateOrRestageLive(db, cs, fetched.value, updateOk);
    r := Ok;
  }

  /** run() with the rollback the comment beside it describes: the entries
      are re-offered from a copy taken before the loop, so a failed batch
      leaves both the table and the CompletedSet as they were, and it ends
      the command with exit 1 (the code as written returns normally, exit 0). */
  method Run(force: bool, db: Table, ws: WorkingSet, cs: CompletedSet, fetchOk: bool, updateOk: bool)
    returns (r: ExitCode)
    requires db.Valid() && ws.Valid() && cs.Valid()
    modifies db, cs
    ensures db.Valid() && cs.Valid()
    ensures r == Rejected <==> Refused(old(cs.items), ws.ids, force, fetchOk)
    ensures r == Fail <==> !Refused(old(cs.items), ws.ids, force, fetchOk) && !updateOk
    ensures r != Ok ==> db.rows == old(db.rows) && cs.items == old(cs.items)
    ensures r == Ok ==>
      db.rows == CommitRows(old(db.rows), old(cs.items)) && cs.items == old(cs.items) - old(db.rows).Keys
  {
    var fetched := FetchStaged(force, db, ws, cs, fetchOk);
    if fetched.None? {
      return Rejected;
    }
    var ok := UpdateOrRestageCopy(db, cs, fetched.value, updateOk);
    r := if ok then Ok else Fail;
  }

  /** Whenever a staged id has a row, the rollback as written does not bring
      the CompletedSet back: re-offering what is left restores nothing. */
  lemma RestageAsWrittenLoses(staged: map<int, Staged>, rows: map<int, Item>)
    requires staged.Keys * rows.Keys != {}
    ensures var left := staged - rows.Keys; left + left != staged
  {
    NonEmptyHasElement(staged.Keys * rows.Keys);
    var id :| id in staged.Keys * rows.Keys;
    var left := staged - rows.Keys;
    assert id !in left + left;
  }

  /** Re-offering the copy taken before the loop restores every entry. */
  lemma RestageCopyRestores(staged: map<int, Staged>, rows: map<int, Item>)
    ensures staged + (staged - rows.Keys) == staged
  {
    var left := staged - rows.Keys;
    assert forall id :: id in staged + left ==> id in staged && (staged + left)[id] == staged[id];
  }
}
