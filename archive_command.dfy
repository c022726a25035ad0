// The `archive` command: moves items between the item table and the archive
// table, one id at a time (`--add`, `--restore`) or all at once (`--all`,
// `--restore-all`), deletes archived items (`--delete`) and shows the archive
// (`--list`, `--id`, `--name`). A move is an insert into one table followed by
// a delete from the other; when the delete fails, the insert is undone by a
// delete, and when that fails too the id is left in both tables.

module ArchiveCommand {
  import opened Basics
  import opened Tables
  import opened WorkingSets
  import opened CompletedSets

  /** The options of the command; a Java `Integer` or `String` option that
      was not given is None. */
  datatype Flags = Flags(addId: Option<int>, deleteId: Option<int>, restoreId: Option<int>,
                         listAll: bool, getId: Option<int>, nameQuery: Option<string>,
                         sure: bool, archiveAll: bool, restoreAll: bool)

  /** The operations, one per option. */
  datatype Op = Add(id: int) | Delete(id: int) | Restore(id: int) | List | Get(id: int)
              | Search(query: string) | ArchiveAll | RestoreAll

  /** The operations the flags ask for, in the order call() tests them. */
  function Requested(f: Flags): seq<Op> {
    (if f.addId.Some? then [Add(f.addId.value)] else [])
    + (if f.deleteId.Some? then [Delete(f.deleteId.value)] else [])
    + (if f.restoreId.Some? then [Restore(f.restoreId.value)] else [])
    + (if f.listAll then [List] else [])
    + (if f.getId.Some? then [Get(f.getId.value)] else [])
    + (if f.nameQuery.Some? then [Search(f.nameQuery.value)] else [])
    + (if f.archiveAll then [ArchiveAll] else [])
    + (if f.restoreAll then [RestoreAll] else [])
  }

  /** One for an operation that is given, zero otherwise. */
  function Given(b: bool): nat {
    if b then 1 else 0
  }

  /** The number of operations given is the length of the requested list. */
  lemma RequestedCount(f: Flags)
    ensures |Requested(f)| == Given(f.addId.Some?) + Given(f.deleteId.Some?) + Given(f.restoreId.Some?)
      + Given(f.listAll) + Given(f.getId.Some?) + Given(f.nameQuery.Some?) + Given(f.archiveAll) + Given(f.restoreAll)
  {
  }

  /** validateSingleOperation(): one increment per operation given. */
  method CountOps(f: Flags) returns (ops: int)
    ensures ops == |Requested(f)|
  {
    RequestedCount(f);
    ops := 0;
    if f.addId.Some? { ops := ops + 1; }
    if f.deleteId.Some? { ops := ops + 1; }
    if f.restoreId.Some? { ops := ops + 1; }
    if f.listAll { ops := ops + 1; }
    if f.getId.Some? { ops := ops + 1; }
    if f.nameQuery.Some? { ops := ops + 1; }
    if f.archiveAll { ops := ops + 1; }
    if f.restoreAll { ops := ops + 1; }
  }

  /** validateSingleOperation() and the dispatch of call(): exactly one
      operation must be given, and it is the one that runs; none or several
      are refused. */
  method SelectOperation(f: Flags) returns (op: Option<Op>)
    ensures op.None? <==> |Requested(f)| != 1
    ensures op.Some? ==> Requested(f) == [op.value]
  {
    var ops := CountOps(f);
    if ops != 1 {
      return None;
    }
    if f.addId.Some? {
      op := Some(Add(f.addId.value));
    } else if f.deleteId.Some? {
      op := Some(Delete(f.deleteId.value));
    } else if f.restoreId.Some? {
      op := Some(Restore(f.restoreId.value));
    } else if f.listAll {
      op := Some(List);
    } else if f.getId.Some? {
      op := Some(Get(f.getId.value));
    } else if f.nameQuery.Some? {
      op := Some(Search(f.nameQuery.value));
    } else if f.archiveAll {
      op := Some(ArchiveAll);
    } else {
      op := Some(RestoreAll);
    }
  }

  /** No id has a row in both tables. */
  predicate Apart(db: map<int, Item>, archive: map<int, Item>) {
    db.Keys !! archive.Keys
  }

  /** handleAdd: moves a table row into the archive. The id must have a row
      (`lookupOk` is the outcome of that lookup) and be in neither set. Then
      the row is fetched (`fetchOk`), inserted into the archive (`insertOk`)
      and deleted from the table (`deleteOk`); a failed delete is undone by an
      archive delete (`undoOk`). */
  method HandleAdd(itemId: int, db: Table, ar: Table, ws: WorkingSet, cs: CompletedSet,
                   lookupOk: bool, fetchOk: bool, insertOk: bool, deleteOk: bool, undoOk: bool)
    returns (r: ExitCode)
    requires db.Valid() && ar.Valid() && db != ar
    modifies db, ar
    ensures db.Valid() && ar.Valid()
    ensures r == Rejected <==> !(lookupOk && itemId in old(db.rows)) || itemId in ws.ids || itemId in cs.items
    ensures r == Ok <==> r != Rejected && fetchOk && insertOk && itemId !in old(ar.rows) && deleteOk
    // A move: the row leaves the table and arrives in the archive unchanged.
    ensures r == Ok ==> db.rows == old(db.rows) - {itemId} && ar.rows == old(ar.rows)[itemId := old(db.rows)[itemId]]
    ensures r != Ok ==> db.rows == old(db.rows)
    ensures r == Rejected ==> ar.rows == old(ar.rows)
    // A failed move leaves the archive as it was, unless the undo failed too.
    ensures r == Fail ==>
      itemId in old(db.rows)
      && ar.rows == (if fetchOk && insertOk && itemId !in old(ar.rows) && !deleteOk && !undoOk
                     then old(ar.rows)[itemId := old(db.rows)[itemId]] else old(ar.rows))
    ensures Apart(old(db.rows), old(ar.rows)) && !(r == Fail && !undoOk) ==> Apart(db.rows, ar.rows)
  {
    var found := db.Contains(itemId, lookupOk);
    if !found {
      return Rejected;
    }
    if itemId in ws.ids || itemId in cs.items {
      return Rejected;
    }
    var item := if fetchOk then db.GetItemById(itemId) else None;
    if item.None? {
      return Fail;
    }
    var inserted := ar.InsertItem(item.value, insertOk);
    if !inserted {
      return Fail;
    }
    var deleted := db.DeleteItemsById(itemId, deleteOk);
    if !deleted {
      var undone := ar.DeleteItemsById(itemId, undoOk);
      return Fail;
    }
    r := Ok;
  }

  /** handleDelete: removes a row from the archive; `--sure` and an archived
      id (`lookupOk` is the outcome of that lookup) are required. The item
      table and the sets are not touched. */
  method HandleDelete(itemId: int, sure: bool, ar: Table, lookupOk: bool, deleteOk: bool)
    returns (r: ExitCode)
    requires ar.Valid()
    modifies ar
    ensures ar.Valid()
    ensures r == Rejected <==> !sure || !(lookupOk && itemId in old(ar.rows))
    ensures r == Ok <==> r != Rejected && deleteOk
    ensures ar.rows == if r == Ok then old(ar.rows) - {itemId} else old(ar.rows)
  {
    if !sure {
      return Rejected;
    }
    var found := ar.Contains(itemId, lookupOk);
    if !found {
      return Rejected;
    }
    var deleted := ar.DeleteItemsById(itemId, deleteOk);
    r := if deleted then Ok else Fail;
  }

  /** handleRestore: moves an archived row back into the item table. The id
      must be archived (`arLookupOk`) and not have a table row (`dbLookupOk`;
      a failed lookup reads as absent). Then the row is fetched (`fetchOk`),
      inserted into the table (`insertOk`) and deleted from the archive
      (`deleteOk`); a failed delete is undone by a table delete (`undoOk`). */
  method HandleRestore(itemId: int, db: Table, ar: Table, arLookupOk: bool, dbLookupOk: bool,
                       fetchOk: bool, insertOk: bool, deleteOk: bool, undoOk: bool)
    returns (r: ExitCode)
    requires db.Valid() && ar.Valid() && db != ar
    modifies db, ar
    ensures db.Valid() && ar.Valid()
    ensures r == Rejected <==> !(arLookupOk && itemId in old(ar.rows)) || (dbLookupOk && itemId in old(db.rows))
    ensures r == Ok <==> r != Rejected && fetchOk && insertOk && itemId !in old(db.rows) && deleteOk
    ensures r == Ok ==> ar.rows == old(ar.rows) - {itemId} && db.rows == old(db.rows)[itemId := old(ar.rows)[itemId]]
    ensures r != Ok ==> ar.rows == old(ar.rows)
    ensures r == Rejected ==> db.rows == old(db.rows)
    ensures r == Fail ==>
      itemId in old(ar.rows)
      && db.rows == (if fetchOk && insertOk && itemId !in old(db.rows) && !deleteOk && !undoOk
                     then old(db.rows)[itemId := old(ar.rows)[itemId]] else old(db.rows))
    ensures Apart(old(db.rows), old(ar.rows)) && !(r == Fail && !undoOk) ==> Apart(db.rows, ar.rows)
  {
    var archived := ar.Contains(itemId, arLookupOk);
    if !archived {
      return Rejected;
    }
    var present := db.Contains(itemId, dbLookupOk);
    if present {
      return Rejected;
    }
    var item := if fetchOk then ar.GetItemById(itemId) else None;
    if item.None? {
      return Fail;
    }
    var inserted := db.InsertItem(item.value, insertOk);
    if !inserted {
      return Fail;
    }
    var deleted := ar.DeleteItemsById(itemId, deleteOk);
    if !deleted {
      var undone := db.DeleteItemsById(itemId, undoOk);
      return Fail;
    }
    r := Ok;
  }

  // ---------------------------------------------------------------------------
  // --all: every table row that is in neither set moves to the archive.

  lemma IdsOfSnoc(items: seq<Item>, it: Item)
    ensures IdsOf(items + [it]) == IdsOf(items) + [it.id]
  {
  }

  /** Splits a distinct list of ids at its last element: the front is
      distinct and does not hold the last id. */
  lemma DistinctFront(ids: seq<int>)
    requires ids != [] && Distinct(ids)
    ensures Distinct(ids[..|ids| - 1]) && ids[|ids| - 1] !in Elems(ids[..|ids| - 1])
    ensures Elems(ids) == Elems(ids[..|ids| - 1]) + {ids[|ids| - 1]}
  {
    assert ids == ids[..|ids| - 1] + [ids[|ids| - 1]];
    ElemsSnoc(ids[..|ids| - 1], ids[|ids| - 1]);
  }

  /** The rows the loop of handleArchiveAll keeps: those whose id is in
      neither set (`skip`), in list order. */
  function Eligible(items: seq<Item>, skip: set<int>): seq<Item> {
    if items == [] then []
    else
      var front := Eligible(items[..|items| - 1], skip);
      var it := items[|items| - 1];
      if it.id in skip then front else front + [it]
  }

  /** An item is kept exactly when it is listed and its id is not skipped. */
  lemma {:induction false} EligibleMember(items: seq<Item>, skip: set<int>, it: Item)
    ensures it in Eligible(items, skip) <==> it in items && it.id !in skip
  {
    if items != [] {
      var front := items[..|items| - 1];
      assert items == front + [items[|items| - 1]];
      EligibleMember(front, skip, it);
    }
  }

  /** From a list with distinct ids the kept items have distinct ids too, and
      their ids are the listed ids outside `skip`. */
  lemma {:induction false} EligibleIds(items: seq<Item>, skip: set<int>)
    requires Distinct(IdsOf(items))
    ensures Distinct(IdsOf(Eligible(items, skip)))
    ensures Elems(IdsOf(Eligible(items, skip))) == Elems(IdsOf(items)) - skip
  {
    if items != [] {
      var front, it := items[..|items| - 1], items[|items| - 1];
      assert items == front + [it];
      IdsOfSnoc(front, it);
      DistinctFront(IdsOf(items));
      assert IdsOf(items)[..|items| - 1] == IdsOf(front);
      EligibleIds(front, skip);
      var kept := Eligible(front, skip);
      if it.id !in skip {
        IdsOfSnoc(kept, it);
        ElemsSnoc(IdsOf(kept), it.id);
        DistinctSnoc(IdsOf(kept), it.id);
      }
    }
  }

  /** The loop of handleArchiveAll that skips the ids of either set. */
  method CollectEligible(items: seq<Item>, ws: WorkingSet, cs: CompletedSet) returns (toArchive: seq<Item>)
    ensures toArchive == Eligible(items, ws.ids + cs.items.Keys)
  {
    toArchive := [];
    var i := 0;
    while i < |items|
      invariant 0 <= i <= |items|
      invariant toArchive == Eligible(items[..i], ws.ids + cs.items.Keys)
    {
      assert items[..i + 1][..i] == items[..i];
      var item := items[i];
      if !(item.id in ws.ids || item.id in cs.items) {
        toArchive := toArchive + [item];
      }
      i := i + 1;
    }
    assert items[..i] == items;
  }

  /** A batch is fresh exactly when its ids are distinct and none is taken. */
  lemma FreshBatchIds(rows: map<int, Item>, items: seq<Item>)
    ensures FreshBatch(rows, items) <==> Distinct(IdsOf(items)) && Elems(IdsOf(items)) !! rows.Keys
  {
    forall i | 0 <= i < |items| ensures IdsOf(items)[i] == items[i].id && IdsOf(items)[i] in Elems(IdsOf(items)) {
    }
  }

  /** The rows of `rows` whose ids are in `ids`. */
  function Restrict(rows: map<int, Item>, ids: set<int>): (r: map<int, Item>)
    ensures r.Keys == rows.Keys * ids
  {
    map id | id in rows && id in ids :: rows[id]
  }

  /** A committed insert of fresh rows copied from `source` adds exactly
      those rows. */
  lemma FreshCopyAdds(rows: map<int, Item>, source: map<int, Item>, items: seq<Item>)
    requires FreshBatch(rows, items)
    requires forall i :: 0 <= i < |items| ==> items[i].id in source && items[i] == source[items[i].id]
    ensures UpsertAll(rows, items) == rows + Restrict(source, Elems(IdsOf(items)))
  {
    var m, want := UpsertAll(rows, items), rows + Restrict(source, Elems(IdsOf(items)));
    forall id | id in m || id in want ensures id in m && id in want && m[id] == want[id] {
      UpsertAllLookup(rows, items, id);
      var last := LastWith(items, id);
      if last.Some? {
        var i :| 0 <= i < |items| && items[i] == last.value;
        assert IdsOf(items)[i] == id;
      } else {
        forall i | 0 <= i < |items| ensures IdsOf(items)[i] != id {
        }
      }
    }
  }

  /** The ids of `ids` whose table delete goes through. */
  function Moved(ids: set<int>, dbOk: int -> bool): set<int> {
    set id | id in ids && dbOk(id)
  }

  /** The ids of `ids` whose table delete fails and whose archive row is then
      deleted again. */
  function Undone(ids: set<int>, dbOk: int -> bool, undoOk: int -> bool): set<int> {
    set id | id in ids && !dbOk(id) && undoOk(id)
  }

  /** The delete loop of handleArchiveAll over `ids`, from the tables `db`
      and `ar`: each table row is deleted (`dbOk`), and when that does not
      report a deleted row its archive row is deleted again (`undoOk`). */
  function ArchiveDeletes(db: map<int, Item>, ar: map<int, Item>, ids: seq<int>,
                          dbOk: int -> bool, undoOk: int -> bool): (map<int, Item>, map<int, Item>)
  {
    if ids == [] then (db, ar)
    else
      var t := ArchiveDeletes(db, ar, ids[..|ids| - 1], dbOk, undoOk);
      var id := ids[|ids| - 1];
      var deleted := dbOk(id) && id in t.0;
      (if dbOk(id) then t.0 - {id} else t.0, if deleted || !undoOk(id) then t.1 else t.1 - {id})
  }

  /** Over distinct ids of table rows, the loop deletes the rows whose delete
      goes through and removes from the archive the ids undone. */
  lemma {:induction false} ArchiveDeletesSpec(db: map<int, Item>, ar: map<int, Item>, ids: seq<int>,
                                               dbOk: int -> bool, undoOk: int -> bool)
    requires Distinct(ids) && Elems(ids) <= db.Keys
    ensures ArchiveDeletes(db, ar, ids, dbOk, undoOk)
         == (db - Moved(Elems(ids), dbOk), ar - Undone(Elems(ids), dbOk, undoOk))
  {
    if ids != [] {
      var front, id := ids[..|ids| - 1], ids[|ids| - 1];
      DistinctFront(ids);
      ArchiveDeletesSpec(db, ar, front, dbOk, undoOk);
      var e := Elems(front);
      var t := ArchiveDeletes(db, ar, front, dbOk, undoOk);
      assert id in t.0;
      if dbOk(id) {
        assert Moved(Elems(ids), dbOk) == Moved(e, dbOk) + {id};
        assert Undone(Elems(ids), dbOk, undoOk) == Undone(e, dbOk, undoOk);
        assert t.0 - {id} == db - Moved(Elems(ids), dbOk);
      } else if undoOk(id) {
        assert Moved(Elems(ids), dbOk) == Moved(e, dbOk);
        assert Undone(Elems(ids), dbOk, undoOk) == Undone(e, dbOk, undoOk) + {id};
        assert t.1 - {id} == ar - Undone(Elems(ids), dbOk, undoOk);
      } else {
        assert Moved(Elems(ids), dbOk) == Moved(e, dbOk);
        assert Undone(Elems(ids), dbOk, undoOk) == Undone(e, dbOk, undoOk);
      }
    } else {
      assert Elems(ids) == {};
      assert db - Moved({}, dbOk) == db && ar - Undone({}, dbOk, undoOk) == ar;
    }
  }

  /** The delete loop of handleArchiveAll. */
  method DeleteArchived(db: Table, ar: Table, items: seq<Item>, dbOk: int -> bool, undoOk: int -> bool)
    requires db.Valid() && ar.Valid() && db != ar
    modifies db, ar
    ensures db.Valid() && ar.Valid()
    ensures (db.rows, ar.rows) == ArchiveDeletes(old(db.rows), old(ar.rows), IdsOf(items), dbOk, undoOk)
  {
    var i := 0;
    while i < |items|
      invariant 0 <= i <= |items| && db.Valid() && ar.Valid()
      invariant (db.rows, ar.rows) == ArchiveDeletes(old(db.rows), old(ar.rows), IdsOf(items)[..i], dbOk, undoOk)
    {
      var id := items[i].id;
      assert IdsOf(items)[..i + 1][..i] == IdsOf(items)[..i] && IdsOf(items)[i] == id;
      var deleted := db.DeleteItemsById(id, dbOk(id));
      if !deleted {
        var undone := ar.DeleteItemsById(id, undoOk(id));
      }
      i := i + 1;
    }
    assert IdsOf(items)[..i] == IdsOf(items);
  }

  /** The write half of handleArchiveAll: one insert batch of `items`
      (`insertOk`), and after a commit the delete loop. Nothing changes when
      the batch does not commit. */
  method MoveAll(db: Table, ar: Table, items: seq<Item>, insertOk: bool, dbOk: int -> bool, undoOk: int -> bool)
    returns (committed: bool)
    requires db.Valid() && ar.Valid() && db != ar
    requires Distinct(IdsOf(items))
    requires forall i :: 0 <= i < |items| ==> items[i].id in db.rows && items[i] == db.rows[items[i].id]
    modifies db, ar
    ensures db.Valid() && ar.Valid()
    ensures committed <==> insertOk && Elems(IdsOf(items)) !! old(ar.rows).Keys
    ensures !committed ==> db.rows == old(db.rows) && ar.rows == old(ar.rows)
    ensures committed ==>
      var e := Elems(IdsOf(items));
      db.rows == old(db.rows) - Moved(e, dbOk)
      && ar.rows == (old(ar.rows) + Restrict(old(db.rows), e)) - Undone(e, dbOk, undoOk)
  {
    FreshBatchIds(ar.rows, items);
    var outcome := ar.InsertItemsBatch(items, insertOk);
    committed := outcome == Committed;
    if !committed {
      return;
    }
    ghost var e := Elems(IdsOf(items));
    forall id | id in e ensures id in db.rows {
      var i :| 0 <= i < |IdsOf(items)| && IdsOf(items)[i] == id;
      assert items[i].id == id;
    }
    FreshCopyAdds(old(ar.rows), db.rows, items);
    DeleteArchived(db, ar, items, dbOk, undoOk);
    ArchiveDeletesSpec(old(db.rows), old(ar.rows) + Restrict(old(db.rows), e), IdsOf(items), dbOk, undoOk);
  }

  /** The ids handleArchiveAll moves: the table's ids in neither set. */
  function Archivable(db: map<int, Item>, working: set<int>, completed: set<int>): set<int> {
    db.Keys - working - completed
  }

  /** handleArchiveAll: `--sure` is required. The table's rows outside both
      sets (read with `getAllOk`) are inserted into the archive in one batch
      (`insertOk`), then deleted from the table one by one (`dbDeleteOk`),
      an id whose delete fails being deleted from the archive again
      (`undoOk`). An empty table, no eligible row and a batch that does not
      commit are failures that change nothing. */
  method HandleArchiveAll(sure: bool, db: Table, ar: Table, ws: WorkingSet, cs: CompletedSet,
                          getAllOk: bool, insertOk: bool, dbDeleteOk: int -> bool, undoOk: int -> bool)
    returns (r: ExitCode)
    requires db.Valid() && ar.Valid() && db != ar
    modifies db, ar
    ensures db.Valid() && ar.Valid()
    ensures r == Rejected <==> !sure
    ensures r == Ok <==>
      var e := Archivable(old(db.rows), ws.ids, cs.items.Keys);
      sure && getAllOk && e != {} && insertOk && e !! old(ar.rows).Keys
    ensures r != Ok ==> db.rows == old(db.rows) && ar.rows == old(ar.rows)
    // The eligible rows arrive in the archive; those whose table delete goes
    // through leave the table, and those undone leave the archive again.
    ensures r == Ok ==>
      var e := Archivable(old(db.rows), ws.ids, cs.items.Keys);
      db.rows == old(db.rows) - Moved(e, dbDeleteOk)
      && ar.rows == (old(ar.rows) + Restrict(old(db.rows), e)) - Undone(e, dbDeleteOk, undoOk)
    ensures r == Ok && Apart(old(db.rows), old(ar.rows))
            && (forall id :: id in Archivable(old(db.rows), ws.ids, cs.items.Keys) ==> dbDeleteOk(id) || undoOk(id))
            ==> Apart(db.rows, ar.rows)
  {
    if !sure {
      return Rejected;
    }
    var all := db.GetAllItems(getAllOk);
    var items := if all.Some? then all.value else [];
    if items == [] {
      return Fail;
    }
    ghost var e := Archivable(db.rows, ws.ids, cs.items.Keys);
    var toArchive := CollectEligible(items, ws, cs);
    EligibleIds(items, ws.ids + cs.items.Keys);
    assert Elems(IdsOf(toArchive)) == e;
    if toArchive == [] {
      return Fail;
    }
    assert IdsOf(toArchive)[0] in e;
    forall i | 0 <= i < |toArchive| ensures toArchive[i].id in db.rows && toArchive[i] == db.rows[toArchive[i].id] {
      EligibleMember(items, ws.ids + cs.items.Keys, toArchive[i]);
    }
    var committed := MoveAll(db, ar, toArchive, insertOk, dbDeleteOk, undoOk);
    r := if committed then Ok else Fail;
  }

  // ---------------------------------------------------------------------------
  // --restore-all: every archived row whose id the table lacks moves back.

  /** One pass of the restore loop of handleRestoreAll for the archived row
      `it`, from the tables and restored count in `t`: skipped when the table
      has the id (`lookupOk`) or its insert fails (`insertOk`); otherwise
      counted when its archive delete goes through (`arDeleteOk`), and undone
      by a table delete (`undoOk`) when it does not. */
  function RestoreStep(t: (map<int, Item>, map<int, Item>, int), it: Item,
                       lookupOk: bool, insertOk: bool, arDeleteOk: bool, undoOk: bool)
    : (map<int, Item>, map<int, Item>, int)
  {
    var (db, ar, n) := t;
    if lookupOk && it.id in db then t
    else if !(insertOk && it.id !in db) then t
    else
      var ar' := if arDeleteOk then ar - {it.id} else ar;
      if arDeleteOk && it.id in ar then (db[it.id := it], ar', n + 1)
      else (if undoOk then db[it.id := it] - {it.id} else db[it.id := it], ar', n)
  }

  /** The restore loop over `items`, with the per-id outcomes of each call. */
  function RestoreLoop(db: map<int, Item>, ar: map<int, Item>, items: seq<Item>,
                       lookupOk: int -> bool, insertOk: int -> bool, arDeleteOk: int -> bool, undoOk: int -> bool)
    : (map<int, Item>, map<int, Item>, int)
  {
    if items == [] then (db, ar, 0)
    else
      var it := items[|items| - 1];
      RestoreStep(RestoreLoop(db, ar, items[..|items| - 1], lookupOk, insertOk, arDeleteOk, undoOk), it,
                  lookupOk(it.id), insertOk(it.id), arDeleteOk(it.id), undoOk(it.id))
  }

  /** The ids of `ids` that the table lacks and whose insert and archive
      delete both go through. */
  function Restored(ids: set<int>, db: map<int, Item>, insertOk: int -> bool, arDeleteOk: int -> bool): set<int> {
    set id | id in ids && id !in db && insertOk(id) && arDeleteOk(id)
  }

  /** The ids of `ids` inserted into the table whose archive delete and undo
      both fail: they are left in both tables. */
  function Stranded(ids: set<int>, db: map<int, Item>, insertOk: int -> bool, arDeleteOk: int -> bool,
                    undoOk: int -> bool): set<int>
  {
    set id | id in ids && id !in db && insertOk(id) && !arDeleteOk(id) && !undoOk(id)
  }

  /** Copying one more archived row adds it to the copied rows. */
  lemma RestrictGrows(db: map<int, Item>, ar: map<int, Item>, ks: set<int>, id: int)
    requires id in ar
    ensures (db + Restrict(ar, ks))[id := ar[id]] == db + Restrict(ar, ks + {id})
  {
    var lhs, rhs := (db + Restrict(ar, ks))[id := ar[id]], db + Restrict(ar, ks + {id});
    forall k | k in lhs || k in rhs ensures k in lhs && k in rhs && lhs[k] == rhs[k] {
    }
  }

  lemma RemoveOneMore(ar: map<int, Item>, ks: set<int>, id: int)
    ensures (ar - ks) - {id} == ar - (ks + {id})
  {
    var lhs, rhs := (ar - ks) - {id}, ar - (ks + {id});
    forall k | k in lhs || k in rhs ensures k in lhs && k in rhs && lhs[k] == rhs[k] {
    }
  }

  /** One pass keeps the loop's invariant: from the tables the rows of `done`
      produced, restoring the archived row `it` of a new id gives the tables
      of `done` plus that id. */
  ghost predicate StepKeeps(db: map<int, Item>, ar: map<int, Item>, done: set<int>, it: Item,
                            lookupOk: int -> bool, insertOk: int -> bool, arDeleteOk: int -> bool, undoOk: int -> bool)
  {
    var rf := Restored(done, db, insertOk, arDeleteOk);
    var e := done + {it.id};
    var rs := Restored(e, db, insertOk, arDeleteOk);
    RestoreStep((db + Restrict(ar, rf + Stranded(done, db, insertOk, arDeleteOk, undoOk)), ar - rf, |rf|), it,
                lookupOk(it.id), insertOk(it.id), arDeleteOk(it.id), undoOk(it.id))
    == (db + Restrict(ar, rs + Stranded(e, db, insertOk, arDeleteOk, undoOk)), ar - rs, |rs|)
  }

  /** A row whose id the table has, or whose insert fails, changes nothing;
      an inserted row whose archive delete fails and whose undo goes through
      leaves the tables as they were too. */
  lemma StepLeaves(db: map<int, Item>, ar: map<int, Item>, rf: set<int>, sf: set<int>, it: Item,
                   lookupOk: bool, insertOk: bool, arDeleteOk: bool, undoOk: bool)
    requires it.id !in rf + sf
    requires it.id in db || !insertOk || (!arDeleteOk && undoOk)
    ensures RestoreStep((db + Restrict(ar, rf + sf), ar - rf, |rf|), it, lookupOk, insertOk, arDeleteOk, undoOk)
         == (db + Restrict(ar, rf + sf), ar - rf, |rf|)
  {
    var d := db + Restrict(ar, rf + sf);
    assert it.id in d <==> it.id in db;
    if !(it.id in db || !insertOk) {
      assert d[it.id := it] - {it.id} == d;
    }
  }

  /** A row inserted and deleted from the archive is restored and counted. */
  lemma StepRestores(db: map<int, Item>, ar: map<int, Item>, rf: set<int>, sf: set<int>, it: Item,
                     lookupOk: bool, insertOk: bool, arDeleteOk: bool, undoOk: bool)
    requires it.id !in rf + sf && it.id in ar && it == ar[it.id]
    requires it.id !in db && insertOk && arDeleteOk
    ensures RestoreStep((db + Restrict(ar, rf + sf), ar - rf, |rf|), it, lookupOk, insertOk, arDeleteOk, undoOk)
         == (db + Restrict(ar, (rf + {it.id}) + sf), ar - (rf + {it.id}), |rf + {it.id}|)
  {
    var id := it.id;
    var d, a := db + Restrict(ar, rf + sf), ar - rf;
    assert id !in d && id in a;
    RestrictGrows(db, ar, rf + sf, id);
    assert (rf + {id}) + sf == rf + sf + {id};
    RemoveOneMore(ar, rf, id);
  }

  /** A row inserted whose archive delete and undo both fail stays in both
      tables. */
  lemma StepStrands(db: map<int, Item>, ar: map<int, Item>, rf: set<int>, sf: set<int>, it: Item,
                    lookupOk: bool, insertOk: bool, arDeleteOk: bool, undoOk: bool)
    requires it.id !in rf + sf && it.id in ar && it == ar[it.id]
    requires it.id !in db && insertOk && !arDeleteOk && !undoOk
    ensures RestoreStep((db + Restrict(ar, rf + sf), ar - rf, |rf|), it, lookupOk, insertOk, arDeleteOk, undoOk)
         == (db + Restrict(ar, rf + (sf + {it.id})), ar - rf, |rf|)
  {
    var id := it.id;
    assert id !in db + Restrict(ar, rf + sf);
    RestrictGrows(db, ar, rf + sf, id);
    assert rf + (sf + {id}) == rf + sf + {id};
  }

  lemma RestoreStepSpec(db: map<int, Item>, ar: map<int, Item>, done: set<int>, it: Item,
                        lookupOk: int -> bool, insertOk: int -> bool, arDeleteOk: int -> bool, undoOk: int -> bool)
    requires it.id !in done && it.id in ar && it == ar[it.id]
    ensures StepKeeps(db, ar, done, it, lookupOk, insertOk, arDeleteOk, undoOk)
  {
    var id, e := it.id, done + {it.id};
    var rf, sf := Restored(done, db, insertOk, arDeleteOk), Stranded(done, db, insertOk, arDeleteOk, undoOk);
    var rs, st := Restored(e, db, insertOk, arDeleteOk), Stranded(e, db, insertOk, arDeleteOk, undoOk);
    if id in db || !insertOk(id) || (!arDeleteOk(id) && undoOk(id)) {
      assert rs == rf && st == sf;
      StepLeaves(db, ar, rf, sf, it, lookupOk(id), insertOk(id), arDeleteOk(id), undoOk(id));
    } else if arDeleteOk(id) {
      assert rs == rf + {id} && st == sf;
      StepRestores(db, ar, rf, sf, it, lookupOk(id), insertOk(id), arDeleteOk(id), undoOk(id));
    } else {
      assert rs == rf && st == sf + {id};
      StepStrands(db, ar, rf, sf, it, lookupOk(id), insertOk(id), arDeleteOk(id), undoOk(id));
    }
  }

  /** Over distinct archived rows the loop brings back exactly the restored
      and the stranded rows, removes the restored ones from the archive and
      counts them. */
  lemma {:induction false} RestoreLoopSpec(db: map<int, Item>, ar: map<int, Item>, items: seq<Item>,
                                           lookupOk: int -> bool, insertOk: int -> bool,
                                           arDeleteOk: int -> bool, undoOk: int -> bool)
    requires Distinct(IdsOf(items))
    requires forall i :: 0 <= i < |items| ==> items[i].id in ar && items[i] == ar[items[i].id]
    ensures var e := Elems(IdsOf(items));
      var rs := Restored(e, db, insertOk, arDeleteOk);
      RestoreLoop(db, ar, items, lookupOk, insertOk, arDeleteOk, undoOk)
      == (db + Restrict(ar, rs + Stranded(e, db, insertOk, arDeleteOk, undoOk)), ar - rs, |rs|)
  {
    if items == [] {
      assert Elems(IdsOf(items)) == {};
      assert Restored({}, db, insertOk, arDeleteOk) == {} && Stranded({}, db, insertOk, arDeleteOk, undoOk) == {};
      assert db + Restrict(ar, {}) == db && ar - {} == ar;
    } else {
      var front, it := items[..|items| - 1], items[|items| - 1];
      assert items == front + [it];
      IdsOfSnoc(front, it);
      DistinctFront(IdsOf(items));
      assert IdsOf(items)[..|items| - 1] == IdsOf(front);
      RestoreLoopSpec(db, ar, front, lookupOk, insertOk, arDeleteOk, undoOk);
      RestoreStepSpec(db, ar, Elems(IdsOf(front)), it, lookupOk, insertOk, arDeleteOk, undoOk);
    }
  }

  /** One pass of the restore loop of handleRestoreAll. */
  method RestoreOne(db: Table, ar: Table, it: Item, count: int,
                    lookupOk: bool, insertOk: bool, arDeleteOk: bool, undoOk: bool)
    returns (count': int)
    requires db.Valid() && ar.Valid() && db != ar
    modifies db, ar
    ensures db.Valid() && ar.Valid()
    ensures (db.rows, ar.rows, count') == RestoreStep((old(db.rows), old(ar.rows), count), it, lookupOk, insertOk, arDeleteOk, undoOk)
  {
    count' := count;
    var present := db.Contains(it.id, lookupOk);
    if present {
      return;
    }
    var inserted := db.InsertItem(it, insertOk);
    if !inserted {
      return;
    }
    var deleted := ar.DeleteItemsById(it.id, arDeleteOk);
    if !deleted {
      var undone := db.DeleteItemsById(it.id, undoOk);
      return;
    }
    count' := count + 1;
  }

  /** The restore loop of handleRestoreAll, counting the restored rows. */
  method RestoreEach(db: Table, ar: Table, items: seq<Item>,
                     lookupOk: int -> bool, insertOk: int -> bool, arDeleteOk: int -> bool, undoOk: int -> bool)
    returns (restoredCount: int)
    requires db.Valid() && ar.Valid() && db != ar
    modifies db, ar
    ensures db.Valid() && ar.Valid()
    ensures (db.rows, ar.rows, restoredCount)
         == RestoreLoop(old(db.rows), old(ar.rows), items, lookupOk, insertOk, arDeleteOk, undoOk)
  {
    restoredCount := 0;
    var i := 0;
    while i < |items|
      invariant 0 <= i <= |items| && db.Valid() && ar.Valid()
      invariant (db.rows, ar.rows, restoredCount)
             == RestoreLoop(old(db.rows), old(ar.rows), items[..i], lookupOk, insertOk, arDeleteOk, undoOk)
    {
      assert items[..i + 1][..i] == items[..i];
      var it := items[i];
      restoredCount := RestoreOne(db, ar, it, restoredCount,
                                  lookupOk(it.id), insertOk(it.id), arDeleteOk(it.id), undoOk(it.id));
      i := i + 1;
    }
    assert items[..i] == items;
  }

  /** handleRestoreAll: `--sure` is required. Every archived row (read with
      `getAllOk`) whose id the table lacks is inserted into the table and
      deleted from the archive; an insert that fails skips the row, and an
      archive delete that fails is undone by a table delete. The command
      fails when nothing was restored. */
  method HandleRestoreAll(sure: bool, db: Table, ar: Table, getAllOk: bool, lookupOk: int -> bool,
                          insertOk: int -> bool, arDeleteOk: int -> bool, undoOk: int -> bool)
    returns (r: ExitCode)
    requires db.Valid() && ar.Valid() && db != ar
    modifies db, ar
    ensures db.Valid() && ar.Valid()
    ensures r == Rejected <==> !sure
    ensures r == Ok <==> sure && getAllOk && Restored(old(ar.rows).Keys, old(db.rows), insertOk, arDeleteOk) != {}
    ensures !(sure && getAllOk) ==> db.rows == old(db.rows) && ar.rows == old(ar.rows)
    // Restored rows leave the archive; stranded rows stay in both tables.
    ensures sure && getAllOk ==>
      var rs := Restored(old(ar.rows).Keys, old(db.rows), insertOk, arDeleteOk);
      var st := Stranded(old(ar.rows).Keys, old(db.rows), insertOk, arDeleteOk, undoOk);
      db.rows == old(db.rows) + Restrict(old(ar.rows), rs + st) && ar.rows == old(ar.rows) - rs
    ensures Apart(old(db.rows), old(ar.rows)) && Stranded(old(ar.rows).Keys, old(db.rows), insertOk, arDeleteOk, undoOk) == {}
            ==> Apart(db.rows, ar.rows)
  {
    if !sure {
      return Rejected;
    }
    var all := ar.GetAllItems(getAllOk);
    var items := if all.Some? then all.value else [];
    if all.Some? {
      RestoreLoopSpec(db.rows, ar.rows, items, lookupOk, insertOk, arDeleteOk, undoOk);
    }
    if items == [] {
      return Fail;
    }
    var restoredCount := RestoreEach(db, ar, items, lookupOk, insertOk, arDeleteOk, undoOk);
    if restoredCount == 0 {
      return Fail;
    }
    r := Ok;
  }

  // ---------------------------------------------------------------------------
  // The read-only operations and the dispatch of call().

  /** handleList: every archived row is shown (none when the read fails);
      the command succeeds either way. */
  method HandleList(ar: Table, getAllOk: bool) returns (r: ExitCode, shown: seq<Item>)
    requires ar.Valid()
    ensures r == Ok
    ensures getAllOk ==> Distinct(IdsOf(shown)) && Elems(IdsOf(shown)) == ar.rows.Keys
    ensures !getAllOk ==> shown == []
    ensures forall i :: 0 <= i < |shown| ==> shown[i].id in ar.rows && shown[i] == ar.rows[shown[i].id]
  {
    var list := ar.GetAllItems(getAllOk);
    shown := if list.Some? then list.value else [];
    r := Ok;
  }

  /** handleGet: the archived row of the id, if any, is shown (nothing when
      it is missing) and the command succeeds; a failed read throws out of
      getItemById, which ends the command with exit 1. */
  method HandleGet(itemId: int, ar: Table, fetchOk: bool) returns (r: ExitCode, shown: Option<Item>)
    requires ar.Valid()
    ensures r == (if fetchOk then Ok else Fail)
    ensures shown.Some? <==> fetchOk && itemId in ar.rows
    ensures shown.Some? ==> shown.value == ar.rows[itemId] && shown.value.id == itemId
  {
    if !fetchOk {
      return Fail, None;
    }
    shown := ar.GetItemById(itemId);
    r := Ok;
  }

  /** handleSearch: the archived rows whose name contains the trimmed query,
      ignoring case, are shown (none when the read fails); the command
      succeeds either way. */
  method HandleSearch(query: string, ar: Table, searchOk: bool) returns (r: ExitCode, shown: seq<Item>)
    requires ar.Valid()
    ensures r == Ok
    ensures !searchOk ==> shown == []
    ensures searchOk ==> Distinct(IdsOf(shown))
    ensures searchOk ==>
      forall id :: id in ar.rows ==> (id in Elems(IdsOf(shown)) <==> NameMatches(ar.rows[id].name, Trim(query)))
    ensures forall i :: 0 <= i < |shown| ==> shown[i].id in ar.rows && shown[i] == ar.rows[shown[i].id]
  {
    var list := ar.SearchItemsByName(Trim(query), searchOk);
    shown := if list.Some? then list.value else [];
    r := Ok;
  }

  /** The outcome of every statement call() may run: single results for the
      one-id operations, per-id results for the loops of the mass ones. */
  datatype Outcomes = Outcomes(lookupOk: bool, otherLookupOk: bool, fetchOk: bool, insertOk: bool,
                               deleteOk: bool, undoOk: bool, getAllOk: bool,
                               eachLookupOk: int -> bool, eachInsertOk: int -> bool,
                               eachDeleteOk: int -> bool, eachUndoOk: int -> bool)

  /** call(): the single requested operation runs; none or several are
      refused before anything is read or written. */
  method Call(f: Flags, db: Table, ar: Table, ws: WorkingSet, cs: CompletedSet, o: Outcomes)
    returns (r: ExitCode)
    requires db.Valid() && ar.Valid() && db != ar
    modifies db, ar
    ensures db.Valid() && ar.Valid()
    ensures |Requested(f)| != 1 ==> r == Rejected
    ensures |Requested(f)| != 1 || Requested(f)[0].List? || Requested(f)[0].Get? || Requested(f)[0].Search? ==>
      db.rows == old(db.rows) && ar.rows == old(ar.rows)
    ensures |Requested(f)| == 1 && (Requested(f)[0].List? || Requested(f)[0].Search?) ==> r == Ok
    ensures |Requested(f)| == 1 && Requested(f)[0].Get? ==> (r == Ok <==> o.fetchOk) && (r == Fail <==> !o.fetchOk)
    ensures |Requested(f)| == 1 && Requested(f)[0].Delete? ==> db.rows == old(db.rows)
    ensures |Requested(f)| == 1 && Requested(f)[0].Add? && r == Ok ==>
      var id := Requested(f)[0].id;
      id in old(db.rows) && db.rows == old(db.rows) - {id} && ar.rows == old(ar.rows)[id := old(db.rows)[id]]
    ensures |Requested(f)| == 1 && Requested(f)[0].Restore? && r == Ok ==>
      var id := Requested(f)[0].id;
      id in old(ar.rows) && ar.rows == old(ar.rows) - {id} && db.rows == old(db.rows)[id := old(ar.rows)[id]]
  {
    var op := SelectOperation(f);
    if op.None? {
      return Rejected;
    }
    match op.value
    case Add(id) =>
      r := HandleAdd(id, db, ar, ws, cs, o.lookupOk, o.fetchOk, o.insertOk, o.deleteOk, o.undoOk);
    case Delete(id) =>
      r := HandleDelete(id, f.sure, ar, o.lookupOk, o.deleteOk);
    case Restore(id) =>
      r := HandleRestore(id, db, ar, o.lookupOk, o.otherLookupOk, o.fetchOk, o.insertOk, o.deleteOk, o.undoOk);
    case List =>
      var shown;
      r, shown := HandleList(ar, o.getAllOk);
    case Get(id) =>
      var shown;
      r, shown := HandleGet(id, ar, o.fetchOk);
    case Search(query) =>
      var shown;
      r, shown := HandleSearch(query, ar, o.getAllOk);
    case ArchiveAll =>
      r := HandleArchiveAll(f.sure, db, ar, ws, cs, o.getAllOk, o.insertOk, o.eachDeleteOk, o.eachUndoOk);
    case RestoreAll =>
      r := HandleRestoreAll(f.sure, db, ar, o.getAllOk, o.eachLookupOk, o.eachInsertOk, o.eachDeleteOk, o.eachUndoOk);
  }
}
