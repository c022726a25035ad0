// The `delete` command: removes an id from the WorkingSet (default), from the
// CompletedSet (`--completed`) or from the item table and both sets
// (`--database`), or wipes the item table and both sets (`--hard-reset`).
// The archive is never touched.

module DeleteCommand {
  import opened Basics
  import opened Tables
  import opened WorkingSets
  import opened CompletedSets

  /** The requests run() refuses: no `--sure`, id 0 without `--hard-reset`, a
      negative id, or a set-only removal of an id the set does not hold. */
  predicate Refused(itemId: int, completed: bool, database: bool, sure: bool, reset: bool,
                    wsIds: set<int>, staged: map<int, Staged>)
  {
    !sure
    || (itemId == 0 && !reset)
    || itemId < 0
    || (itemId > 0 && !database && completed && itemId !in staged)
    || (itemId > 0 && !database && !completed && itemId !in wsIds)
  }

  /** run(). `clearOk` is the outcome of the table clear and `deleteOk` that
      of the row delete; the two sets report failure only through I/O
      exceptions, which are not modelled. */
  method Run(itemId: int, completed: bool, database: bool, sure: bool, reset: bool,
             db: Table, ws: WorkingSet, cs: CompletedSet, clearOk: bool, deleteOk: bool)
    returns (r: ExitCode)
    requires db.Valid() && ws.Valid() && cs.Valid() && IsInt32(itemId)
    modifies db, ws, cs
    ensures db.Valid() && ws.Valid() && cs.Valid()
    ensures r == Rejected <==> Refused(itemId, completed, database, sure, reset, old(ws.ids), old(cs.items))
    ensures r != Rejected ==> r == Ok
    ensures r == Rejected ==> db.rows == old(db.rows) && ws.ids == old(ws.ids) && cs.items == old(cs.items)
    // --hard-reset: table, then CompletedSet, then WorkingSet, short-circuited.
    ensures r == Ok && itemId == 0 ==>
      db.rows == (if clearOk then map[] else old(db.rows))
      && cs.items == (if clearOk then map[] else old(cs.items))
      && ws.ids == (if clearOk then {} else old(ws.ids))
    // --database: the sets are cleaned only after the row delete succeeded.
    ensures r == Ok && itemId > 0 && database ==>
      var deleted := deleteOk && itemId in old(db.rows);
      db.rows == (if deleteOk then old(db.rows) - {itemId} else old(db.rows))
      && cs.items == (if deleted then old(cs.items) - {itemId} else old(cs.items))
      && ws.ids == (if deleted then old(ws.ids) - {itemId} else old(ws.ids))
    // --completed: only the CompletedSet changes.
    ensures r == Ok && itemId > 0 && !database && completed ==>
      db.rows == old(db.rows) && ws.ids == old(ws.ids) && cs.items == old(cs.items) - {itemId}
    // default: only the WorkingSet changes.
    ensures r == Ok && itemId > 0 && !database && !completed ==>
      db.rows == old(db.rows) && cs.items == old(cs.items) && ws.ids == old(ws.ids) - {itemId}
  {
    if !sure {
      return Rejected;
    }
    if itemId == 0 {
      if reset {
        var ok := db.ClearDatabase(clearOk);
        if ok {
          ok := cs.ClearSet();
          if ok {
            ok := ws.ClearSet();
          }
        }
        return Ok;
      }
      return Rejected;
    }
    if itemId < 0 {
      return Rejected;
    }
    if database {
      var deleted := db.DeleteItemsById(itemId, deleteOk);
      if !deleted {
        return Ok;
      }
      var fromCompleted := cs.RemoveItem(itemId);
      var fromWorking := ws.RemoveItem(itemId);
    } else if completed {
      var removed := cs.RemoveItem(itemId);
      if !removed {
        return Rejected;
      }
    } else {
      var removed := ws.RemoveItem(itemId);
      if !removed {
        return Rejected;
      }
    }
    r := Ok;
  }
}
