// The `rollback` command: moves staged ids from the CompletedSet back into
// the WorkingSet, one id or all of them. Only ids travel back; the staged
// pool override and recall date are dropped.

module RollbackCommand {
  import opened Basics
  import opened WorkingSets
  import opened CompletedSets

  /** The checks of validate(), in the order they run: true when the request
      is refused before any store is touched. */
  predicate Refused(itemId: int, all: bool, staged: map<int, Staged>) {
    itemId < 0
    || (itemId == 0 && !all) || (itemId != 0 && all)
    || |staged| == 0
    || (itemId != 0 && itemId !in staged)
  }

  /** call(): `--all` fills the WorkingSet with every staged id and then
      clears the CompletedSet; a single id is added to the WorkingSet and
      then removed from the CompletedSet, each pair short-circuited. */
  method Call(itemId: int, all: bool, ws: WorkingSet, cs: CompletedSet) returns (r: ExitCode)
    requires ws.Valid() && cs.Valid() && IsInt32(itemId)
    modifies ws, cs
    ensures ws.Valid() && cs.Valid()
    ensures ws.setDate == old(ws.setDate) && cs.setDate == old(cs.setDate)
    ensures r == Rejected <==> Refused(itemId, all, old(cs.items))
    ensures r == Rejected ==>
              ws.ids == old(ws.ids) && ws.file == old(ws.file)
              && cs.items == old(cs.items) && cs.file == old(cs.file)
    // The set calls report failure only through an I/O exception, which is
    // not modelled: a request that passes validation always succeeds.
    ensures r != Rejected ==> r == Ok
    ensures r == Ok && all ==> ws.ids == old(ws.ids) + old(cs.items).Keys && cs.items == map[]
    ensures r == Ok && !all ==> ws.ids == old(ws.ids) + {itemId} && cs.items == old(cs.items) - {itemId}
    ensures r == Ok ==> itemId != 0 ==> itemId in ws.ids && itemId !in cs.items
  {
    if Refused(itemId, all, cs.items) {
      return Rejected;
    }
    if all {
      var filled := ws.FillSet(cs.items.Keys);
      var cleared := false;
      if filled {
        cleared := cs.ClearSet();
      }
      r := if filled && cleared then Ok else Fail;
    } else {
      var added := ws.AddItem(itemId);
      var removed := false;
      if added {
        removed := cs.RemoveItem(itemId);
      }
      r := if added && removed then Ok else Fail;
    }
  }
}
