// The `complete` command: stages an id in the CompletedSet with an optional
// pool override and a recall date, taking it out of the WorkingSet; `--all`
// stages every WorkingSet id with no override, dated today.

module CompleteCommand {
  import opened Basics
  import opened Dates
  import opened Tables
  import opened WorkingSets
  import opened CompletedSets

  /** validate(): a negative id, id 0 without `--all`, `--all` with an id, an
      id the table lookup does not find (`found`), a pool that is not H, M or L
      in any case, or a date that is not `YYYY-MM-DD`. */
  predicate Refused(itemId: int, all: bool, pool: Option<string>, date: Option<string>, found: bool) {
    itemId < 0
    || (itemId == 0 && !all)
    || (itemId != 0 &&
         (all || !found
          || (pool.Some? && ParsePool(pool.value).None?)
          || (date.Some? && ParseDate(date.value).None?)))
  }

  /** The recall date to stage: the `--date` value, or today without one. */
  function RecallDate(date: Option<string>, today: Date): (d: Date)
    requires date.Some? ==> ParseDate(date.value).Some?
    requires ValidDate(today)
    ensures ValidDate(d)
    ensures date.None? ==> d == today
  {
    match date
    case None => today
    case Some(s) => ParseDate(s).value
  }

  /** The CompletedSet after each id of `ids` was offered with no override
      and the given date: entries already staged are kept as they were. */
  function StageNew(staged: map<int, Staged>, ids: set<int>, today: Date): (m: map<int, Staged>)
    ensures m.Keys == staged.Keys + ids
    ensures forall id :: id in staged ==> m[id] == staged[id]
    ensures forall id :: id in ids && id !in staged ==> m[id] == Staged(None, today)
  {
    map id | id in staged.Keys + ids :: if id in staged then staged[id] else Staged(None, today)
  }

  /** The same offers made one at a time, in iteration order: addItem refuses
      an id that is already staged. */
  function OfferAll(staged: map<int, Staged>, order: seq<int>, today: Date): map<int, Staged> {
    if order == [] then staged
    else
      var m := OfferAll(staged, order[..|order| - 1], today);
      var id := order[|order| - 1];
      if id in m then m else m[id := Staged(None, today)]
  }

  /** Whatever order the ids are offered in, the result is the one StageNew
      describes. */
  lemma {:induction false} OfferAllStagesNew(staged: map<int, Staged>, order: seq<int>, today: Date)
    ensures OfferAll(staged, order, today) == StageNew(staged, Elems(order), today)
  {
    if order != [] {
      var front, id := order[..|order| - 1], order[|order| - 1];
      assert order == front + [id];
      OfferAllStagesNew(staged, front, today);
      ElemsSnoc(front, id);
    }
  }

  /** One round of the `--all` loop: offer the id to the CompletedSet, then
      remove it from the WorkingSet. */
  method CompleteOne(ws: WorkingSet, cs: CompletedSet, id: int, today: Date)
    requires ws.Valid() && cs.Valid() && ValidDate(today) && id in ws.ids
    modifies ws, cs
    ensures ws.Valid() && cs.Valid()
    ensures ws.setDate == old(ws.setDate) && cs.setDate == old(cs.setDate)
    ensures ws.ids == old(ws.ids) - {id}
    ensures cs.items == if id in old(cs.items) then old(cs.items) else old(cs.items)[id := Staged(None, today)]
  {
    var added := cs.AddItemToday(id, None, today);
    var removed := ws.RemoveItem(id);
  }

  /** `--all`: every id of a snapshot of the WorkingSet is offered to the
      CompletedSet with no override and today's date, and removed from the
      WorkingSet. Refused offers (the id was already staged) are ignored, so
      the WorkingSet always ends empty and no staged entry is overwritten. */
  method CompleteAll(ws: WorkingSet, cs: CompletedSet, today: Date)
    requires ws.Valid() && cs.Valid() && ValidDate(today)
    modifies ws, cs
    ensures ws.Valid() && cs.Valid()
    ensures ws.setDate == old(ws.setDate) && cs.setDate == old(cs.setDate)
    ensures ws.ids == {}
    ensures cs.items == StageNew(old(cs.items), old(ws.ids), today)
  {
    ghost var staged0 := cs.items;
    ghost var order: seq<int> := [];
    var rest := ws.ids;
    while rest != {}
      invariant ws.Valid() && cs.Valid()
      invariant ws.setDate == old(ws.setDate) && cs.setDate == old(cs.setDate)
      invariant ws.ids == rest && rest + Elems(order) == old(ws.ids)
      invariant cs.items == OfferAll(staged0, order, today)
      decreases |rest|
    {
      NonEmptyHasElement(rest);
      var id :| id in rest;
      CompleteOne(ws, cs, id, today);
      assert (order + [id])[..|order|] == order;
      ElemsSnoc(order, id);
      rest := rest - {id};
      order := order + [id];
    }
    OfferAllStagesNew(staged0, order, today);
  }

  /** run() for a single id that passed validate(): an id in the WorkingSet is
      moved to the CompletedSet with the `--update` pool (none when the option
      is absent or empty); an id outside it needs `--force` and is staged with
      the pool its table row has now. A missing row is refused; a failed row
      fetch throws out of run(), which ends the command with exit 1 and
      nothing changed. Staging never overwrites an entry already there. */
  method CompleteSingle(itemId: int, pool: Option<string>, lastRecall: Date, force: bool,
                        db: Table, ws: WorkingSet, cs: CompletedSet, fetchOk: bool)
    returns (r: ExitCode)
    requires db.Valid() && ws.Valid() && cs.Valid() && ValidDate(lastRecall) && IsInt32(itemId)
    requires pool.Some? ==> ParsePool(pool.value).Some?
    modifies ws, cs
    ensures ws.setDate == old(ws.setDate) && cs.setDate == old(cs.setDate)
    ensures r == Fail <==> itemId !in old(ws.ids) && force && !fetchOk
    ensures r == Rejected <==> itemId !in old(ws.ids) && (!force || (fetchOk && itemId !in db.rows))
    ensures r != Ok ==>
              ws.ids == old(ws.ids) && ws.file == old(ws.file)
              && cs.items == old(cs.items) && cs.file == old(cs.file)
    ensures r == Ok ==> ws.Valid() && cs.Valid()
    ensures r == Ok && itemId in old(ws.ids) ==>
      ws.ids == old(ws.ids) - {itemId}
      && cs.items == (if itemId in old(cs.items) then old(cs.items)
                      else old(cs.items)[itemId := Staged(if pool.Some? then ParsePool(pool.value) else None, lastRecall)])
    ensures r == Ok && itemId !in old(ws.ids) ==>
      itemId in db.rows
      && ws.ids == old(ws.ids) && ws.file == old(ws.file)
      && cs.items == (if itemId in old(cs.items) then old(cs.items)
                      else old(cs.items)[itemId := Staged(Some(db.rows[itemId].pool), lastRecall)])
  {
    var override := if pool.Some? then ParsePool(pool.value) else None;
    if itemId !in ws.ids {
      if !force {
        return Rejected;
      }
      if !fetchOk {
        return Fail;
      }
      var item := db.GetItemById(itemId);
      if item.None? {
        return Rejected;
      }
      var added := cs.AddItem(item.value.id, Some(item.value.pool), lastRecall);
    } else {
      var removed := ws.RemoveItem(itemId);
      var staged := if pool.None? || pool.value == [] then None else override;
      var added := cs.AddItem(itemId, staged, lastRecall);
    }
    r := Ok;
  }

  /** run(). `lookupOk` is the outcome of the table lookup in validate() and
      `fetchOk` that of the row fetch for `--force`. */
  method Run(itemId: int, pool: Option<string>, date: Option<string>, force: bool, all: bool,
             db: Table, ws: WorkingSet, cs: CompletedSet, today: Date, lookupOk: bool, fetchOk: bool)
    returns (r: ExitCode)
    requires db.Valid() && ws.Valid() && cs.Valid() && ValidDate(today) && IsInt32(itemId)
    modifies ws, cs
    ensures ws.setDate == old(ws.setDate) && cs.setDate == old(cs.setDate)
    ensures r == Fail <==>
      !Refused(itemId, all, pool, date, lookupOk && itemId in db.rows)
      && itemId != 0 && itemId !in old(ws.ids) && force && !fetchOk
    ensures r == Rejected <==>
      Refused(itemId, all, pool, date, lookupOk && itemId in db.rows)
      || (itemId != 0 && itemId !in old(ws.ids) && !force)
    ensures r != Ok ==>
              ws.ids == old(ws.ids) && ws.file == old(ws.file)
              && cs.items == old(cs.items) && cs.file == old(cs.file)
    ensures r == Ok ==> ws.Valid() && cs.Valid()
    // --all
    ensures r == Ok && itemId == 0 ==>
      ws.ids == {} && cs.items == StageNew(old(cs.items), old(ws.ids), today)
    ensures r == Ok && itemId != 0 && itemId in old(ws.ids) ==>
      ws.ids == old(ws.ids) - {itemId}
      && cs.items == (if itemId in old(cs.items) then old(cs.items)
                      else old(cs.items)[itemId := Staged(if pool.Some? then ParsePool(pool.value) else None,
                                                          RecallDate(date, today))])
    ensures r == Ok && itemId != 0 && itemId !in old(ws.ids) ==>
      itemId in db.rows
      && ws.ids == old(ws.ids) && ws.file == old(ws.file)
      && cs.items == (if itemId in old(cs.items) then old(cs.items)
                      else old(cs.items)[itemId := Staged(Some(db.rows[itemId].pool), RecallDate(date, today))])
  {
    var found := db.Contains(itemId, lookupOk);
    if Refused(itemId, all, pool, date, found) {
      return Rejected;
    }
    if all && itemId == 0 {
      CompleteAll(ws, cs, today);
      return Ok;
    }
    r := CompleteSingle(itemId, pool, RecallDate(date, today), force, db, ws, cs, fetchOk);
  }
}
