// The `recall` command: fills the WorkingSet with the ids to study next,
// either the best-rated items the scheduler picks or a list of custom ids.

module RecallCommand {
  import opened Basics
  import opened Tables
  import opened WorkingSets
  import opened Scheduling

  /** The value RECALL_COUNT takes when it is not given. */
  const Unset := -12341234

  /** A custom id survives validation: positive and found by the table
      lookup (`lookupOk(id)` is the outcome of that lookup's query). */
  predicate Kept(id: int, rows: map<int, Item>, lookupOk: int -> bool) {
    id > 0 && lookupOk(id) && id in rows
  }

  /** validCustomRecallIds: the custom ids that survive, in the given order. */
  function KeptIds(ids: seq<int>, rows: map<int, Item>, lookupOk: int -> bool): seq<int> {
    if ids == [] then []
    else
      var front := KeptIds(ids[..|ids| - 1], rows, lookupOk);
      var id := ids[|ids| - 1];
      if Kept(id, rows, lookupOk) then front + [id] else front
  }

  /** The kept ids are exactly the given ids that survive. */
  lemma {:induction false} KeptIdsMember(ids: seq<int>, rows: map<int, Item>, lookupOk: int -> bool, x: int)
    ensures x in KeptIds(ids, rows, lookupOk) <==> x in ids && Kept(x, rows, lookupOk)
  {
    if ids != [] {
      var front, id := ids[..|ids| - 1], ids[|ids| - 1];
      assert ids == front + [id];
      KeptIdsMember(front, rows, lookupOk, x);
    }
  }

  /** validate() refuses: no custom ids and a missing or non-positive
      RECALL_COUNT; a single custom id that does not survive; or two or more
      custom ids none of which survives. */
  predicate Refused(recallCount: int, custom: seq<int>, rows: map<int, Item>, lookupOk: int -> bool) {
    (custom == [] && (recallCount == Unset || recallCount <= 0))
    || (|custom| == 1 && !Kept(custom[0], rows, lookupOk))
    || (|custom| > 1 && forall id :: id in custom ==> !Kept(id, rows, lookupOk))
  }

  /** validate(): one custom id must survive or the request is refused; of
      several, the ones that do not survive are dropped, and the request is
      refused only when none is left. */
  method Validate(recallCount: int, custom: seq<int>, db: Table, lookupOk: int -> bool)
    returns (valid: Option<seq<int>>)
    requires db.Valid()
    ensures valid.None? <==> Refused(recallCount, custom, db.rows, lookupOk)
    ensures valid.Some? ==> valid.value == KeptIds(custom, db.rows, lookupOk)
    ensures valid.Some? ==> (valid.value == [] <==> custom == [])
  {
    if custom == [] {
      if recallCount == Unset || recallCount <= 0 {
        return None;
      }
      return Some([]);
    }
    var kept: seq<int> := [];
    if |custom| == 1 {
      var id := custom[0];
      assert custom[..0] == [];
      if id <= 0 {
        return None;
      }
      var found := db.Contains(id, lookupOk(id));
      if !found {
        return None;
      }
      kept := [id];
    } else {
      var i := 0;
      while i < |custom|
        invariant 0 <= i <= |custom|
        invariant kept == KeptIds(custom[..i], db.rows, lookupOk)
      {
        var id := custom[i];
        assert custom[..i + 1][..i] == custom[..i];
        if id > 0 {
          var found := db.Contains(id, lookupOk(id));
          if found {
            kept := kept + [id];
          }
        }
        i := i + 1;
      }
      assert custom[..i] == custom;
      if kept == [] {
        forall id | id in custom ensures !Kept(id, db.rows, lookupOk) {
          KeptIdsMember(custom, db.rows, lookupOk, id);
        }
        return None;
      }
      KeptIdsMember(custom, db.rows, lookupOk, kept[0]);
    }
    valid := Some(kept);
  }

  /** The items the scheduler returns for RECALL_COUNT `x` from the table
      `rows`: as many as asked for and the table holds, distinct rows of the
      table, best-rated first, and none rated below a row left behind. */
  ghost predicate TopRated(s: Scoring, rows: map<int, Item>, x: int, taken: seq<Item>)
    requires ScoringOk(s)
  {
    |taken| == (if x <= 0 then 0 else if x < |rows| then x else |rows|)
    && Distinct(IdsOf(taken))
    && (forall i :: 0 <= i < |taken| ==> taken[i].id in rows && taken[i] == rows[taken[i].id])
    && (forall it :: it in taken ==> Rateable(it))
    && NonIncreasing(s, taken)
    && forall i, id :: 0 <= i < |taken| && id in rows && id !in IdsOf(taken) && Rateable(rows[id]) ==>
         Rating(s, rows[id]) <= Rating(s, taken[i])
  }

  /** A row of the table that was not polled is still in the queue. */
  lemma LeftInQueue(list: seq<Item>, taken: seq<Item>, queue: seq<Item>, rows: map<int, Item>, id: int)
    requires Elems(IdsOf(list)) == rows.Keys
    requires forall i :: 0 <= i < |list| ==> list[i].id in rows && list[i] == rows[list[i].id]
    requires multiset(taken) + multiset(queue) == multiset(list)
    requires id in rows && id !in IdsOf(taken)
    ensures rows[id] in queue
  {
    assert IdsOf(list)[..] == IdsOf(list);
    assert id in Elems(IdsOf(list));
    var j :| 0 <= j < |list| && IdsOf(list)[j] == id;
    assert list[j] in multiset(list);
    forall k | 0 <= k < |taken| ensures taken[k] != list[j] {
      assert IdsOf(taken)[k] == taken[k].id;
    }
  }

  /** The scheduler path of call(): a RecallService is built (its loadQueue
      reads every row, and fails when that read fails) and polled for
      RECALL_COUNT ids. */
  method Schedule(recallCount: int, db: Table, s: Scoring, getAllOk: bool)
    returns (ids: Option<seq<int>>, ghost taken: seq<Item>)
    requires db.Valid() && ScoringOk(s)
    requires forall id :: id in db.rows ==> Rateable(db.rows[id])
    ensures ids.None? <==> !getAllOk
    ensures ids.Some? ==> ids.value == IdsOf(taken) && TopRated(s, db.rows, recallCount, taken)
    ensures ids.Some? ==> Elems(ids.value) <= db.rows.Keys
  {
    taken := [];
    var service := new RecallService.Create(s);
    var list := db.GetAllItems(getAllOk);
    var loaded := service.LoadQueue(list);
    if !loaded {
      return None, [];
    }
    var res;
    res, taken := service.Recall(recallCount);
    forall i, id | 0 <= i < |taken| && id in db.rows && id !in IdsOf(taken) && Rateable(db.rows[id])
      ensures Rating(s, db.rows[id]) <= Rating(s, taken[i])
    {
      LeftInQueue(list.value, taken, service.queue, db.rows, id);
    }
    forall i | 0 <= i < |taken| ensures taken[i].id in db.rows && taken[i] == db.rows[taken[i].id] {
      assert taken[i] in multiset(list.value);
    }
    forall id | id in Elems(res) ensures id in db.rows {
      var i :| 0 <= i < |res| && res[i] == id;
      assert IdsOf(taken)[i] == taken[i].id;
    }
    ids := Some(res);
  }

  /** addAll of the new ids onto the live in-memory set, then fillSet of
      that same set, which writes the file. */
  method AddAllAndFill(ws: WorkingSet, picked: set<int>)
    requires ws.Wellformed() && forall id :: id in picked ==> IsInt32(id)
    modifies ws
    ensures ws.Valid() && ws.setDate == old(ws.setDate)
    ensures ws.ids == old(ws.ids) + picked
  {
    ws.ids := ws.ids + picked;
    var filled := ws.FillSet(ws.ids);
  }

  /** call(). `lookupOk` gives the outcome of each custom id's lookup and
      `getAllOk` that of the scheduler's table read; `s` is the scheduler's
      tuning, its date being today. A refused request changes nothing. With a
      non-empty WorkingSet, `--force` is needed, and without `--append` the
      in-memory set is cleared first; the file is only written by the final
      fillSet, so a failed table read leaves it as it was. */
  method Call(recallCount: int, force: bool, append: bool, custom: seq<int>,
              db: Table, ws: WorkingSet, s: Scoring, lookupOk: int -> bool, getAllOk: bool)
    returns (r: ExitCode, ghost taken: seq<Item>)
    requires db.Valid() && ws.Valid() && ScoringOk(s)
    requires forall id :: id in custom ==> IsInt32(id)
    requires forall id :: id in db.rows ==> IsInt32(id) && Rateable(db.rows[id])
    modifies ws
    ensures ws.setDate == old(ws.setDate)
    ensures r == Rejected <==> Refused(recallCount, custom, db.rows, lookupOk) || (old(ws.ids) != {} && !force)
    ensures r == Rejected ==> ws.ids == old(ws.ids) && ws.file == old(ws.file)
    ensures r == Fail <==> r != Rejected && custom == [] && !getAllOk
    ensures r == Fail ==> ws.file == old(ws.file)
    ensures r == Ok ==> ws.Valid()
    ensures r == Ok && custom != [] ==>
      ws.ids == (if append then old(ws.ids) else {}) + Elems(KeptIds(custom, db.rows, lookupOk))
    ensures r == Ok && custom == [] ==>
      ws.ids == (if append then old(ws.ids) else {}) + Elems(IdsOf(taken))
      && TopRated(s, db.rows, recallCount, taken)
  {
    taken := [];
    var valid := Validate(recallCount, custom, db, lookupOk);
    if valid.None? {
      return Rejected, [];
    }
    if ws.ids != {} {
      if !force {
        return Rejected, [];
      }
      if !append {
        ws.ids := {};
      }
    }
    var picked: set<int>;
    if valid.value == [] {
      var polled;
      polled, taken := Schedule(recallCount, db, s, getAllOk);
      if polled.None? {
        return Fail, taken;
      }
      picked := Elems(polled.value);
    } else {
      forall id | id in valid.value ensures IsInt32(id) {
        KeptIdsMember(custom, db.rows, lookupOk, id);
      }
      picked := Elems(valid.value);
    }
    AddAllAndFill(ws, picked);
    r := Ok;
  }
}
