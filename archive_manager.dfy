/** The item tables: the archive (ArchiveManager) and, with the same contract,
    the live item table the commands call `db`. A table is a map from id to
    row; every statement that can fail with an SQLException takes a `sqlOk`
    flag that decides whether the database reports success. */
module Tables {
  import opened Basics

  /** Every row is stored under its own id (the primary key). */
  ghost predicate Keyed(rows: map<int, Item>) {
    forall id :: id in rows ==> rows[id].id == id
  }

  /** The ids of a list of items, in list order. */
  function IdsOf(items: seq<Item>): (r: seq<int>)
    ensures |r| == |items|
  {
    seq(|items|, i requires 0 <= i < |items| => items[i].id)
  }

  /** The last item of the list that carries `id`, if any. */
  function LastWith(items: seq<Item>, id: int): (r: Option<Item>)
    ensures r.Some? ==> r.value.id == id && r.value in items
    ensures r.None? <==> forall i :: 0 <= i < |items| ==> items[i].id != id
  {
    if items == [] then None
    else if items[|items| - 1].id == id then Some(items[|items| - 1])
    else LastWith(items[..|items| - 1], id)
  }

  /** A batch of inserts that hits no primary key: its ids are pairwise
      distinct and none of them is already in the table. */
  predicate FreshBatch(rows: map<int, Item>, items: seq<Item>) {
    (forall i :: 0 <= i < |items| ==> items[i].id !in rows)
    && (forall i, j :: 0 <= i < j < |items| ==> items[i].id != items[j].id)
  }

  // ---------------------------------------------------------------------------
  // What each batch statement does to the table when it commits.

  /** INSERT of every item in order; None as soon as one id is taken. */
  function InsertAll(rows: map<int, Item>, items: seq<Item>): Option<map<int, Item>> {
    if items == [] then Some(rows)
    else
      var last := items[|items| - 1];
      match InsertAll(rows, items[..|items| - 1])
      case None => None
      case Some(m) => if last.id in m then None else Some(m[last.id := last])
  }

  /** MERGE of every item in order: creates or replaces the row of each id. */
  function UpsertAll(rows: map<int, Item>, items: seq<Item>): map<int, Item> {
    if items == [] then rows
    else
      var last := items[|items| - 1];
      UpsertAll(rows, items[..|items| - 1])[last.id := last]
  }

  /** UPDATE ... WHERE id = ? for every item in order: rows whose id is not in
      the table are not affected. */
  function UpdateAll(rows: map<int, Item>, items: seq<Item>): map<int, Item> {
    if items == [] then rows
    else
      var last := items[|items| - 1];
      var m := UpdateAll(rows, items[..|items| - 1]);
      if last.id in m then m[last.id := last] else m
  }

  /** After a MERGE batch a row exists iff it existed or was merged, and it
      holds the last merged item for its id, or the old row if none. */
  lemma {:induction false} UpsertAllLookup(rows: map<int, Item>, items: seq<Item>, id: int)
    ensures id in UpsertAll(rows, items) <==> id in rows || LastWith(items, id).Some?
    ensures LastWith(items, id).Some? ==> UpsertAll(rows, items)[id] == LastWith(items, id).value
    ensures LastWith(items, id).None? && id in rows ==> UpsertAll(rows, items)[id] == rows[id]
  {
    if items != [] {
      UpsertAllLookup(rows, items[..|items| - 1], id);
    }
  }

  /** After an UPDATE batch the table has the same ids; a row holds the last
      item given for its id, or is unchanged when none was given. */
  lemma {:induction false} UpdateAllLookup(rows: map<int, Item>, items: seq<Item>, id: int)
    ensures UpdateAll(rows, items).Keys == rows.Keys
    ensures id in rows && LastWith(items, id).Some? ==> UpdateAll(rows, items)[id] == LastWith(items, id).value
    ensures id in rows && LastWith(items, id).None? ==> UpdateAll(rows, items)[id] == rows[id]
  {
    if items != [] {
      UpdateAllLookup(rows, items[..|items| - 1], id);
    }
  }

  /** A batch stays fresh when one more item is appended exactly when that
      item's id is neither in the table nor earlier in the batch. */
  lemma FreshBatchSnoc(rows: map<int, Item>, p: seq<Item>, last: Item)
    ensures FreshBatch(rows, p + [last]) <==> FreshBatch(rows, p) && last.id !in rows && LastWith(p, last.id).None?
  {
    var items := p + [last];
    assert forall i :: 0 <= i < |p| ==> items[i] == p[i];
    assert items[|p|] == last;
    if FreshBatch(rows, p) && last.id !in rows && LastWith(p, last.id).None? {
      forall i, j | 0 <= i < j < |items| ensures items[i].id != items[j].id {
        if j == |p| {
          assert items[i] == p[i];
        } else {
          assert items[i] == p[i] && items[j] == p[j];
        }
      }
    }
  }

  /** An INSERT batch goes through exactly when it is fresh, and then it has
      the same effect as the MERGE of the same items. */
  lemma {:induction false} InsertAllFresh(rows: map<int, Item>, items: seq<Item>)
    ensures InsertAll(rows, items).Some? <==> FreshBatch(rows, items)
    ensures InsertAll(rows, items).Some? ==> InsertAll(rows, items).value == UpsertAll(rows, items)
  {
    if items != [] {
      var n := |items| - 1;
      var p := items[..n];
      var last := items[n];
      assert items == p + [last];
      InsertAllFresh(rows, p);
      UpsertAllLookup(rows, p, last.id);
      FreshBatchSnoc(rows, p, last);
    }
  }

  lemma {:induction false} UpsertAllKeyed(rows: map<int, Item>, items: seq<Item>)
    requires Keyed(rows)
    ensures Keyed(UpsertAll(rows, items))
  {
    if items != [] {
      UpsertAllKeyed(rows, items[..|items| - 1]);
    }
  }

  lemma {:induction false} UpdateAllKeyed(rows: map<int, Item>, items: seq<Item>)
    requires Keyed(rows)
    ensures Keyed(UpdateAll(rows, items))
  {
    if items != [] {
      UpdateAllKeyed(rows, items[..|items| - 1]);
    }
  }

  // ---------------------------------------------------------------------------
  // Row selection.

  /** LOWER(name) LIKE LOWER('%' + query + '%'): the name contains the query,
      ignoring the case of ASCII letters. */
  predicate NameMatches(name: string, query: string) {
    ContainsSub(ToLower(name), ToLower(query))
  }

  lemma LowerOfUpper(s: string)
    ensures ToLower(ToUpper(s)) == ToLower(s)
  {
    forall k | 0 <= k < |s| ensures ToLower(ToUpper(s))[k] == ToLower(s)[k] {
      assert LowerChar(UpperChar(s[k])) == LowerChar(s[k]);
    }
  }

  lemma LowerKeepsOccurrence(name: string, query: string, i: int)
    requires 0 <= i <= |name| - |query| && OccursAt(name, query, i)
    ensures OccursAt(ToLower(name), ToLower(query), i)
  {
    forall k | 0 <= k < |query| ensures ToLower(name)[i + k] == ToLower(query)[k] {
      assert name[i + k] == query[k];
    }
    assert ToLower(name)[i..i + |query|] == ToLower(query);
  }

  /** A name that contains the query literally is found whatever the case of
      either side. */
  lemma ContainsFoundIgnoringCase(name: string, query: string)
    requires ContainsSub(name, query)
    ensures NameMatches(name, query)
    ensures NameMatches(ToUpper(name), query) && NameMatches(name, ToUpper(query))
  {
    var i :| 0 <= i <= |name| - |query| && OccursAt(name, query, i);
    LowerKeepsOccurrence(name, query, i);
    LowerOfUpper(name);
    LowerOfUpper(query);
  }

  /** The ids of the rows whose name matches the query. */
  function MatchingIds(rows: map<int, Item>, query: string): (r: set<int>)
    ensures r <= rows.Keys
    ensures forall id :: id in rows ==> (id in r <==> NameMatches(rows[id].name, query))
  {
    set id | id in rows && NameMatches(rows[id].name, query)
  }

  /** What the listing loop has built so far: the rows of the ids no longer
      in `rest`, each once. */
  ghost predicate Listed(rows: map<int, Item>, ids: set<int>, rest: set<int>, items: seq<Item>) {
    rest <= ids
    && Elems(IdsOf(items)) == ids - rest
    && |items| == |ids| - |rest|
    && Distinct(IdsOf(items))
    && forall i :: 0 <= i < |items| ==> items[i].id in rows && items[i] == rows[items[i].id]
  }

  lemma ListedStep(rows: map<int, Item>, ids: set<int>, rest: set<int>, items: seq<Item>, id: int)
    requires Keyed(rows) && ids <= rows.Keys
    requires Listed(rows, ids, rest, items) && id in rest
    ensures Listed(rows, ids, rest - {id}, items + [rows[id]])
  {
    var items' := items + [rows[id]];
    assert IdsOf(items') == IdsOf(items) + [id];
    assert Elems(IdsOf(items')) == ids - (rest - {id}) by {
      ElemsSnoc(IdsOf(items), id);
    }
    assert Distinct(IdsOf(items')) by {
      DistinctSnoc(IdsOf(items), id);
    }
    assert |rest - {id}| == |rest| - 1;
    forall i | 0 <= i < |items'| ensures items'[i].id in rows && items'[i] == rows[items'[i].id] {
      if i < |items| {
        assert items'[i] == items[i];
      }
    }
  }

  /** The rows with the given ids, as a list in some order: each row once. */
  method ListRows(rows: map<int, Item>, ids: set<int>) returns (items: seq<Item>)
    requires Keyed(rows) && ids <= rows.Keys
    ensures Distinct(IdsOf(items)) && Elems(IdsOf(items)) == ids && |items| == |ids|
    ensures forall i :: 0 <= i < |items| ==> items[i].id in rows && items[i] == rows[items[i].id]
  {
    items := [];
    var rest := ids;
    while rest != {}
      invariant Listed(rows, ids, rest, items)
      decreases |rest|
    {
      NonEmptyHasElement(rest);
      var id :| id in rest;
      ListedStep(rows, ids, rest, items, id);
      items := items + [rows[id]];
      rest := rest - {id};
    }
  }

  /** The outcome of insertItemsBatch: committed, rolled back on an error
      (false), or rolled back on a duplicate key, which the source reports
      by throwing. */
  datatype BatchOutcome = Committed | RolledBack | DuplicateKey

  /** The batch loops: each statement added to the batch, in list order. */
  method StageInserts(rows: map<int, Item>, items: seq<Item>) returns (staged: Option<map<int, Item>>)
    ensures staged == InsertAll(rows, items)
  {
    staged := Some(rows);
    var i := 0;
    while i < |items|
      invariant 0 <= i <= |items|
      invariant staged == InsertAll(rows, items[..i])
    {
      assert items[..i + 1][..i] == items[..i];
      var item := items[i];
      if staged.Some? {
        staged := if item.id in staged.value then None else Some(staged.value[item.id := item]);
      }
      i := i + 1;
    }
    assert items[..i] == items;
  }

  method StageUpserts(rows: map<int, Item>, items: seq<Item>) returns (staged: map<int, Item>)
    ensures staged == UpsertAll(rows, items)
  {
    staged := rows;
    var i := 0;
    while i < |items|
      invariant 0 <= i <= |items|
      invariant staged == UpsertAll(rows, items[..i])
    {
      assert items[..i + 1][..i] == items[..i];
      staged := staged[items[i].id := items[i]];
      i := i + 1;
    }
    assert items[..i] == items;
  }

  method StageUpdates(rows: map<int, Item>, items: seq<Item>) returns (staged: map<int, Item>)
    ensures staged == UpdateAll(rows, items)
  {
    staged := rows;
    var i := 0;
    while i < |items|
      invariant 0 <= i <= |items|
      invariant staged == UpdateAll(rows, items[..i])
    {
      assert items[..i + 1][..i] == items[..i];
      if items[i].id in staged {
        staged := staged[items[i].id := items[i]];
      }
      i := i + 1;
    }
    assert items[..i] == items;
  }

  /** One table (ArchiveManager's `archive`, or the item table). */
  class Table {
    var rows: map<int, Item>

    ghost predicate Valid()
      reads this
    {
      Keyed(rows)
    }

    /** A table holding the rows the database already has. */
    constructor Open(existing: map<int, Item>)
      requires Keyed(existing)
      ensures Valid() && rows == existing
    {
      rows := existing;
    }

    /** insertItem: true iff the row was added; a taken id is a primary-key
        violation, which reports false like any other error. */
    method InsertItem(item: Item, sqlOk: bool) returns (r: bool)
      requires Valid()
      modifies this
      ensures r <==> sqlOk && item.id !in old(rows)
      ensures rows == if r then old(rows)[item.id := item] else old(rows)
      ensures Valid()
    {
      if sqlOk && item.id !in rows {
        rows := rows[item.id := item];
        r := true;
      } else {
        r := false;
      }
    }

    /** insertItemsBatch: all the rows or none of them. */
    method InsertItemsBatch(items: seq<Item>, sqlOk: bool) returns (r: BatchOutcome)
      requires Valid()
      modifies this
      ensures r == if !sqlOk then RolledBack else if FreshBatch(old(rows), items) then Committed else DuplicateKey
      ensures rows == if r == Committed then UpsertAll(old(rows), items) else old(rows)
      ensures Valid()
    {
      var staged := StageInserts(rows, items);
      InsertAllFresh(rows, items);
      if !sqlOk {
        r := RolledBack;
      } else if staged.None? {
        r := DuplicateKey;
      } else {
        UpsertAllKeyed(rows, items);
        rows := staged.value;
        r := Committed;
      }
    }

    /** upsertItemsBatch: MERGE of every item, all or nothing. */
    method UpsertItemsBatch(items: seq<Item>, sqlOk: bool) returns (r: bool)
      requires Valid()
      modifies this
      ensures r == sqlOk
      ensures rows == if r then UpsertAll(old(rows), items) else old(rows)
      ensures Valid()
    {
      var staged := StageUpserts(rows, items);
      UpsertAllKeyed(rows, items);
      if sqlOk {
        rows := staged;
      }
      r := sqlOk;
    }

    /** updateItem: MERGE of one item, which creates the row when absent. */
    method UpdateItem(item: Item, sqlOk: bool) returns (r: bool)
      requires Valid()
      modifies this
      ensures r == sqlOk
      ensures rows == if r then old(rows)[item.id := item] else old(rows)
      ensures Valid()
    {
      if sqlOk {
        rows := rows[item.id := item];
      }
      r := sqlOk;
    }

    /** updateItemsBatch: UPDATE of every item that has a row, all or nothing. */
    method UpdateItemsBatch(items: seq<Item>, sqlOk: bool) returns (r: bool)
      requires Valid()
      modifies this
      ensures r == sqlOk
      ensures rows == if r then UpdateAll(old(rows), items) else old(rows)
      ensures Valid()
    {
      var staged := StageUpdates(rows, items);
      UpdateAllKeyed(rows, items);
      if sqlOk {
        rows := staged;
      }
      r := sqlOk;
    }

    /** getItemById when the query succeeds; a failed query throws, and the
        callers model that as the end of the command with exit 1. */
    function GetItemById(id: int): (r: Option<Item>)
      reads this
      requires Valid()
      ensures r.Some? <==> id in rows
      ensures r.Some? ==> r.value.id == id && r.value == rows[id]
    {
      if id in rows then Some(rows[id]) else None
    }

    /** getAllItems: every row, or empty when the query fails. */
    method GetAllItems(sqlOk: bool) returns (r: Option<seq<Item>>)
      requires Valid()
      ensures r.Some? <==> sqlOk
      ensures r.Some? ==> Elems(IdsOf(r.value)) == rows.Keys && Distinct(IdsOf(r.value)) && |r.value| == |rows|
      ensures r.Some? ==> forall i :: 0 <= i < |r.value| ==> r.value[i].id in rows && r.value[i] == rows[r.value[i].id]
    {
      if !sqlOk {
        return None;
      }
      var items := ListRows(rows, rows.Keys);
      r := Some(items);
    }

    /** getAllItemsIds: the set of ids, or empty when the query fails. */
    method GetAllItemsIds(sqlOk: bool) returns (r: Option<set<int>>)
      requires Valid()
      ensures r.Some? <==> sqlOk
      ensures r.Some? ==> r.value == rows.Keys
    {
      r := if sqlOk then Some(rows.Keys) else None;
    }

    /** getItemsFromList: empty for an empty list; otherwise the rows whose id
        is listed (ids without a row are simply not found). */
    method GetItemsFromList(ids: seq<int>, sqlOk: bool) returns (r: Option<seq<Item>>)
      requires Valid()
      ensures r.Some? <==> ids != [] && sqlOk
      ensures r.Some? ==> Elems(IdsOf(r.value)) == Elems(ids) * rows.Keys && Distinct(IdsOf(r.value))
      ensures r.Some? ==> forall i :: 0 <= i < |r.value| ==> r.value[i].id in rows && r.value[i] == rows[r.value[i].id]
    {
      if ids == [] || !sqlOk {
        return None;
      }
      var items := ListRows(rows, Elems(ids) * rows.Keys);
      r := Some(items);
    }

    /** deleteItemsById: true iff exactly one row went away. */
    method DeleteItemsById(id: int, sqlOk: bool) returns (r: bool)
      requires Valid()
      modifies this
      ensures r <==> sqlOk && id in old(rows)
      ensures rows == if sqlOk then old(rows) - {id} else old(rows)
      ensures Valid()
    {
      if sqlOk {
        r := id in rows;
        rows := rows - {id};
      } else {
        r := false;
      }
    }

    /** contains: true iff the row exists (false when the query fails). */
    method Contains(id: int, sqlOk: bool) returns (r: bool)
      requires Valid()
      ensures r <==> sqlOk && id in rows
    {
      r := sqlOk && id in rows;
    }

    /** searchItemsByName: the rows whose name contains the query, ignoring case. */
    method SearchItemsByName(query: string, sqlOk: bool) returns (r: Option<seq<Item>>)
      requires Valid()
      ensures r.Some? <==> sqlOk
      ensures r.Some? ==> Distinct(IdsOf(r.value))
      ensures r.Some? ==> forall id :: id in rows ==> (id in Elems(IdsOf(r.value)) <==> NameMatches(rows[id].name, query))
      ensures r.Some? ==> forall i :: 0 <= i < |r.value| ==> r.value[i].id in rows && r.value[i] == rows[r.value[i].id]
    {
      if !sqlOk {
        return None;
      }
      var items := ListRows(rows, MatchingIds(rows, query));
      r := Some(items);
    }

    /** clearDatabase: TRUNCATE; true iff the table is now empty. */
    method ClearDatabase(sqlOk: bool) returns (r: bool)
      requires Valid()
      modifies this
      ensures r == sqlOk
      ensures rows == if sqlOk then map[] else old(rows)
      ensures Valid()
    {
      if sqlOk {
        rows := map[];
      }
      r := sqlOk;
    }
  }
}
