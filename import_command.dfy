// The `import` command: reads items from a CSV file and writes them to the
// item table, keeping the table's rows for ids it already has (`--preserve
// db`) or overwriting them with the file's rows (`--preserve csv`).

module ImportCommand {
  import opened Basics
  import opened Dates
  import opened Tables
  import opened CsvImport

  /** validate(): a blank path, a path that does not end in ".csv" once
      trimmed, a file that cannot be read (`fileOk` stands for the existence,
      regular-file and readability checks), or a `--preserve` value that is
      neither "csv" nor "db" in any case. */
  predicate Refused(path: string, preserve: string, fileOk: bool) {
    IsBlank(path) || !EndsWith(Trim(path), ".csv") || !fileOk
    || (!EqualsIgnoreCase(preserve, "csv") && !EqualsIgnoreCase(preserve, "db"))
  }

  /** The stream filters of call(): with `dup` the items whose id is among
      the known ids (the duplicates), without it the others (the uniques),
      in input order. */
  function Select(items: seq<Item>, known: set<int>, dup: bool): seq<Item> {
    if items == [] then []
    else
      var front := Select(items[..|items| - 1], known, dup);
      var it := items[|items| - 1];
      if (it.id in known) == dup then front + [it] else front
  }

  /** Filtering keeps the order: filtering a concatenation concatenates the
      filtered parts. */
  lemma {:induction false} SelectAppend(a: seq<Item>, b: seq<Item>, known: set<int>, dup: bool)
    ensures Select(a + b, known, dup) == Select(a, known, dup) + Select(b, known, dup)
  {
    if b == [] {
      assert a + b == a;
    } else {
      var front := b[..|b| - 1];
      assert (a + b)[..|a + b| - 1] == a + front;
      SelectAppend(a, front, known, dup);
    }
  }

  /** An item is selected exactly when it is in the input and its id is
      known (duplicates) or unknown (uniques). */
  lemma {:induction false} SelectMember(items: seq<Item>, known: set<int>, dup: bool, it: Item)
    ensures it in Select(items, known, dup) <==> it in items && (it.id in known) == dup
  {
    if items != [] {
      var front := items[..|items| - 1];
      assert items == front + [items[|items| - 1]];
      SelectMember(front, known, dup, it);
    }
  }

  /** Duplicates and uniques split the input: together they hold every item
      exactly as often as the input does. */
  lemma {:induction false} SelectSplits(items: seq<Item>, known: set<int>)
    ensures multiset(Select(items, known, true)) + multiset(Select(items, known, false)) == multiset(items)
  {
    if items != [] {
      var front := items[..|items| - 1];
      assert items == front + [items[|items| - 1]];
      SelectSplits(front, known);
    }
  }

  /** With the table's real id set, the insert of the uniques can only hit a
      key the file itself repeats. */
  lemma UniquesFresh(rows: map<int, Item>, items: seq<Item>)
    ensures FreshBatch(rows, Select(items, rows.Keys, false)) <==> Distinct(IdsOf(Select(items, rows.Keys, false)))
  {
    var u := Select(items, rows.Keys, false);
    forall i | 0 <= i < |u| ensures u[i].id !in rows {
      SelectMember(items, rows.Keys, false, u[i]);
    }
    forall i, j | 0 <= i < j < |u| ensures (IdsOf(u)[i] != IdsOf(u)[j]) == (u[i].id != u[j].id) {
      assert IdsOf(u)[i] == u[i].id && IdsOf(u)[j] == u[j].id;
    }
  }

  /** A committed insert of fresh ids adds their rows and leaves every row
      already in the table as it was. */
  lemma FreshInsertKeeps(rows: map<int, Item>, items: seq<Item>)
    requires FreshBatch(rows, items)
    ensures forall id :: id in rows ==> id in UpsertAll(rows, items) && UpsertAll(rows, items)[id] == rows[id]
    ensures forall i :: 0 <= i < |items| ==> items[i].id in UpsertAll(rows, items)
  {
    forall id | id in rows ensures id in UpsertAll(rows, items) && UpsertAll(rows, items)[id] == rows[id] {
      UpsertAllLookup(rows, items, id);
    }
    forall i | 0 <= i < |items| ensures items[i].id in UpsertAll(rows, items) {
      UpsertAllLookup(rows, items, items[i].id);
    }
  }

  /** The write of `--preserve db`: the uniques in one insert batch, none
      when there are no uniques. Any outcome but a commit is a failure. */
  method InsertUniques(db: Table, uniques: seq<Item>, batchOk: bool) returns (success: bool)
    requires db.Valid()
    modifies db
    ensures db.Valid()
    ensures success <==> uniques != [] && batchOk && FreshBatch(old(db.rows), uniques)
    ensures db.rows == if success then UpsertAll(old(db.rows), uniques) else old(db.rows)
  {
    success := false;
    if uniques != [] {
      var outcome := db.InsertItemsBatch(uniques, batchOk);
      success := outcome == Committed;
    }
  }

  /** call(). `records` are the CSV records of the file, `idsOk` the outcome
      of the read of the table's ids (a failed read counts as an empty table)
      and `batchOk` that of the batch write. A parse that aborts fails; a
      parse with no valid row is refused. */
  method Call(path: string, preserve: string, fileOk: bool, records: seq<seq<string>>,
              db: Table, today: Date, idsOk: bool, batchOk: bool)
    returns (r: ExitCode)
    requires db.Valid() && ValidDate(today)
    modifies db
    ensures db.Valid()
    ensures r == Rejected <==>
      Refused(path, preserve, fileOk) || (ParseCsv(records, today).Parsed? && ParseCsv(records, today).items == [])
    ensures r != Ok ==> db.rows == old(db.rows)
    ensures ParseCsv(records, today).Aborted? && !Refused(path, preserve, fileOk) ==> r == Fail
    // --preserve db: only the uniques are inserted, in one all-or-nothing batch.
    ensures r != Rejected && ParseCsv(records, today).Parsed? && EqualsIgnoreCase(preserve, "db") ==>
      var uniques := Select(ParseCsv(records, today).items, if idsOk then old(db.rows).Keys else {}, false);
      (r == Ok <==> uniques != [] && batchOk && FreshBatch(old(db.rows), uniques))
      && (r == Ok ==> db.rows == UpsertAll(old(db.rows), uniques))
    ensures r == Ok && EqualsIgnoreCase(preserve, "db") ==>
      forall id :: id in old(db.rows) ==> id in db.rows && db.rows[id] == old(db.rows)[id]
    // --preserve csv: every parsed item is merged, in one all-or-nothing batch.
    ensures r != Rejected && ParseCsv(records, today).Parsed? && !EqualsIgnoreCase(preserve, "db") ==>
      (r == Ok <==> batchOk)
      && (r == Ok ==> db.rows == UpsertAll(old(db.rows), ParseCsv(records, today).items))
  {
    if IsBlank(path) || !EndsWith(Trim(path), ".csv") || !fileOk {
      return Rejected;
    }
    if !EqualsIgnoreCase(preserve, "csv") && !EqualsIgnoreCase(preserve, "db") {
      return Rejected;
    }
    var parsed := Parse(records, today);
    if parsed.Aborted? {
      return Fail;
    }
    var items := parsed.items;
    if items == [] {
      return Rejected;
    }
    var ids := db.GetAllItemsIds(idsOk);
    var known := if ids.Some? then ids.value else {};
    var success := false;
    if EqualsIgnoreCase(preserve, "db") {
      var uniques := Select(items, known, false);
      success := InsertUniques(db, uniques, batchOk);
      if success {
        FreshInsertKeeps(old(db.rows), uniques);
      }
    } else {
      success := db.UpsertItemsBatch(items, batchOk);
    }
    r := if success then Ok else Fail;
  }
}
