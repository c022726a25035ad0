// The `add` command: inserts a new item into the item table, or with
// `--update` replaces the row of an id that is already there.

module AddCommand {
  import opened Basics
  import opened Tables

  /** validate(): a positive id, a non-empty name, link and pool, a link
      starting with "https://", and a pool naming H, M or L in either case. */
  predicate ValidArgs(itemId: int, name: string, link: string, pool: string) {
    itemId > 0 && name != [] && link != [] && pool != []
    && StartsWith(link, "https://")
    && ParsePool(pool).Some?
  }

  /** The item run() builds: never recalled, last recalled today. */
  function NewItem(itemId: int, name: string, link: string, pool: string, today: Date): Item
    requires ParsePool(pool).Some?
  {
    Item(itemId, name, link, ParsePool(pool).value, today, 0)
  }

  /** run(). `insertOk` and `updateOk` are the outcomes of the two SQL
      statements. A request that passes validation returns normally whatever
      the table did: a failed insert without `--update`, a failed update and
      a thrown SQL error are only logged. */
  method Run(itemId: int, name: string, link: string, pool: string, update: bool,
             db: Table, today: Date, insertOk: bool, updateOk: bool)
    returns (r: ExitCode)
    requires db.Valid()
    modifies db
    ensures db.Valid()
    ensures r != Fail
    ensures r == Rejected <==> !ValidArgs(itemId, name, link, pool)
    ensures r == Rejected ==> db.rows == old(db.rows)
    ensures r == Ok ==>
      var inserted := insertOk && itemId !in old(db.rows);
      var replaced := !inserted && update && updateOk;
      db.rows == (if inserted || replaced then old(db.rows)[itemId := NewItem(itemId, name, link, pool, today)]
                  else old(db.rows))
    // A replaced row starts over: its recall count and date are reset.
    ensures r == Ok && itemId in old(db.rows) && update && updateOk ==>
      itemId in db.rows && db.rows[itemId].totalRecalls == 0 && db.rows[itemId].lastRecall == today
    ensures r == Ok && itemId in old(db.rows) && !update ==> db.rows == old(db.rows)
  {
    if !ValidArgs(itemId, name, link, pool) {
      return Rejected;
    }
    var item := NewItem(itemId, name, link, pool, today);
    var inserted := db.InsertItem(item, insertOk);
    if !inserted {
      if update {
        var updated := db.UpdateItem(item, updateOk);
      }
    }
    r := Ok;
  }
}
