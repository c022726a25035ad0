/** The CSV importer (CSVImporter): records arrive already split into fields,
    as the CSV library hands them over. The first record may be a header;
    every other record must have six fields (id, name, link, pool, last recall,
    total recalls) or the whole parse is aborted; a record whose values do not
    parse or do not pass validation is skipped and counted. */
module CsvImport {
  import opened Basics
  import opened Decimal
  import opened Dates

  /** sanitize: every double and single quote removed, then trimmed. */
  function Sanitize(s: string): (r: string)
    ensures '"' !in r && '\'' !in r
    ensures r == [] || (!IsTrimmable(r[0]) && !IsTrimmable(r[|r| - 1]))
  {
    var unquoted := RemoveChar(RemoveChar(s, '"'), '\'');
    TrimShape(unquoted);
    Trim(unquoted)
  }

  /** A value that sanitize leaves alone: no quotes, no blank at either end. */
  predicate Clean(s: string) {
    '"' !in s && '\'' !in s && (s == [] || (!IsTrimmable(s[0]) && !IsTrimmable(s[|s| - 1])))
  }

  lemma SanitizeClean(s: string)
    requires Clean(s)
    ensures Sanitize(s) == s
  {
    RemoveAbsentChar(s, '"');
    RemoveAbsentChar(s, '\'');
    TrimNoOp(s);
  }

  /** Sanitizing twice is sanitizing once. */
  lemma SanitizeIdempotent(s: string)
    ensures Sanitize(Sanitize(s)) == Sanitize(s)
  {
    SanitizeClean(Sanitize(s));
  }

  /** isValidHeader: six fields, none blank after trimming. */
  predicate IsValidHeader(r: seq<string>) {
    |r| == 6 && forall i :: 0 <= i < 6 ==> Trim(r[i]) != []
  }

  /** The first record is taken for a header when its first field, trimmed
      (not sanitized), is not an integer. */
  predicate LooksLikeHeader(r: seq<string>) {
    r == [] || ParseInt(Trim(r[0])).None?
  }

  /** What validateRecord makes of one record. */
  datatype RecordCheck =
    | Malformed            // not six fields: the parse is aborted
    | Skipped              // a value does not parse or fails validation
    | Accepted(item: Item)

  /** What sanitize and the field parsers make of a six-field record; None
      where a parser throws. */
  datatype Fields = Fields(id: Option<int>, name: string, link: string, pool: Option<Pool>,
                           lastRecall: Option<Date>, totalRecalls: Option<int>)

  function ReadFields(r: seq<string>, today: Date): (f: Fields)
    requires |r| == 6 && ValidDate(today)
    ensures f.lastRecall.Some? ==> ValidDate(f.lastRecall.value)
    ensures f.id.Some? ==> IsInt32(f.id.value)
    ensures f.totalRecalls.Some? ==> IsInt32(f.totalRecalls.value)
    ensures Clean(f.name) && Clean(f.link)
  {
    var last := Sanitize(r[4]);
    var total := Sanitize(r[5]);
    Fields(ParseInt(Sanitize(r[0])), Sanitize(r[1]), Sanitize(r[2]), ParsePool(Sanitize(r[3])),
      if last == [] then Some(today) else ParseDate(last),
      if total == [] then Some(0) else ParseInt(total))
  }

  /** The validity test of a record whose values all parsed. */
  predicate Acceptable(id: int, name: string, link: string, lastRecall: Date, totalRecalls: int, today: Date) {
    id > 0 && name != [] && StartsWith(link, "https://") && totalRecalls >= 0 && !IsAfter(lastRecall, today)
  }

  /** The checks of validateRecord once the six fields are read: a value
      that did not parse, or a failed validation, skips the row. */
  function CheckFields(f: Fields, today: Date): (c: RecordCheck)
    ensures !c.Malformed?
    ensures c.Accepted? ==> Acceptable(c.item.id, c.item.name, c.item.link, c.item.lastRecall, c.item.totalRecalls, today)
    ensures c.Accepted? ==> c.item.name == f.name && c.item.link == f.link
    ensures c.Accepted? ==> Some(c.item.lastRecall) == f.lastRecall && Some(c.item.id) == f.id && Some(c.item.totalRecalls) == f.totalRecalls
  {
    if f.id.None? || f.pool.None? || f.lastRecall.None? || f.totalRecalls.None? then Skipped
    else if !Acceptable(f.id.value, f.name, f.link, f.lastRecall.value, f.totalRecalls.value, today) then Skipped
    else Accepted(Item(f.id.value, f.name, f.link, f.pool.value, f.lastRecall.value, f.totalRecalls.value))
  }

  /** validateRecord */
  function ValidateRecord(r: seq<string>, today: Date): (c: RecordCheck)
    requires ValidDate(today)
    ensures c.Malformed? <==> |r| != 6
    ensures c.Accepted? ==> Acceptable(c.item.id, c.item.name, c.item.link, c.item.lastRecall, c.item.totalRecalls, today)
    ensures c.Accepted? ==> ValidDate(c.item.lastRecall) && IsInt32(c.item.id) && IsInt32(c.item.totalRecalls)
    ensures c.Accepted? ==> Clean(c.item.name) && Clean(c.item.link)
  {
    if |r| != 6 then Malformed else CheckFields(ReadFields(r, today), today)
  }

  /** The record the program's own formats give for an item: decimal id,
      name, link, pool name, ISO date, decimal count. */
  function WrittenRecord(it: Item): (r: seq<string>)
    requires ValidDate(it.lastRecall)
    ensures |r| == 6
  {
    [ShowInt(it.id), it.name, it.link, PoolName(it.pool), FormatDate(it.lastRecall), ShowInt(it.totalRecalls)]
  }

  /** Every field of a written record reads back as the item's value. */
  lemma ReadWrittenFields(it: Item, today: Date)
    requires ValidDate(today) && ValidDate(it.lastRecall)
    requires IsInt32(it.id) && IsInt32(it.totalRecalls)
    requires Clean(it.name) && Clean(it.link)
    ensures ReadFields(WrittenRecord(it), today)
      == Fields(Some(it.id), it.name, it.link, Some(it.pool), Some(it.lastRecall), Some(it.totalRecalls))
  {
    var r := WrittenRecord(it);
    var f := ReadFields(r, today);
    assert f.id == Some(it.id) by {
      ShownIntClean(it.id);
      ParseShowInt(it.id);
    }
    assert f.name == it.name && f.link == it.link by {
      SanitizeClean(it.name);
      SanitizeClean(it.link);
    }
    assert f.pool == Some(it.pool) by {
      PoolNameReadBack(it.pool);
    }
    assert f.lastRecall == Some(it.lastRecall) by {
      ShownDateClean(it.lastRecall);
      ParseFormatDate(it.lastRecall);
    }
    assert f.totalRecalls == Some(it.totalRecalls) by {
      ShownIntClean(it.totalRecalls);
      ParseShowInt(it.totalRecalls);
    }
  }

  /** An item written out as a record is read back as itself when it is
      valid, and skipped otherwise. */
  lemma ValidateWrittenItem(it: Item, today: Date)
    requires ValidDate(today) && ValidDate(it.lastRecall)
    requires IsInt32(it.id) && IsInt32(it.totalRecalls)
    requires Clean(it.name) && Clean(it.link)
    ensures ValidateRecord(WrittenRecord(it), today)
      == if Acceptable(it.id, it.name, it.link, it.lastRecall, it.totalRecalls, today) then Accepted(it) else Skipped
  {
    ReadWrittenFields(it, today);
    var f := Fields(Some(it.id), it.name, it.link, Some(it.pool), Some(it.lastRecall), Some(it.totalRecalls));
    assert ValidateRecord(WrittenRecord(it), today) == CheckFields(f, today);
  }

  /** A pool name survives sanitize and parses back to its pool. */
  lemma PoolNameReadBack(p: Pool)
    ensures ParsePool(Sanitize(PoolName(p))) == Some(p)
  {
    var s := PoolName(p);
    assert |s| == 1 && s[0] in {'H', 'M', 'L'};
    assert Clean(s);
    SanitizeClean(s);
    assert ToUpper(s) == s;
  }

  lemma ShownIntClean(n: int)
    ensures Clean(ShowInt(n)) && Sanitize(ShowInt(n)) == ShowInt(n) && ShowInt(n) != []
  {
    ShowIntTrimmed(n);
    var s := ShowNat(if n < 0 then -n else n);
    assert ShowInt(n) == s || ShowInt(n) == "-" + s;
    assert forall c :: c in s ==> IsDigit(c);
    SanitizeClean(ShowInt(n));
  }

  lemma ShownDateClean(d: Date)
    requires ValidDate(d)
    ensures Clean(FormatDate(d)) && Sanitize(FormatDate(d)) == FormatDate(d) && FormatDate(d) != []
  {
    var s := FormatDate(d);
    FormatDateShape(d);
    assert AllDigits(s[..4]) && AllDigits(s[5..7]) && AllDigits(s[8..]);
    forall i | 0 <= i < 10 ensures s[i] != '"' && s[i] != '\'' {
      if i < 4 {
        assert s[i] == s[..4][i];
      } else if 5 <= i < 7 {
        assert s[i] == s[5..7][i - 5];
      } else if 8 <= i {
        assert s[i] == s[8..][i - 8];
      }
    }
    SanitizeClean(s);
  }

  /** A blank last-recall field means today and a blank count means zero. */
  lemma BlankFieldsDefault(r: seq<string>, today: Date)
    requires ValidDate(today) && |r| == 6
    requires Sanitize(r[4]) == [] && Sanitize(r[5]) == []
    ensures ReadFields(r, today).lastRecall == Some(today)
    ensures ReadFields(r, today).totalRecalls == Some(0)
  {
  }

  // ---------------------------------------------------------------------------
  // The record loop.

  /** The result of parse: the accepted items in input order and the number
      of skipped rows, or an abort (the RuntimeException parse throws). */
  datatype ParseOutcome = Parsed(items: seq<Item>, badRows: nat) | Aborted

  function CheckRecords(rows: seq<seq<string>>, today: Date): (r: seq<RecordCheck>)
    requires ValidDate(today)
    ensures |r| == |rows|
  {
    seq(|rows|, i requires 0 <= i < |rows| => ValidateRecord(rows[i], today))
  }

  /** One data row added to the outcome so far: accepted items are appended,
      skipped rows counted, and a malformed row aborts everything. */
  function Absorb(o: ParseOutcome, c: RecordCheck): ParseOutcome {
    match o
    case Aborted => Aborted
    case Parsed(items, bad) =>
      match c
      case Malformed => Aborted
      case Skipped => Parsed(items, bad + 1)
      case Accepted(it) => Parsed(items + [it], bad)
  }

  lemma AbsorbSkipped(items: seq<Item>, bad: nat)
    ensures Absorb(Parsed(items, bad), Skipped) == Parsed(items, bad + 1)
  {
  }

  lemma AbsorbAccepted(items: seq<Item>, bad: nat, it: Item)
    ensures Absorb(Parsed(items, bad), Accepted(it)) == Parsed(items + [it], bad)
  {
  }

  /** The data rows, folded left to right. */
  function CollectChecks(checks: seq<RecordCheck>): ParseOutcome {
    if checks == [] then Parsed([], 0)
    else Absorb(CollectChecks(checks[..|checks| - 1]), checks[|checks| - 1])
  }

  /** The rows after the header, if any: the first record is dropped when it
      is a well-formed header, and a first record that is neither a header nor
      data aborts the parse (None). */
  function DataRows(records: seq<seq<string>>): Option<seq<seq<string>>> {
    if records == [] || !LooksLikeHeader(records[0]) then Some(records)
    else if IsValidHeader(records[0]) then Some(records[1..])
    else None
  }

  /** parse */
  function ParseCsv(records: seq<seq<string>>, today: Date): ParseOutcome
    requires ValidDate(today)
  {
    match DataRows(records)
    case None => Aborted
    case Some(rows) => CollectChecks(CheckRecords(rows, today))
  }

  /** Each row is either returned or counted, never both. */
  lemma {:induction false} CollectChecksCount(checks: seq<RecordCheck>)
    ensures CollectChecks(checks).Parsed? ==> |CollectChecks(checks).items| + CollectChecks(checks).badRows == |checks|
  {
    if checks != [] {
      CollectChecksCount(checks[..|checks| - 1]);
    }
  }

  /** The parse aborts exactly when some row is malformed. */
  lemma {:induction false} CollectChecksAborts(checks: seq<RecordCheck>)
    ensures CollectChecks(checks).Aborted? <==> exists i :: 0 <= i < |checks| && checks[i].Malformed?
  {
    if checks != [] {
      var p := checks[..|checks| - 1];
      CollectChecksAborts(p);
      assert forall i :: 0 <= i < |p| ==> p[i] == checks[i];
    }
  }

  /** The returned items are exactly the accepted ones, in input order. */
  lemma {:induction false} CollectChecksItems(checks: seq<RecordCheck>)
    ensures CollectChecks(checks).Parsed? ==> CollectChecks(checks).items == AcceptedItems(checks)
  {
    if checks != [] {
      CollectChecksItems(checks[..|checks| - 1]);
    }
  }

  /** The items of the accepted checks, in order. */
  function AcceptedItems(checks: seq<RecordCheck>): seq<Item> {
    if checks == [] then []
    else AcceptedItems(checks[..|checks| - 1]) + (if checks[|checks| - 1].Accepted? then [checks[|checks| - 1].item] else [])
  }

  /** Every item parse returns passed validation. */
  lemma {:induction false} AcceptedItemsValid(rows: seq<seq<string>>, today: Date)
    requires ValidDate(today)
    ensures forall it :: it in AcceptedItems(CheckRecords(rows, today)) ==>
      Acceptable(it.id, it.name, it.link, it.lastRecall, it.totalRecalls, today) && ValidDate(it.lastRecall)
  {
    if rows != [] {
      var p := rows[..|rows| - 1];
      AcceptedItemsValid(p, today);
      assert CheckRecords(rows, today)[..|rows| - 1] == CheckRecords(p, today);
    }
  }

  lemma CollectChecksStep(checks: seq<RecordCheck>, i: int)
    requires 0 <= i < |checks|
    ensures CollectChecks(checks[..i + 1]) == Absorb(CollectChecks(checks[..i]), checks[i])
  {
    assert checks[..i + 1][..i] == checks[..i];
  }

  /** Once a prefix of the rows aborts, the whole parse does. */
  lemma {:induction false} CollectChecksAbortSticks(checks: seq<RecordCheck>, k: int)
    requires 0 <= k <= |checks| && CollectChecks(checks[..k]).Aborted?
    ensures CollectChecks(checks).Aborted?
  {
    if k < |checks| {
      var p := checks[..|checks| - 1];
      assert p[..k] == checks[..k];
      CollectChecksAbortSticks(p, k);
    } else {
      assert checks[..k] == checks;
    }
  }

  /** validateRecord on the i-th data row. */
  method ValidateRow(rows: seq<seq<string>>, today: Date, i: int) returns (c: RecordCheck)
    requires ValidDate(today) && 0 <= i < |rows|
    ensures c == CheckRecords(rows, today)[i]
  {
    c := ValidateRecord(rows[i], today);
  }

  /** The loop of parse over the data rows, with the item list and the
      bad-row counter; a malformed row ends it at once. */
  method ParseRows(rows: seq<seq<string>>, today: Date) returns (r: ParseOutcome)
    requires ValidDate(today)
    ensures r == CollectChecks(CheckRecords(rows, today))
  {
    var items: seq<Item> := [];
    var badRows: nat := 0;
    ghost var checks := CheckRecords(rows, today);
    var i := 0;
    while i < |rows|
      invariant 0 <= i <= |rows|
      invariant CollectChecks(checks[..i]) == Parsed(items, badRows)
    {
      var c := ValidateRow(rows, today, i);
      CollectChecksStep(checks, i);
      if c.Malformed? {
        CollectChecksAbortSticks(checks, i + 1);
        return Aborted;
      } else if c.Skipped? {
        AbsorbSkipped(items, badRows);
        badRows := badRows + 1;
      } else {
        AbsorbAccepted(items, badRows, c.item);
        items := items + [c.item];
      }
      i := i + 1;
    }
    assert checks[..i] == checks;
    r := Parsed(items, badRows);
  }

  /** parse: the first record is a header to skip, a bad header, or data. */
  method Parse(records: seq<seq<string>>, today: Date) returns (r: ParseOutcome)
    requires ValidDate(today)
    ensures r == ParseCsv(records, today)
  {
    var start := 0;
    if records != [] && LooksLikeHeader(records[0]) {
      if !IsValidHeader(records[0]) {
        return Aborted;
      }
      start := 1;
    }
    assert DataRows(records) == Some(records[start..]);
    r := ParseRows(records[start..], today);
  }
}
