/** The CompletedSet: the file-backed staging area of items recalled this
    session, each with the pool it was re-rated into (or none) and the day it
    was completed. Line 1 of its file is the set date, line 2 the number of
    entries, and every further line one entry "<id> <pool or null> <date>".
    Every change rewrites the whole file. */
module CompletedSets {
  import opened Basics
  import opened Decimal
  import opened Dates

  /** CompletedSet.Pair: the staged pool (None for Java null) and recall date. */
  datatype Staged = Staged(pool: Option<Pool>, lastRecall: Date)

  /** What a completed-set file holds. */
  datatype CompletedSetFile = CompletedSetFile(date: Date, items: map<int, Staged>)

  /** The pool column of an entry line. */
  function PoolToken(pool: Option<Pool>): string {
    match pool
    case None => "null"
    case Some(p) => PoolName(p)
  }

  /** Reads the pool column: exactly "null" means no pool, anything else must
      name a pool in either case. */
  function ParsePoolToken(t: string): (r: Option<Option<Pool>>)
    ensures r == Some(None) <==> t == "null"
  {
    if t == "null" then Some(None)
    else
      match ParsePool(t)
      case None => None
      case Some(p) => Some(Some(p))
  }

  lemma ParsePoolTokenOfPoolToken(pool: Option<Pool>)
    ensures ParsePoolToken(PoolToken(pool)) == Some(pool)
  {
    match pool
    case None =>
    case Some(p) =>
      assert ToUpper(PoolName(p)) == PoolName(p);
  }

  /** One entry line as reloadItem writes it. */
  function EncodeEntry(id: int, s: Staged): string
    requires ValidDate(s.lastRecall)
  {
    ShowInt(id) + " " + PoolToken(s.pool) + " " + FormatDate(s.lastRecall)
  }

  /** One trimmed, non-blank entry line as loadSet reads it: exactly three
      space-separated fields, an int id, a pool token and a date. */
  function ParseEntry(line: string): (r: Option<(int, Staged)>)
    ensures r.Some? ==> IsInt32(r.value.0) && ValidDate(r.value.1.lastRecall)
  {
    var fields := JavaSplit(line, ' ');
    if |fields| != 3 then None
    else
      match ParseInt(fields[0])
      case None => None
      case Some(id) =>
        match ParsePoolToken(fields[1])
        case None => None
        case Some(pool) =>
          match ParseDate(fields[2])
          case None => None
          case Some(date) => Some((id, Staged(pool, date)))
  }

  /** Every entry line is read back as the entry it was written from, and
      trimming it first changes nothing. */
  lemma ParseEncodeEntry(id: int, s: Staged)
    requires IsInt32(id) && ValidDate(s.lastRecall)
    ensures Trim(EncodeEntry(id, s)) == EncodeEntry(id, s)
    ensures ParseEntry(EncodeEntry(id, s)) == Some((id, Staged(s.pool, s.lastRecall)))
  {
    var a, b, c := ShowInt(id), PoolToken(s.pool), FormatDate(s.lastRecall);
    ShowIntTrimmed(id);
    FormatDateShape(s.lastRecall);
    assert ' ' !in b by {
      match s.pool
      case None =>
      case Some(p) =>
    }
    var line := EncodeEntry(id, s);
    assert line == a + [' '] + b + [' '] + c;
    assert line[0] == a[0];
    assert line[|line| - 1] == c[9];
    TrimNoOp(line);
    SplitThree(a, b, c, ' ');
    ParseShowInt(id);
    ParsePoolTokenOfPoolToken(s.pool);
    ParseFormatDate(s.lastRecall);
  }

  /** One line of the entry section, read on its own. */
  datatype EntryLine = Blank | Malformed | Entry(id: int, staged: Staged)

  /** loadSet's loop body for one line: trimmed, a blank line skipped, any
      other line parsed as an entry. */
  function ReadEntryLine(line: string): (r: EntryLine)
    ensures r.Blank? <==> Trim(line) == []
    ensures r.Entry? ==> IsInt32(r.id) && ValidDate(r.staged.lastRecall)
  {
    var t := Trim(line);
    if t == [] then Blank
    else
      match ParseEntry(t)
      case None => Malformed
      case Some(e) => Entry(e.0, e.1)
  }

  function ReadEntryLines(lines: seq<string>): (rs: seq<EntryLine>)
    ensures |rs| == |lines|
  {
    seq(|lines|, i requires 0 <= i < |lines| => ReadEntryLine(lines[i]))
  }

  /** The entries read line after line into a HashMap: a later entry for the
      same id replaces the earlier one, and one malformed line fails the load. */
  function CollectEntries(rs: seq<EntryLine>): Option<map<int, Staged>> {
    if rs == [] then Some(map[])
    else
      match CollectEntries(rs[..|rs| - 1])
      case None => None
      case Some(m) =>
        match rs[|rs| - 1]
        case Blank => Some(m)
        case Malformed => None
        case Entry(id, s) => Some(m[id := s])
  }

  /** CompletedSet.loadSet: at least two lines, a date on the first, the
      second (the count) ignored, entries on the rest. */
  function LoadCompletedSet(lines: seq<string>): Option<CompletedSetFile> {
    if |lines| < 2 then None
    else
      match ParseDate(lines[0])
      case None => None
      case Some(date) =>
        match CollectEntries(ReadEntryLines(lines[2..]))
        case None => None
        case Some(items) => Some(CompletedSetFile(date, items))
  }

  /** An entry line reloadItem writes is read back by loadSet's loop body as
      that entry. */
  lemma ReadEncodedEntry(id: int, s: Staged)
    requires IsInt32(id) && ValidDate(s.lastRecall)
    ensures ReadEntryLine(EncodeEntry(id, s)) == Entry(id, s)
  {
    ParseEncodeEntry(id, s);
  }

  lemma {:induction false} CollectEntriesFailureSticks(rs: seq<EntryLine>, k: nat)
    requires k <= |rs| && CollectEntries(rs[..k]) == None
    ensures CollectEntries(rs) == None
  {
    if k < |rs| {
      assert rs[..|rs| - 1][..k] == rs[..k];
      CollectEntriesFailureSticks(rs[..|rs| - 1], k);
    } else {
      assert rs[..k] == rs;
    }
  }

  /** The entries of `m` the file can hold. */
  ghost predicate Storable(m: map<int, Staged>) {
    forall id :: id in m ==> IsInt32(id) && ValidDate(m[id].lastRecall)
  }

  /** The entry lines for the ids in `order`, in that order. */
  function EntryLines(order: seq<int>, m: map<int, Staged>): (lines: seq<string>)
    requires Storable(m) && forall id :: id in order ==> id in m
    ensures |lines| == |order|
  {
    seq(|order|, j requires 0 <= j < |order| => EncodeEntry(order[j], m[order[j]]))
  }

  lemma EntryLinesSnoc(order: seq<int>, id: int, m: map<int, Staged>)
    requires Storable(m) && id in m && forall x :: x in order ==> x in m
    ensures EntryLines(order + [id], m) == EntryLines(order, m) + [EncodeEntry(id, m[id])]
  {
    var l, r := EntryLines(order + [id], m), EntryLines(order, m) + [EncodeEntry(id, m[id])];
    assert forall j :: 0 <= j < |l| ==> l[j] == r[j];
  }

  /** CompletedSet.reloadItem, writing the entries in the order `order`. */
  function SerialiseCompletedSet(date: Date, order: seq<int>, m: map<int, Staged>): seq<string>
    requires ValidDate(date) && Storable(m) && forall id :: id in order ==> id in m
  {
    [FormatDate(date), ShowInt(|order|)] + EntryLines(order, m)
  }

  /** `m` cut down to the ids in `ids`. */
  function Restrict(m: map<int, Staged>, ids: set<int>): map<int, Staged> {
    map id | id in m && id in ids :: m[id]
  }

  /** Entry lines that each name an entry of `m` collect into `m` cut down to
      the ids they name. */
  lemma {:induction false} CollectEncodedEntries(rs: seq<EntryLine>, order: seq<int>, m: map<int, Staged>)
    requires |rs| == |order|
    requires forall j :: 0 <= j < |order| ==> order[j] in m && rs[j] == Entry(order[j], m[order[j]])
    ensures CollectEntries(rs) == Some(Restrict(m, Elems(order)))
  {
    if order == [] {
      assert Restrict(m, Elems(order)) == map[];
    } else {
      var n := |order| - 1;
      var front, last := order[..n], order[n];
      assert order == front + [last];
      CollectEncodedEntries(rs[..n], front, m);
      assert Elems(order) == Elems(front) + {last};
      assert Restrict(m, Elems(order)) == Restrict(m, Elems(front))[last := m[last]];
    }
  }

  lemma ReadEntryLinesOfEntryLines(order: seq<int>, m: map<int, Staged>)
    requires Storable(m) && forall id :: id in order ==> id in m
    ensures forall j :: 0 <= j < |order| ==> ReadEntryLines(EntryLines(order, m))[j] == Entry(order[j], m[order[j]])
  {
    var body := EntryLines(order, m);
    var rs := ReadEntryLines(body);
    forall j | 0 <= j < |order|
      ensures rs[j] == Entry(order[j], m[order[j]])
    {
      assert rs[j] == ReadEntryLine(body[j]);
      assert body[j] == EncodeEntry(order[j], m[order[j]]);
      ReadEncodedEntry(order[j], m[order[j]]);
    }
  }

  /** A file made of a date line, any count line and entry lines loads as
      that date and whatever the entry lines collect into. */
  lemma LoadOfParts(date: Date, count: string, body: seq<string>, m: map<int, Staged>)
    requires ValidDate(date) && CollectEntries(ReadEntryLines(body)) == Some(m)
    ensures LoadCompletedSet([FormatDate(date), count] + body) == Some(CompletedSetFile(date, m))
  {
    assert ([FormatDate(date), count] + body)[2..] == body;
    ParseFormatDate(date);
  }

  lemma CollectEntryLines(order: seq<int>, m: map<int, Staged>)
    requires Storable(m) && forall id :: id in order ==> id in m
    ensures CollectEntries(ReadEntryLines(EntryLines(order, m))) == Some(Restrict(m, Elems(order)))
  {
    ReadEntryLinesOfEntryLines(order, m);
    CollectEncodedEntries(ReadEntryLines(EntryLines(order, m)), order, m);
  }

  lemma RestrictToKeys(m: map<int, Staged>, ids: set<int>)
    requires ids == m.Keys
    ensures Restrict(m, ids) == m
  {
  }

  /** Serialise-then-parse round trip: the file reloadItem writes reads back as
      the same date and the same entries, whatever order they were written in. */
  lemma LoadSerialisedCompletedSet(date: Date, order: seq<int>, m: map<int, Staged>)
    requires ValidDate(date) && Storable(m)
    requires Elems(order) == m.Keys
    ensures LoadCompletedSet(SerialiseCompletedSet(date, order, m)) == Some(CompletedSetFile(date, m))
  {
    assert forall id :: id in order ==> id in Elems(order);
    CollectEntryLines(order, m);
    RestrictToKeys(m, Elems(order));
    LoadOfParts(date, ShowInt(|order|), EntryLines(order, m), m);
  }

  /** An entry line appended for an id that is already staged replaces its
      entry: the last entry wins. */
  lemma LaterEntryWins(body: seq<string>, id: int, s: Staged)
    requires IsInt32(id) && ValidDate(s.lastRecall)
    requires CollectEntries(ReadEntryLines(body)).Some?
    ensures CollectEntries(ReadEntryLines(body + [EncodeEntry(id, s)]))
      == Some(CollectEntries(ReadEntryLines(body)).value[id := s])
  {
    var rs, rs' := ReadEntryLines(body), ReadEntryLines(body + [EncodeEntry(id, s)]);
    ReadEncodedEntry(id, s);
    assert rs' == rs + [Entry(id, s)];
    assert rs'[..|rs'| - 1] == rs;
  }

  class CompletedSet {
    var setDate: Date
    var items: map<int, Staged>
    /** The backing file, line by line. */
    var file: seq<string>

    ghost predicate Wellformed()
      reads this
    {
      ValidDate(setDate) && Storable(items)
    }

    /** The backing file reads back as exactly the in-memory set. */
    ghost predicate Valid()
      reads this
    {
      Wellformed() && LoadCompletedSet(file) == Some(CompletedSetFile(setDate, items))
    }

    /** The file is exactly what reloadItem writes for the current state. */
    ghost predicate Rewritten()
      reads this
      requires Wellformed()
    {
      exists order :: Distinct(order) && Elems(order) == items.Keys
        && file == SerialiseCompletedSet(setDate, order, items)
    }

    /** initSet: a new, empty set dated today. */
    constructor Create(today: Date)
      requires ValidDate(today)
      ensures Valid() && Rewritten()
      ensures setDate == today && items == map[] && file == [FormatDate(today), "0"]
    {
      setDate, items := today, map[];
      file := [FormatDate(today), "0"];
      new;
      assert Elems([]) == {};
      assert file == SerialiseCompletedSet(today, [], map[]);
      LoadSerialisedCompletedSet(today, [], map[]);
    }

    /** loadSet: reads an existing file into the set; false stands for the
        exception a malformed file raises. */
    method LoadSet(lines: seq<string>) returns (ok: bool)
      modifies this
      ensures ok <==> LoadCompletedSet(lines).Some?
      ensures ok ==> Valid() && file == lines && LoadCompletedSet(lines) == Some(CompletedSetFile(setDate, items))
    {
      if |lines| < 2 {
        return false;
      }
      var date := ParseDate(lines[0]);
      if date.None? {
        return false;
      }
      var read := ReadEntries(lines[2..]);
      if read.None? {
        return false;
      }
      setDate, items, file := date.value, read.value, lines;
      ok := true;
    }

    /** reloadItem: rewrites the whole file from the in-memory state. */
    method ReloadItem()
      requires Wellformed()
      modifies this`file
      ensures Valid() && Rewritten()
      ensures |file| == |items| + 2 && file[0] == FormatDate(setDate) && file[1] == ShowInt(|items|)
    {
      var body, order := WriteEntries(items);
      file := [FormatDate(setDate), ShowInt(|items|)] + body;
      assert file == SerialiseCompletedSet(setDate, order, items);
      LoadSerialisedCompletedSet(setDate, order, items);
    }

    /** addItem(id, pool, date): stages the id unless it is already staged
        (the first staging wins); true iff it was added. */
    method AddItem(id: int, pool: Option<Pool>, date: Date) returns (r: bool)
      requires Valid() && IsInt32(id) && ValidDate(date)
      modifies this`items, this`file
      ensures r <==> id !in old(items)
      ensures r ==> items == old(items)[id := Staged(pool, date)] && Rewritten()
      ensures !r ==> items == old(items) && file == old(file)
      ensures Valid()
    {
      if id in items {
        return false;
      }
      items := items[id := Staged(pool, date)];
      ReloadItem();
      r := true;
    }

    /** addItem(id, pool): the same, dated today. */
    method AddItemToday(id: int, pool: Option<Pool>, today: Date) returns (r: bool)
      requires Valid() && IsInt32(id) && ValidDate(today)
      modifies this`items, this`file
      ensures r <==> id !in old(items)
      ensures r ==> items == old(items)[id := Staged(pool, today)]
      ensures !r ==> items == old(items) && file == old(file)
      ensures Valid()
    {
      r := AddItem(id, pool, today);
    }

    /** removeItem: true iff the id was staged; only then is the file rewritten. */
    method RemoveItem(id: int) returns (r: bool)
      requires Valid()
      modifies this`items, this`file
      ensures r <==> id in old(items)
      ensures items == old(items) - {id}
      ensures !r ==> file == old(file)
      ensures Valid()
    {
      if id !in items {
        return false;
      }
      items := items - {id};
      ReloadItem();
      r := true;
    }

    /** containsItem: whether the id is staged; nothing changes. */
    method ContainsItem(id: int) returns (r: bool)
      ensures r <==> id in items
    {
      r := id in items;
    }

    /** clearSet: drops every entry; reports whether the set is now empty. */
    method ClearSet() returns (r: bool)
      requires Wellformed()
      modifies this`items, this`file
      ensures items == map[] && r
      ensures Valid() && Rewritten()
    {
      items := map[];
      ReloadItem();
      r := |items| == 0;
    }

    /** setSetDate: changes the set date only. */
    method SetSetDate(date: Date)
      requires Wellformed() && ValidDate(date)
      modifies this`setDate, this`file
      ensures setDate == date && Valid() && Rewritten()
    {
      setDate := date;
      ReloadItem();
    }
  }

  /** The entry-writing loop of reloadItem: one line per entry, in the order
      the map yields them. */
  method WriteEntries(m: map<int, Staged>) returns (lines: seq<string>, ghost order: seq<int>)
    requires Storable(m)
    ensures Distinct(order) && Elems(order) == m.Keys && |order| == |m|
    ensures lines == EntryLines(order, m)
  {
    lines, order := [], [];
    var rest := m.Keys;
    while rest != {}
      invariant rest <= m.Keys
      invariant forall x :: x in order ==> x in m
      invariant Elems(order) == m.Keys - rest
      invariant |order| == |m| - |rest|
      invariant Distinct(order)
      invariant lines == EntryLines(order, m)
      decreases |rest|
    {
      NonEmptyHasElement(rest);
      var id :| id in rest;
      lines := lines + [EncodeEntry(id, m[id])];
      EntryLinesSnoc(order, id, m);
      ElemsSnoc(order, id);
      DistinctSnoc(order, id);
      order := order + [id];
      rest := rest - {id};
    }
  }

  /** What one more line does to the entries collected so far. */
  lemma CollectEntriesStep(rs: seq<EntryLine>, i: nat)
    requires i < |rs|
    ensures rs[i].Malformed? || CollectEntries(rs[..i]).None? ==> CollectEntries(rs[..i + 1]) == None
    ensures rs[i].Blank? ==> CollectEntries(rs[..i + 1]) == CollectEntries(rs[..i])
    ensures rs[i].Entry? && CollectEntries(rs[..i]).Some?
      ==> CollectEntries(rs[..i + 1]) == Some(CollectEntries(rs[..i]).value[rs[i].id := rs[i].staged])
  {
    assert rs[..i + 1][..i] == rs[..i];
  }

  /** The entry-reading loop of loadSet, stopping at the first malformed line. */
  method ReadEntries(lines: seq<string>) returns (r: Option<map<int, Staged>>)
    ensures r == CollectEntries(ReadEntryLines(lines))
    ensures r.Some? ==> Storable(r.value)
  {
    ghost var rs := ReadEntryLines(lines);
    var m: map<int, Staged> := map[];
    var i := 0;
    while i < |lines|
      invariant 0 <= i <= |lines|
      invariant CollectEntries(rs[..i]) == Some(m)
      invariant Storable(m)
    {
      var e := ReadEntryLine(lines[i]);
      assert rs[i] == e;
      CollectEntriesStep(rs, i);
      match e {
        case Blank =>
        case Malformed =>
          CollectEntriesFailureSticks(rs, i + 1);
          return None;
        case Entry(id, staged) =>
          assert IsInt32(id) && ValidDate(staged.lastRecall);
          m := m[id := staged];
      }
      i := i + 1;
    }
    assert rs[..i] == rs;
    r := Some(m);
  }
}
