/** The WorkingSet: the file-backed set of item ids queued for the current
    session. Line 1 of its file is the creation date, line 2 the number of ids,
    and every further line one id. Every change rewrites the whole file. */
module WorkingSets {
  import opened Basics
  import opened Decimal
  import opened Dates

  /** What a working-set file holds. */
  datatype WorkingSetFile = WorkingSetFile(date: Date, ids: set<int>)

  /** One id line, read on its own. */
  datatype IdLine = BlankLine | BadLine | IdOf(id: int)

  /** loadSet's loop body for one line: trimmed, a blank line skipped, any
      other line read with Integer.parseInt. */
  function ReadIdLine(line: string): (r: IdLine)
    ensures r.BlankLine? <==> Trim(line) == []
    ensures r.IdOf? ==> IsInt32(r.id)
  {
    var t := Trim(line);
    if t == [] then BlankLine
    else
      match ParseInt(t)
      case None => BadLine
      case Some(id) => IdOf(id)
  }

  function ReadIdLines(lines: seq<string>): (rs: seq<IdLine>)
    ensures |rs| == |lines|
  {
    seq(|lines|, i requires 0 <= i < |lines| => ReadIdLine(lines[i]))
  }

  /** The ids read line after line into a HashSet; one bad line fails the load. */
  function CollectIds(rs: seq<IdLine>): Option<set<int>> {
    if rs == [] then Some({})
    else
      match CollectIds(rs[..|rs| - 1])
      case None => None
      case Some(ids) =>
        match rs[|rs| - 1]
        case BlankLine => Some(ids)
        case BadLine => None
        case IdOf(id) => Some(ids + {id})
  }

  /** WorkingSet.loadSet: at least two lines, a date on the first, the second
      (the count) ignored, ids on the rest. */
  function LoadWorkingSet(lines: seq<string>): Option<WorkingSetFile> {
    if |lines| < 2 then None
    else
      match ParseDate(lines[0])
      case None => None
      case Some(date) =>
        match CollectIds(ReadIdLines(lines[2..]))
        case None => None
        case Some(ids) => Some(WorkingSetFile(date, ids))
  }

  /** One line per id, in the given order. */
  function IdLines(order: seq<int>): (lines: seq<string>)
    ensures |lines| == |order|
  {
    seq(|order|, j requires 0 <= j < |order| => ShowInt(order[j]))
  }

  lemma IdLinesSnoc(order: seq<int>, id: int)
    ensures IdLines(order + [id]) == IdLines(order) + [ShowInt(id)]
  {
    var l, r := IdLines(order + [id]), IdLines(order) + [ShowInt(id)];
    assert forall j :: 0 <= j < |l| ==> l[j] == r[j];
  }

  /** WorkingSet.reloadSet, writing the ids in the order `order`. */
  function SerialiseWorkingSet(date: Date, order: seq<int>): seq<string>
    requires ValidDate(date)
  {
    [FormatDate(date), ShowInt(|order|)] + IdLines(order)
  }

  /** An id line reloadSet writes is read back by loadSet's loop body as that id. */
  lemma ReadShownId(id: int)
    requires IsInt32(id)
    ensures ReadIdLine(ShowInt(id)) == IdOf(id)
  {
    ShowIntTrimmed(id);
    TrimNoOp(ShowInt(id));
    ParseShowInt(id);
  }

  lemma {:induction false} CollectShownIds(rs: seq<IdLine>, order: seq<int>)
    requires |rs| == |order|
    requires forall j :: 0 <= j < |order| ==> rs[j] == IdOf(order[j])
    ensures CollectIds(rs) == Some(Elems(order))
  {
    if order == [] {
      assert Elems(order) == {};
    } else {
      var n := |order| - 1;
      var front, last := order[..n], order[n];
      assert order == front + [last];
      CollectShownIds(rs[..n], front);
      assert Elems(order) == Elems(front) + {last};
    }
  }

  /** Serialise-then-parse round trip: the file reloadSet writes reads back as
      the same date and the same set of ids, whatever order it was written in. */
  lemma LoadSerialisedWorkingSet(date: Date, order: seq<int>)
    requires ValidDate(date)
    requires forall x :: x in order ==> IsInt32(x)
    ensures LoadWorkingSet(SerialiseWorkingSet(date, order)) == Some(WorkingSetFile(date, Elems(order)))
  {
    var lines := SerialiseWorkingSet(date, order);
    var body := IdLines(order);
    assert lines[2..] == body;
    var rs := ReadIdLines(body);
    forall j | 0 <= j < |order|
      ensures rs[j] == IdOf(order[j])
    {
      assert rs[j] == ReadIdLine(body[j]);
      assert body[j] == ShowInt(order[j]);
      ReadShownId(order[j]);
    }
    CollectShownIds(rs, order);
    ParseFormatDate(date);
  }

  lemma {:induction false} CollectIdsFailureSticks(rs: seq<IdLine>, k: nat)
    requires k <= |rs| && CollectIds(rs[..k]) == None
    ensures CollectIds(rs) == None
  {
    if k < |rs| {
      assert rs[..|rs| - 1][..k] == rs[..k];
      CollectIdsFailureSticks(rs[..|rs| - 1], k);
    } else {
      assert rs[..k] == rs;
    }
  }

  lemma {:induction false} CollectSkipsBlank(p: seq<IdLine>, q: seq<IdLine>)
    ensures CollectIds(p + [BlankLine] + q) == CollectIds(p + q)
  {
    if q == [] {
      assert p + [BlankLine] + q == p + [BlankLine];
      assert (p + [BlankLine])[..|p|] == p;
      assert p + q == p;
    } else {
      var q' := q[..|q| - 1];
      CollectSkipsBlank(p, q');
      assert (p + [BlankLine] + q)[..|p| + |q|] == p + [BlankLine] + q';
      assert (p + q)[..|p| + |q| - 1] == p + q';
    }
  }

  /** A blank line inserted anywhere among the id lines changes nothing the
      file loads as. */
  lemma BlankIdLineSkipped(lines: seq<string>, k: nat, blank: string)
    requires 2 <= k <= |lines| && Trim(blank) == []
    ensures LoadWorkingSet(lines[..k] + [blank] + lines[k..]) == LoadWorkingSet(lines)
  {
    var lines' := lines[..k] + [blank] + lines[k..];
    assert lines'[0] == lines[0];
    assert lines'[2..] == lines[2..k] + [blank] + lines[k..];
    assert lines[2..] == lines[2..k] + lines[k..];
    var p, q := ReadIdLines(lines[2..k]), ReadIdLines(lines[k..]);
    assert ReadIdLines(lines'[2..]) == p + [BlankLine] + q;
    assert ReadIdLines(lines[2..]) == p + q;
    CollectSkipsBlank(p, q);
  }

  /** The count on line 2 is never read: any text there loads the same. */
  lemma CountLineIgnored(lines: seq<string>, count: string)
    requires |lines| >= 2
    ensures LoadWorkingSet(lines[1 := count]) == LoadWorkingSet(lines)
  {
    assert lines[1 := count][2..] == lines[2..];
  }

  /** What one more line does to the ids collected so far. */
  lemma CollectIdsStep(rs: seq<IdLine>, i: nat)
    requires i < |rs|
    ensures rs[i].BadLine? || CollectIds(rs[..i]).None? ==> CollectIds(rs[..i + 1]) == None
    ensures rs[i].BlankLine? ==> CollectIds(rs[..i + 1]) == CollectIds(rs[..i])
    ensures rs[i].IdOf? && CollectIds(rs[..i]).Some? ==> CollectIds(rs[..i + 1]) == Some(CollectIds(rs[..i]).value + {rs[i].id})
  {
    assert rs[..i + 1][..i] == rs[..i];
  }

  /** The id-reading loop of loadSet, stopping at the first bad line. */
  method ReadIds(lines: seq<string>) returns (r: Option<set<int>>)
    ensures r == CollectIds(ReadIdLines(lines))
    ensures r.Some? ==> forall id :: id in r.value ==> IsInt32(id)
  {
    ghost var rs := ReadIdLines(lines);
    var ids: set<int> := {};
    var i := 0;
    while i < |lines|
      invariant 0 <= i <= |lines|
      invariant CollectIds(rs[..i]) == Some(ids)
      invariant forall id :: id in ids ==> IsInt32(id)
    {
      var line := ReadIdLine(lines[i]);
      assert rs[i] == line;
      CollectIdsStep(rs, i);
      match line {
        case BlankLine =>
        case BadLine =>
          CollectIdsFailureSticks(rs, i + 1);
          return None;
        case IdOf(id) =>
          ids := ids + {id};
      }
      i := i + 1;
    }
    assert rs[..i] == rs;
    r := Some(ids);
  }

  /** The id-writing loop of reloadSet: one line per id, in the order the set
      yields them. */
  method WriteIds(ids: set<int>) returns (lines: seq<string>, ghost order: seq<int>)
    ensures Distinct(order) && Elems(order) == ids && |order| == |ids|
    ensures lines == IdLines(order)
  {
    lines, order := [], [];
    var rest := ids;
    while rest != {}
      invariant rest <= ids
      invariant Elems(order) == ids - rest
      invariant |order| == |ids| - |rest|
      invariant Distinct(order)
      invariant lines == IdLines(order)
      decreases |rest|
    {
      NonEmptyHasElement(rest);
      var id :| id in rest;
      lines := lines + [ShowInt(id)];
      IdLinesSnoc(order, id);
      ElemsSnoc(order, id);
      DistinctSnoc(order, id);
      order := order + [id];
      rest := rest - {id};
    }
  }

  class WorkingSet {
    var setDate: Date
    var ids: set<int>
    /** The backing file, line by line. */
    var file: seq<string>

    /** The in-memory state is one the file format can hold. */
    ghost predicate Wellformed()
      reads this
    {
      ValidDate(setDate) && forall id :: id in ids ==> IsInt32(id)
    }

    /** The backing file reads back as exactly the in-memory set. */
    ghost predicate Valid()
      reads this
    {
      Wellformed() && LoadWorkingSet(file) == Some(WorkingSetFile(setDate, ids))
    }

    /** The file is exactly what reloadSet writes for the current state. */
    ghost predicate Rewritten()
      reads this
      requires Wellformed()
    {
      exists order :: Distinct(order) && Elems(order) == ids && file == SerialiseWorkingSet(setDate, order)
    }

    /** initSet: a new, empty set dated today. */
    constructor Create(today: Date)
      requires ValidDate(today)
      ensures Valid() && Rewritten()
      ensures setDate == today && ids == {} && file == [FormatDate(today), "0"]
    {
      setDate, ids := today, {};
      file := [FormatDate(today), "0"];
      new;
      assert file == SerialiseWorkingSet(today, []);
      LoadSerialisedWorkingSet(today, []);
    }

    /** loadSet: reads an existing file into the set; false stands for the
        exception a malformed file raises. */
    method LoadSet(lines: seq<string>) returns (ok: bool)
      modifies this
      ensures ok <==> LoadWorkingSet(lines).Some?
      ensures ok ==> Valid() && file == lines && LoadWorkingSet(lines) == Some(WorkingSetFile(setDate, ids))
    {
      if |lines| < 2 {
        return false;
      }
      var date := ParseDate(lines[0]);
      if date.None? {
        return false;
      }
      var read := ReadIds(lines[2..]);
      if read.None? {
        return false;
      }
      setDate, ids, file := date.value, read.value, lines;
      ok := true;
    }

    /** reloadSet: rewrites the whole file from the in-memory state. */
    method ReloadSet()
      requires Wellformed()
      modifies this`file
      ensures Valid() && Rewritten()
      ensures |file| == |ids| + 2 && file[0] == FormatDate(setDate) && file[1] == ShowInt(|ids|)
    {
      var body, order := WriteIds(ids);
      file := [FormatDate(setDate), ShowInt(|ids|)] + body;
      assert file == SerialiseWorkingSet(setDate, order);
      LoadSerialisedWorkingSet(setDate, order);
    }

    /** fillSet(Set): adds every given id and returns true. */
    method FillSet(items: set<int>) returns (r: bool)
      requires Wellformed() && forall id :: id in items ==> IsInt32(id)
      modifies this`ids, this`file
      ensures ids == old(ids) + items && r
      ensures Valid() && Rewritten()
    {
      ids := ids + items;
      ReloadSet();
      r := true;
    }

    /** clearSet: empties the set; reports whether it is now empty. */
    method ClearSet() returns (r: bool)
      requires Wellformed()
      modifies this`ids, this`file
      ensures ids == {} && r
      ensures Valid() && Rewritten()
    {
      ids := {};
      ReloadSet();
      r := ids == {};
    }

    /** addItem: adds one id; reports whether it is present afterwards. */
    method AddItem(id: int) returns (r: bool)
      requires Wellformed() && IsInt32(id)
      modifies this`ids, this`file
      ensures ids == old(ids) + {id} && r
      ensures Valid() && Rewritten()
    {
      ids := ids + {id};
      ReloadSet();
      r := id in ids;
    }

    /** removeItem: true iff the id was present; only then is the file rewritten. */
    method RemoveItem(id: int) returns (r: bool)
      requires Valid()
      modifies this`ids, this`file
      ensures r <==> id in old(ids)
      ensures ids == old(ids) - {id}
      ensures !r ==> file == old(file)
      ensures Valid()
    {
      if id in ids {
        ids := ids - {id};
        ReloadSet();
        r := true;
      } else {
        r := false;
      }
    }

    /** setSetDate: changes the creation date only. */
    method SetSetDate(date: Date)
      requires Wellformed() && ValidDate(date)
      modifies this`setDate, this`file
      ensures setDate == date && Valid() && Rewritten()
    {
      setDate := date;
      ReloadSet();
    }
  }
}
