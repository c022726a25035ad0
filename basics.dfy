/** Shared vocabulary of the item lifecycle: the item record, its pool, calendar
    dates, command exit codes, Java's 32-bit integers and the handful of
    java.lang.String operations the stores and commands rely on. */
module Basics {

  datatype Option<T> = None | Some(value: T)

  /** Item.Pool: the urgency bucket of an item (HIGH, MEDIUM, LOW). */
  datatype Pool = H | M | L

  /** A calendar date (java.time.LocalDate) as year, month and day of month. */
  datatype Date = Date(year: int, month: int, day: int)

  /** ansrs.data.Item: one row of the item table or of the archive. */
  datatype Item = Item(id: int, name: string, link: string, pool: Pool, lastRecall: Date, totalRecalls: int)

  /** Process exit codes as picocli produces them: 0 for a command that returned
      normally, 1 for a command that returned 1 or threw, 2 for a ParameterException. */
  datatype ExitCode = Ok | Fail | Rejected

  const Int32Min: int := -0x8000_0000
  const Int32Max: int := 0x7fff_ffff

  predicate IsInt32(n: int) {
    Int32Min <= n <= Int32Max
  }

  /** Java `int` addition: the mathematical result wrapped into 32 bits. */
  function Wrap32(n: int): (r: int)
    ensures IsInt32(r)
    ensures IsInt32(n) ==> r == n
    ensures (r - n) % 0x1_0000_0000 == 0
  {
    (n - Int32Min) % 0x1_0000_0000 + Int32Min
  }

  /** The elements of a sequence, as a set. */
  function Elems(s: seq<int>): set<int> {
    set x | x in s
  }

  predicate Distinct(s: seq<int>) {
    forall i, j :: 0 <= i < j < |s| ==> s[i] != s[j]
  }

  lemma ElemsSnoc(s: seq<int>, x: int)
    ensures Elems(s + [x]) == Elems(s) + {x}
  {
  }

  lemma DistinctSnoc(s: seq<int>, x: int)
    requires Distinct(s) && x !in Elems(s)
    ensures Distinct(s + [x])
  {
  }

  /** A non-empty set has an element to pick (what iterating a Java set relies on). */
  lemma NonEmptyHasElement(s: set<int>)
    requires s != {}
    ensures exists x :: x in s
  {
    if forall x :: x !in s {
      assert false;
    }
  }

  /** The elements of a set, each once, in the set's iteration order
      (`set.stream().toList()`). */
  method ListIds(s: set<int>) returns (xs: seq<int>)
    ensures Distinct(xs) && Elems(xs) == s && |xs| == |s|
  {
    xs := [];
    var rest := s;
    while rest != {}
      invariant rest <= s && Elems(xs) == s - rest && Distinct(xs) && |xs| == |s| - |rest|
      decreases |rest|
    {
      NonEmptyHasElement(rest);
      var x :| x in rest;
      ElemsSnoc(xs, x);
      DistinctSnoc(xs, x);
      xs := xs + [x];
      rest := rest - {x};
    }
  }

  /** Item.Pool.name() */
  function PoolName(p: Pool): string {
    match p
    case H => "H"
    case M => "M"
    case L => "L"
  }

  /** Item.Pool.valueOf: only the exact constant names are accepted. */
  function PoolValueOf(s: string): (r: Option<Pool>)
    ensures r.Some? <==> s == "H" || s == "M" || s == "L"
    ensures r.Some? ==> PoolName(r.value) == s
  {
    if s == "H" then Some(H) else if s == "M" then Some(M) else if s == "L" then Some(L) else None
  }

  // ---------------------------------------------------------------------------
  // java.lang.String, restricted to what the core uses (ASCII case mapping).

  /** Characters String.trim removes: every code point up to and including ' '. */
  predicate IsTrimmable(c: char) {
    c <= ' '
  }

  function TrimStart(s: string): (r: string)
    ensures |r| <= |s| && r == s[|s| - |r|..]
    ensures r == [] || !IsTrimmable(r[0])
  {
    if |s| > 0 && IsTrimmable(s[0]) then TrimStart(s[1..]) else s
  }

  function TrimEnd(s: string): (r: string)
    ensures |r| <= |s| && r == s[..|r|]
    ensures r == [] || !IsTrimmable(r[|r| - 1])
  {
    if |s| > 0 && IsTrimmable(s[|s| - 1]) then TrimEnd(s[..|s| - 1]) else s
  }

  /** String.trim */
  function Trim(s: string): string {
    TrimEnd(TrimStart(s))
  }

  lemma TrimNoOp(s: string)
    requires s == [] || (!IsTrimmable(s[0]) && !IsTrimmable(s[|s| - 1]))
    ensures Trim(s) == s
  {
  }

  lemma {:induction false} TrimIdempotent(s: string)
    ensures Trim(Trim(s)) == Trim(s)
  {
    var t := Trim(s);
    if t != [] {
      assert t == TrimEnd(TrimStart(s));
      var u := TrimStart(s);
      assert u != [] && !IsTrimmable(u[0]);
      assert t == u[..|t|];
      assert t[0] == u[0];
    }
    TrimNoOp(t);
  }

  /** String.trim returns a piece of its input with no blank at either end. */
  lemma TrimShape(s: string)
    ensures Trim(s) == [] || (!IsTrimmable(Trim(s)[0]) && !IsTrimmable(Trim(s)[|Trim(s)| - 1]))
    ensures forall c :: c in Trim(s) ==> c in s
  {
    var u := TrimStart(s);
    var t := Trim(s);
    assert t == u[..|t|];
    if t != [] {
      assert t[0] == u[0];
    }
    assert forall c :: c in t ==> c in u;
  }

  function UpperChar(c: char): char {
    if 'a' <= c <= 'z' then (c as int - 32) as char else c
  }

  function LowerChar(c: char): char {
    if 'A' <= c <= 'Z' then (c as int + 32) as char else c
  }

  /** String.toUpperCase, for ASCII letters. */
  function ToUpper(s: string): (r: string)
    ensures |r| == |s|
    ensures forall i :: 0 <= i < |s| ==> r[i] == UpperChar(s[i])
  {
    if s == [] then [] else [UpperChar(s[0])] + ToUpper(s[1..])
  }

  /** String.toLowerCase, for ASCII letters. */
  function ToLower(s: string): (r: string)
    ensures |r| == |s|
    ensures forall i :: 0 <= i < |s| ==> r[i] == LowerChar(s[i])
  {
    if s == [] then [] else [LowerChar(s[0])] + ToLower(s[1..])
  }

  /** String.equalsIgnoreCase, for ASCII letters. */
  predicate EqualsIgnoreCase(a: string, b: string) {
    ToLower(a) == ToLower(b)
  }

  /** Item.Pool.valueOf(s.toUpperCase()): the pool parse every command uses. */
  function ParsePool(s: string): (r: Option<Pool>)
    ensures r.Some? <==> s in {"H", "h", "M", "m", "L", "l"}
  {
    var u := ToUpper(s);
    assert |s| == 1 ==> u == [UpperChar(s[0])];
    assert |u| == 1 ==> s == [s[0]];
    PoolValueOf(u)
  }

  predicate StartsWith(s: string, prefix: string) {
    |prefix| <= |s| && s[..|prefix|] == prefix
  }

  predicate EndsWith(s: string, suffix: string) {
    |suffix| <= |s| && s[|s| - |suffix|..] == suffix
  }

  /** `s` contains `q` as a contiguous substring. */
  predicate ContainsSub(s: string, q: string) {
    exists i :: 0 <= i <= |s| - |q| && OccursAt(s, q, i)
  }

  predicate OccursAt(s: string, q: string, i: int)
    requires 0 <= i <= |s| - |q|
  {
    s[i..i + |q|] == q
  }

  /** String.isBlank */
  predicate IsBlank(s: string) {
    forall i :: 0 <= i < |s| ==> s[i] <= ' '
  }

  /** Every occurrence of `c` deleted (String.replace(c, "")). */
  function RemoveChar(s: string, c: char): (r: string)
    ensures c !in r
    ensures |r| <= |s|
    ensures forall x :: x in r ==> x in s
  {
    if s == [] then [] else (if s[0] == c then [] else [s[0]]) + RemoveChar(s[1..], c)
  }

  lemma {:induction false} RemoveAbsentChar(s: string, c: char)
    requires c !in s
    ensures RemoveChar(s, c) == s
  {
    if s != [] {
      RemoveAbsentChar(s[1..], c);
    }
  }

  // ---------------------------------------------------------------------------
  // String.split on a single separator character.

  /** All pieces between separators, empty pieces included. */
  function SplitOn(s: string, sep: char): (r: seq<string>)
    ensures |r| >= 1
  {
    if s == [] then [""]
    else
      var rest := SplitOn(s[1..], sep);
      if s[0] == sep then [""] + rest else [[s[0]] + rest[0]] + rest[1..]
  }

  function DropTrailingEmpty(pieces: seq<string>): (r: seq<string>)
    ensures |r| <= |pieces| && r == pieces[..|r|]
    ensures r == [] || r[|r| - 1] != ""
  {
    if pieces == [] || pieces[|pieces| - 1] != "" then pieces
    else DropTrailingEmpty(pieces[..|pieces| - 1])
  }

  /** String.split(sep) for a one-character, non-special separator: the whole
      string when the separator does not occur, otherwise the pieces with
      trailing empty pieces removed. */
  function JavaSplit(s: string, sep: char): seq<string> {
    if sep !in s then [s] else DropTrailingEmpty(SplitOn(s, sep))
  }

  lemma {:induction false} SplitOnNoSep(s: string, sep: char)
    requires sep !in s
    ensures SplitOn(s, sep) == [s]
  {
    if s != [] {
      SplitOnNoSep(s[1..], sep);
      assert [s[0]] + s[1..] == s;
    }
  }

  lemma {:induction false} SplitOnJoin(a: string, sep: char, b: string)
    requires sep !in a
    ensures SplitOn(a + [sep] + b, sep) == [a] + SplitOn(b, sep)
  {
    if a == [] {
      assert a + [sep] + b == [sep] + b;
      assert ([sep] + b)[1..] == b;
    } else {
      assert (a + [sep] + b)[1..] == a[1..] + [sep] + b;
      SplitOnJoin(a[1..], sep, b);
      assert [a[0]] + a[1..] == a;
    }
  }

  /** Splitting three separator-free, non-empty tokens joined by single
      separators gives the three tokens back. */
  lemma SplitThree(a: string, b: string, c: string, sep: char)
    requires sep !in a && sep !in b && sep !in c
    requires c != ""
    ensures JavaSplit(a + [sep] + b + [sep] + c, sep) == [a, b, c]
  {
    var s := a + [sep] + b + [sep] + c;
    assert s == a + [sep] + (b + [sep] + c);
    assert s[|a|] == sep;
    SplitOnJoin(a, sep, b + [sep] + c);
    SplitOnJoin(b, sep, c);
    SplitOnNoSep(c, sep);
    assert SplitOn(s, sep) == [a, b, c];
  }
}
