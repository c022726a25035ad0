/** Decimal text of Java `int` values: String.valueOf(int) and Integer.parseInt,
    as the set files and the CSV importer use them. */
module Decimal {
  import opened Basics

  predicate IsDigit(c: char) {
    '0' <= c <= '9'
  }

  predicate AllDigits(s: string) {
    forall i :: 0 <= i < |s| ==> IsDigit(s[i])
  }

  function DigitChar(d: nat): (c: char)
    requires d < 10
    ensures IsDigit(c)
  {
    ('0' as int + d) as char
  }

  function DigitValue(c: char): (d: nat)
    requires IsDigit(c)
    ensures d < 10 && DigitChar(d) == c
  {
    c as int - '0' as int
  }

  /** The decimal digits of `n`, most significant first, without leading zeros. */
  function ShowNat(n: nat): (s: string)
    ensures |s| >= 1 && AllDigits(s)
    ensures |s| > 1 ==> s[0] != '0'
  {
    if n < 10 then [DigitChar(n)] else ShowNat(n / 10) + [DigitChar(n % 10)]
  }

  /** String.valueOf(int) */
  function ShowInt(n: int): string {
    if n < 0 then "-" + ShowNat(-n) else ShowNat(n)
  }

  /** The value of a string of decimal digits, read most significant first. */
  function DigitsValue(s: string): nat
    requires AllDigits(s)
  {
    if s == [] then 0 else DigitsValue(s[..|s| - 1]) * 10 + DigitValue(s[|s| - 1])
  }

  /** Integer.parseInt: an optional sign, at least one digit, and a value that
      fits in 32 bits; anything else is a NumberFormatException (None). */
  function ParseInt(s: string): (r: Option<int>)
    ensures r.Some? ==> IsInt32(r.value)
    ensures r.Some? ==> s != [] && (IsDigit(s[0]) || s[0] == '-' || s[0] == '+')
  {
    if s == [] then None
    else if s[0] == '-' || s[0] == '+' then
      if |s| == 1 || !AllDigits(s[1..]) then None
      else
        var v: int := if s[0] == '-' then 0 - (DigitsValue(s[1..]) as int) else DigitsValue(s[1..]);
        if IsInt32(v) then Some(v) else None
    else if !AllDigits(s) then None
    else
      var v := DigitsValue(s);
      if IsInt32(v) then Some(v) else None
  }

  lemma {:induction false} DigitsOfShowNat(n: nat)
    ensures DigitsValue(ShowNat(n)) == n
  {
    var s := ShowNat(n);
    if n >= 10 {
      DigitsOfShowNat(n / 10);
      assert s[..|s| - 1] == ShowNat(n / 10);
    }
  }

  /** The round trip the set files rely on: every 32-bit value is read back
      from its own decimal text. */
  lemma ParseShowInt(n: int)
    requires IsInt32(n)
    ensures ParseInt(ShowInt(n)) == Some(n)
  {
    var s := ShowInt(n);
    if n < 0 {
      DigitsOfShowNat(-n);
      assert s[0] == '-' && |s| > 1;
      assert s[1..] == ShowNat(-n);
      assert DigitsValue(s[1..]) == -n;
    } else {
      DigitsOfShowNat(n);
      assert s == ShowNat(n);
      assert IsDigit(s[0]);
      assert DigitsValue(s) == n;
    }
  }

  /** The decimal text of a number has no blank at either end, so String.trim
      leaves it alone. */
  lemma ShowIntTrimmed(n: int)
    ensures ShowInt(n) != [] && !IsTrimmable(ShowInt(n)[0]) && !IsTrimmable(ShowInt(n)[|ShowInt(n)| - 1])
    ensures ' ' !in ShowInt(n)
  {
    var s := ShowNat(if n < 0 then -n else n);
    assert ShowInt(n) == s || ShowInt(n) == "-" + s;
    assert forall c :: c in s ==> IsDigit(c);
  }
}
