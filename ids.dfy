/** Record ids are integers; the graph keys nodes by their string form, which
    JavaScript's Number#toString renders in decimal (a leading '-' for negative
    numbers, no leading zeros). For ids of magnitude up to 2^53 that rendering
    is the exact decimal digits, which is what this module gives; beyond that
    JavaScript rounds the digits, which is not modelled. This module gives the
    rendering, the parser that inverts it, and the consequence that the
    rendering is injective, so that distinct record ids give distinct node
    ids. */
module Ids {

  predicate IsDigit(c: char) {
    '0' <= c <= '9'
  }

  predicate AllDigits(s: string) {
    forall k :: 0 <= k < |s| ==> IsDigit(s[k])
  }

  /** The shape of a rendered integer: an optional minus sign, then at least one digit. */
  predicate IsDecimal(s: string) {
    if |s| > 0 && s[0] == '-' then |s| >= 2 && AllDigits(s[1..]) else |s| >= 1 && AllDigits(s)
  }

  function DigitChar(d: nat): (c: char)
    requires d < 10
    ensures IsDigit(c) && c as int - '0' as int == d
  {
    ('0' as int + d) as char
  }

  /** Decimal digits of n, most significant first. */
  function NatToString(n: nat): string {
    if n < 10 then [DigitChar(n)] else NatToString(n / 10) + [DigitChar(n % 10)]
  }

  /** The rendering of a natural number is a non-empty string of digits. */
  lemma {:induction false} NatToStringDigits(n: nat)
    ensures |NatToString(n)| >= 1 && AllDigits(NatToString(n))
  {
    if n >= 10 {
      NatToStringDigits(n / 10);
    }
  }

  /** The value of a string of decimal digits (most significant first). */
  function DigitsValue(s: string): nat
    requires AllDigits(s)
  {
    if s == [] then 0 else DigitsValue(s[..|s| - 1]) * 10 + (s[|s| - 1] as int - '0' as int)
  }

  /** `id.toString()` for an integer id: a minus sign before the rendering of
      the magnitude when negative. */
  function IntToString(i: int): string
    decreases if i < 0 then 1 else 0
  {
    if i < 0 then "-" + IntToString(-i) else NatToString(i)
  }

  /** The rendering of an integer is well formed and starts with '-' exactly
      when the integer is negative. */
  lemma IntToStringShape(i: int)
    ensures IsDecimal(IntToString(i))
    ensures IntToString(i)[0] == '-' <==> i < 0
  {
    var s := IntToString(i);
    if i < 0 {
      assert IntToString(-i) == NatToString(-i);
      NatToStringDigits(-i);
      assert s[1..] == NatToString(-i);
    } else {
      NatToStringDigits(i);
    }
  }

  /** Reads back a rendered integer. */
  function ParseInt(s: string): int
    requires IsDecimal(s)
  {
    if s[0] == '-' then -(DigitsValue(s[1..]) as int) else DigitsValue(s)
  }

  lemma {:induction false} NatRoundTrip(n: nat)
    ensures AllDigits(NatToString(n)) && DigitsValue(NatToString(n)) == n
  {
    NatToStringDigits(n);
    if n >= 10 {
      var s := NatToString(n);
      var prefix := NatToString(n / 10);
      assert s[..|s| - 1] == prefix;
      NatRoundTrip(n / 10);
    }
  }

  /** Parsing the rendering of an integer gives the integer back. */
  lemma IntRoundTrip(i: int)
    ensures IsDecimal(IntToString(i)) && ParseInt(IntToString(i)) == i
  {
    IntToStringShape(i);
    var s := IntToString(i);
    if i < 0 {
      assert IntToString(-i) == NatToString(-i);
      assert s[1..] == NatToString(-i);
      NatRoundTrip(-i);
    } else {
      NatRoundTrip(i);
    }
  }

  /** Distinct ids have distinct string forms. */
  lemma IntToStringInjective(a: int, b: int)
    ensures IntToString(a) == IntToString(b) <==> a == b
  {
    IntRoundTrip(a);
    IntRoundTrip(b);
  }

  /** Digit strings of different lengths, each followed by '-', differ at the shorter one's '-'. */
  lemma DashPositionsDiffer(da: string, db: string, x: string, y: string)
    requires AllDigits(da) && AllDigits(db)
    ensures |da| != |db| ==> da + "-" + x != db + "-" + y
  {
    if |da| < |db| {
      assert (da + "-" + x)[|da|] == '-';
      assert (db + "-" + y)[|da|] == db[|da|];
    } else if |db| < |da| {
      assert (db + "-" + y)[|db|] == '-';
      assert (da + "-" + x)[|db|] == da[|db|];
    }
  }

  /** A digit string followed by '-' can be split at that '-' in only one way. */
  lemma DigitsThenDash(da: string, db: string, x: string, y: string)
    requires AllDigits(da) && AllDigits(db)
    requires da + "-" + x == db + "-" + y
    ensures da == db && x == y
  {
    var s := da + "-" + x;
    DashPositionsDiffer(da, db, x, y);
    assert da == s[..|da|] == db;
    assert x == s[|da| + 1..] == y;
  }

  /** The rendering of an integer followed by '-' determines both the integer
      and what follows the '-'. This is what makes `${parent}-${child}` unambiguous. */
  lemma DashSeparatedInjective(a: int, b: int, x: string, y: string)
    requires IntToString(a) + "-" + x == IntToString(b) + "-" + y
    ensures a == b && x == y
  {
    IntToStringShape(a);
    IntToStringShape(b);
    NatToStringDigits(if a < 0 then -a else a);
    NatToStringDigits(if b < 0 then -b else b);
    var s := IntToString(a) + "-" + x;
    assert s[0] == IntToString(a)[0] && s[0] == IntToString(b)[0];
    var da := if a < 0 then NatToString(-a) else NatToString(a);
    var db := if b < 0 then NatToString(-b) else NatToString(b);
    assert a < 0 ==> IntToString(a) == "-" + da;
    assert b < 0 ==> IntToString(b) == "-" + db;
    if a < 0 {
      assert "-" + da + "-" + x == "-" + db + "-" + y;
      assert da + "-" + x == ("-" + da + "-" + x)[1..];
      assert db + "-" + y == ("-" + db + "-" + y)[1..];
    }
    DigitsThenDash(da, db, x, y);
    IntToStringInjective(a, b);
  }
}
