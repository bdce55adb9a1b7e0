/**
 * The decimal text of an integer coordinate, as Rust's `Display` for its
 * integer types writes it: the digits of the magnitude with no leading zero,
 * preceded by `-` when the number is negative, and `0` for zero.
 *
 * `ParseInt` is the inverse used to state what the rendering means: it accepts
 * exactly the strings `IntToString` produces, and gives back their value.
 */
module Decimal {
  import opened Wrappers

  predicate IsDigit(c: char)
  {
    '0' <= c <= '9'
  }

  function DigitValue(c: char): (d: nat)
    requires IsDigit(c)
    ensures d < 10
  {
    c as int - '0' as int
  }

  function DigitChar(d: nat): (c: char)
    requires d < 10
    ensures IsDigit(c) && DigitValue(c) == d
  {
    ('0' as int + d) as char
  }

  predicate AllDigits(s: string)
  {
    forall k :: 0 <= k < |s| ==> IsDigit(s[k])
  }

  /** A nonempty string of digits that starts with `0` only when it is `0` itself. */
  predicate Canonical(s: string)
  {
    |s| > 0 && AllDigits(s) && (s[0] == '0' ==> |s| == 1)
  }

  /** The number a string of decimal digits denotes, most significant digit first. */
  function DigitsValue(s: string): nat
    requires AllDigits(s)
  {
    if s == [] then 0 else 10 * DigitsValue(s[..|s| - 1]) + DigitValue(s[|s| - 1])
  }

  /** The decimal digits of a natural number. */
  function NatToString(n: nat): (s: string)
    ensures Canonical(s) && DigitsValue(s) == n
  {
    if n < 10 then
      [DigitChar(n)]
    else
      var t := NatToString(n / 10);
      var s := t + [DigitChar(n % 10)];
      assert s[..|s| - 1] == t;
      s
  }

  /** Rust's `Display` text of an integer. */
  function IntToString(i: int): (s: string)
    ensures |s| > 0 && (s[0] == '-' <==> i < 0)
    ensures forall k :: 0 < k < |s| ==> IsDigit(s[k])
    ensures i < 0 ==> AllDigits(s[1..]) && DigitsValue(s[1..]) == -i
    ensures i >= 0 ==> AllDigits(s) && DigitsValue(s) == i
  {
    if i < 0 then "-" + NatToString(-i) else NatToString(i)
  }

  function ParseNat(s: string): Option<nat>
  {
    if Canonical(s) then Some(DigitsValue(s)) else None
  }

  /** The integer whose `IntToString` text is `s`, if there is one. */
  function ParseInt(s: string): Option<int>
  {
    if |s| > 0 && s[0] == '-' then
      match ParseNat(s[1..])
      case Some(n) => if n == 0 then None else Some(-(n as int))
      case None => None
    else
      match ParseNat(s)
      case Some(n) => Some(n)
      case None => None
  }

  /** A digit string that does not start with `0` denotes a positive number. */
  lemma {:induction false} LeadingDigitPositive(s: string)
    requires |s| > 0 && AllDigits(s) && s[0] != '0'
    ensures DigitsValue(s) > 0
  {
    if |s| > 1 {
      var t := s[..|s| - 1];
      assert t[0] == s[0];
      LeadingDigitPositive(t);
    } else {
      assert s[..0] == [];
    }
  }

  /** Rendering the value of a canonical digit string gives back that string. */
  lemma {:induction false} NatToStringOfValue(s: string)
    requires Canonical(s)
    ensures NatToString(DigitsValue(s)) == s
  {
    var n := DigitsValue(s);
    var t := s[..|s| - 1];
    if |s| == 1 {
      assert t == [];
      assert DigitsValue(t) == 0;
      assert n < 10;
      assert NatToString(n) == [DigitChar(n)];
    } else {
      assert t[0] == s[0];
      LeadingDigitPositive(t);
      assert n / 10 == DigitsValue(t) && n % 10 == DigitValue(s[|s| - 1]);
      NatToStringOfValue(t);
      assert DigitChar(DigitValue(s[|s| - 1])) == s[|s| - 1];
      assert s == t + [s[|s| - 1]];
    }
  }

  /** Parsing the text of an integer gives back that integer. */
  lemma ParseIntToString(i: int)
    ensures ParseInt(IntToString(i)) == Some(i)
  {
    var s := IntToString(i);
    if i < 0 {
      assert s[1..] == NatToString(-i);
    } else {
      assert s == NatToString(i);
    }
  }

  /** A string that parses is the text of the integer it parses to. */
  lemma IntToStringOfParse(s: string, i: int)
    requires ParseInt(s) == Some(i)
    ensures IntToString(i) == s
  {
    if |s| > 0 && s[0] == '-' {
      NatToStringOfValue(s[1..]);
      assert s == "-" + s[1..];
    } else {
      NatToStringOfValue(s);
    }
  }

  /** Distinct integers have distinct texts. */
  lemma IntToStringInjective(i: int, j: int)
    requires IntToString(i) == IntToString(j)
    ensures i == j
  {
    ParseIntToString(i);
    ParseIntToString(j);
  }

  lemma IntToStringExamples()
    ensures IntToString(-42) == "-42" && IntToString(0) == "0" && IntToString(42) == "42"
  {
    assert NatToString(4) == "4";
    assert NatToString(42) == "4" + "2";
    assert NatToString(0) == "0";
  }
}
