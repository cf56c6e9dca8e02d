/**
 * Decimal integers as JSON writes them (json.dumps of an int): an optional
 * minus sign and the digits with no leading zeros; and the reader that
 * json.loads applies to them.
 */
module Numerals {
  import opened Wrappers

  predicate IsDigit(c: char) {
    '0' <= c <= '9'
  }

  function DigitChar(d: nat): (c: char)
    requires d < 10
    ensures IsDigit(c) && DigitValue(c) == d
  {
    ('0' as int + d) as char
  }

  function DigitValue(c: char): nat
    requires IsDigit(c)
  {
    c as int - '0' as int
  }

  /** The decimal digits of `n`, most significant first. */
  function NatToString(n: nat): (s: string)
    ensures |s| >= 1 && forall i :: 0 <= i < |s| ==> IsDigit(s[i])
    ensures |s| > 1 ==> s[0] != '0'
  {
    if n < 10 then [DigitChar(n)] else NatToString(n / 10) + [DigitChar(n % 10)]
  }

  /** The value of a string of digits. */
  function DigitsValue(s: string): nat
    requires forall i :: 0 <= i < |s| ==> IsDigit(s[i])
  {
    if s == [] then 0 else 10 * DigitsValue(s[..|s| - 1]) + DigitValue(s[|s| - 1])
  }

  /** Reading the digits back gives the number. */
  lemma {:induction false} NatRoundTrip(n: nat)
    ensures DigitsValue(NatToString(n)) == n
  {
    if n >= 10 {
      NatRoundTrip(n / 10);
      var s := NatToString(n);
      assert s[..|s| - 1] == NatToString(n / 10);
    }
  }

  /** json.dumps of an int. */
  function IntToString(n: int): string {
    if n < 0 then "-" + NatToString(-n) else NatToString(n)
  }

  /** The longest run of digits at the start of `s`. */
  function DigitRun(s: string): (k: nat)
    ensures k <= |s| && forall i :: 0 <= i < k ==> IsDigit(s[i])
    ensures k < |s| ==> !IsDigit(s[k])
  {
    if s == [] || !IsDigit(s[0]) then 0 else 1 + DigitRun(s[1..])
  }

  /** A run of digits followed by a non-digit is read to its end. */
  lemma {:induction false} DigitRunOf(d: string, rest: string)
    requires forall i :: 0 <= i < |d| ==> IsDigit(d[i])
    requires rest == [] || !IsDigit(rest[0])
    ensures DigitRun(d + rest) == |d|
  {
    if d != [] {
      assert (d + rest)[1..] == d[1..] + rest;
      DigitRunOf(d[1..], rest);
    } else {
      assert d + rest == rest;
    }
  }

  /** Read an integer at the start of `s`: the number and the text after it, or None without digits. */
  function ReadInt(s: string): (r: Option<(int, string)>)
    ensures r.Some? ==> |r.value.1| < |s|
  {
    if |s| > 0 && s[0] == '-' then
      var k := DigitRun(s[1..]);
      var v: int := DigitsValue(s[1..][..k]);
      if k == 0 then None else Some((-v, s[1..][k..]))
    else
      var k := DigitRun(s);
      var v: int := DigitsValue(s[..k]);
      if k == 0 then None else Some((v, s[k..]))
  }

  /** The digits of a number are read back whole. */
  lemma ReadDigits(n: nat, rest: string)
    requires rest == [] || !IsDigit(rest[0])
    ensures DigitRun(NatToString(n) + rest) == |NatToString(n)|
    ensures (NatToString(n) + rest)[..|NatToString(n)|] == NatToString(n)
    ensures (NatToString(n) + rest)[|NatToString(n)|..] == rest
    ensures DigitsValue(NatToString(n)) == n
  {
    DigitRunOf(NatToString(n), rest);
    NatRoundTrip(n);
  }

  /** Reading back what json.dumps wrote gives the number and leaves the rest, when the rest does not start with a digit. */
  lemma ReadIntRoundTrip(n: int, rest: string)
    requires rest == [] || !IsDigit(rest[0])
    ensures ReadInt(IntToString(n) + rest) == Some((n, rest))
  {
    if n < 0 {
      ReadNegative(-n, rest);
    } else {
      ReadNonNegative(n, rest);
    }
  }

  /** A minus sign and digits are read back as the negative number. */
  lemma ReadNegative(m: nat, rest: string)
    requires rest == [] || !IsDigit(rest[0])
    ensures ReadInt("-" + NatToString(m) + rest) == Some((-(m as int), rest))
  {
    var t := NatToString(m) + rest;
    var s := "-" + NatToString(m) + rest;
    assert s == ['-'] + t;
    assert s[1..] == t;
    ReadDigits(m, rest);
  }

  /** Digits without a sign are read back as the number. */
  lemma ReadNonNegative(n: nat, rest: string)
    requires rest == [] || !IsDigit(rest[0])
    ensures ReadInt(NatToString(n) + rest) == Some((n, rest))
  {
    var d := NatToString(n);
    ReadDigits(n, rest);
    assert (d + rest)[0] == d[0];
  }
}
