/** Decimal rendering and parsing of integers (Python's str(int), Java's Integer.parseInt on digit strings). */
module Decimal {
  import opened Wrappers

  predicate IsDigit(c: char) {
    '0' <= c <= '9'
  }

  function DigitChar(d: nat): (c: char)
    requires d < 10
    ensures IsDigit(c) && c as int - '0' as int == d
  {
    ('0' as int + d) as char
  }

  function DigitValue(c: char): (d: nat)
    requires IsDigit(c)
    ensures d < 10 && DigitChar(d) == c
  {
    c as int - '0' as int
  }

  /** The shortest decimal spelling of `n` (no leading zeros). */
  function NatToString(n: nat): (s: string)
    ensures |s| >= 1
    ensures forall i :: 0 <= i < |s| ==> IsDigit(s[i])
    ensures n >= 10 <==> |s| >= 2
    ensures n >= 100 <==> |s| >= 3
    ensures n >= 1000 <==> |s| >= 4
  {
    if n < 10 then [DigitChar(n)] else NatToString(n / 10) + [DigitChar(n % 10)]
  }

  /** The value of a non-empty string of decimal digits; None for anything else. */
  function ParseDigits(s: string): (r: Option<nat>)
    ensures r.Some? <==> |s| >= 1 && forall i :: 0 <= i < |s| ==> IsDigit(s[i])
  {
    if |s| == 0 || !IsDigit(s[|s| - 1]) then None
    else if |s| == 1 then Some(DigitValue(s[0]))
    else
      match ParseDigits(s[..|s| - 1])
      case None => None
      case Some(v) => Some(v * 10 + DigitValue(s[|s| - 1]))
  }

  lemma {:induction false} ParseNatToString(n: nat)
    ensures ParseDigits(NatToString(n)) == Some(n)
  {
    if n >= 10 {
      var s := NatToString(n);
      ParseNatToString(n / 10);
      assert s[..|s| - 1] == NatToString(n / 10);
      assert DigitValue(s[|s| - 1]) == n % 10;
    }
  }

  /** Python's str(i) for an int. */
  function IntToString(i: int): string {
    if i < 0 then "-" + NatToString(-i) else NatToString(i)
  }

  /** Python's int(s) for a canonical decimal spelling, optionally signed with '-'. */
  function ParseInt(s: string): Option<int> {
    if |s| >= 1 && s[0] == '-' then
      match ParseDigits(s[1..])
      case None => None
      case Some(v) => Some(-(v as int))
    else
      match ParseDigits(s)
      case None => None
      case Some(v) => Some(v as int)
  }

  lemma ParseIntToString(i: int)
    ensures ParseInt(IntToString(i)) == Some(i)
  {
    if i < 0 {
      ParseNatToString(-i);
      assert IntToString(i)[1..] == NatToString(-i);
    } else {
      ParseNatToString(i);
    }
  }
}
