/** Decimal text of integers: how the driver renders an integer setpoint
    (`str(int(n))`, `"%d" % n`) and how a reply field `-?\d+` is read back
    (`int(...)`).  Digits are the ASCII digits '0'..'9'. */
module Numerals {
  import opened Wrappers

  predicate IsDigit(c: char) {
    '0' <= c <= '9'
  }

  predicate AllDigits(s: string) {
    forall k :: 0 <= k < |s| ==> IsDigit(s[k])
  }

  function DigitChar(d: nat): (c: char)
    requires d < 10
    ensures IsDigit(c) && c as int - '0' as int == d
  {
    ('0' as int + d) as char
  }

  /** The canonical decimal text of a natural number: at least one digit and
      no leading zero unless the number is zero. */
  function NatDigits(n: nat): (s: string)
    ensures |s| >= 1 && AllDigits(s)
    ensures s[0] == '0' <==> n == 0
    decreases n
  {
    if n < 10 then [DigitChar(n)] else NatDigits(n / 10) + [DigitChar(n % 10)]
  }

  /** The number a run of digits denotes (leading zeros allowed).  On a
      run without a leading zero it inverts `NatDigits`. */
  function DigitsValue(s: string): (v: nat)
    requires AllDigits(s)
    ensures s != [] && s[0] != '0' ==> NatDigits(v) == s
  {
    if s == [] then 0
    else
      var front := s[..|s| - 1];
      var d := s[|s| - 1] as int - '0' as int;
      assert DigitChar(d) == s[|s| - 1];
      assert front != [] ==> front[0] == s[0];
      assert s == front + [s[|s| - 1]];
      DigitsValue(front) * 10 + d
  }

  lemma {:induction false} NatDigitsValue(n: nat)
    ensures DigitsValue(NatDigits(n)) == n
  {
    if n >= 10 {
      var s := NatDigits(n);
      assert s[..|s| - 1] == NatDigits(n / 10);
      NatDigitsValue(n / 10);
    }
  }

  /** Python's `str(n)` for an integer `n`: a minus sign for negative numbers,
      then the canonical digits of the magnitude. */
  function Decimal(n: int): (s: string)
    ensures |s| >= 1 && (s[0] == '-' <==> n < 0)
    ensures forall k :: 0 <= k < |s| ==> IsDigit(s[k]) || (k == 0 && n < 0)
  {
    if n < 0 then "-" + NatDigits(-n) else NatDigits(n)
  }

  /** Length of the longest run of digits at the front of `t`: what a greedy
      `\d+` (or `\d*`) consumes. */
  function DigitRun(t: string): (k: nat)
    ensures k <= |t| && AllDigits(t[..k])
    ensures k == |t| || !IsDigit(t[k])
    decreases |t|
  {
    if t != [] && IsDigit(t[0]) then
      var k := 1 + DigitRun(t[1..]);
      assert t[..k] == [t[0]] + t[1..][..k - 1];
      k
    else 0
  }

  /** The number denoted by the digit run at the front of `t`. */
  function LeadingNumber(t: string): (v: nat)
    ensures DigitRun(t) > 0 && t[0] != '0' ==> NatDigits(v) == t[..DigitRun(t)]
  {
    var k := DigitRun(t);
    assert k > 0 ==> t[..k][0] == t[0];
    DigitsValue(t[..k])
  }

  /** A match of the regular expression `-?\d+` anchored at the front of `t`,
      converted by `int(...)`: the optional minus sign is taken only when a
      digit follows it, and the digit run is as long as possible. */
  function ParseSigned(t: string): (r: Option<int>)
    ensures r.Some? <==> (|t| > 0 && IsDigit(t[0])) || (|t| > 1 && t[0] == '-' && IsDigit(t[1]))
  {
    if |t| > 0 && IsDigit(t[0]) then
      Some(LeadingNumber(t))
    else if |t| > 1 && t[0] == '-' && IsDigit(t[1]) then
      Some(-(LeadingNumber(t[1..]) as int))
    else
      None
  }

  /** A run of digits followed by a non-digit (or nothing) is consumed whole. */
  lemma {:induction false} DigitRunOfDigits(ds: string, rest: string)
    requires AllDigits(ds)
    requires rest == [] || !IsDigit(rest[0])
    ensures DigitRun(ds + rest) == |ds|
  {
    if ds != [] {
      assert (ds + rest)[1..] == ds[1..] + rest;
      DigitRunOfDigits(ds[1..], rest);
    }
  }

  /** The digits of `m`, followed by a non-digit, are read back as `m`. */
  lemma NatDigitsReadBack(m: nat, rest: string)
    requires rest == [] || !IsDigit(rest[0])
    ensures IsDigit((NatDigits(m) + rest)[0])
    ensures LeadingNumber(NatDigits(m) + rest) == m
  {
    var ds := NatDigits(m);
    DigitRunOfDigits(ds, rest);
    NatDigitsValue(m);
    assert (ds + rest)[..|ds|] == ds;
  }

  /** A minus sign followed by a digit run is read as the negated run. */
  lemma NegatedReadBack(t: string, u: string)
    requires |t| > 1 && t[0] == '-' && t[1..] == u
    requires IsDigit(u[0])
    ensures ParseSigned(t) == Some(-(LeadingNumber(u) as int))
  {
  }

  // Dropping the sign, kept as a lemma only to keep the proof below cheap.
  lemma SignDropped(a: string, b: string)
    ensures |"-" + a + b| == 1 + |a + b|
    ensures ("-" + a + b)[0] == '-' && ("-" + a + b)[1..] == a + b
  {
  }

  /** Reading back the decimal text of any integer, followed by anything that
      does not continue the digit run, recovers the integer. */
  lemma DecimalRoundTrip(n: int, rest: string)
    requires rest == [] || !IsDigit(rest[0])
    ensures ParseSigned(Decimal(n) + rest) == Some(n)
  {
    if n < 0 {
      var ds := NatDigits(-n);
      NatDigitsReadBack(-n, rest);
      SignDropped(ds, rest);
      NegatedReadBack("-" + ds + rest, ds + rest);
    } else {
      NatDigitsReadBack(n, rest);
    }
  }
}
