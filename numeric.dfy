/** The two number conversions the programs use on header values:
    std::stoi (text to a 32-bit int, throwing on failure) and
    std::to_string (a non-negative count to decimal text).  The target is
    Windows, where `long` is 32 bits wide like `int`, so stoi's out_of_range
    fires exactly outside [IntMin, IntMax]. */
module Numeric {
  import opened Text

  const IntMin: int := -0x8000_0000
  const IntMax: int := 0x7fff_ffff

  predicate IsDigit(c: char)
  {
    '0' <= c <= '9'
  }

  /** isspace in the "C" locale, which strtol skips before the number. */
  predicate IsCSpace(c: char)
  {
    c == ' ' || c == '\t' || c == '\n' || c == '\r' || c == '\U{B}' || c == '\U{C}'
  }

  predicate AllDigits(s: string)
  {
    forall i :: 0 <= i < |s| ==> IsDigit(s[i])
  }

  function DigitValue(c: char): (d: nat)
    requires IsDigit(c)
    ensures d < 10
  {
    c as int - '0' as int
  }

  function DigitChar(d: nat): (c: char)
    requires d < 10
    ensures IsDigit(c) && DigitValue(c) == d
  {
    ('0' as int + d) as char
  }

  /** The value of a run of decimal digits, most significant first. */
  function DigitsValue(ds: string): nat
    requires AllDigits(ds)
  {
    if ds == [] then 0 else 10 * DigitsValue(ds[..|ds| - 1]) + DigitValue(ds[|ds| - 1])
  }

  /** std::to_string of a non-negative count. */
  function ToDecimal(n: nat): (r: string)
    ensures |r| >= 1 && AllDigits(r)
    ensures r[0] == '0' ==> n == 0
  {
    if n < 10 then [DigitChar(n)] else ToDecimal(n / 10) + [DigitChar(n % 10)]
  }

  /** std::stoi(s): None where stoi throws invalid_argument (no digits after
      the optional white space and sign) or out_of_range (a value outside
      32 bits); text after the digits is ignored. */
  function Stoi(s: string): (r: Option<int>)
    ensures r.Some? ==> IntMin <= r.value <= IntMax
  {
    var a := SkipWhile(s, 0, IsCSpace);
    var signed := a < |s| && (s[a] == '+' || s[a] == '-');
    var b := if signed then a + 1 else a;
    var e := SkipWhile(s, b, IsDigit);
    if e == b then None
    else
      var magnitude: int := DigitsValue(s[b..e]);
      var v: int := if signed && s[a] == '-' then -magnitude else magnitude;
      if IntMin <= v <= IntMax then Some(v) else None
  }

  /** Reading back what ToDecimal wrote gives the number. */
  lemma {:induction false} DecimalRoundTrip(n: nat)
    ensures DigitsValue(ToDecimal(n)) == n
  {
    if n >= 10 {
      var t := ToDecimal(n / 10);
      var r := ToDecimal(n);
      assert r[..|r| - 1] == t;
      DecimalRoundTrip(n / 10);
    }
  }

  /** stoi reads a decimal back, whatever non-digit text follows it, as long
      as the value fits in an int. */
  lemma StoiReadsDecimal(n: nat, junk: string)
    requires junk == [] || !IsDigit(junk[0])
    ensures Stoi(ToDecimal(n) + junk) == if n <= IntMax then Some(n) else None
  {
    var d := ToDecimal(n);
    var s := d + junk;
    assert s[0] == d[0];
    SkipWhileUnique(s, 0, 0, IsCSpace);
    SkipWhileUnique(s, 0, |d|, IsDigit);
    assert s[0..|d|] == d;
    DecimalRoundTrip(n);
  }

  /** A leading minus sign gives a negative Content-Length; stoi accepts it. */
  lemma StoiReadsNegative(n: nat)
    requires 0 < n <= IntMax
    ensures Stoi("-" + ToDecimal(n)) == Some(-(n as int))
  {
    var d := ToDecimal(n);
    var s := "-" + d;
    SkipWhileUnique(s, 0, 0, IsCSpace);
    SkipWhileUnique(s, 1, |s|, IsDigit);
    assert s[1..|s|] == d;
    DecimalRoundTrip(n);
  }

  /** Text with no digit at all is an invalid_argument for stoi. */
  lemma StoiNeedsDigit(s: string)
    requires forall i :: 0 <= i < |s| ==> !IsDigit(s[i])
    ensures Stoi(s) == None
  {
  }
}
