/**
 * Decimal integers as text: Go's `strconv.Itoa`, which the live poll uses
 * to turn a match id into the key of its update statement, and the
 * decimal reading (`strconv.ParseInt` base 10) that turns such a key, or a
 * text column scanned into an integer, back into a number.
 */
module Decimal {
  import opened Results

  predicate IsDigit(c: char)
  {
    '0' <= c <= '9'
  }

  predicate AllDigits(s: string)
  {
    forall k :: 0 <= k < |s| ==> IsDigit(s[k])
  }

  function DigitChar(d: nat): (c: char)
    requires d < 10
    ensures IsDigit(c)
  {
    ('0' as int + d) as char
  }

  function DigitValue(c: char): (d: nat)
    requires IsDigit(c)
    ensures d < 10
  {
    c as int - '0' as int
  }

  /** The number a non-empty run of digits denotes, most significant first. */
  function ValueOf(ds: string): nat
    requires AllDigits(ds)
    decreases |ds|
  {
    if |ds| == 0 then 0 else ValueOf(ds[..|ds| - 1]) * 10 + DigitValue(ds[|ds| - 1])
  }

  /** The shortest digit string of `n`. */
  function Digits(n: nat): (r: string)
    ensures |r| > 0 && AllDigits(r)
    ensures ValueOf(r) == n
    decreases n
  {
    if n < 10 then
      [DigitChar(n)]
    else
      var prefix := Digits(n / 10);
      var r := prefix + [DigitChar(n % 10)];
      assert r[..|r| - 1] == prefix;
      r
  }

  /** `strconv.ParseInt(s, 10, 64)`: an optional sign followed by one or
      more decimal digits; anything else is rejected. */
  function ParseDecimal(s: string): (r: Option<int>)
    ensures r.Some? <==> (|s| > 0 && (if s[0] == '-' || s[0] == '+' then |s| > 1 && AllDigits(s[1..]) else AllDigits(s)))
    ensures r.Some? && |s| > 0 && s[0] != '-' ==> r.value >= 0
  {
    if |s| == 0 then None
    else if s[0] == '-' || s[0] == '+' then
      if |s| > 1 && AllDigits(s[1..]) then
        var v: int := ValueOf(s[1..]);
        Some(if s[0] == '-' then -v else v)
      else None
    else if AllDigits(s) then Some(ValueOf(s))
    else None
  }

  /** `strconv.Itoa`: a minus sign for negative numbers, then the digits.
      Reading the text back yields the number. */
  function Itoa(n: int): (r: string)
    ensures |r| > 0
    ensures ParseDecimal(r) == Some(n)
  {
    if n < 0 then
      var r := "-" + Digits(-n);
      assert r[1..] == Digits(-n);
      r
    else
      Digits(n)
  }

  /** Distinct ids never share an update key. */
  lemma ItoaInjective(m: int, n: int)
    requires Itoa(m) == Itoa(n)
    ensures m == n
  {
    assert ParseDecimal(Itoa(m)) == Some(m);
  }
}
