/**
 * Calendar dates and their two text layouts: Go's `"2006-01-02"` (the
 * schedule URL) and `"2006/01/02"` (the date stored with each match). Both
 * are four-digit year, two-digit month and two-digit day joined by a
 * separator.
 */
module Calendar {
  import opened Results
  import opened Decimal

  datatype Date = Date(year: int, month: int, day: int)

  /** The dates Go's four-digit `2006` layout prints without a sign. */
  predicate ValidDate(d: Date)
  {
    0 <= d.year <= 9999 && 1 <= d.month <= 12 && 1 <= d.day <= 31
  }

  function Pad2(n: nat): (r: string)
    requires n < 100
    ensures |r| == 2 && AllDigits(r)
  {
    [DigitChar(n / 10), DigitChar(n % 10)]
  }

  function Pad4(n: nat): (r: string)
    requires n < 10000
    ensures |r| == 4 && AllDigits(r)
  {
    Pad2(n / 100) + Pad2(n % 100)
  }

  lemma Pad2Value(n: nat)
    requires n < 100
    ensures ValueOf(Pad2(n)) == n
  {
    var r := Pad2(n);
    assert r[..1][..0] == [];
    assert ValueOf(r[..1]) == n / 10;
    assert r[..|r| - 1] == r[..1];
  }

  /** Two trailing digits shift the value of the leading ones by a hundred. */
  lemma ValueOfTwoMore(x: string, y: string)
    requires AllDigits(x) && |y| == 2 && AllDigits(y)
    ensures AllDigits(x + y) && ValueOf(x + y) == ValueOf(x) * 100 + ValueOf(y)
  {
    var xy := x + y;
    var x1 := x + [y[0]];
    assert xy[..|xy| - 1] == x1;
    assert x1[..|x1| - 1] == x;
    assert ValueOf(x1) == ValueOf(x) * 10 + DigitValue(y[0]);
    assert ValueOf(xy) == ValueOf(x1) * 10 + DigitValue(y[1]);
    assert y[..1][..0] == [];
    assert ValueOf(y[..1]) == DigitValue(y[0]);
    assert y[..|y| - 1] == y[..1];
    assert ValueOf(y) == DigitValue(y[0]) * 10 + DigitValue(y[1]);
  }

  lemma Pad4Value(n: nat)
    requires n < 10000
    ensures ValueOf(Pad4(n)) == n
  {
    Pad2Value(n / 100);
    Pad2Value(n % 100);
    ValueOfTwoMore(Pad2(n / 100), Pad2(n % 100));
  }

  /** The date in the layout `YYYY<sep>MM<sep>DD`. */
  function FormatDate(d: Date, sep: char): (r: string)
    requires ValidDate(d)
    ensures |r| == 10 && r[4] == sep && r[7] == sep
  {
    Pad4(d.year) + [sep] + Pad2(d.month) + [sep] + Pad2(d.day)
  }

  /** Reads `YYYY<sep>MM<sep>DD` back; anything else, or an impossible
      month or day, is rejected. */
  function ParseDate(s: string, sep: char): (r: Option<Date>)
    ensures r.Some? ==> ValidDate(r.value)
  {
    if |s| == 10 && s[4] == sep && s[7] == sep
       && AllDigits(s[..4]) && AllDigits(s[5..7]) && AllDigits(s[8..])
    then
      var d := Date(ValueOf(s[..4]), ValueOf(s[5..7]), ValueOf(s[8..]));
      if ValidDate(d) then Some(d) else None
    else
      None
  }

  /** Formatting then reading returns the date. */
  lemma ParseFormatDate(d: Date, sep: char)
    requires ValidDate(d)
    ensures ParseDate(FormatDate(d, sep), sep) == Some(d)
  {
    var s := FormatDate(d, sep);
    assert s[..4] == Pad4(d.year);
    assert s[5..7] == Pad2(d.month);
    assert s[8..] == Pad2(d.day);
    Pad4Value(d.year);
    Pad2Value(d.month);
    Pad2Value(d.day);
  }

  lemma Pad2OfValue(s: string)
    requires |s| == 2 && AllDigits(s)
    ensures ValueOf(s) < 100 && Pad2(ValueOf(s)) == s
  {
    assert s[..1][..0] == [];
    assert ValueOf(s[..1]) == DigitValue(s[0]);
    assert s[..|s| - 1] == s[..1];
    assert ValueOf(s) == DigitValue(s[0]) * 10 + DigitValue(s[1]);
  }

  lemma Pad4OfValue(s: string)
    requires |s| == 4 && AllDigits(s)
    ensures ValueOf(s) < 10000 && Pad4(ValueOf(s)) == s
  {
    var hi, lo := s[..2], s[2..];
    assert s == hi + lo;
    Pad2OfValue(hi);
    Pad2OfValue(lo);
    ValueOfTwoMore(hi, lo);
    var n := ValueOf(s);
    assert n == ValueOf(hi) * 100 + ValueOf(lo);
    assert n / 100 == ValueOf(hi) && n % 100 == ValueOf(lo);
  }

  /** Every text the reader accepts is the canonical layout of its date. */
  lemma FormatParsedDate(s: string, sep: char)
    requires ParseDate(s, sep).Some?
    ensures FormatDate(ParseDate(s, sep).value, sep) == s
  {
    Pad4OfValue(s[..4]);
    Pad2OfValue(s[5..7]);
    Pad2OfValue(s[8..]);
    assert s == s[..4] + [s[4]] + s[5..7] + [s[7]] + s[8..];
  }
}
