/**
 * Calendar dates as the service sees them after date parsing: a valid
 * Gregorian (year, month, day) with a four-digit year, its "YYYY-MM-DD"
 * spelling (what `toDateString()` produces) and the month range
 * [first day, last day] that the monthly report queries.
 */
module Calendar {
  import opened Wrappers

  datatype Date = Date(year: int, month: int, day: int)

  predicate IsLeapYear(y: int) {
    (y % 4 == 0 && y % 100 != 0) || y % 400 == 0
  }

  function DaysInMonth(y: int, m: int): (n: int)
    requires 1 <= m <= 12
    ensures 28 <= n <= 31
    ensures n == 29 <==> m == 2 && IsLeapYear(y)
  {
    if m == 2 then (if IsLeapYear(y) then 29 else 28)
    else if m == 4 || m == 6 || m == 9 || m == 11 then 30
    else 31
  }

  predicate IsValidDate(d: Date) {
    && 1 <= d.year <= 9999
    && 1 <= d.month <= 12
    && 1 <= d.day <= DaysInMonth(d.year, d.month)
  }

  /** A date that exists on the calendar; every date the service handles is one. */
  type CalDate = d: Date | IsValidDate(d) witness Date(2000, 1, 1)

  /** Chronological order: year, then month, then day. */
  predicate DateLe(a: Date, b: Date) {
    a.year < b.year
    || (a.year == b.year && a.month < b.month)
    || (a.year == b.year && a.month == b.month && a.day <= b.day)
  }

  /** The month's first day (`startOfMonth`): a real date no later than any day of the month. */
  function StartOfMonth(y: int, m: int): (s: Date)
    requires 1 <= m <= 12
    ensures s.year == y && s.month == m
    ensures 1 <= y <= 9999 ==> IsValidDate(s)
    ensures forall d: Date :: IsValidDate(d) && d.year == y && d.month == m ==> DateLe(s, d)
  {
    Date(y, m, 1)
  }

  /** The month's last day (`endOfMonth`): a real date no earlier than any day of the month. */
  function EndOfMonth(y: int, m: int): (e: Date)
    requires 1 <= m <= 12
    ensures e.year == y && e.month == m
    ensures 1 <= y <= 9999 ==> IsValidDate(e)
    ensures forall d: Date :: IsValidDate(d) && d.year == y && d.month == m ==> DateLe(d, e)
  {
    Date(y, m, DaysInMonth(y, m))
  }

  /** The inclusive range test of a `whereBetween` on [start, end]. */
  predicate Between(d: Date, lo: Date, hi: Date) {
    DateLe(lo, d) && DateLe(d, hi)
  }

  /** A valid date lies in the month's range exactly when its year and month are the month's. */
  lemma MonthRangeIsYearMonth(d: CalDate, y: int, m: int)
    requires 1 <= m <= 12
    ensures Between(d, StartOfMonth(y, m), EndOfMonth(y, m)) <==> d.year == y && d.month == m
  {
  }

  // ---- "YYYY-MM-DD" spelling ----

  predicate IsDigit(c: char) {
    '0' <= c <= '9'
  }

  function DigitChar(n: nat): (c: char)
    requires n < 10
    ensures IsDigit(c) && c as int - '0' as int == n
  {
    ('0' as int + n) as char
  }

  /** The value of a string of decimal digits, most significant first. */
  function DigitsValue(s: string): (v: nat)
    requires forall i :: 0 <= i < |s| ==> IsDigit(s[i])
  {
    if s == [] then 0
    else
      assert IsDigit(s[|s| - 1]);
      DigitsValue(s[..|s| - 1]) * 10 + (s[|s| - 1] as int - '0' as int)
  }

  function Pad2(n: nat): (s: string)
    requires n < 100
  {
    [DigitChar(n / 10), DigitChar(n % 10)]
  }

  function Pad4(n: nat): (s: string)
    requires n < 10000
  {
    [DigitChar(n / 1000), DigitChar(n / 100 % 10), DigitChar(n / 10 % 10), DigitChar(n % 10)]
  }

  /** `toDateString()`: the zero-padded "YYYY-MM-DD" form. */
  function FormatDate(d: CalDate): (s: string)
    ensures |s| == 10 && s[4] == '-' && s[7] == '-'
    ensures forall i :: 0 <= i < 10 && i != 4 && i != 7 ==> IsDigit(s[i])
  {
    Pad4(d.year) + "-" + Pad2(d.month) + "-" + Pad2(d.day)
  }

  predicate IsIsoShape(s: string) {
    && |s| == 10 && s[4] == '-' && s[7] == '-'
    && (forall i :: 0 <= i < 4 ==> IsDigit(s[i]))
    && (forall i :: 5 <= i < 7 ==> IsDigit(s[i]))
    && (forall i :: 8 <= i < 10 ==> IsDigit(s[i]))
  }

  /** Reads a "YYYY-MM-DD" string; anything else, or a day the calendar lacks, is None. */
  function ParseIsoDate(s: string): (r: Option<CalDate>)
    ensures r.Some? ==> IsIsoShape(s)
  {
    if IsIsoShape(s) then
      var d := Date(DigitsValue(s[..4]), DigitsValue(s[5..7]), DigitsValue(s[8..]));
      if IsValidDate(d) then Some(d) else None
    else None
  }

  lemma Pad2Value(n: nat)
    requires n < 100
    ensures DigitsValue(Pad2(n)) == n
  {
    var s := Pad2(n);
    assert s[..1][..0] == [];
    assert DigitsValue(s[..1]) == n / 10;
    assert s[..|s| - 1] == s[..1];
  }

  lemma Pad4Value(n: nat)
    requires n < 10000
    ensures DigitsValue(Pad4(n)) == n
  {
    var s := Pad4(n);
    var a, b, c := n / 1000, n / 100, n / 10;
    assert a == b / 10 && b == c / 10;
    assert s[..0] == [] && s[..1][..0] == [];
    assert DigitsValue(s[..1]) == a;
    assert s[..2][..1] == s[..1];
    assert DigitsValue(s[..2]) == a * 10 + b % 10 == b;
    assert s[..3][..2] == s[..2];
    assert DigitsValue(s[..3]) == b * 10 + c % 10 == c;
    assert s[..4][..3] == s[..3];
    assert s[..|s| - 1] == s[..3];
  }

  /** A two-digit string is the zero-padded spelling of its value. */
  lemma Pad2Inverse(t: string)
    requires |t| == 2 && IsDigit(t[0]) && IsDigit(t[1])
    ensures DigitsValue(t) < 100 && Pad2(DigitsValue(t)) == t
  {
    var d0, d1 := t[0] as int - '0' as int, t[1] as int - '0' as int;
    assert t[..1][..0] == [] && t[..|t| - 1] == t[..1];
    assert DigitsValue(t[..1][..0]) == 0 && t[..1][0] == t[0];
    assert DigitsValue(t[..1]) == d0;
    var v := DigitsValue(t);
    assert v == d0 * 10 + d1;
    assert v / 10 == d0 && v % 10 == d1;
  }

  /** A four-digit string is the zero-padded spelling of its value. */
  lemma Pad4Inverse(t: string)
    requires |t| == 4 && forall i :: 0 <= i < 4 ==> IsDigit(t[i])
    ensures DigitsValue(t) < 10000 && Pad4(DigitsValue(t)) == t
  {
    var d0, d1, d2, d3 := t[0] as int - '0' as int, t[1] as int - '0' as int, t[2] as int - '0' as int, t[3] as int - '0' as int;
    FourDigitsValue(t);
    FourDigits(d0, d1, d2, d3);
    assert DigitChar(d0) == t[0] && DigitChar(d1) == t[1] && DigitChar(d2) == t[2] && DigitChar(d3) == t[3];
  }

  lemma FourDigitsValue(t: string)
    requires |t| == 4 && forall i :: 0 <= i < 4 ==> IsDigit(t[i])
    ensures DigitsValue(t) ==
      1000 * (t[0] as int - '0' as int) + 100 * (t[1] as int - '0' as int) + 10 * (t[2] as int - '0' as int) + (t[3] as int - '0' as int)
  {
    var p1, p2, p3 := t[..1], t[..2], t[..3];
    assert p1[..0] == [] && p2[..1] == p1 && p3[..2] == p2 && t[..3] == p3;
    assert p1[0] == t[0] && p2[1] == t[1] && p3[2] == t[2];
    assert DigitsValue(p1) == t[0] as int - '0' as int;
    assert DigitsValue(p2) == DigitsValue(p1) * 10 + (t[1] as int - '0' as int);
    assert DigitsValue(p3) == DigitsValue(p2) * 10 + (t[2] as int - '0' as int);
  }

  lemma FourDigits(d0: nat, d1: nat, d2: nat, d3: nat)
    requires d0 < 10 && d1 < 10 && d2 < 10 && d3 < 10
    ensures var v := 1000 * d0 + 100 * d1 + 10 * d2 + d3;
      v < 10000 && v / 1000 == d0 && v / 100 % 10 == d1 && v / 10 % 10 == d2 && v % 10 == d3
  {
    var v := 1000 * d0 + 100 * d1 + 10 * d2 + d3;
    assert v / 10 == 100 * d0 + 10 * d1 + d2 && v % 10 == d3;
    assert v / 100 == 10 * d0 + d1;
    assert v / 1000 == d0;
  }

  /**
   * An accepted string is the canonical spelling of the date it is read as: ParseIsoDate
   * accepts only `YYYY-MM-DD` spellings of days the calendar has.
   */
  lemma FormatParse(s: string, d: CalDate)
    requires ParseIsoDate(s) == Some(d)
    ensures FormatDate(d) == s
  {
    Pad4Inverse(s[..4]);
    Pad2Inverse(s[5..7]);
    Pad2Inverse(s[8..]);
    assert s == s[..4] + "-" + s[5..7] + "-" + s[8..];
  }

  /** Year 0000 names no date: like `checkdate`, the parser refuses it whatever the month and day. */
  lemma YearZeroRefused(s: string)
    requires IsIsoShape(s) && s[..4] == "0000"
    ensures ParseIsoDate(s) == None
  {
    assert "0"[..0] == [] && "00"[..1] == "0" && "000"[..2] == "00" && "0000"[..3] == "000";
    assert DigitsValue("0") == 0 && DigitsValue("00") == 0 && DigitsValue("000") == 0;
    assert DigitsValue(s[..4]) == 0;
  }

  /** Reading back a formatted date gives the date: FormatDate is the inverse of ParseIsoDate. */
  lemma ParseFormat(d: CalDate)
    ensures ParseIsoDate(FormatDate(d)) == Some(d)
  {
    var s := FormatDate(d);
    Pad4Value(d.year);
    Pad2Value(d.month);
    Pad2Value(d.day);
    assert s[..4] == Pad4(d.year);
    assert s[5..7] == Pad2(d.month);
    assert s[8..] == Pad2(d.day);
  }

  /** Distinct dates have distinct spellings. */
  lemma FormatDateInjective(a: CalDate, b: CalDate)
    ensures FormatDate(a) == FormatDate(b) ==> a == b
  {
    ParseFormat(a);
    ParseFormat(b);
  }
}
