/**
 * Calendar dates and the date column of the input, read the way
 * `datetime.strptime(text, "%m/%d/%Y").date()` reads it (CSV_report.py:42).
 *
 * `strptime` turns the format into a pattern in which `%m` is one of
 * `1[0-2]`, `0[1-9]`, `[1-9]`, `%d` is one of `3[01]`, `[12]\d`, `0[1-9]`,
 * `[1-9]`, ` [1-9]` and `%Y` is four digits; the whole text must match, and the
 * three numbers must then form a real date of the proleptic Gregorian calendar
 * from year 1 on. Any other text raises `ValueError` (here `None`).
 * The model reads ASCII digits only; the `\d` of `%d` and `%Y` also matches
 * other Unicode decimal digits, which this model does not accept.
 */
module Dates {
  import opened Wrappers
  import opened Numbers
  import opened Sequences

  datatype Date = Date(year: int, month: int, day: int)

  predicate IsLeapYear(y: int) {
    y % 4 == 0 && (y % 100 != 0 || y % 400 == 0)
  }

  function DaysInMonth(y: int, m: int): (n: int)
    requires 1 <= m <= 12
    ensures 28 <= n <= 31
    ensures n == 29 <==> m == 2 && IsLeapYear(y)
  {
    if m == 2 then (if IsLeapYear(y) then 29 else 28)
    else if m == 4 || m == 6 || m == 9 || m == 11 then 30
    else 31
  }

  /** A value `datetime.date` accepts: years 1 to 9999 and a day that exists in its month. */
  predicate ValidDate(d: Date) {
    && 1 <= d.year <= 9999
    && 1 <= d.month <= 12
    && 1 <= d.day <= DaysInMonth(d.year, d.month)
  }

  /** Python's `<=` on dates: chronological order. */
  predicate DateLe(a: Date, b: Date) {
    || a.year < b.year
    || (a.year == b.year && (a.month < b.month || (a.month == b.month && a.day <= b.day)))
  }

  lemma DateLeTotal(a: Date, b: Date)
    ensures DateLe(a, b) || DateLe(b, a)
  {
  }

  lemma DateLeAntisymmetric(a: Date, b: Date)
    requires DateLe(a, b) && DateLe(b, a)
    ensures a == b
  {
  }

  lemma DateLeTransitive(a: Date, b: Date, c: Date)
    requires DateLe(a, b) && DateLe(b, c)
    ensures DateLe(a, c)
  {
  }

  predicate InRange(c: char, lo: char, hi: char) { lo <= c <= hi }

  /** The `%m` field: `1[0-2]`, `0[1-9]` or `[1-9]`. */
  function MonthField(t: string): (r: Option<int>)
    ensures r.Some? ==> 1 <= r.value <= 12
  {
    if |t| == 1 && InRange(t[0], '1', '9') then Some(DigitValue(t[0]))
    else if |t| == 2 && t[0] == '0' && InRange(t[1], '1', '9') then Some(DigitValue(t[1]))
    else if |t| == 2 && t[0] == '1' && InRange(t[1], '0', '2') then Some(10 + DigitValue(t[1]))
    else None
  }

  /** The `%d` field: `3[01]`, `[12]` and a digit, `0[1-9]`, `[1-9]` or a space and `[1-9]`. */
  function DayField(t: string): (r: Option<int>)
    ensures r.Some? ==> 1 <= r.value <= 31
  {
    if |t| == 1 && InRange(t[0], '1', '9') then Some(DigitValue(t[0]))
    else if |t| == 2 && (t[0] == '0' || t[0] == ' ') && InRange(t[1], '1', '9') then Some(DigitValue(t[1]))
    else if |t| == 2 && InRange(t[0], '1', '2') && IsDigit(t[1]) then Some(10 * DigitValue(t[0]) + DigitValue(t[1]))
    else if |t| == 2 && t[0] == '3' && InRange(t[1], '0', '1') then Some(30 + DigitValue(t[1]))
    else None
  }

  /** The `%Y` field: exactly four digits. */
  function YearField(t: string): (r: Option<int>)
    ensures r.Some? ==> 0 <= r.value <= 9999
  {
    if |t| == 4 && IsDigit(t[0]) && IsDigit(t[1]) && IsDigit(t[2]) && IsDigit(t[3]) then
      Some(1000 * DigitValue(t[0]) + 100 * DigitValue(t[1]) + 10 * DigitValue(t[2]) + DigitValue(t[3]))
    else None
  }

  /** A `/` at position `i` splits `s` into the text before it and the text after it. */
  lemma SlashAt(s: string, i: nat)
    requires i < |s| && s[i] == '/'
    ensures s == s[..i] + "/" + s[i + 1..]
  {
    assert s == s[..i] + [s[i]] + s[i + 1..];
  }

  /** Cutting out the `/` at `i` and the one `k` places further on leaves three fields. */
  lemma SlashesAt(s: string, i: nat, k: nat)
    requires i < |s| && s[i] == '/'
    requires k < |s[i + 1..]| && s[i + 1..][k] == '/'
    ensures s == s[..i] + "/" + s[i + 1..][..k] + "/" + s[i + 1..][k + 1..]
  {
    var rest := s[i + 1..];
    SlashAt(s, i);
    SlashAt(rest, k);
    assert s[..i] + "/" + rest == s[..i] + "/" + (rest[..k] + "/" + rest[k + 1..]);
  }

  /** The text before the first `/`, between the first two, and after the second.
      None of the three fields can hold a `/`, so this is how the pattern splits the text. */
  function SplitFields(s: string): (r: Option<(string, string, string)>)
    ensures r.Some? ==> s == r.value.0 + "/" + r.value.1 + "/" + r.value.2
    ensures r.Some? ==> '/' !in r.value.0 && '/' !in r.value.1
  {
    if '/' !in s then None
    else
      var i := FirstIndexOf(s, '/');
      var rest := s[i + 1..];
      if '/' !in rest then None
      else
        var k := FirstIndexOf(rest, '/');
        SlashesAt(s, i, k);
        Some((s[..i], rest[..k], rest[k + 1..]))
  }

  /** Joining three fields, the first two without a `/`, splits back into them. */
  lemma SplitFieldsJoin(m: string, d: string, y: string)
    requires '/' !in m && '/' !in d
    ensures SplitFields(m + "/" + d + "/" + y) == Some((m, d, y))
  {
    var s := m + "/" + d + "/" + y;
    assert s[..|m|] == m;
    FirstIndexAt(s, '/', |m|);
    var rest := s[|m| + 1..];
    assert rest == d + "/" + y;
    assert rest[..|d|] == d;
    FirstIndexAt(rest, '/', |d|);
    assert rest[|d| + 1..] == y;
  }

  /** `datetime.strptime(s, "%m/%d/%Y").date()`, `None` standing for `ValueError`. */
  function ParseDate(s: string): (r: Option<Date>)
    ensures r.Some? ==> ValidDate(r.value)
  {
    match SplitFields(s)
    case None => None
    case Some((m, d, y)) =>
      var month, day, year := MonthField(m), DayField(d), YearField(y);
      if month.Some? && day.Some? && year.Some? && ValidDate(Date(year.value, month.value, day.value)) then
        Some(Date(year.value, month.value, day.value))
      else None
  }

  function Pad2(v: nat): (t: string)
    requires v < 100
    ensures |t| == 2 && IsDigit(t[0]) && IsDigit(t[1])
    ensures DigitValue(t[0]) == v / 10 && DigitValue(t[1]) == v % 10
  {
    [DigitChar(v / 10), DigitChar(v % 10)]
  }

  /** The canonical `MM/DD/YYYY` text of a date, as the input is documented to hold. */
  function FormatMonthDayYear(d: Date): (t: string)
    requires ValidDate(d)
    ensures |t| == 10
  {
    Pad2(d.month) + "/" + Pad2(d.day) + "/" + (Pad2(d.year / 100) + Pad2(d.year % 100))
  }

  lemma DigitsHaveNoSlash(t: string)
    requires forall i :: 0 <= i < |t| ==> IsDigit(t[i])
    ensures '/' !in t
  {
  }

  lemma MonthOfPad2(v: nat)
    requires 1 <= v <= 12
    ensures MonthField(Pad2(v)) == Some(v)
  {
  }

  lemma DayOfPad2(v: nat)
    requires 1 <= v <= 31
    ensures DayField(Pad2(v)) == Some(v)
  {
  }

  lemma YearOfPad2(v: nat)
    requires v <= 9999
    ensures YearField(Pad2(v / 100) + Pad2(v % 100)) == Some(v)
  {
    var t := Pad2(v / 100) + Pad2(v % 100);
    assert t[0] == Pad2(v / 100)[0] && t[1] == Pad2(v / 100)[1] && t[2] == Pad2(v % 100)[0] && t[3] == Pad2(v % 100)[1];
  }

  /** Every valid date written as `MM/DD/YYYY` is read back as itself. */
  lemma ParseFormatted(d: Date)
    requires ValidDate(d)
    ensures ParseDate(FormatMonthDayYear(d)) == Some(d)
  {
    var m, dd, y := Pad2(d.month), Pad2(d.day), Pad2(d.year / 100) + Pad2(d.year % 100);
    DigitsHaveNoSlash(m);
    DigitsHaveNoSlash(dd);
    SplitFieldsJoin(m, dd, y);
    MonthOfPad2(d.month);
    DayOfPad2(d.day);
    YearOfPad2(d.year);
  }

  /** A month of 13 and a day of 40 are refused. */
  lemma RejectsOutOfRangeFields()
    ensures ParseDate("13/40/2020") == None
  {
    assert "13/40/2020" == "13" + "/" + "40" + "/" + "2020";
    SplitFieldsJoin("13", "40", "2020");
    assert MonthField("13") == None;
  }

  /** One-digit month and day fields are accepted, as `strptime` does: `1/5/2021` is 5 January 2021. */
  lemma AcceptsOneDigitFields(m: char, d: char, year: nat)
    requires '1' <= m <= '9' && '1' <= d <= '9' && 1 <= year <= 9999
    ensures ParseDate([m] + "/" + [d] + "/" + (Pad2(year / 100) + Pad2(year % 100)))
         == Some(Date(year, DigitValue(m), DigitValue(d)))
  {
    YearOfPad2(year);
    SplitFieldsJoin([m], [d], Pad2(year / 100) + Pad2(year % 100));
  }
}
