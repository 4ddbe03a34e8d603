/** The date handling of the Netflix row normaliser:
    `datetime.strptime(s, '%Y-%m-%d')`, followed by `strftime('%d')` and
    `.year`.  `strptime` matches the format's pattern from the start of the
    text and raises `ValueError` when the pattern does not match, when text is
    left over, or when the fields do not form a date of the proleptic
    Gregorian calendar between the years 1 and 9999. */
module Dates {
  import opened Wrappers
  import opened Text

  datatype Date = Date(year: int, month: int, day: int)

  predicate IsLeapYear(y: int) {
    y % 4 == 0 && (y % 100 != 0 || y % 400 == 0)
  }

  function DaysInMonth(y: int, m: int): (n: int)
    requires 1 <= m <= 12
    ensures 28 <= n <= 31
  {
    if m == 2 then (if IsLeapYear(y) then 29 else 28)
    else if m == 4 || m == 6 || m == 9 || m == 11 then 30
    else 31
  }

  /** A date that Python's `datetime.date` accepts. */
  predicate ValidDate(d: Date) {
    1 <= d.year <= 9999 && 1 <= d.month <= 12 && 1 <= d.day <= DaysInMonth(d.year, d.month)
  }

  /** The `%m` field, pattern `1[0-2]|0[1-9]|[1-9]`, and the `-` that follows
      it in the format: the month and the text after that `-`. */
  function MonthField(r: string): (res: Option<(int, string)>)
    ensures res.Some? ==> 1 <= res.value.0 <= 12 && |res.value.1| <= |r| - 2
  {
    if |r| >= 3 && r[2] == '-' && ((r[0] == '1' && '0' <= r[1] <= '2') || (r[0] == '0' && '1' <= r[1] <= '9')) then
      DigitsValueTwo(r[..2]);
      Some((DigitsValue(r[..2]), r[3..]))
    else if |r| >= 2 && r[1] == '-' && '1' <= r[0] <= '9' then
      DigitsValueOne(r[..1]);
      Some((DigitsValue(r[..1]), r[2..]))
    else None
  }

  /** The `%d` field, pattern `3[01]|[12]\d|0[1-9]|[1-9]| [1-9]`, which has to
      take up the rest of the text ("unconverted data remains" otherwise). */
  function DayField(r: string): (res: Option<int>)
    ensures res.Some? ==> 1 <= res.value <= 31 && 1 <= |r| <= 2
  {
    if |r| == 2 && ((r[0] == '3' && (r[1] == '0' || r[1] == '1'))
                    || ((r[0] == '1' || r[0] == '2') && IsDigit(r[1]))
                    || (r[0] == '0' && '1' <= r[1] <= '9')) then
      DigitsValueTwo(r);
      Some(DigitsValue(r))
    else if |r| == 2 && r[0] == ' ' && '1' <= r[1] <= '9' then
      DigitsValueOne(r[1..]);
      Some(DigitsValue(r[1..]))
    else if |r| == 1 && '1' <= r[0] <= '9' then
      DigitsValueOne(r);
      Some(DigitsValue(r))
    else None
  }

  /** `datetime.strptime(s, '%Y-%m-%d')`, `None` where it raises `ValueError`.
      The year is exactly four digits; month and day may also be written with
      one digit, and the day with a leading space. */
  function ParseIsoDate(s: string): (r: Option<Date>)
    ensures r.Some? ==> ValidDate(r.value)
    ensures r.Some? ==> 8 <= |s| <= 10 && AllDigits(s[..4]) && s[4] == '-' && r.value.year == DigitsValue(s[..4])
  {
    if |s| < 5 || !AllDigits(s[..4]) || s[4] != '-' then None
    else
      match MonthField(s[5..])
      case None => None
      case Some((m, rest)) =>
        match DayField(rest)
        case None => None
        case Some(d) =>
          var date := Date(DigitsValue(s[..4]), m, d);
          if ValidDate(date) then Some(date) else None
  }

  /** The two-digit decimal text of `n`, zero-padded (`strftime('%d')`). */
  function Pad2(n: int): (r: string)
    requires 0 <= n <= 99
    ensures |r| == 2 && AllDigits(r) && DigitsValue(r) == n
  {
    var r := [DigitChar(n / 10), DigitChar(n % 10)];
    DigitsValueTwo(r);
    r
  }

  /** The four-digit decimal text of `n`, zero-padded (`strftime('%Y')`). */
  function Pad4(n: int): (r: string)
    requires 0 <= n <= 9999
    ensures |r| == 4 && AllDigits(r) && DigitsValue(r) == n
  {
    var hi := Pad2(n / 100);
    var lo := Pad2(n % 100);
    DigitsValueAppendTwo(hi, lo);
    hi + lo
  }

  /** The day column of the `shows` table: `date_obj.strftime('%d')`. */
  function DayString(d: Date): (r: string)
    requires ValidDate(d)
    ensures |r| == 2 && AllDigits(r) && DigitsValue(r) == d.day
  {
    Pad2(d.day)
  }

  /** The canonical `YYYY-MM-DD` spelling of a date (`date.isoformat()`). */
  function FormatIsoDate(d: Date): (s: string)
    requires ValidDate(d)
    ensures |s| == 10
  {
    Pad4(d.year) + "-" + Pad2(d.month) + "-" + Pad2(d.day)
  }

  /** Every valid date, written as `YYYY-MM-DD`, is parsed back to itself. */
  lemma ParseFormatRoundTrip(d: Date)
    requires ValidDate(d)
    ensures ParseIsoDate(FormatIsoDate(d)) == Some(d)
  {
    var s := FormatIsoDate(d);
    var y, m, dd := Pad4(d.year), Pad2(d.month), Pad2(d.day);
    assert s[..4] == y;
    assert s[4] == '-';
    var r := s[5..];
    assert r == m + "-" + dd;
    assert r[..2] == m && r[2] == '-' && r[3..] == dd;
    assert MonthField(r) == Some((d.month, dd));
    assert DayField(dd) == Some(d.day);
  }

  /** A ten-character text that parses, and whose day is not written with a
      leading space, is the canonical spelling of its date. */
  lemma ParseCanonical(s: string)
    requires |s| == 10 && s[8] != ' ' && ParseIsoDate(s).Some?
    ensures FormatIsoDate(ParseIsoDate(s).value) == s
  {
    var d := ParseIsoDate(s).value;
    var r := s[5..];
    assert r[2] == '-';
    assert MonthField(r) == Some((DigitsValue(r[..2]), r[3..]));
    assert r[3..][0] == s[8];
    TwoDigitsCanonical(r[..2]);
    TwoDigitsCanonical(r[3..]);
    FourDigitsCanonical(s[..4]);
    assert s == s[..4] + "-" + r[..2] + "-" + r[3..];
  }

  lemma TwoDigitsCanonical(t: string)
    requires |t| == 2 && AllDigits(t)
    ensures DigitsValue(t) <= 99
    ensures Pad2(DigitsValue(t)) == t
  {
    DigitsValueTwo(t);
  }

  lemma FourDigitsCanonical(t: string)
    requires |t| == 4 && AllDigits(t)
    ensures DigitsValue(t) <= 9999
    ensures Pad4(DigitsValue(t)) == t
  {
    var a, b := t[..2], t[2..];
    assert t == a + b;
    DigitsValueAppendTwo(a, b);
    TwoDigitsCanonical(a);
    TwoDigitsCanonical(b);
    DivMod100(DigitsValue(a), DigitsValue(b));
  }

  lemma DivMod100(x: nat, y: nat)
    requires y < 100
    ensures (100 * x + y) / 100 == x && (100 * x + y) % 100 == y
  {
  }

  /** `%m` takes a zero-padded month and the dash after it. */
  lemma MonthFieldTwoDigits(m: int, rest: string)
    requires 1 <= m <= 12
    ensures MonthField(Pad2(m) + "-" + rest) == Some((m, rest))
  {
    var r := Pad2(m) + "-" + rest;
    assert r[..2] == Pad2(m) && r[2] == '-' && r[3..] == rest;
  }

  /** `%m` also takes a one-digit month and the dash after it. */
  lemma MonthFieldOneDigit(m: int, rest: string)
    requires 1 <= m <= 9
    ensures MonthField([DigitChar(m), '-'] + rest) == Some((m, rest))
  {
    var r := [DigitChar(m), '-'] + rest;
    assert r[..1] == [DigitChar(m)] && r[1] == '-' && r[2..] == rest;
    DigitsValueOne(r[..1]);
  }

  /** `%d` takes a zero-padded day that ends the text. */
  lemma DayFieldTwoDigits(d: int)
    requires 1 <= d <= 31
    ensures DayField(Pad2(d)) == Some(d)
  {
  }

  /** `%d` also takes a one-digit day, with or without a leading space. */
  lemma DayFieldOneDigit(d: int)
    requires 1 <= d <= 9
    ensures DayField([DigitChar(d)]) == Some(d)
    ensures DayField([' ', DigitChar(d)]) == Some(d)
  {
    DigitsValueOne([DigitChar(d)]);
    assert [' ', DigitChar(d)][1..] == [DigitChar(d)];
  }

  /** The leniency of `strptime`: a month written with one digit is
      accepted, e.g. `2021-9-05`. */
  lemma ParseOneDigitMonth(d: Date)
    requires ValidDate(d) && d.month <= 9
    ensures ParseIsoDate(Pad4(d.year) + "-" + [DigitChar(d.month)] + "-" + Pad2(d.day)) == Some(d)
  {
    var s := Pad4(d.year) + "-" + [DigitChar(d.month)] + "-" + Pad2(d.day);
    assert s[..4] == Pad4(d.year) && s[4] == '-';
    assert s[5..] == [DigitChar(d.month), '-'] + Pad2(d.day);
    MonthFieldOneDigit(d.month, Pad2(d.day));
    DayFieldTwoDigits(d.day);
  }

  /** A day written with one digit is accepted, e.g. `2021-09-5`. */
  lemma ParseOneDigitDay(d: Date)
    requires ValidDate(d) && d.day <= 9
    ensures ParseIsoDate(Pad4(d.year) + "-" + Pad2(d.month) + "-" + [DigitChar(d.day)]) == Some(d)
  {
    var s := Pad4(d.year) + "-" + Pad2(d.month) + "-" + [DigitChar(d.day)];
    assert s[..4] == Pad4(d.year) && s[4] == '-';
    assert s[5..] == Pad2(d.month) + "-" + [DigitChar(d.day)];
    MonthFieldTwoDigits(d.month, [DigitChar(d.day)]);
    DayFieldOneDigit(d.day);
  }

  /** A day written with a leading space is accepted, e.g. `2021-09- 5`. */
  lemma ParseSpacePaddedDay(d: Date)
    requires ValidDate(d) && d.day <= 9
    ensures ParseIsoDate(Pad4(d.year) + "-" + Pad2(d.month) + "-" + [' ', DigitChar(d.day)]) == Some(d)
  {
    var s := Pad4(d.year) + "-" + Pad2(d.month) + "-" + [' ', DigitChar(d.day)];
    assert s[..4] == Pad4(d.year) && s[4] == '-';
    assert s[5..] == Pad2(d.month) + "-" + [' ', DigitChar(d.day)];
    MonthFieldTwoDigits(d.month, [' ', DigitChar(d.day)]);
    DayFieldOneDigit(d.day);
  }

  /** A day that does not exist in its month is rejected. */
  lemma ParseRejectsFebruary29()
    ensures ParseIsoDate("2021-02-29") == None
  {
    DigitsValueAppendTwo("20", "21");
    DigitsValueTwo("20");
    DigitsValueTwo("21");
    assert "2021-02-29"[..4] == "20" + "21";
  }

  /** The year 0 is rejected. */
  lemma ParseRejectsYearZero()
    ensures ParseIsoDate("0000-01-01") == None
  {
    DigitsValueAppendTwo("00", "00");
    DigitsValueTwo("00");
    assert "0000-01-01"[..4] == "00" + "00";
  }

  /** Text after the day, and other layouts, are rejected. */
  lemma ParseRejectsOtherText()
    ensures ParseIsoDate("2021-09-05x") == None
    ensures ParseIsoDate("Sep 5, 2021") == None
  {
    assert !IsDigit('S');
  }
}
