/**
 * The date handling of the page metadata: `datetime.strptime(date, "%Y-%m-%d")`
 * followed by `strftime("%a, %d %b %Y %H:%M:%S +0000")`, the date format of
 * section 3.3 of RFC 5322.
 *
 * Dates are proleptic Gregorian, as in Python's `datetime`: day 1 is
 * 0001-01-01, a Monday, and years run from 1 to 9999.
 */
module Calendar {
  import opened Text
  import opened Wrappers

  datatype Date = Date(year: nat, month: nat, day: nat)

  predicate IsLeap(y: nat) {
    y % 4 == 0 && (y % 100 != 0 || y % 400 == 0)
  }

  function DaysInMonth(y: nat, m: nat): (n: nat)
    requires 1 <= m <= 12
    ensures 28 <= n <= 31
    ensures n == 29 <==> m == 2 && IsLeap(y)
  {
    if m == 2 then (if IsLeap(y) then 29 else 28)
    else if m == 4 || m == 6 || m == 9 || m == 11 then 30
    else 31
  }

  /** A date `datetime.date(year, month, day)` accepts. */
  predicate Valid(d: Date) {
    && 1 <= d.year <= 9999
    && 1 <= d.month <= 12
    && 1 <= d.day <= DaysInMonth(d.year, d.month)
  }

  function DaysInYear(y: nat): nat {
    if IsLeap(y) then 366 else 365
  }

  // ---------------------------------------------------------------------------
  // Day numbers
  // ---------------------------------------------------------------------------

  /** Reference count: the days of the years 1 .. y - 1, year by year. */
  function DaysBeforeYearSum(y: nat): nat {
    if y <= 1 then 0 else DaysBeforeYearSum(y - 1) + DaysInYear(y - 1)
  }

  /** The closed form `datetime` uses. */
  function DaysBeforeYear(y: nat): nat
    requires y >= 1
  {
    var p := y - 1;
    p * 365 + p / 4 - p / 100 + p / 400
  }

  /** One more year adds that year's length to the closed form. */
  lemma DaysBeforeYearStep(y: nat)
    requires y >= 1
    ensures DaysBeforeYear(y + 1) == DaysBeforeYear(y) + DaysInYear(y)
  {
    var p := y - 1;
    DivStep(p, 4);
    DivStep(p, 100);
    DivStep(p, 400);
    LeapDivisors(y);
    var a, b, c := (if y % 4 == 0 then 1 else 0), (if y % 100 == 0 then 1 else 0), (if y % 400 == 0 then 1 else 0);
    assert a - b + c == (if IsLeap(y) then 1 else 0);
    assert DaysBeforeYear(y + 1) == p * 365 + 365 + (p / 4 + a) - (p / 100 + b) + (p / 400 + c);
  }

  /** A multiple of 400 is one of 100, and a multiple of 100 one of 4. */
  lemma LeapDivisors(y: nat)
    ensures y % 400 == 0 ==> y % 100 == 0
    ensures y % 100 == 0 ==> y % 4 == 0
  {
    if y % 400 == 0 {
      assert y == 100 * (4 * (y / 400));
    }
    if y % 100 == 0 {
      assert y == 4 * (25 * (y / 100));
    }
  }

  /** Counting one further adds one multiple of `k` exactly at multiples
      (for the divisors of the leap-year rule). */
  lemma DivStep(p: nat, k: nat)
    requires k == 4 || k == 100 || k == 400
    ensures (p + 1) / k == p / k + (if (p + 1) % k == 0 then 1 else 0)
  {
    if k == 4 {
      assert (p + 1) / 4 == p / 4 + (if (p + 1) % 4 == 0 then 1 else 0);
    } else if k == 100 {
      assert (p + 1) / 100 == p / 100 + (if (p + 1) % 100 == 0 then 1 else 0);
    } else {
      assert (p + 1) / 400 == p / 400 + (if (p + 1) % 400 == 0 then 1 else 0);
    }
  }

  /** The closed form counts the leap days correctly. */
  lemma {:induction false} DaysBeforeYearCorrect(y: nat)
    requires y >= 1
    ensures DaysBeforeYear(y) == DaysBeforeYearSum(y)
  {
    if y > 1 {
      DaysBeforeYearCorrect(y - 1);
      DaysBeforeYearStep(y - 1);
    }
  }

  /** Reference count: the days of the months 1 .. m - 1 of year `y`. */
  function DaysBeforeMonthSum(y: nat, m: nat): nat
    requires 1 <= m <= 13
  {
    if m == 1 then 0 else DaysBeforeMonthSum(y, m - 1) + DaysInMonth(y, m - 1)
  }

  /** The table `datetime` uses, plus the leap day after February. */
  function DaysBeforeMonth(y: nat, m: nat): nat
    requires 1 <= m <= 12
  {
    [0, 31, 59, 90, 120, 151, 181, 212, 243, 273, 304, 334][m - 1]
      + (if m > 2 && IsLeap(y) then 1 else 0)
  }

  /** The table agrees with adding up the month lengths, and the whole year
      adds up to its length. */
  lemma DaysBeforeMonthCorrect(y: nat, m: nat)
    requires 1 <= m <= 12
    ensures DaysBeforeMonth(y, m) == DaysBeforeMonthSum(y, m)
    ensures DaysBeforeMonthSum(y, 13) == DaysInYear(y)
  {
    assert DaysBeforeMonthSum(y, 1) == 0;
    assert DaysBeforeMonthSum(y, 2) == 31;
    assert DaysBeforeMonthSum(y, 3) == 59 + (if IsLeap(y) then 1 else 0);
    assert DaysBeforeMonthSum(y, 4) == 90 + (if IsLeap(y) then 1 else 0);
    assert DaysBeforeMonthSum(y, 5) == 120 + (if IsLeap(y) then 1 else 0);
    assert DaysBeforeMonthSum(y, 6) == 151 + (if IsLeap(y) then 1 else 0);
    assert DaysBeforeMonthSum(y, 7) == 181 + (if IsLeap(y) then 1 else 0);
    assert DaysBeforeMonthSum(y, 8) == 212 + (if IsLeap(y) then 1 else 0);
    assert DaysBeforeMonthSum(y, 9) == 243 + (if IsLeap(y) then 1 else 0);
    assert DaysBeforeMonthSum(y, 10) == 273 + (if IsLeap(y) then 1 else 0);
    assert DaysBeforeMonthSum(y, 11) == 304 + (if IsLeap(y) then 1 else 0);
    assert DaysBeforeMonthSum(y, 12) == 334 + (if IsLeap(y) then 1 else 0);
  }

  /** `date.toordinal()`: 0001-01-01 is day 1. */
  function Ordinal(d: Date): nat
    requires Valid(d)
  {
    DaysBeforeYear(d.year) + DaysBeforeMonth(d.year, d.month) + d.day
  }

  /** The day after `d`. */
  function NextDay(d: Date): (r: Date)
    requires Valid(d) && d != Date(9999, 12, 31)
    ensures Valid(r)
  {
    if d.day < DaysInMonth(d.year, d.month) then Date(d.year, d.month, d.day + 1)
    else if d.month < 12 then Date(d.year, d.month + 1, 1)
    else Date(d.year + 1, 1, 1)
  }

  /** The table grows by the length of the month just passed. */
  lemma DaysBeforeMonthStep(y: nat, m: nat)
    requires 1 <= m < 12
    ensures DaysBeforeMonth(y, m + 1) == DaysBeforeMonth(y, m) + DaysInMonth(y, m)
  {
  }

  /** Day numbers count days: the next day is the next number. */
  lemma OrdinalNextDay(d: Date)
    requires Valid(d) && d != Date(9999, 12, 31)
    ensures Ordinal(NextDay(d)) == Ordinal(d) + 1
  {
    if d.day == DaysInMonth(d.year, d.month) {
      if d.month < 12 {
        DaysBeforeMonthStep(d.year, d.month);
      } else {
        DaysBeforeYearStep(d.year);
      }
    }
  }

  /** `date.weekday()`: 0 is Monday, 6 is Sunday. */
  function Weekday(d: Date): (w: nat)
    requires Valid(d)
    ensures w < 7
  {
    (Ordinal(d) + 6) % 7
  }

  lemma SevenCycle(o: nat)
    ensures (o + 1 + 6) % 7 == ((o + 6) % 7 + 1) % 7
  {
  }

  /** The first day is a Monday. */
  lemma WeekdayOfFirstDay()
    ensures Weekday(Date(1, 1, 1)) == 0
  {
    assert Weekday(Date(1, 1, 1)) == (Ordinal(Date(1, 1, 1)) + 6) % 7;
    assert (Ordinal(Date(1, 1, 1)) + 6) % 7 == 0;
  }

  /** Each day is the weekday after the one before. */
  lemma WeekdayNextDay(d: Date)
    requires Valid(d) && d != Date(9999, 12, 31)
    ensures Weekday(NextDay(d)) == (Weekday(d) + 1) % 7
  {
    var o := Ordinal(d);
    OrdinalNextDay(d);
    assert Ordinal(NextDay(d)) == o + 1;
    SevenCycle(o);
  }

  // ---------------------------------------------------------------------------
  // Parsing: strptime with "%Y-%m-%d"
  // ---------------------------------------------------------------------------

  /** A numeric field: its value and how many characters it took. */
  datatype Field = Field(value: nat, len: nat)

  /** `%m` is the regex `1[0-2]|0[1-9]|[1-9]`; the first alternative that
      matches is taken. */
  function MonthField(s: string): (r: Option<Field>)
    ensures r.Some? ==> 1 <= r.value.len <= 2 && r.value.len <= |s| && 1 <= r.value.value <= 12
  {
    if |s| >= 2 && s[0] == '1' && '0' <= s[1] <= '2' then Some(Field(10 + DigitValue(s[1]), 2))
    else if |s| >= 2 && s[0] == '0' && '1' <= s[1] <= '9' then Some(Field(DigitValue(s[1]), 2))
    else if |s| >= 1 && '1' <= s[0] <= '9' then Some(Field(DigitValue(s[0]), 1))
    else None
  }

  /** `%d` is the regex `3[01]|[12]\d|0[1-9]|[1-9]| [1-9]`; the first
      alternative that matches is taken. */
  function DayField(s: string): (r: Option<Field>)
    ensures r.Some? ==> 1 <= r.value.len <= 2 && r.value.len <= |s| && 1 <= r.value.value <= 31
  {
    if |s| >= 2 && s[0] == '3' && '0' <= s[1] <= '1' then Some(Field(30 + DigitValue(s[1]), 2))
    else if |s| >= 2 && '1' <= s[0] <= '2' && IsDigit(s[1]) then Some(Field(10 * DigitValue(s[0]) + DigitValue(s[1]), 2))
    else if |s| >= 2 && s[0] == '0' && '1' <= s[1] <= '9' then Some(Field(DigitValue(s[1]), 2))
    else if |s| >= 1 && '1' <= s[0] <= '9' then Some(Field(DigitValue(s[0]), 1))
    else if |s| >= 2 && s[0] == ' ' && '1' <= s[1] <= '9' then Some(Field(DigitValue(s[1]), 2))
    else None
  }

  /** `datetime.strptime(s, "%Y-%m-%d")`, `None` where it raises
      `ValueError`. The year is four digits; month and day take the first
      matching alternative. Backtracking into an alternative never rescues a
      failed match: after a two-character month the one-character
      alternative would leave a digit where '-' is needed, and nothing
      follows the day in the pattern. The whole string must be consumed
      ("unconverted data remains" otherwise), and the date must exist. */
  function ParseIsoDate(s: string): (r: Option<Date>)
    ensures r.Some? ==> Valid(r.value)
  {
    if |s| < 5 || !AllDigits(s[..4]) || s[4] != '-' then None
    else
      match MonthField(s[5..])
      case None => None
      case Some(m) =>
        var i := 5 + m.len;
        if i >= |s| || s[i] != '-' then None
        else
          match DayField(s[i + 1..])
          case None => None
          case Some(dd) =>
            var d := Date(DigitsValue(s[..4]), m.value, dd.value);
            if i + 1 + dd.len == |s| && Valid(d) then Some(d) else None
  }

  // ---------------------------------------------------------------------------
  // Formatting
  // ---------------------------------------------------------------------------

  /** The value of two digits. */
  lemma DigitsValueTwo(s: string)
    requires |s| == 2 && AllDigits(s)
    ensures DigitsValue(s) == 10 * DigitValue(s[0]) + DigitValue(s[1])
  {
    var first := s[..1];
    assert first[..0] == [];
    assert DigitsValue(first) == DigitValue(s[0]);
  }

  /** Appending two digits multiplies by a hundred and adds them. */
  lemma DigitsValueAppendTwo(a: string, b: string)
    requires AllDigits(a) && |b| == 2 && AllDigits(b)
    ensures AllDigits(a + b)
    ensures DigitsValue(a + b) == 100 * DigitsValue(a) + DigitsValue(b)
  {
    var ab := a + b;
    assert ab[..|ab| - 1] == a + [b[0]];
    assert (a + [b[0]])[..|a|] == a;
    DigitsValueTwo(b);
  }

  /** Two-digit zero-padded decimal (`%d`, `%m`). */
  function Pad2(n: nat): (r: string)
    requires n < 100
    ensures |r| == 2 && AllDigits(r) && DigitsValue(r) == n
  {
    var r := [DigitChar(n / 10), DigitChar(n % 10)];
    DigitsValueTwo(r);
    r
  }

  /** Four-digit zero-padded decimal (`%Y`). */
  function Pad4(n: nat): (r: string)
    requires n < 10000
    ensures |r| == 4 && AllDigits(r) && DigitsValue(r) == n
  {
    DigitsValueAppendTwo(Pad2(n / 100), Pad2(n % 100));
    Pad2(n / 100) + Pad2(n % 100)
  }

  /** The canonical `YYYY-MM-DD` text of a date, the form file names carry. */
  function IsoDate(d: Date): (r: string)
    requires Valid(d)
    ensures |r| == 10 && r[4] == '-' && r[7] == '-'
  {
    Pad4(d.year) + "-" + Pad2(d.month) + "-" + Pad2(d.day)
  }

  /** A string shaped `DDDD-DD-DD`. */
  predicate IsoShaped(s: string) {
    && |s| == 10 && s[4] == '-' && s[7] == '-'
    && AllDigits(s[..4]) && AllDigits(s[5..7]) && AllDigits(s[8..])
  }

  /** An `IsoShaped` string holds only digits and dashes, so no newline. */
  lemma IsoShapedNoNewline(s: string)
    requires IsoShaped(s)
    ensures '\n' !in s
  {
    forall i | 0 <= i < |s|
      ensures s[i] != '\n'
    {
      if i < 4 {
        assert s[i] == s[..4][i];
      } else if 4 < i < 7 {
        assert s[i] == s[5..7][i - 5];
      } else if 7 < i {
        assert s[i] == s[8..][i - 8];
      }
    }
  }

  /** The date the digits of an `IsoShaped` string spell, valid or not. */
  function IsoFields(s: string): Date
    requires IsoShaped(s)
  {
    Date(DigitsValue(s[..4]), DigitsValue(s[5..7]), DigitsValue(s[8..]))
  }

  /** Two digits before a '-' are read as a month exactly when they spell
      one; otherwise the month field fails or stops after one digit, short
      of the '-'. */
  lemma MonthFieldTwoDigits(t: string)
    requires |t| >= 3 && IsDigit(t[0]) && IsDigit(t[1])
    ensures var v := 10 * DigitValue(t[0]) + DigitValue(t[1]);
            if 1 <= v <= 12 then MonthField(t) == Some(Field(v, 2))
            else MonthField(t).None? || MonthField(t).value.len == 1
  {
  }

  /** The same for two digits read as a day at the end of the text. */
  lemma DayFieldTwoDigits(t: string)
    requires |t| == 2 && IsDigit(t[0]) && IsDigit(t[1])
    ensures var v := 10 * DigitValue(t[0]) + DigitValue(t[1]);
            if 1 <= v <= 31 then DayField(t) == Some(Field(v, 2))
            else DayField(t).None? || DayField(t).value.len == 1
  {
  }

  /** A `DDDD-DD-DD` string parses exactly when it spells an existing date,
      and then to that date. */
  lemma ParseIsoShaped(s: string)
    requires IsoShaped(s)
    ensures ParseIsoDate(s) == if Valid(IsoFields(s)) then Some(IsoFields(s)) else None
  {
    var ms := s[5..7];
    var ds := s[8..];
    assert IsDigit(ms[0]) && IsDigit(ms[1]) && IsDigit(ds[0]) && IsDigit(ds[1]);
    DigitsValueTwo(ms);
    DigitsValueTwo(ds);
    assert s[5..][0] == ms[0] && s[5..][1] == ms[1] && s[5..][2] == '-';
    MonthFieldTwoDigits(s[5..]);
    DayFieldTwoDigits(ds);
    assert s[5 + 2 + 1..] == ds;
  }

  /** Formatting a valid date and parsing it back gives the date. */
  lemma ParseIsoDateRoundTrip(d: Date)
    requires Valid(d)
    ensures IsoShaped(IsoDate(d)) && IsoFields(IsoDate(d)) == d
    ensures ParseIsoDate(IsoDate(d)) == Some(d)
  {
    var s := IsoDate(d);
    assert s[..4] == Pad4(d.year);
    assert s[5..7] == Pad2(d.month);
    assert s[8..] == Pad2(d.day);
    ParseIsoShaped(s);
  }

  /** Chronological order of dates. */
  predicate Before(d1: Date, d2: Date) {
    || d1.year < d2.year
    || (d1.year == d2.year && d1.month < d2.month)
    || (d1.year == d2.year && d1.month == d2.month && d1.day < d2.day)
  }

  lemma LessPad2(x: nat, y: nat)
    requires x < 100 && y < 100
    ensures Less(Pad2(x), Pad2(y)) <==> x < y
  {
    var a := Pad2(x);
    var b := Pad2(y);
    assert a[0] < b[0] <==> x / 10 < y / 10;
    assert a[1] < b[1] <==> x % 10 < y % 10;
    assert a[1..][1..] == [] && b[1..][1..] == [];
    assert !Less(a[1..][1..], b[1..][1..]);
    assert Less(a[1..], b[1..]) <==> a[1] < b[1];
  }

  lemma LessPad4(x: nat, y: nat)
    requires x < 10000 && y < 10000
    ensures Less(Pad4(x), Pad4(y)) <==> x < y
  {
    LessAppend(Pad2(x / 100), Pad2(y / 100), Pad2(x % 100), Pad2(y % 100));
    LessPad2(x / 100, y / 100);
    LessPad2(x % 100, y % 100);
    if Pad2(x / 100) == Pad2(y / 100) {
      assert DigitsValue(Pad2(x / 100)) == x / 100;
    }
  }

  /** Sorting canonical date strings as Python compares `str` values sorts
      the dates chronologically. */
  lemma IsoDateOrder(d1: Date, d2: Date)
    requires Valid(d1) && Valid(d2)
    ensures Less(IsoDate(d1), IsoDate(d2)) <==> Before(d1, d2)
  {
    var tail1 := "-" + Pad2(d1.day);
    var tail2 := "-" + Pad2(d2.day);
    var md1 := "-" + Pad2(d1.month) + tail1;
    var md2 := "-" + Pad2(d2.month) + tail2;
    assert IsoDate(d1) == Pad4(d1.year) + md1;
    assert IsoDate(d2) == Pad4(d2.year) + md2;
    LessAppend(Pad4(d1.year), Pad4(d2.year), md1, md2);
    LessPad4(d1.year, d2.year);
    assert md1 == "-" + (Pad2(d1.month) + tail1);
    assert md2 == "-" + (Pad2(d2.month) + tail2);
    LessAppend("-", "-", Pad2(d1.month) + tail1, Pad2(d2.month) + tail2);
    LessAppend(Pad2(d1.month), Pad2(d2.month), tail1, tail2);
    LessPad2(d1.month, d2.month);
    LessAppend("-", "-", Pad2(d1.day), Pad2(d2.day));
    LessPad2(d1.day, d2.day);
    if Pad4(d1.year) == Pad4(d2.year) {
      assert DigitsValue(Pad4(d1.year)) == d1.year;
    }
    if Pad2(d1.month) == Pad2(d2.month) {
      assert DigitsValue(Pad2(d1.month)) == d1.month;
    }
  }

  const DayNames: seq<string> := ["Mon", "Tue", "Wed", "Thu", "Fri", "Sat", "Sun"]
  const MonthNames: seq<string> :=
    ["Jan", "Feb", "Mar", "Apr", "May", "Jun", "Jul", "Aug", "Sep", "Oct", "Nov", "Dec"]

  /** `strftime("%a, %d %b %Y %H:%M:%S +0000")` of a parsed date (the time is
      always midnight), C locale. */
  function Rfc2822(d: Date): (r: string)
    requires Valid(d)
    ensures |r| == 31
  {
    DayNames[Weekday(d)] + ", " + Pad2(d.day) + " " + MonthNames[d.month - 1] + " "
      + Pad4(d.year) + " 00:00:00 +0000"
  }

  /** Reading the formatted date field by field: weekday name, day of the
      month, month name, four-digit year, midnight in UTC. */
  lemma Rfc2822Fields(d: Date)
    requires Valid(d)
    ensures var r := Rfc2822(d);
            && r[..3] == DayNames[Weekday(d)] && r[3..5] == ", " && r[7] == ' '
            && r[8..11] == MonthNames[d.month - 1] && r[11] == ' '
            && r[16..] == " 00:00:00 +0000"
            && AllDigits(r[5..7]) && DigitsValue(r[5..7]) == d.day
            && AllDigits(r[12..16]) && DigitsValue(r[12..16]) == d.year
  {
    var r := Rfc2822(d);
    assert r[5..7] == Pad2(d.day);
    assert r[12..16] == Pad4(d.year);
  }

  /** The formatted date determines the date: different dates never share a
      string. */
  lemma Rfc2822Injective(d1: Date, d2: Date)
    requires Valid(d1) && Valid(d2) && Rfc2822(d1) == Rfc2822(d2)
    ensures d1 == d2
  {
    Rfc2822Fields(d1);
    Rfc2822Fields(d2);
    assert MonthNames[d1.month - 1] == MonthNames[d2.month - 1];
  }

  /** An example: 2024-03-01, parsed. */
  lemma ParseIsoDateExample()
    ensures ParseIsoDate("2024-03-01") == Some(Date(2024, 3, 1))
  {
    IsoDateExample(Date(2024, 3, 1));
    ParseIsoDateRoundTrip(Date(2024, 3, 1));
  }

  lemma IsoDateExample(d: Date)
    requires d == Date(2024, 3, 1)
    ensures IsoDate(d) == "2024-03-01"
  {
    assert Pad4(d.year) == "2024";
    assert Pad2(d.month) == "03";
    assert Pad2(d.day) == "01";
  }

  /** `strptime` also accepts dates without zero padding, and those do not
      compare as their dates do: 2024-3-1 is before 2024-10-01, yet the
      string `2024-3-1` is the greater one. */
  lemma UnpaddedDateOrder()
    ensures ParseIsoDate("2024-3-1") == Some(Date(2024, 3, 1))
    ensures ParseIsoDate("2024-10-01") == Some(Date(2024, 10, 1))
    ensures Before(Date(2024, 3, 1), Date(2024, 10, 1))
    ensures Less("2024-10-01", "2024-3-1")
  {
    UnpaddedParse("2024-3-1");
    PaddedOctober(Date(2024, 10, 1));
    ParseIsoDateRoundTrip(Date(2024, 10, 1));
    UnpaddedLess("2024-10-01", "2024-3-1");
  }

  lemma UnpaddedLess(a: string, b: string)
    requires a == "2024-10-01" && b == "2024-3-1"
    ensures Less(a, b)
  {
    var c, d := "10-01", "3-1";
    assert a == "2024-" + c && b == "2024-" + d;
    assert Less(c, d) by {
      assert c[0] == '1' && d[0] == '3';
    }
    LessAppend("2024-", "2024-", c, d);
  }

  lemma UnpaddedParse(s: string)
    requires s == "2024-3-1"
    ensures ParseIsoDate(s) == Some(Date(2024, 3, 1))
  {
    var y := s[..4];
    assert y == "20" + "24";
    DigitsValueTwo("20");
    DigitsValueTwo("24");
    DigitsValueAppendTwo("20", "24");
    assert MonthField(s[5..]) == Some(Field(3, 1));
    assert DayField(s[7..]) == Some(Field(1, 1));
  }

  lemma PaddedOctober(d: Date)
    requires d == Date(2024, 10, 1)
    ensures IsoDate(d) == "2024-10-01"
  {
    assert Pad4(d.year) == "2024";
    assert Pad2(d.month) == "10";
    assert Pad2(d.day) == "01";
  }

  /** 2024-03-01 was a Friday. */
  lemma WeekdayExample()
    ensures Weekday(Date(2024, 3, 1)) == 4
  {
    assert Weekday(Date(2024, 3, 1)) == (Ordinal(Date(2024, 3, 1)) + 6) % 7;
    assert Ordinal(Date(2024, 3, 1)) == 738946;
  }

  /** The same date, formatted. */
  lemma Rfc2822Example()
    ensures Rfc2822(Date(2024, 3, 1)) == "Fri, 01 Mar 2024 00:00:00 +0000"
  {
    Rfc2822ExampleFields(Date(2024, 3, 1));
  }

  /** The same example with the date as a parameter, so that each field is
      formatted on its own. */
  lemma Rfc2822ExampleFields(d: Date)
    requires d == Date(2024, 3, 1)
    ensures Rfc2822(d) == "Fri, 01 Mar 2024 00:00:00 +0000"
  {
    WeekdayExample();
    assert DayNames[Weekday(d)] == "Fri";
    assert Pad2(d.day) == "01";
    assert MonthNames[d.month - 1] == "Mar";
    assert Pad4(d.year) == "2024";
  }
}
