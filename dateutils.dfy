/** Date helpers of the planner (`addDays`, `formatDate`, `isWeekend`).

    A date is modelled as a day number: the number of days since
    1970-01-01 in the proleptic Gregorian calendar, read in UTC.  The
    JavaScript `Date` object, its time of day and its time zone are not
    modelled. */
module DateUtils {
  import opened Wrappers

  type Day = int

  /** Milliseconds in one day; `Date` differences are measured in these. */
  const MsPerDay: int := 86400000

  // ---------------------------------------------------------------
  // addDays

  /** `addDays(date, days)`: the date `days` calendar days after `date`.
      The source copies the date before changing it; on values the
      argument is untouched by construction. */
  function AddDays(date: Day, days: int): Day
  {
    date + days
  }

  lemma AddDaysZero(date: Day)
    ensures AddDays(date, 0) == date
  {
  }

  lemma AddDaysCompose(date: Day, a: int, b: int)
    ensures AddDays(AddDays(date, a), b) == AddDays(date, a + b)
  {
  }

  // ---------------------------------------------------------------
  // isWeekend

  /** `date.getDay()`: 0 is Sunday, 6 is Saturday; 1970-01-01 was a Thursday. */
  function Weekday(date: Day): (w: int)
    ensures 0 <= w < 7
  {
    (date + 4) % 7
  }

  lemma {:induction false} WeekdayNext(date: Day)
    ensures Weekday(date + 1) == (Weekday(date) + 1) % 7
  {
  }

  /** `k` days later the weekday has moved on by `k`, modulo 7. */
  lemma WeekdayShift(date: Day, k: int)
    ensures Weekday(date + k) == (Weekday(date) + k) % 7
  {
    var x := date + 4;
    var q, r := x / 7, x % 7;
    assert x == 7 * q + r && 0 <= r < 7;
    var q2, r2 := (r + k) / 7, (r + k) % 7;
    assert r + k == 7 * q2 + r2 && 0 <= r2 < 7;
    assert x + k == 7 * (q + q2) + r2;
  }

  /** `isWeekend(date)`: Sunday or Saturday. */
  predicate IsWeekend(date: Day)
  {
    Weekday(date) == 0 || Weekday(date) == 6
  }

  /** Shifting by whole weeks keeps the weekday, so `IsWeekend` has period 7. */
  lemma WeekendPeriodic(date: Day, weeks: int)
    ensures Weekday(date + 7 * weeks) == Weekday(date)
    ensures IsWeekend(date + 7 * weeks) == IsWeekend(date)
  {
    var x := date + 4;
    var q, r := x / 7, x % 7;
    assert x == 7 * q + r && 0 <= r < 7;
    assert x + 7 * weeks == 7 * (q + weeks) + r;
  }

  // ---------------------------------------------------------------
  // The civil calendar behind formatDate

  predicate IsLeapYear(y: int)
  {
    y % 4 == 0 && (y % 100 != 0 || y % 400 == 0)
  }

  function YearLength(y: int): int
  {
    if IsLeapYear(y) then 366 else 365
  }

  /** Days from 0000-01-01 to the first day of year `y` (negative before year 0). */
  function DaysBeforeYear(y: int): int
  {
    365 * y + (y + 3) / 4 - (y + 99) / 100 + (y + 399) / 400
  }

  /** One more day in the numerator adds one to the quotient exactly on multiples. */
  lemma DivStep4(y: int)
    ensures (y + 4) / 4 - (y + 3) / 4 == (if y % 4 == 0 then 1 else 0)
  {
    var q, r := y / 4, y % 4;
    assert y == 4 * q + r;
    if r == 0 {
      assert (y + 3) / 4 == q;
    } else {
      assert (y + 3) / 4 == q + 1;
    }
    assert (y + 4) / 4 == q + 1;
  }

  lemma DivStep100(y: int)
    ensures (y + 100) / 100 - (y + 99) / 100 == (if y % 100 == 0 then 1 else 0)
  {
    var q, r := y / 100, y % 100;
    assert y == 100 * q + r;
    if r == 0 {
      assert (y + 99) / 100 == q;
    } else {
      assert (y + 99) / 100 == q + 1;
    }
    assert (y + 100) / 100 == q + 1;
  }

  lemma DivStep400(y: int)
    ensures (y + 400) / 400 - (y + 399) / 400 == (if y % 400 == 0 then 1 else 0)
  {
    var q, r := y / 400, y % 400;
    assert y == 400 * q + r;
    if r == 0 {
      assert (y + 399) / 400 == q;
    } else {
      assert (y + 399) / 400 == q + 1;
    }
    assert (y + 400) / 400 == q + 1;
  }

  lemma DaysBeforeNextYear(y: int)
    ensures DaysBeforeYear(y + 1) == DaysBeforeYear(y) + YearLength(y)
  {
    DivStep4(y);
    DivStep100(y);
    DivStep400(y);
    CenturiesDivide(y);
  }

  /** A multiple of 400 is a multiple of 100, and one of 100 a multiple of 4. */
  lemma CenturiesDivide(y: int)
    ensures y % 400 == 0 ==> y % 100 == 0
    ensures y % 100 == 0 ==> y % 4 == 0
  {
    if y % 400 == 0 {
      var q, k, r := y / 400, y / 100, y % 100;
      assert y == 400 * q && y == 100 * k + r && 0 <= r < 100;
      assert r == 100 * (4 * q - k);
      assert 4 * q - k == 0;
    }
    if y % 100 == 0 {
      var p, k, r := y / 100, y / 4, y % 4;
      assert y == 100 * p && y == 4 * k + r && 0 <= r < 4;
      assert r == 4 * (25 * p - k);
      assert 25 * p - k == 0;
    }
  }

  lemma {:induction false} DaysBeforeYearMonotone(y1: int, y2: int)
    requires y1 < y2
    ensures DaysBeforeYear(y1 + 1) <= DaysBeforeYear(y2)
    decreases y2 - y1
  {
    DaysBeforeNextYear(y1);
    if y1 + 1 < y2 {
      DaysBeforeYearMonotone(y1 + 1, y2);
      DaysBeforeNextYear(y1 + 1);
    }
  }

  /** Day number of 0000-01-01 is minus this. */
  const EpochOffset: int := 719528

  lemma EpochIs1970()
    ensures DaysBeforeYear(1970) == EpochOffset
  {
  }

  function MonthLength(y: int, m: int): int
    requires 1 <= m <= 12
  {
    if m == 2 then (if IsLeapYear(y) then 29 else 28)
    else if m == 4 || m == 6 || m == 9 || m == 11 then 30
    else 31
  }

  /** Days of year `y` before the first day of month `m` (13 gives the whole year). */
  function DaysBeforeMonth(y: int, m: int): int
    requires 1 <= m <= 13
  {
    var table := [0, 31, 59, 90, 120, 151, 181, 212, 243, 273, 304, 334, 365];
    table[m - 1] + (if m > 2 && IsLeapYear(y) then 1 else 0)
  }

  lemma DaysBeforeNextMonth(y: int, m: int)
    requires 1 <= m <= 12
    ensures DaysBeforeMonth(y, m + 1) == DaysBeforeMonth(y, m) + MonthLength(y, m)
    ensures DaysBeforeMonth(y, 13) == YearLength(y)
  {
  }

  lemma {:induction false} DaysBeforeMonthMonotone(y: int, m1: int, m2: int)
    requires 1 <= m1 < m2 <= 13
    ensures DaysBeforeMonth(y, m1) + MonthLength(y, m1) <= DaysBeforeMonth(y, m2)
    decreases m2 - m1
  {
    DaysBeforeNextMonth(y, m1);
    if m1 + 1 < m2 {
      DaysBeforeMonthMonotone(y, m1 + 1, m2);
    }
  }

  datatype Civil = Civil(year: int, month: int, day: int)

  predicate ValidCivil(c: Civil)
  {
    1 <= c.month <= 12 && 1 <= c.day <= MonthLength(c.year, c.month)
  }

  /** The day number of a calendar date: the reference definition, in closed form. */
  function DayFromCivil(c: Civil): Day
    requires ValidCivil(c)
  {
    DaysBeforeYear(c.year) + DaysBeforeMonth(c.year, c.month) + c.day - 1 - EpochOffset
  }

  /** The year that contains day `n`, counted from 0000-01-01. */
  function YearOf(n: int): (y: int)
    ensures DaysBeforeYear(y) <= n < DaysBeforeYear(y + 1)
  {
    if n >= 0 then YearUp(n, 0) else YearDown(n, 0)
  }

  function YearUp(n: int, y: int): (r: int)
    requires DaysBeforeYear(y) <= n
    ensures DaysBeforeYear(r) <= n < DaysBeforeYear(r + 1)
    decreases n - DaysBeforeYear(y)
  {
    DaysBeforeNextYear(y);
    if n < DaysBeforeYear(y + 1) then y else YearUp(n, y + 1)
  }

  function YearDown(n: int, y: int): (r: int)
    requires n < DaysBeforeYear(y)
    ensures DaysBeforeYear(r) <= n < DaysBeforeYear(r + 1)
    decreases DaysBeforeYear(y) - n
  {
    DaysBeforeNextYear(y - 1);
    if DaysBeforeYear(y - 1) <= n then y - 1 else YearDown(n, y - 1)
  }

  /** The month of year `y` that contains day-of-year `doy` (0-based). */
  function MonthOf(y: int, doy: int, m: int): (r: int)
    requires 1 <= m <= 12 && DaysBeforeMonth(y, m) <= doy < YearLength(y)
    ensures m <= r <= 12
    ensures DaysBeforeMonth(y, r) <= doy < DaysBeforeMonth(y, r) + MonthLength(y, r)
    decreases 12 - m
  {
    DaysBeforeNextMonth(y, m);
    if doy < DaysBeforeMonth(y, m + 1) then m else MonthOf(y, doy, m + 1)
  }

  /** The calendar date of a day number; it is the inverse of `DayFromCivil`. */
  function CivilFromDay(date: Day): (c: Civil)
    ensures ValidCivil(c) && DayFromCivil(c) == date
  {
    var n := date + EpochOffset;
    var y := YearOf(n);
    DaysBeforeNextYear(y);
    var doy := n - DaysBeforeYear(y);
    var m := MonthOf(y, doy, 1);
    Civil(y, m, doy - DaysBeforeMonth(y, m) + 1)
  }

  /** Every valid calendar date is the date of exactly one day number. */
  lemma CivilRoundTrip(c: Civil)
    requires ValidCivil(c)
    ensures CivilFromDay(DayFromCivil(c)) == c
  {
    var d := DayFromCivil(c);
    var r := CivilFromDay(d);
    var n := d + EpochOffset;
    DaysBeforeNextMonth(c.year, c.month);
    DaysBeforeNextYear(c.year);
    assert DaysBeforeYear(c.year) <= n < DaysBeforeYear(c.year + 1) by {
      DaysBeforeMonthMonotone(c.year, c.month, 13);
    }
    YearUnique(r.year, c.year, n);
    MonthUnique(c.year, r.month, c.month, n - DaysBeforeYear(c.year));
  }

  /** Only one year contains a given day. */
  lemma YearUnique(y1: int, y2: int, n: int)
    requires DaysBeforeYear(y1) <= n < DaysBeforeYear(y1 + 1)
    requires DaysBeforeYear(y2) <= n < DaysBeforeYear(y2 + 1)
    ensures y1 == y2
  {
    if y1 < y2 {
      DaysBeforeYearMonotone(y1, y2);
    } else if y2 < y1 {
      DaysBeforeYearMonotone(y2, y1);
    }
  }

  /** Only one month of a year contains a given day of that year. */
  lemma MonthUnique(y: int, m1: int, m2: int, doy: int)
    requires 1 <= m1 <= 12 && 1 <= m2 <= 12
    requires DaysBeforeMonth(y, m1) <= doy < DaysBeforeMonth(y, m1) + MonthLength(y, m1)
    requires DaysBeforeMonth(y, m2) <= doy < DaysBeforeMonth(y, m2) + MonthLength(y, m2)
    ensures m1 == m2
  {
    if m1 < m2 {
      DaysBeforeMonthMonotone(y, m1, m2);
    } else if m2 < m1 {
      DaysBeforeMonthMonotone(y, m2, m1);
    }
  }

  // ---------------------------------------------------------------
  // formatDate

  predicate IsDigit(ch: char)
  {
    '0' <= ch <= '9'
  }

  function DigitChar(k: int): (ch: char)
    requires 0 <= k < 10
    ensures IsDigit(ch)
  {
    ('0' as int + k) as char
  }

  /** Decimal digits of `n`, zero-padded on the left to at least `width` digits. */
  function Digits(n: nat, width: nat): (s: string)
    ensures |s| >= 1 && |s| >= width
    ensures forall i :: 0 <= i < |s| ==> IsDigit(s[i])
    decreases n, width
  {
    if n < 10 && width <= 1 then [DigitChar(n)]
    else Digits(n / 10, if width > 0 then width - 1 else 0) + [DigitChar(n % 10)]
  }

  function Pow10(k: nat): nat
  {
    if k == 0 then 1 else 10 * Pow10(k - 1)
  }

  lemma {:induction false} DigitsWidth(n: nat, width: nat)
    requires 1 <= width && n < Pow10(width)
    ensures |Digits(n, width)| == width
    decreases width
  {
    if !(n < 10 && width <= 1) {
      assert Pow10(1) == 10;
      assert width > 1;
      assert n / 10 < Pow10(width - 1);
      DigitsWidth(n / 10, width - 1);
    }
  }

  /** The value of a string of decimal digits. */
  function DigitsValue(s: string): int
  {
    if s == [] then 0 else 10 * DigitsValue(s[..|s| - 1]) + (s[|s| - 1] as int - '0' as int)
  }

  lemma {:induction false} DigitsRoundTrip(n: nat, width: nat)
    ensures DigitsValue(Digits(n, width)) == n
    decreases n, width
  {
    var s := Digits(n, width);
    if n < 10 && width <= 1 {
      assert s[..|s| - 1] == [];
    } else {
      var w := if width > 0 then width - 1 else 0;
      DigitsRoundTrip(n / 10, w);
      assert s[..|s| - 1] == Digits(n / 10, w);
    }
  }

  /** The year as `toISOString` writes it: four digits for 0000-9999, otherwise
      a sign and at least six digits. */
  function YearText(y: int): (s: string)
    ensures |s| >= 4
    ensures 0 <= y <= 9999 ==> |s| == 4 && forall i :: 0 <= i < 4 ==> IsDigit(s[i])
  {
    if 0 <= y <= 9999 then
      DigitsWidth(y, 4);
      Digits(y, 4)
    else if y < 0 then "-" + Digits(-y, 6)
    else "+" + Digits(y, 6)
  }

  function YearTextValue(s: string): int
  {
    if s != [] && s[0] == '-' then -DigitsValue(s[1..])
    else if s != [] && s[0] == '+' then DigitsValue(s[1..])
    else DigitsValue(s)
  }

  lemma YearTextRoundTrip(y: int)
    ensures YearTextValue(YearText(y)) == y
  {
    var s := YearText(y);
    if 0 <= y <= 9999 {
      DigitsRoundTrip(y, 4);
      assert IsDigit(s[0]);
    } else if y < 0 {
      DigitsRoundTrip(-y, 6);
      assert s[1..] == Digits(-y, 6);
    } else {
      DigitsRoundTrip(y, 6);
      assert s[1..] == Digits(y, 6);
    }
  }

  /** `formatDate(date)`: the date part of `toISOString()`, `YYYY-MM-DD`. */
  function FormatDate(date: Day): (s: string)
    ensures 0 <= CivilFromDay(date).year <= 9999 ==>
      |s| == 10 && s[4] == '-' && s[7] == '-' &&
      forall i :: 0 <= i < 10 && i != 4 && i != 7 ==> IsDigit(s[i])
  {
    var c := CivilFromDay(date);
    DigitsWidth(c.month, 2);
    DigitsWidth(c.day, 2);
    var y, mm, dd := YearText(c.year), Digits(c.month, 2), Digits(c.day, 2);
    if 0 <= c.year <= 9999 then
      DateShape(y, mm, dd);
      y + "-" + mm + "-" + dd
    else
      y + "-" + mm + "-" + dd
  }

  /** Four digits, a dash, two digits, a dash, two digits. */
  lemma DateShape(y: string, mm: string, dd: string)
    requires |y| == 4 && |mm| == 2 && |dd| == 2
    requires forall i :: 0 <= i < 4 ==> IsDigit(y[i])
    requires forall i :: 0 <= i < 2 ==> IsDigit(mm[i]) && IsDigit(dd[i])
    ensures var s := y + "-" + mm + "-" + dd;
      |s| == 10 && s[4] == '-' && s[7] == '-' &&
      forall i :: 0 <= i < 10 && i != 4 && i != 7 ==> IsDigit(s[i])
  {
    var s := y + "-" + mm + "-" + dd;
    forall i | 0 <= i < 10 && i != 4 && i != 7
      ensures IsDigit(s[i])
    {
      if i < 4 { assert s[i] == y[i]; }
      else if i < 7 { assert s[i] == mm[i - 5]; }
      else { assert s[i] == dd[i - 8]; }
    }
  }

  /** Reading a formatted date back, as `new Date("YYYY-MM-DD")` does in UTC. */
  function ParseDate(s: string): Civil
  {
    if |s| < 6 then Civil(0, 0, 0)
    else Civil(YearTextValue(s[..|s| - 6]), DigitsValue(s[|s| - 5..|s| - 3]), DigitsValue(s[|s| - 2..]))
  }

  lemma FormatDateRoundTrip(date: Day)
    ensures ParseDate(FormatDate(date)) == CivilFromDay(date)
  {
    var c := CivilFromDay(date);
    DigitsWidth(c.month, 2);
    DigitsWidth(c.day, 2);
    var y, mm, dd := YearText(c.year), Digits(c.month, 2), Digits(c.day, 2);
    assert FormatDate(date) == y + "-" + mm + "-" + dd;
    ParseJoined(y, mm, dd);
    YearTextRoundTrip(c.year);
    DigitsRoundTrip(c.month, 2);
    DigitsRoundTrip(c.day, 2);
  }

  /** Reading back splits the text at its last two dashes. */
  lemma ParseJoined(y: string, mm: string, dd: string)
    requires |mm| == 2 && |dd| == 2
    ensures ParseDate(y + "-" + mm + "-" + dd) == Civil(YearTextValue(y), DigitsValue(mm), DigitsValue(dd))
  {
    var s := y + "-" + mm + "-" + dd;
    assert s[..|s| - 6] == y;
    assert s[|s| - 5..|s| - 3] == mm;
    assert s[|s| - 2..] == dd;
  }

  /** Distinct days format to distinct strings, so a formatted date names its day. */
  lemma FormatDateInjective(d1: Day, d2: Day)
    requires FormatDate(d1) == FormatDate(d2)
    ensures d1 == d2
  {
    FormatDateRoundTrip(d1);
    FormatDateRoundTrip(d2);
    assert CivilFromDay(d1) == CivilFromDay(d2);
  }

  /** `new Date(text)` on a date text: the day when `text` is the formatted
      form of a day, and `None` (an invalid date, such as `new Date("")`)
      when no day formats to it. */
  function DateOfText(s: string): (r: Option<Day>)
    ensures r.Some? ==> FormatDate(r.value) == s
    ensures r.None? ==> forall d :: FormatDate(d) != s
  {
    var c := ParseDate(s);
    if ValidCivil(c) && FormatDate(DayFromCivil(c)) == s then
      Some(DayFromCivil(c))
    else
      NoDayFormatsTo(s);
      None
  }

  /** A text that some day formats to reads back as a valid civil date
      whose day formats to it. */
  lemma NoDayFormatsTo(s: string)
    requires !(ValidCivil(ParseDate(s)) && FormatDate(DayFromCivil(ParseDate(s))) == s)
    ensures forall d :: FormatDate(d) != s
  {
    forall d
      ensures FormatDate(d) != s
    {
      FormatDateRoundTrip(d);
    }
  }

  /** Reading a formatted date gives back its day. */
  lemma DateOfFormatted(date: Day)
    ensures DateOfText(FormatDate(date)) == Some(date)
  {
    var r := DateOfText(FormatDate(date));
    assert r.Some?;
    FormatDateInjective(r.value, date);
  }
}
