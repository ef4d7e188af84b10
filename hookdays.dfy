/** Days off as the hook scheduler sees them (useTaskScheduler.js): weekends
    plus the holidays listed for the selected countries, and the
    working-day walk that both of its dating loops perform. */
module HookDays {
  import opened Wrappers
  import opened DateUtils
  import opened WorkingDays

  /** Lines 34-39: some selected country lists the formatted date among its
      holidays.  `countryHolidays` stands for the holiday table; a code with
      no entry in it contributes nothing. */
  function IsHoliday(selectedCountries: seq<string>, countryHolidays: map<string, seq<string>>, date: Day): (r: bool)
    ensures r <==> exists i :: 0 <= i < |selectedCountries| && selectedCountries[i] in countryHolidays &&
                               FormatDate(date) in countryHolidays[selectedCountries[i]]
  {
    if selectedCountries == [] then false
    else
      var country := selectedCountries[0];
      assert forall i :: 1 <= i < |selectedCountries| ==> selectedCountries[i] == selectedCountries[1..][i - 1];
      (country in countryHolidays && FormatDate(date) in countryHolidays[country]) ||
      IsHoliday(selectedCountries[1..], countryHolidays, date)
  }

  /** The hook's notion of a day off: a weekend or a holiday (lines 127, 176). */
  function OffDays(selectedCountries: seq<string>, countryHolidays: map<string, seq<string>>): Day -> bool
  {
    d => IsDayOff(selectedCountries, countryHolidays, d)
  }

  predicate IsDayOff(selectedCountries: seq<string>, countryHolidays: map<string, seq<string>>, date: Day)
  {
    IsWeekend(date) || IsHoliday(selectedCountries, countryHolidays, date)
  }

  /** The days named by the holiday lists of the selected countries: a finite set. */
  function HolidayDays(selectedCountries: seq<string>, countryHolidays: map<string, seq<string>>): set<Day>
  {
    set i, j | 0 <= i < |selectedCountries| && selectedCountries[i] in countryHolidays &&
               0 <= j < |countryHolidays[selectedCountries[i]]| &&
               DateOfText(countryHolidays[selectedCountries[i]][j]).Some?
      :: DateOfText(countryHolidays[selectedCountries[i]][j]).value
  }

  /** Every holiday is among the finitely many days the lists name. */
  lemma HolidayListed(selectedCountries: seq<string>, countryHolidays: map<string, seq<string>>, date: Day)
    requires IsHoliday(selectedCountries, countryHolidays, date)
    ensures date in HolidayDays(selectedCountries, countryHolidays)
  {
    var i :| 0 <= i < |selectedCountries| && selectedCountries[i] in countryHolidays &&
             FormatDate(date) in countryHolidays[selectedCountries[i]];
    var list := countryHolidays[selectedCountries[i]];
    var j :| 0 <= j < |list| && list[j] == FormatDate(date);
    DateOfFormatted(date);
    assert DateOfText(list[j]) == Some(date);
  }

  /** However many holidays are listed, some working day lies in every window
      of `7 * (h + 1)` consecutive days, `h` the number of listed days. */
  lemma HookGap(selectedCountries: seq<string>, countryHolidays: map<string, seq<string>>)
    ensures GapBounded(OffDays(selectedCountries, countryHolidays),
                       7 * (|HolidayDays(selectedCountries, countryHolidays)| + 1))
  {
    var off := OffDays(selectedCountries, countryHolidays);
    var extra := HolidayDays(selectedCountries, countryHolidays);
    forall d | off(d)
      ensures IsWeekend(d) || d in extra
    {
      if !IsWeekend(d) {
        HolidayListed(selectedCountries, countryHolidays, d);
      }
    }
    WeekendsAndFinitelyManyDaysOff(off, extra);
  }

  /** A window length within which some working day always lies. */
  ghost function HookGapBound(selectedCountries: seq<string>, countryHolidays: map<string, seq<string>>): (g: int)
    ensures GapBounded(OffDays(selectedCountries, countryHolidays), g)
  {
    HookGap(selectedCountries, countryHolidays);
    7 * (|HolidayDays(selectedCountries, countryHolidays)| + 1)
  }

  /** Lines 122-130 and 171-179: from `end`, step back one calendar day at a
      time and count the days that are neither weekend nor holiday, until
      `duration` of them have been counted; `isOff` is that test.  The result is `duration` working
      days strictly before `end`; for `duration <= 0` it is `end` itself. */
  method CountBack(selectedCountries: seq<string>, countryHolidays: map<string, seq<string>>, end: Day, duration: int)
    returns (start: Day)
    ensures BackwardBy(OffDays(selectedCountries, countryHolidays), end, duration, start)
  {
    var isOff := OffDays(selectedCountries, countryHolidays);
    ghost var g := HookGapBound(selectedCountries, countryHolidays);
    var currentDate := end;
    var workDays := 0;
    ghost var run := 0;
    while workDays < duration
      invariant Walking(isOff, g, end, duration, currentDate, workDays, run)
      decreases duration - workDays, g - run
    {
      WalkStep(isOff, g, end, duration, currentDate, workDays, run);
      currentDate := AddDays(currentDate, -1);
      if !isOff(currentDate) {
        workDays := workDays + 1;
        run := 0;
      } else {
        run := run + 1;
      }
    }
    start := currentDate;
  }
}
