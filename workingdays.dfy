/** The working-day arithmetic both schedulers rely on, stated once as a
    specification: which day is `n` working days before (or after) a given
    day, for a given notion of "day off".  The two schedulers compute these
    days with their own loops and are proved against the predicates here. */
module WorkingDays {
  import opened DateUtils

  /** Number of working days (days that are not off) in `lo..hi`, both included. */
  function CountWorking(isOff: Day -> bool, lo: Day, hi: Day): (n: nat)
    ensures n <= (if lo <= hi then hi - lo + 1 else 0)
    decreases hi - lo
  {
    if lo > hi then 0 else CountWorking(isOff, lo + 1, hi) + (if isOff(lo) then 0 else 1)
  }

  /** `r` is `n` working days before `from`: for `n <= 0` it is `from` itself,
      otherwise a working day strictly before `from` with exactly `n` working
      days in `r..from-1`. */
  ghost predicate BackwardBy(isOff: Day -> bool, from: Day, n: int, r: Day)
  {
    if n <= 0 then r == from
    else r < from && !isOff(r) && CountWorking(isOff, r, from - 1) == n
  }

  /** `r` is `n` working days after `from`, the mirror image of `BackwardBy`. */
  ghost predicate ForwardBy(isOff: Day -> bool, from: Day, n: int, r: Day)
  {
    if n <= 0 then r == from
    else r > from && !isOff(r) && CountWorking(isOff, from + 1, r) == n
  }

  lemma {:induction false} CountSplit(isOff: Day -> bool, lo: Day, mid: Day, hi: Day)
    requires lo <= mid <= hi + 1
    ensures CountWorking(isOff, lo, hi) == CountWorking(isOff, lo, mid - 1) + CountWorking(isOff, mid, hi)
    decreases mid - lo
  {
    if lo < mid {
      CountSplit(isOff, lo + 1, mid, hi);
    }
  }

  /** Counting from the top end: the last day of the range can be split off too. */
  lemma CountLast(isOff: Day -> bool, lo: Day, hi: Day)
    requires lo <= hi
    ensures CountWorking(isOff, lo, hi) == CountWorking(isOff, lo, hi - 1) + (if isOff(hi) then 0 else 1)
  {
    CountSplit(isOff, lo, hi, hi);
  }

  /** Two notions of "off" that agree on a range count the same working days there. */
  lemma {:induction false} CountCongruent(f: Day -> bool, g: Day -> bool, lo: Day, hi: Day)
    requires forall d :: lo <= d <= hi ==> f(d) == g(d)
    ensures CountWorking(f, lo, hi) == CountWorking(g, lo, hi)
    decreases hi - lo
  {
    if lo <= hi {
      CountCongruent(f, g, lo + 1, hi);
    }
  }

  /** More days off means fewer working days. */
  lemma {:induction false} CountAntitone(f: Day -> bool, g: Day -> bool, lo: Day, hi: Day)
    requires forall d :: lo <= d <= hi && f(d) ==> g(d)
    ensures CountWorking(g, lo, hi) <= CountWorking(f, lo, hi)
    decreases hi - lo
  {
    if lo <= hi {
      CountAntitone(f, g, lo + 1, hi);
    }
  }

  lemma {:induction false} CountPositive(isOff: Day -> bool, lo: Day, hi: Day)
    requires CountWorking(isOff, lo, hi) > 0
    ensures exists d :: lo <= d <= hi && !isOff(d)
    decreases hi - lo
  {
    if isOff(lo) {
      CountPositive(isOff, lo + 1, hi);
    }
  }

  /** `n` working days before a day is a unique day. */
  lemma BackwardUnique(isOff: Day -> bool, from: Day, n: int, r1: Day, r2: Day)
    requires BackwardBy(isOff, from, n, r1) && BackwardBy(isOff, from, n, r2)
    ensures r1 == r2
  {
    if n > 0 && r1 != r2 {
      var lo, hi := if r1 < r2 then r1 else r2, if r1 < r2 then r2 else r1;
      CountSplit(isOff, lo, hi, from - 1);
      CountSplit(isOff, lo, lo + 1, hi - 1);
    }
  }

  /** `n` working days after a day is a unique day. */
  lemma ForwardUnique(isOff: Day -> bool, from: Day, n: int, r1: Day, r2: Day)
    requires ForwardBy(isOff, from, n, r1) && ForwardBy(isOff, from, n, r2)
    ensures r1 == r2
  {
    if n > 0 && r1 != r2 {
      var lo, hi := if r1 < r2 then r1 else r2, if r1 < r2 then r2 else r1;
      CountSplit(isOff, from + 1, lo + 1, hi);
      CountLast(isOff, lo + 1, hi);
    }
  }

  /** Going forward `n` working days from `r` and backward `n` from the result
      return to `r` when `r` is itself a working day. */
  lemma ForwardBackward(isOff: Day -> bool, from: Day, n: int, r: Day)
    requires n > 0 && !isOff(from) && ForwardBy(isOff, from, n, r)
    ensures BackwardBy(isOff, r, n, from)
  {
    CountSplit(isOff, from, from + 1, r);
    CountLast(isOff, from, r);
  }

  // ---------------------------------------------------------------
  // Bounded gaps between working days, which make the day-stepping loops stop

  /** Some day of `lo..hi` is a working day. */
  ghost predicate HasWorkingDay(isOff: Day -> bool, lo: Day, hi: Day)
  {
    exists d :: lo <= d <= hi && !isOff(d)
  }

  /** The `g` days ending at `x` contain a working day. */
  ghost predicate WindowEndingAt(isOff: Day -> bool, g: int, x: Day)
  {
    HasWorkingDay(isOff, x - g + 1, x)
  }

  /** No run of `g` consecutive days is all days off. */
  ghost predicate GapBounded(isOff: Day -> bool, g: int)
  {
    g >= 1 && forall x :: WindowEndingAt(isOff, g, x)
  }

  /** Three consecutive days always include a weekday. */
  lemma WeekendGap()
    ensures GapBounded(IsWeekend, 3)
  {
    forall x
      ensures WindowEndingAt(IsWeekend, 3, x)
    {
      var w := Weekday(x - 2);
      WeekdayNext(x - 2);
      WeekdayNext(x - 1);
      var d := if w == 6 then x else if w == 0 then x - 1 else x - 2;
      assert x - 2 <= d <= x && !IsWeekend(d);
    }
  }

  /** The walk back from `end` has counted `workDays` of the `duration`
      working days and stands on `current`, the last `run` days from which on
      are all off. */
  ghost predicate Walking(off: Day -> bool, g: int, end: Day, duration: int, current: Day, workDays: int, run: int)
  {
    (duration <= 0 ==> current == end && workDays == 0) &&
    (duration > 0 ==> 0 <= workDays <= duration && current <= end &&
                      CountWorking(off, current, end - 1) == workDays) &&
    (duration > 0 && workDays == duration ==> !off(current)) &&
    0 <= run < g && forall d :: current <= d < current + run ==> off(d)
  }

  lemma WalkStep(off: Day -> bool, g: int, end: Day, duration: int, current: Day, workDays: int, run: int)
    requires GapBounded(off, g) && Walking(off, g, end, duration, current, workDays, run) && workDays < duration
    ensures !off(current - 1) ==> Walking(off, g, end, duration, current - 1, workDays + 1, 0)
    ensures off(current - 1) ==> Walking(off, g, end, duration, current - 1, workDays, run + 1)
  {
    CountSplit(off, current - 1, current, end - 1);
    assert CountWorking(off, current, current - 1) == 0;
    if off(current - 1) {
      assert WindowEndingAt(off, g, current + g - 2);
      var d :| current - 1 <= d <= current + g - 2 && !off(d);
      assert run + 1 < g;
    }
  }

  /** The walk forward from `start` has counted `workDays` of the `duration`
      working days and stands on `current`, the last `run` days up to which
      are all off. */
  ghost predicate WalkingForward(off: Day -> bool, g: int, start: Day, duration: int, current: Day, workDays: int, run: int)
  {
    (duration <= 0 ==> current == start && workDays == 0) &&
    (duration > 0 ==> 0 <= workDays <= duration && current >= start &&
                      CountWorking(off, start + 1, current) == workDays) &&
    (duration > 0 && workDays == duration ==> !off(current)) &&
    0 <= run < g && forall d :: current - run < d <= current ==> off(d)
  }

  lemma WalkForwardStep(off: Day -> bool, g: int, start: Day, duration: int, current: Day, workDays: int, run: int)
    requires GapBounded(off, g) && WalkingForward(off, g, start, duration, current, workDays, run)
    requires workDays < duration
    ensures !off(current + 1) ==> WalkingForward(off, g, start, duration, current + 1, workDays + 1, 0)
    ensures off(current + 1) ==> WalkingForward(off, g, start, duration, current + 1, workDays, run + 1)
  {
    CountLast(off, start + 1, current + 1);
    if off(current + 1) {
      assert WindowEndingAt(off, g, current + 1);
      var d :| current + 1 - g + 1 <= d <= current + 1 && !off(d);
      assert run + 1 < g;
    }
  }

  /** Every seven consecutive days hold exactly five weekdays. */
  lemma WeekHasFiveWorkingDays(lo: Day)
    ensures CountWorking(IsWeekend, lo, lo + 6) == 5
  {
    var w := Weekday(lo);
    WeekdayShift(lo, 1);
    WeekdayShift(lo, 2);
    WeekdayShift(lo, 3);
    WeekdayShift(lo, 4);
    WeekdayShift(lo, 5);
    WeekdayShift(lo, 6);
    FiveOfSeven(w);
    SevenDays(IsWeekend, lo);
  }

  /** The working days of a seven-day window, one day at a time. */
  lemma SevenDays(isOff: Day -> bool, lo: Day)
    ensures CountWorking(isOff, lo, lo + 6) ==
      (if isOff(lo) then 0 else 1) + (if isOff(lo + 1) then 0 else 1) + (if isOff(lo + 2) then 0 else 1) +
      (if isOff(lo + 3) then 0 else 1) + (if isOff(lo + 4) then 0 else 1) + (if isOff(lo + 5) then 0 else 1) +
      (if isOff(lo + 6) then 0 else 1)
  {
    CountFirst(isOff, lo, lo + 6);
    CountFirst(isOff, lo + 1, lo + 6);
    CountFirst(isOff, lo + 2, lo + 6);
    CountFirst(isOff, lo + 3, lo + 6);
    CountFirst(isOff, lo + 4, lo + 6);
    CountFirst(isOff, lo + 5, lo + 6);
    CountFirst(isOff, lo + 6, lo + 6);
  }

  /** One for a weekday number that is not Saturday or Sunday. */
  function WorkingWeekday(v: int): int
  {
    if v == 0 || v == 6 then 0 else 1
  }

  /** Seven consecutive weekday numbers hold five working ones. */
  lemma FiveOfSeven(w: int)
    requires 0 <= w < 7
    ensures WorkingWeekday(w) + WorkingWeekday((w + 1) % 7) + WorkingWeekday((w + 2) % 7) +
            WorkingWeekday((w + 3) % 7) + WorkingWeekday((w + 4) % 7) + WorkingWeekday((w + 5) % 7) +
            WorkingWeekday((w + 6) % 7) == 5
  {
  }

  lemma CountFirst(isOff: Day -> bool, lo: Day, hi: Day)
    requires lo <= hi
    ensures CountWorking(isOff, lo, hi) == CountWorking(isOff, lo + 1, hi) + (if isOff(lo) then 0 else 1)
  {
  }

  /** `m` whole weeks hold `5 * m` weekdays. */
  lemma {:induction false} WeeksHaveWorkingDays(lo: Day, m: nat)
    ensures CountWorking(IsWeekend, lo, lo + 7 * m - 1) == 5 * m
    decreases m
  {
    if m > 0 {
      WeeksHaveWorkingDays(lo + 7, m - 1);
      WeekHasFiveWorkingDays(lo);
      CountSplit(IsWeekend, lo, lo + 7, lo + 7 * m - 1);
    }
  }

  /** Adding a finite set of extra days off removes at most that many working days. */
  lemma {:induction false} CountWithExtraDaysOff(isOff: Day -> bool, withExtra: Day -> bool, extra: set<Day>, lo: Day, hi: Day)
    requires forall d :: lo <= d <= hi ==> (withExtra(d) <==> isOff(d) || d in extra)
    ensures CountWorking(withExtra, lo, hi) + |extra| >= CountWorking(isOff, lo, hi)
    decreases hi - lo
  {
    if lo <= hi {
      var rest := extra - {lo};
      CountWithExtraDaysOff(isOff, withExtra, rest, lo + 1, hi);
      if lo in extra {
        assert |rest| == |extra| - 1;
      } else {
        assert rest == extra;
      }
    }
  }

  /** Weekends plus at most `|extra|` further days off leave a working day in every
      `7 * (|extra| + 1)` consecutive days. */
  lemma WeekendsAndFinitelyManyDaysOff(isOff: Day -> bool, extra: set<Day>)
    requires forall d :: isOff(d) ==> IsWeekend(d) || d in extra
    ensures GapBounded(isOff, 7 * (|extra| + 1))
  {
    var m := |extra| + 1;
    var f := d => IsWeekend(d) || d in extra;
    forall x
      ensures WindowEndingAt(isOff, 7 * m, x)
    {
      var lo := x - 7 * m + 1;
      WeeksHaveWorkingDays(lo, m);
      CountWithExtraDaysOff(IsWeekend, f, extra, lo, x);
      CountAntitone(isOff, f, lo, x);
      CountPositive(isOff, lo, x);
    }
  }
}
