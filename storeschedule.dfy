/** The second half of the store's `calculateTaskDates` (workflowStore.js):
    the holiday predicate, the two working-day loops, the backward dating of
    every emitted task, the project start and the rebuilt task list. */
module StoreSchedule {
  import opened Lists
  import opened Wrappers
  import opened DateUtils
  import opened WorkingDays
  import opened StoreGraph

  // ---------------------------------------------------------------
  // Days off and working-day arithmetic

  /** Lines 233-247: a weekend day, or a day listed for some selected country.
      Every country's list is the empty placeholder, so only weekends count. */
  function StoreIsHoliday(selectedCountries: seq<string>, date: Day): (r: bool)
    ensures r <==> IsWeekend(date)
  {
    IsWeekend(date) ||
    exists i :: 0 <= i < |selectedCountries| && FormatDate(date) in CountryHolidays(selectedCountries[i])
  }

  /** The holiday list consulted for a country: always empty (line 244). */
  function CountryHolidays(country: string): (holidays: seq<string>)
    ensures holidays == []
  {
    []
  }

  /** Lines 265-277: step back one day at a time, counting the days that are
      not holidays, until `days` of them have been passed. */
  method AdjustWorkingDaysBackward(selectedCountries: seq<string>, date: Day, days: int) returns (result: Day)
    ensures BackwardBy(IsWeekend, date, days, result)
  {
    WeekendGap();
    result := date;
    var daysToSubtract := days;
    ghost var run := 0;
    while daysToSubtract > 0
      invariant days <= 0 ==> daysToSubtract == days
      invariant Walking(IsWeekend, 3, date, days, result, days - daysToSubtract, run)
      decreases daysToSubtract, 3 - run
    {
      WalkStep(IsWeekend, 3, date, days, result, days - daysToSubtract, run);
      result := AddDays(result, -1);
      if !StoreIsHoliday(selectedCountries, result) {
        daysToSubtract := daysToSubtract - 1;
        run := 0;
      } else {
        run := run + 1;
      }
    }
  }

  /** Lines 250-262: the same walk going forward. */
  method AdjustWorkingDays(selectedCountries: seq<string>, date: Day, days: int) returns (result: Day)
    ensures ForwardBy(IsWeekend, date, days, result)
  {
    WeekendGap();
    result := date;
    var daysToAdd := days;
    ghost var run := 0;
    while daysToAdd > 0
      invariant days <= 0 ==> daysToAdd == days
      invariant WalkingForward(IsWeekend, 3, date, days, result, days - daysToAdd, run)
      decreases daysToAdd, 3 - run
    {
      WalkForwardStep(IsWeekend, 3, date, days, result, days - daysToAdd, run);
      result := AddDays(result, 1);
      if !StoreIsHoliday(selectedCountries, result) {
        daysToAdd := daysToAdd - 1;
        run := 0;
      } else {
        run := run + 1;
      }
    }
  }

  /** Walking back zero days stays put, walking further gives a working day. */
  lemma BackwardShape(from: Day, n: int, r: Day)
    requires BackwardBy(IsWeekend, from, n, r)
    ensures n <= 0 ==> r == from
    ensures n > 0 ==> r < from && !IsWeekend(r) && r >= from - 3 * n
  {
    if n > 0 {
      BackwardWithin(from, n, r);
    }
  }

  /** `n` working days back lie within `3 * n` calendar days, because no three
      consecutive days are all weekend. */
  lemma BackwardWithin(from: Day, n: int, r: Day)
    requires n > 0 && BackwardBy(IsWeekend, from, n, r)
    ensures r >= from - 3 * n
  {
    if r < from - 3 * n {
      WeekendGap();
      AtLeastPerWindow(from - 3 * n, n);
      CountSplit(IsWeekend, r, from - 3 * n, from - 1);
    }
  }

  /** Every `3 * m` consecutive days hold at least `m` weekdays. */
  lemma {:induction false} AtLeastPerWindow(lo: Day, m: int)
    requires m >= 0
    ensures CountWorking(IsWeekend, lo, lo + 3 * m - 1) >= m
    decreases m
  {
    if m > 0 {
      AtLeastPerWindow(lo + 3, m - 1);
      CountSplit(IsWeekend, lo, lo + 3, lo + 3 * m - 1);
      ThreeDaysHoldAWeekday(lo);
    }
  }

  lemma ThreeDaysHoldAWeekday(lo: Day)
    ensures CountWorking(IsWeekend, lo, lo + 2) >= 1
  {
    WeekdayShift(lo, 1);
    WeekdayShift(lo, 2);
    CountFirst(IsWeekend, lo, lo + 2);
    CountFirst(IsWeekend, lo + 1, lo + 2);
    CountFirst(IsWeekend, lo + 2, lo + 2);
  }

  // ---------------------------------------------------------------
  // Dating one task

  /** The dates computed for one task. */
  datatype Span = Span(start: Day, end: Day)

  /** Lines 287-289: the tasks that depend on `k`, in list order. */
  function DependentsOf(tasks: seq<Task>, k: int): (r: seq<Task>)
    ensures forall t :: t in r <==> t in tasks && k in t.dependencies
    ensures |r| <= |tasks|
  {
    if tasks == [] then []
    else
      var rest := DependentsOf(tasks[1..], k);
      assert forall t :: t in tasks <==> t == tasks[0] || t in tasks[1..];
      if k in tasks[0].dependencies then [tasks[0]] + rest else rest
  }

  /** Lines 293-300: the earliest start among the dependents already dated,
      folded over the dependents in list order. */
  function EarliestStart(dependents: seq<Task>, dates: map<int, Span>): (r: Option<Day>)
    ensures r.None? <==> forall t :: t in dependents ==> Key(t) !in dates
    ensures r.Some? ==> exists t :: t in dependents && Key(t) in dates && dates[Key(t)].start == r.value
    ensures r.Some? ==> forall t :: t in dependents && Key(t) in dates ==> r.value <= dates[Key(t)].start
  {
    if dependents == [] then None
    else
      var init, last := dependents[..|dependents| - 1], dependents[|dependents| - 1];
      assert dependents == init + [last];
      assert forall t :: t in dependents <==> t in init || t == last;
      var earliest := EarliestStart(init, dates);
      if Key(last) in dates then
        var depDate := dates[Key(last)].start;
        if earliest.Some? then (if depDate < earliest.value then Some(depDate) else earliest)
        else Some(depDate)
      else earliest
  }

  /** Lines 302-324: a task whose dependents have an earliest dated start ends
      on the working day before it; any other task ends on the deadline
      itself.  It starts `duration - 1` working days before its end. */
  ghost predicate SpanRule(duration: int, earliest: Option<Day>, deadline: Day, s: Span)
  {
    (if earliest.Some? then BackwardBy(IsWeekend, earliest.value, 1, s.end) else s.end == deadline) &&
    BackwardBy(IsWeekend, s.end, duration - 1, s.start)
  }

  /** Lines 281-324 for one key of the reversed order. */
  method DateTask(selectedCountries: seq<string>, task: Task, dependents: seq<Task>,
                  taskDates: map<int, Span>, deadline: Day) returns (span: Span)
    ensures SpanRule(task.duration, EarliestStart(dependents, taskDates), deadline, span)
  {
    var earliest := EarliestStart(dependents, taskDates);
    if |dependents| > 0 && earliest.Some? {
      var endDate := AdjustWorkingDaysBackward(selectedCountries, earliest.value, 1);
      var startDate := AdjustWorkingDaysBackward(selectedCountries, endDate, task.duration - 1);
      return Span(startDate, endDate);
    }
    var endDate := deadline;
    var startDate := AdjustWorkingDaysBackward(selectedCountries, endDate, task.duration - 1);
    span := Span(startDate, endDate);
  }

  /** Duration of the task filed under `k`. */
  function DurationOf(tasks: seq<Task>, k: int): int
  {
    match FindByKey(tasks, k)
    case None => 0
    case Some(t) => t.duration
  }

  /** `dates[k]` obeys the dating rule with respect to the other dates. */
  ghost predicate Dated(tasks: seq<Task>, deadline: Day, dates: map<int, Span>, k: int)
  {
    k in dates &&
    SpanRule(DurationOf(tasks, k), EarliestStart(DependentsOf(tasks, k), dates), deadline, dates[k])
  }

  /** Every date entry belongs to a task and obeys the rule. */
  ghost predicate DatesRules(tasks: seq<Task>, deadline: Day, dates: map<int, Span>)
  {
    forall k :: k in dates ==> k in KeySet(tasks) && Dated(tasks, deadline, dates, k)
  }

  // ---------------------------------------------------------------
  // Dating the whole order

  /** A dependent of the key at position `j` that is itself emitted comes later. */
  lemma DependentAfter(tasks: seq<Task>, sorted: seq<int>, i: int, j: int, t: Task)
    requires DistinctKeys(tasks) && KahnOrder(tasks, sorted)
    requires 0 <= i < |sorted| && 0 <= j < |sorted|
    requires t in tasks && sorted[j] in t.dependencies && Key(t) == sorted[i]
    ensures j < i
  {
    var p :| 0 <= p < |tasks| && tasks[p] == t;
    assert FindByKey(tasks, sorted[i]) == Some(t);
    assert sorted[j] in DepsOf(tasks, sorted[i]);
    var d := sorted[j];
    assert Precedes(tasks, sorted);
    assert 0 <= i < |sorted| && d in DepsOf(tasks, sorted[i]);
    assert d in sorted[..i];
    var q :| 0 <= q < i && sorted[..i][q] == sorted[j];
    assert sorted[q] == sorted[j];
  }

  /** Recording a key that no dependent carries leaves the earliest start alone. */
  lemma {:induction false} EarliestAgree(dependents: seq<Task>, dates: map<int, Span>, c: int, s: Span)
    requires forall t :: t in dependents ==> Key(t) != c
    ensures EarliestStart(dependents, dates[c := s]) == EarliestStart(dependents, dates)
  {
    if dependents != [] {
      var init := dependents[..|dependents| - 1];
      assert forall t :: t in init ==> t in dependents;
      EarliestAgree(init, dates, c, s);
    }
  }

  /** After recording `span` for the key at position `i`, the entry of the key
      at position `j >= i` still obeys the rule. */
  lemma DateStepKey(tasks: seq<Task>, deadline: Day, sorted: seq<int>, i: int, j: int,
                    dates: map<int, Span>, span: Span)
    requires DistinctKeys(tasks) && KahnOrder(tasks, sorted) && 0 <= i <= j < |sorted|
    requires i < j ==> sorted[j] in dates && Dated(tasks, deadline, dates, sorted[j])
    requires i == j ==> SpanRule(DurationOf(tasks, sorted[i]), EarliestStart(DependentsOf(tasks, sorted[i]), dates), deadline, span)
    ensures Dated(tasks, deadline, dates[sorted[i] := span], sorted[j])
  {
    var c, k := sorted[i], sorted[j];
    var dependents := DependentsOf(tasks, k);
    forall t | t in dependents
      ensures Key(t) != c
    {
      if Key(t) == c {
        DependentAfter(tasks, sorted, i, j, t);
      }
    }
    EarliestAgree(dependents, dates, c, span);
    if i < j {
      assert k != c by {
        assert sorted[i] != sorted[j];
      }
    }
  }

  /** One step of the reversed walk keeps every recorded date within the rule. */
  lemma DateStep(tasks: seq<Task>, deadline: Day, sorted: seq<int>, i: int, dates: map<int, Span>, span: Span)
    requires DistinctKeys(tasks) && KahnOrder(tasks, sorted) && 0 <= i < |sorted|
    requires dates.Keys == Elems(sorted[i + 1..]) && DatesRules(tasks, deadline, dates)
    requires SpanRule(DurationOf(tasks, sorted[i]), EarliestStart(DependentsOf(tasks, sorted[i]), dates), deadline, span)
    ensures dates[sorted[i] := span].Keys == Elems(sorted[i..])
    ensures DatesRules(tasks, deadline, dates[sorted[i] := span])
  {
    var c := sorted[i];
    var dates' := dates[c := span];
    SuffixKeys(sorted, i, dates, span);
    forall k | k in dates'
      ensures k in KeySet(tasks) && Dated(tasks, deadline, dates', k)
    {
      var j := i;
      if k != c {
        j := SuffixIndex(sorted, i + 1, k);
      }
      assert sorted[j] in sorted;
      DateStepKey(tasks, deadline, sorted, i, j, dates, span);
    }
  }

  /** Recording the key at position `i` extends the suffix of recorded keys. */
  lemma SuffixKeys<V>(sorted: seq<int>, i: int, dates: map<int, V>, v: V)
    requires 0 <= i < |sorted| && dates.Keys == Elems(sorted[i + 1..])
    ensures dates[sorted[i] := v].Keys == Elems(sorted[i..])
  {
    assert sorted[i..] == [sorted[i]] + sorted[i + 1..];
  }

  /** A key of a suffix sits at some position of it. */
  lemma SuffixIndex(sorted: seq<int>, i: int, k: int) returns (j: int)
    requires 0 <= i <= |sorted| && k in Elems(sorted[i..])
    ensures i <= j < |sorted| && sorted[j] == k
  {
    var p :| 0 <= p < |sorted[i..]| && sorted[i..][p] == k;
    j := i + p;
  }

  /** Lines 280-325: walk the order from its end, dating each key. */
  method DateTasks(selectedCountries: seq<string>, tasks: seq<Task>, sorted: seq<int>, deadline: Day)
    returns (taskDates: map<int, Span>)
    requires forall x :: x in sorted ==> x in KeySet(tasks)
    ensures taskDates.Keys == Elems(sorted)
    ensures DistinctKeys(tasks) && KahnOrder(tasks, sorted) ==> DatesRules(tasks, deadline, taskDates)
  {
    ghost var R := DistinctKeys(tasks) && KahnOrder(tasks, sorted);
    taskDates := map[];
    var i := |sorted|;
    while i > 0
      invariant 0 <= i <= |sorted|
      invariant taskDates.Keys == Elems(sorted[i..])
      invariant R ==> DatesRules(tasks, deadline, taskDates)
    {
      i := i - 1;
      var taskId := sorted[i];
      var task := FindByKey(tasks, taskId).value;
      var dependents := DependentsOf(tasks, taskId);
      var span := DateTask(selectedCountries, task, dependents, taskDates, deadline);
      if R {
        DateStep(tasks, deadline, sorted, i, taskDates, span);
      }
      SuffixKeys(sorted, i, taskDates, span);
      taskDates := taskDates[taskId := span];
    }
  }

  // ---------------------------------------------------------------
  // What the dates promise

  /** A task ends before every task that depends on it starts. */
  lemma Precedence(tasks: seq<Task>, deadline: Day, dates: map<int, Span>, a: int, b: int)
    requires DatesRules(tasks, deadline, dates) && a in dates && b in dates
    requires b in DepsOf(tasks, a)
    ensures dates[b].end < dates[a].start
  {
    var ta := FindByKey(tasks, a).value;
    assert ta in tasks && Key(ta) == a;
    assert ta in DependentsOf(tasks, b);
    var e := EarliestStart(DependentsOf(tasks, b), dates);
    assert e.Some? && e.value <= dates[a].start;
  }

  /** A task never starts after it ends. */
  lemma StartNotAfterEnd(tasks: seq<Task>, deadline: Day, dates: map<int, Span>, k: int)
    requires DatesRules(tasks, deadline, dates) && k in dates
    ensures dates[k].start <= dates[k].end
    ensures DurationOf(tasks, k) > 1 ==> !IsWeekend(dates[k].start)
  {
    assert Dated(tasks, deadline, dates, k);
  }

  /** Tasks on a dependency cycle receive no dates. */
  lemma CycleUndated(tasks: seq<Task>, sorted: seq<int>, dates: map<int, Span>, c: seq<int>)
    requires KahnOrder(tasks, sorted) && dates.Keys == Elems(sorted) && IsCycle(tasks, c)
    ensures forall j :: 0 <= j < |c| ==> c[j] !in dates
  {
    CycleNotEmitted(tasks, sorted, c);
  }

  /** Without cycles and unknown dependencies, every task receives dates. */
  lemma AcyclicAllDated(tasks: seq<Task>, sorted: seq<int>, dates: map<int, Span>, rank: int -> nat)
    requires KahnOrder(tasks, sorted) && dates.Keys == Elems(sorted)
    requires Ranked(tasks, rank) && !MissingDependency(tasks)
    ensures forall k :: k in KeySet(tasks) ==> k in dates
  {
    AcyclicAllEmitted(tasks, sorted, rank);
  }

  // ---------------------------------------------------------------
  // Project start and the rebuilt task list

  /** Lines 328-331: the earliest start among the dates of `keys` (the order of
      the values does not matter for a minimum). */
  function EarliestOf(keys: seq<int>, dates: map<int, Span>): (r: Option<Day>)
    requires forall k :: k in keys ==> k in dates
    ensures r.None? <==> keys == []
    ensures r.Some? ==> exists k :: k in keys && dates[k].start == r.value
    ensures r.Some? ==> forall k :: k in keys ==> r.value <= dates[k].start
  {
    if keys == [] then None
    else
      var init, last := keys[..|keys| - 1], keys[|keys| - 1];
      assert keys == init + [last];
      var earliest := EarliestOf(init, dates);
      var startDate := dates[last].start;
      if earliest.Some? then
        (var k0 :| k0 in init && dates[k0].start == earliest.value;
         assert k0 in keys;
         if startDate < earliest.value then Some(startDate) else earliest)
      else Some(startDate)
  }

  /** Lines 334-343: one task of the rebuilt list. */
  function Stamp(t: Task, dates: map<int, Span>): (r: Task)
    ensures r.id == Key(t) && r.taskId == Key(t) && Key(r) == Key(t)
    ensures r.name == t.name && r.duration == t.duration && r.dependencies == t.dependencies && r.assignee == t.assignee
    ensures r.startDate.Some? <==> Key(t) in dates
    ensures Key(t) in dates ==> r.startDate == Some(dates[Key(t)].start) && r.endDate == Some(dates[Key(t)].end)
    ensures Key(t) !in dates ==> r.endDate.None?
  {
    var taskId := Key(t);
    t.(taskId := taskId, id := taskId,
       startDate := if taskId in dates then Some(dates[taskId].start) else None,
       endDate := if taskId in dates then Some(dates[taskId].end) else None)
  }

  function StampAll(tasks: seq<Task>, dates: map<int, Span>): (r: seq<Task>)
    ensures |r| == |tasks| && forall i :: 0 <= i < |tasks| ==> r[i] == Stamp(tasks[i], dates)
  {
    if tasks == [] then [] else [Stamp(tasks[0], dates)] + StampAll(tasks[1..], dates)
  }

  /** `t.id || t.taskId` of every task, in list order. */
  function KeyList(tasks: seq<Task>): (r: seq<int>)
    ensures |r| == |tasks| && forall i :: 0 <= i < |tasks| ==> r[i] == Key(tasks[i])
  {
    if tasks == [] then [] else [Key(tasks[0])] + KeyList(tasks[1..])
  }

  /** Line 349: one more than the largest key, and at least 1. */
  function NextTaskId(tasks: seq<Task>): (n: int)
    ensures n >= 1 && forall t :: t in tasks ==> Key(t) < n
    ensures n == 1 || exists t :: t in tasks && Key(t) == n - 1
  {
    var keys := KeyList(tasks) + [0];
    assert forall t :: t in tasks ==> Key(t) in keys by {
      forall t | t in tasks ensures Key(t) in keys {
        var i :| 0 <= i < |tasks| && tasks[i] == t;
        assert keys[i] == Key(t);
      }
    }
    var m := MaxOf(keys);
    assert m != 0 ==> exists t :: t in tasks && Key(t) == m by {
      if m != 0 {
        var i :| 0 <= i < |keys| && keys[i] == m;
        assert i < |tasks| && Key(tasks[i]) == m;
      }
    }
    assert keys[|keys| - 1] == 0;
    m + 1
  }

  /** Stamping keeps the keys. */
  lemma StampKeepsKeys(tasks: seq<Task>, dates: map<int, Span>)
    ensures KeyList(StampAll(tasks, dates)) == KeyList(tasks)
    ensures KeySet(StampAll(tasks, dates)) == KeySet(tasks)
  {
    var r := StampAll(tasks, dates);
    forall k | k in KeySet(r) ensures k in KeySet(tasks) {
      var t :| t in r && Key(t) == k;
      var i :| 0 <= i < |r| && r[i] == t;
      assert Key(tasks[i]) == k;
    }
    forall k | k in KeySet(tasks) ensures k in KeySet(r) {
      var t :| t in tasks && Key(t) == k;
      var i :| 0 <= i < |tasks| && tasks[i] == t;
      assert r[i] in r && Key(r[i]) == k;
    }
  }

  // ---------------------------------------------------------------
  // The whole calculation

  /** The runtime errors the calculation can run into. */
  datatype Fault =
    | PushOnUndefined    // line 195: `graph[depId].push` for a `depId` that names no task
    | InvalidTimeValue   // lines 318-323: `formatDate` of a date read from a deadline text that names no day

  /** What one call of the calculation decides. */
  datatype Outcome =
    | NoPresetTasks                                   // lines 174-177
    | Failed(fault: Fault)                            // lines 352-358
    | Scheduled(tasks: seq<Task>, startDate: Day, nextTaskId: int)  // lines 346-351

  /** The `message` of the exception each fault throws, in the wording of
      the V8 engine; never empty, so it is the store's error as it stands. */
  function FaultMessage(f: Fault): (m: string)
    ensures m != ""
  {
    match f
    case PushOnUndefined => "Cannot read properties of undefined (reading 'push')"
    case InvalidTimeValue => "Invalid time value"
  }

  /** `d` is the earliest start among `dates`. */
  ghost predicate IsEarliestStart(dates: map<int, Span>, d: Day)
  {
    (exists k :: k in dates && dates[k].start == d) && forall k :: k in dates ==> d <= dates[k].start
  }

  /** A successful calculation over `tasks`: the emitted order, its dates, the
      rebuilt list, the project start and the next id. */
  ghost predicate ScheduleOf(tasks: seq<Task>, deadline: Day, today: Day, sorted: seq<int>, dates: map<int, Span>,
                             newTasks: seq<Task>, startDate: Day, nextTaskId: int)
  {
    (forall x :: x in sorted ==> x in KeySet(tasks)) && dates.Keys == Elems(sorted) &&
    (DistinctKeys(tasks) ==> KahnOrder(tasks, sorted) && DatesRules(tasks, deadline, dates)) &&
    newTasks == StampAll(tasks, dates) &&
    (dates == map[] ==> startDate == today) &&
    (dates != map[] ==> IsEarliestStart(dates, startDate)) &&
    nextTaskId == NextTaskId(newTasks)
  }

  /** After a calculation every id of the rebuilt list is below the next id. */
  lemma ScheduledIdsFresh(tasks: seq<Task>, deadline: Day, today: Day, sorted: seq<int>, dates: map<int, Span>,
                          newTasks: seq<Task>, startDate: Day, nextTaskId: int)
    requires ScheduleOf(tasks, deadline, today, sorted, dates, newTasks, startDate, nextTaskId)
    ensures forall t :: t in newTasks ==> t.id == Key(t) && t.id < nextTaskId
  {
    forall t | t in newTasks ensures t.id == Key(t) {
      var i :| 0 <= i < |newTasks| && newTasks[i] == t;
    }
  }

  /** Lines 159-351 without the state updates: `presetTasks` is `None` when
      the preset holds no task list.  The first key the dating visits has no
      dated dependent, so it is dated from the deadline: a deadline text that
      names no day throws as soon as Kahn's order is not empty.  With an empty
      order the deadline is never read, and any day stands for it. */
  method ComputeSchedule(presetTasks: Option<seq<Task>>, selectedCountries: seq<string>, deadline: string, today: Day)
    returns (out: Outcome, ghost sorted: seq<int>, ghost dates: map<int, Span>)
    ensures out.NoPresetTasks? <==> presetTasks.None? || |presetTasks.value| == 0
    ensures out == Failed(PushOnUndefined) <==>
              presetTasks.Some? && |presetTasks.value| > 0 && MissingDependency(presetTasks.value)
    ensures out == Failed(InvalidTimeValue) <==>
              presetTasks.Some? && |presetTasks.value| > 0 && !MissingDependency(presetTasks.value) &&
              DateOfText(deadline).None? && sorted != []
    ensures out == Failed(InvalidTimeValue) && presetTasks.Some? ==>
              (forall x :: x in sorted ==> x in KeySet(presetTasks.value)) &&
              (DistinctKeys(presetTasks.value) ==> KahnOrder(presetTasks.value, sorted))
    ensures out.Scheduled? ==> presetTasks.Some?
    ensures out.Scheduled? && presetTasks.Some? ==>
              ScheduleOf(presetTasks.value, DateOfText(deadline).GetOr(0), today, sorted, dates,
                         out.tasks, out.startDate, out.nextTaskId)
  {
    sorted, dates := [], map[];
    if presetTasks.None? || |presetTasks.value| == 0 {
      return NoPresetTasks, sorted, dates;
    }
    var tasks := presetTasks.value;
    var g := BuildGraph(tasks);
    if g.None? {
      return Failed(PushOnUndefined), sorted, dates;
    }
    var order := TopologicalSort(tasks, g.value);
    var deadlineObj := DateOfText(deadline);
    if deadlineObj.None? && order != [] {
      return Failed(InvalidTimeValue), order, dates;
    }
    var deadlineDay := deadlineObj.GetOr(0);
    var taskDates := DateTasks(selectedCountries, tasks, order, deadlineDay);
    sorted, dates := order, taskDates;
    var projectStartDate := EarliestOf(order, taskDates);
    assert projectStartDate.None? <==> dates == map[] by {
      if order != [] {
        assert order[0] in taskDates;
      }
    }
    var newTasks := StampAll(tasks, taskDates);
    out := Scheduled(newTasks, if projectStartDate.Some? then projectStartDate.value else today, NextTaskId(newTasks));
  }
}
