/** The hook's `calculateTaskDates` (useTaskScheduler.js:88-227): a task map
    keyed by id, the final tasks dated from the deadline, then rounds that
    date every task whose dependents are all dated, at most 100 of them;
    then the sort comparator and the project start. */
module HookSchedule {
  import opened Lists
  import opened Wrappers
  import opened DateUtils
  import opened WorkingDays
  import opened HookDays

  /** A task as the hook handles it: the preset's fields plus the dates and
      the `processed` flag that the calculation adds (`null` is `None`). */
  datatype HookTask = HookTask(id: int, name: string, duration: int, dependencies: seq<int>, assignee: string,
                               startDate: Option<Day>, endDate: Option<Day>, processed: bool)

  /** Line 195: the cap on the number of rounds. */
  const MaxIterations: int := 100

  /** Lines 102-107: the map entry a task starts as. */
  function Fresh(t: HookTask): HookTask
  {
    t.(startDate := None, endDate := None, processed := false)
  }

  function Ids(tasks: seq<HookTask>): set<int>
  {
    set t | t in tasks :: t.id
  }

  predicate DistinctIds(tasks: seq<HookTask>)
  {
    forall i, j :: 0 <= i < j < |tasks| ==> tasks[i].id != tasks[j].id
  }

  // ---------------------------------------------------------------
  // The task map

  /** Lines 100-108: one map entry written per task in turn, so a
      later task with the same id replaces an earlier one. */
  function InitialMap(tasks: seq<HookTask>): (m: map<int, HookTask>)
    ensures m.Keys == Ids(tasks)
    ensures forall k :: k in m ==> m[k] == Fresh(m[k])
    ensures forall i :: 0 <= i < |tasks| && (forall j :: i < j < |tasks| ==> tasks[j].id != tasks[i].id) ==>
              m[tasks[i].id] == Fresh(tasks[i])
  {
    if tasks == [] then map[]
    else
      var init, last := tasks[..|tasks| - 1], tasks[|tasks| - 1];
      assert tasks == init + [last];
      assert forall t :: t in tasks <==> t in init || t == last;
      assert forall i :: 0 <= i < |init| ==> init[i] == tasks[i];
      InitialMap(init)[last.id := Fresh(last)]
  }

  /** Lines 100-108, the loop that fills the map. */
  method BuildTaskMap(tasks: seq<HookTask>) returns (taskMap: map<int, HookTask>)
    ensures taskMap == InitialMap(tasks)
  {
    taskMap := map[];
    for i := 0 to |tasks|
      invariant taskMap == InitialMap(tasks[..i])
    {
      var task := tasks[i];
      assert tasks[..i + 1][..i] == tasks[..i];
      taskMap := taskMap[task.id := task.(startDate := None, endDate := None, processed := false)];
    }
    assert tasks[..|tasks|] == tasks;
  }

  /** With distinct ids every task is its own entry. */
  lemma InitialEntry(tasks: seq<HookTask>, i: int)
    requires DistinctIds(tasks) && 0 <= i < |tasks|
    ensures InitialMap(tasks)[tasks[i].id] == Fresh(tasks[i])
  {
  }

  // ---------------------------------------------------------------
  // Final tasks and dependents

  /** No task lists `k` among its dependencies. */
  predicate IsFinalId(tasks: seq<HookTask>, k: int)
  {
    forall u :: u in tasks ==> k !in u.dependencies
  }

  /** Lines 111-113: the tasks no task depends on, in list order. */
  function FinalTasks(tasks: seq<HookTask>): (r: seq<HookTask>)
    ensures forall t :: t in r <==> t in tasks && IsFinalId(tasks, t.id)
    ensures IsSubsequence(r, tasks)
  {
    FinalAmong(tasks, tasks)
  }

  function FinalAmong(all: seq<HookTask>, s: seq<HookTask>): (r: seq<HookTask>)
    ensures forall t :: t in r <==> t in s && IsFinalId(all, t.id)
    ensures IsSubsequence(r, s)
  {
    if s == [] then []
    else
      var rest := FinalAmong(all, s[1..]);
      assert [s[0]] + s[1..] == s;
      if IsFinalId(all, s[0].id) then
        assert ([s[0]] + rest)[1..] == rest;
        [s[0]] + rest
      else
        SubsequenceCons(rest, s[0], s[1..]);
        rest
  }

  /** Lines 146-148: the ids of the tasks that list `k` as a dependency. */
  function DependentIds(tasks: seq<HookTask>, k: int): (r: seq<int>)
    ensures forall t :: t in tasks && k in t.dependencies ==> t.id in r
    ensures r == [] <==> IsFinalId(tasks, k)
  {
    if tasks == [] then []
    else
      var rest := DependentIds(tasks[1..], k);
      assert forall t :: t in tasks <==> t == tasks[0] || t in tasks[1..];
      if k in tasks[0].dependencies then [tasks[0].id] + rest else rest
  }

  /** Every listed dependent is a task that lists `k`. */
  lemma {:induction false} DependentIdSource(tasks: seq<HookTask>, k: int, x: int)
    requires x in DependentIds(tasks, k)
    ensures exists t :: t in tasks && k in t.dependencies && t.id == x
  {
    if !(k in tasks[0].dependencies && x == tasks[0].id) {
      DependentIdSource(tasks[1..], k, x);
      var t :| t in tasks[1..] && k in t.dependencies && t.id == x;
      assert t in tasks;
    }
  }

  /** The dependents of a task are among the task ids. */
  lemma DependentsAreIds(tasks: seq<HookTask>, k: int)
    ensures forall x :: x in DependentIds(tasks, k) ==> x in Ids(tasks)
  {
    forall x | x in DependentIds(tasks, k)
      ensures x in Ids(tasks)
    {
      DependentIdSource(tasks, k, x);
    }
  }

  /** Lines 151-152: every id in `ids` has a processed entry. */
  function AllProcessed(ids: seq<int>, m: map<int, HookTask>): (r: bool)
    requires forall x :: x in ids ==> x in m
    ensures r <==> forall x :: x in ids ==> m[x].processed
  {
    if ids == [] then true
    else
      assert forall x :: x in ids <==> x == ids[0] || x in ids[1..];
      m[ids[0]].processed && AllProcessed(ids[1..], m)
  }

  /** Line 163: `Math.min(...)` of the dependents' starts. */
  function EarliestDependentStart(ids: seq<int>, m: map<int, HookTask>): (r: Day)
    requires |ids| > 0 && forall x :: x in ids ==> x in m && m[x].startDate.Some?
    ensures exists x :: x in ids && m[x].startDate.value == r
    ensures forall x :: x in ids ==> r <= m[x].startDate.value
  {
    var head := ids[0];
    assert head in ids;
    assert head in m && m[head].startDate.Some?;
    var first := m[head].startDate.value;
    if |ids| == 1 then first
    else
      assert forall x :: x in ids <==> x == head || x in ids[1..];
      var rest := EarliestDependentStart(ids[1..], m);
      if first <= rest then first else rest
  }

  /** Two maps that agree on the listed entries give the same earliest start. */
  lemma {:induction false} EarliestSame(ids: seq<int>, m: map<int, HookTask>, m': map<int, HookTask>)
    requires |ids| > 0 && forall x :: x in ids ==> x in m && m[x].startDate.Some?
    requires forall x :: x in ids ==> x in m' && m'[x] == m[x]
    ensures EarliestDependentStart(ids, m') == EarliestDependentStart(ids, m)
  {
    if |ids| > 1 {
      assert forall x :: x in ids[1..] ==> x in ids;
      EarliestSame(ids[1..], m, m');
    }
  }

  /** Lines 160-168: the end of a task whose dependents are dated: the day
      before the earliest dependent start, or the deadline without dependents. */
  function EndFor(tasks: seq<HookTask>, m: map<int, HookTask>, k: int, deadline: Day): Day
    requires forall x :: x in DependentIds(tasks, k) ==> x in m && m[x].startDate.Some?
  {
    var deps := DependentIds(tasks, k);
    if |deps| > 0 then AddDays(EarliestDependentStart(deps, m), -1) else deadline
  }

  // ---------------------------------------------------------------
  // What the calculation keeps true

  /** Every entry is dated exactly when it is processed. */
  ghost predicate WellFlagged(m: map<int, HookTask>)
  {
    forall k :: k in m ==>
      (m[k].processed ==> m[k].startDate.Some? && m[k].endDate.Some?) &&
      (!m[k].processed ==> m[k].startDate.None? && m[k].endDate.None?)
  }

  /** The dating rule of a processed entry `k`: all its dependents are
      processed, it ends as `EndFor` says, and it starts the duration of one
      of the tasks under that id in working days before its end. */
  ghost predicate DatedRule(tasks: seq<HookTask>, off: Day -> bool, deadline: Day, m: map<int, HookTask>, k: int)
  {
    k in m && m[k].processed && m[k].startDate.Some? && m[k].endDate.Some? &&
    (forall x :: x in DependentIds(tasks, k) ==> x in m && m[x].processed && m[x].startDate.Some?) &&
    m[k].endDate.value == EndFor(tasks, m, k, deadline) &&
    exists i :: 0 <= i < |tasks| && tasks[i].id == k &&
                BackwardBy(off, m[k].endDate.value, tasks[i].duration, m[k].startDate.value)
  }

  /** The map has one entry per task id, each the task's initial entry up to its dates and flag. */
  ghost predicate KeysKept(tasks: seq<HookTask>, m: map<int, HookTask>)
  {
    m.Keys == Ids(tasks) && forall k :: k in m ==> Fresh(m[k]) == InitialMap(tasks)[k]
  }

  /** `order` gives each processed entry its place in the processing order,
      `0` for the first one dated. */
  ghost predicate OrderOf(m: map<int, HookTask>, order: map<int, nat>)
  {
    (forall k :: k in m ==> (m[k].processed <==> k in order)) &&
    forall k :: k in order ==> k in m && order[k] < |order|
  }

  /** Every task is processed before each task it depends on. */
  ghost predicate DependentsFirst(tasks: seq<HookTask>, order: map<int, nat>)
  {
    forall k, t :: k in order && t in tasks && k in t.dependencies ==> t.id in order && order[t.id] < order[k]
  }

  /** Every processed entry obeys its dating rule. */
  ghost predicate RulesHold(tasks: seq<HookTask>, off: Day -> bool, deadline: Day, m: map<int, HookTask>, order: map<int, nat>)
  {
    forall k :: k in order ==> DatedRule(tasks, off, deadline, m, k)
  }

  /** The state of the task map between two steps of the calculation. */
  ghost predicate HookState(tasks: seq<HookTask>, off: Day -> bool, deadline: Day, m: map<int, HookTask>, order: map<int, nat>)
  {
    KeysKept(tasks, m) && WellFlagged(m) && OrderOf(m, order) &&
    DependentsFirst(tasks, order) && RulesHold(tasks, off, deadline, m, order)
  }

  /** `k` placed last in the processing order. */
  function Placed(order: map<int, nat>, k: int): map<int, nat>
  {
    if k in order then order else order[k := |order|]
  }

  /** Setting the dates and the flag of an existing entry keeps the keys. */
  lemma KeysStep(tasks: seq<HookTask>, m: map<int, HookTask>, k: int, start: Day, end: Day, m': map<int, HookTask>)
    requires KeysKept(tasks, m) && k in m
    requires m' == m[k := m[k].(startDate := Some(start), endDate := Some(end), processed := true)]
    ensures KeysKept(tasks, m')
  {
    assert Fresh(m'[k]) == Fresh(m[k]);
  }

  /** Dating an entry and placing it last, if it is new, keeps the order. */
  lemma OrderStep(m: map<int, HookTask>, order: map<int, nat>, k: int, start: Day, end: Day, m': map<int, HookTask>)
    requires OrderOf(m, order) && WellFlagged(m) && k in m
    requires m' == m[k := m[k].(startDate := Some(start), endDate := Some(end), processed := true)]
    ensures WellFlagged(m') && OrderOf(m', Placed(order, k))
  {
  }

  /** Processed entries of `m0` are unchanged in `m`. */
  ghost predicate Stable(m0: map<int, HookTask>, m: map<int, HookTask>)
  {
    m0.Keys == m.Keys && forall k :: k in m0 && m0[k].processed ==> m[k] == m0[k]
  }

  /** `k` is processed, or some task depending on it is not. */
  ghost predicate Settled(tasks: seq<HookTask>, m: map<int, HookTask>, k: int)
  {
    k in m && (m[k].processed || exists x :: x in DependentIds(tasks, k) && x in m && !m[x].processed)
  }

  /** Every task of `s` is settled. */
  ghost predicate SettledAll(tasks: seq<HookTask>, s: seq<HookTask>, m: map<int, HookTask>)
    decreases |s|
  {
    s == [] || (SettledAll(tasks, s[..|s| - 1], m) && Settled(tasks, m, s[|s| - 1].id))
  }

  lemma {:induction false} SettledAt(tasks: seq<HookTask>, s: seq<HookTask>, m: map<int, HookTask>, t: HookTask)
    requires SettledAll(tasks, s, m) && t in s
    ensures Settled(tasks, m, t.id)
    decreases |s|
  {
    var init := s[..|s| - 1];
    assert s == init + [s[|s| - 1]];
    if t != s[|s| - 1] {
      assert t in init;
      SettledAt(tasks, init, m, t);
    }
  }

  /** No unprocessed task could be processed now: each has an unprocessed dependent. */
  ghost predicate FixedPoint(tasks: seq<HookTask>, m: map<int, HookTask>)
  {
    SettledAll(tasks, tasks, m)
  }

  /** A dating rule survives any change that leaves the processed entries alone. */
  lemma RuleKept(tasks: seq<HookTask>, off: Day -> bool, deadline: Day, m: map<int, HookTask>, m': map<int, HookTask>, k: int)
    requires DatedRule(tasks, off, deadline, m, k) && Stable(m, m')
    ensures DatedRule(tasks, off, deadline, m', k)
  {
    var deps := DependentIds(tasks, k);
    if |deps| > 0 {
      EarliestSame(deps, m, m');
    }
  }

  lemma StartState(tasks: seq<HookTask>, off: Day -> bool, deadline: Day)
    ensures HookState(tasks, off, deadline, InitialMap(tasks), map[])
  {
  }

  /** Placing `k` last keeps the dependents first when those of `k` are already placed. */
  lemma FirstStep(tasks: seq<HookTask>, order: map<int, nat>, k: int)
    requires DependentsFirst(tasks, order) && k !in order
    requires forall x :: x in order ==> order[x] < |order|
    requires forall t :: t in tasks && k in t.dependencies ==> t.id in order
    ensures DependentsFirst(tasks, order[k := |order|])
  {
  }

  // ---------------------------------------------------------------
  // Dating the final tasks

  /** One final task dated from the deadline keeps the state. */
  lemma FinalStep(tasks: seq<HookTask>, off: Day -> bool, deadline: Day, m: map<int, HookTask>, order: map<int, nat>,
                  task: HookTask, start: Day, m': map<int, HookTask>)
    requires HookState(tasks, off, deadline, m, order)
    requires forall x :: x in order ==> IsFinalId(tasks, x)
    requires task in tasks && IsFinalId(tasks, task.id) && BackwardBy(off, deadline, task.duration, start)
    requires m' == m[task.id := m[task.id].(startDate := Some(start), endDate := Some(deadline), processed := true)]
    ensures HookState(tasks, off, deadline, m', Placed(order, task.id))
    ensures forall x :: x in Placed(order, task.id) ==> IsFinalId(tasks, x)
  {
    var k := task.id;
    KeysStep(tasks, m, k, start, deadline, m');
    OrderStep(m, order, k, start, deadline, m');
    FinalRules(tasks, off, deadline, m, order, task, start, m');
    if k !in order {
      FirstStep(tasks, order, k);
    }
  }

  lemma FinalRules(tasks: seq<HookTask>, off: Day -> bool, deadline: Day, m: map<int, HookTask>, order: map<int, nat>,
                   task: HookTask, start: Day, m': map<int, HookTask>)
    requires RulesHold(tasks, off, deadline, m, order) && task.id in m
    requires forall x :: x in order ==> IsFinalId(tasks, x)
    requires task in tasks && IsFinalId(tasks, task.id) && BackwardBy(off, deadline, task.duration, start)
    requires m' == m[task.id := m[task.id].(startDate := Some(start), endDate := Some(deadline), processed := true)]
    ensures RulesHold(tasks, off, deadline, m', Placed(order, task.id))
  {
    forall x | x in Placed(order, task.id)
      ensures DatedRule(tasks, off, deadline, m', x)
    {
      assert DependentIds(tasks, x) == [];
      if x == task.id {
        var i :| 0 <= i < |tasks| && tasks[i] == task;
      } else {
        assert DatedRule(tasks, off, deadline, m, x);
      }
    }
  }

  /** The first `i` final tasks are dated, and only final tasks are. */
  ghost predicate FinalsDated(tasks: seq<HookTask>, off: Day -> bool, deadline: Day, finalTasks: seq<HookTask>, i: int,
                              m: map<int, HookTask>, order: map<int, nat>)
  {
    HookState(tasks, off, deadline, m, order) && 0 <= i <= |finalTasks| &&
    (forall x :: x in order ==> IsFinalId(tasks, x)) &&
    forall j :: 0 <= j < i ==> finalTasks[j].id in order
  }

  /** Lines 119-135: the visit of final task `i`: it ends on the deadline and
      starts its duration in working days before. */
  method DateFinalTask(selectedCountries: seq<string>, countryHolidays: map<string, seq<string>>,
                       tasks: seq<HookTask>, deadline: Day, finalTasks: seq<HookTask>, i: int,
                       taskMap: map<int, HookTask>, ghost order: map<int, nat>)
    returns (taskMap': map<int, HookTask>, ghost order': map<int, nat>)
    requires finalTasks == FinalTasks(tasks) && i < |finalTasks|
    requires FinalsDated(tasks, OffDays(selectedCountries, countryHolidays), deadline, finalTasks, i, taskMap, order)
    ensures FinalsDated(tasks, OffDays(selectedCountries, countryHolidays), deadline, finalTasks, i + 1, taskMap', order')
    ensures finalTasks[i].id in taskMap &&
            exists start :: BackwardBy(OffDays(selectedCountries, countryHolidays), deadline, finalTasks[i].duration, start) &&
              taskMap' == taskMap[finalTasks[i].id := taskMap[finalTasks[i].id].(startDate := Some(start), endDate := Some(deadline), processed := true)]
  {
    ghost var off := OffDays(selectedCountries, countryHolidays);
    var task := finalTasks[i];
    assert task in finalTasks;
    taskMap' := taskMap[task.id := taskMap[task.id].(endDate := Some(deadline))];
    var currentDate := CountBack(selectedCountries, countryHolidays, deadline, task.duration);
    taskMap' := taskMap'[task.id := taskMap'[task.id].(startDate := Some(currentDate), processed := true)];
    DatedInTwoSteps(taskMap, task.id, currentDate, deadline);
    FinalStep(tasks, off, deadline, taskMap, order, task, currentDate, taskMap');
    order' := Placed(order, task.id);
  }

  /** Lines 118-136: every final task ends on the deadline and starts its
      duration in working days before it; exactly the final ids are then processed. */
  method DateFinalTasks(selectedCountries: seq<string>, countryHolidays: map<string, seq<string>>,
                        tasks: seq<HookTask>, deadline: Day, taskMap0: map<int, HookTask>)
    returns (taskMap: map<int, HookTask>, ghost order: map<int, nat>)
    requires taskMap0 == InitialMap(tasks)
    ensures HookState(tasks, OffDays(selectedCountries, countryHolidays), deadline, taskMap, order)
    ensures forall k :: k in taskMap ==> (taskMap[k].processed <==> IsFinalId(tasks, k))
  {
    var finalTasks := FinalTasks(tasks);
    taskMap, order := taskMap0, map[];
    FinalsStart(tasks, OffDays(selectedCountries, countryHolidays), deadline, finalTasks);
    for i := 0 to |finalTasks|
      invariant FinalsDated(tasks, OffDays(selectedCountries, countryHolidays), deadline, finalTasks, i, taskMap, order)
    {
      taskMap, order := DateFinalTask(selectedCountries, countryHolidays, tasks, deadline, finalTasks, i, taskMap, order);
    }
    FinalsPlaced(tasks, OffDays(selectedCountries, countryHolidays), deadline, finalTasks, taskMap, order);
  }

  lemma FinalsStart(tasks: seq<HookTask>, off: Day -> bool, deadline: Day, finalTasks: seq<HookTask>)
    ensures FinalsDated(tasks, off, deadline, finalTasks, 0, InitialMap(tasks), map[])
  {
    StartState(tasks, off, deadline);
  }

  /** Lines 119 and 132-133: the end date set first, then the start date and the flag. */
  lemma DatedInTwoSteps(m: map<int, HookTask>, k: int, start: Day, end: Day)
    requires k in m
    ensures var m1 := m[k := m[k].(endDate := Some(end))];
            m1[k := m1[k].(startDate := Some(start), processed := true)] ==
            m[k := m[k].(startDate := Some(start), endDate := Some(end), processed := true)]
  {
  }

  /** After the loop, the processed entries are exactly the final ids. */
  lemma FinalsPlaced(tasks: seq<HookTask>, off: Day -> bool, deadline: Day, finalTasks: seq<HookTask>,
                     m: map<int, HookTask>, order: map<int, nat>)
    requires finalTasks == FinalTasks(tasks)
    requires FinalsDated(tasks, off, deadline, finalTasks, |finalTasks|, m, order)
    ensures HookState(tasks, off, deadline, m, order)
    ensures forall k :: k in m ==> (m[k].processed <==> IsFinalId(tasks, k))
  {
    FinalIdsPlaced(tasks, finalTasks, m, order);
  }

  lemma FinalIdsPlaced(tasks: seq<HookTask>, finalTasks: seq<HookTask>, m: map<int, HookTask>, order: map<int, nat>)
    requires finalTasks == FinalTasks(tasks) && m.Keys == Ids(tasks)
    requires forall j :: 0 <= j < |finalTasks| ==> finalTasks[j].id in order
    ensures forall k :: k in m && IsFinalId(tasks, k) ==> k in order
  {
    forall k | k in m && IsFinalId(tasks, k)
      ensures k in order
    {
      var t :| t in tasks && t.id == k;
      var j :| 0 <= j < |finalTasks| && finalTasks[j] == t;
    }
  }

  // ---------------------------------------------------------------
  // The rounds

  /** Processing one task whose dependents are all processed keeps the state. */
  lemma ProcessStep(tasks: seq<HookTask>, off: Day -> bool, deadline: Day, m: map<int, HookTask>, order: map<int, nat>,
                    task: HookTask, end: Day, start: Day, m': map<int, HookTask>)
    requires HookState(tasks, off, deadline, m, order)
    requires task in tasks && task.id in m && !m[task.id].processed
    requires forall x :: x in DependentIds(tasks, task.id) ==> x in m && m[x].processed
    requires end == EndFor(tasks, m, task.id, deadline) && BackwardBy(off, end, task.duration, start)
    requires m' == m[task.id := m[task.id].(startDate := Some(start), endDate := Some(end), processed := true)]
    ensures task.id !in order
    ensures HookState(tasks, off, deadline, m', order[task.id := |order|]) && Stable(m, m')
  {
    var k := task.id;
    assert k !in order;
    KeysStep(tasks, m, k, start, end, m');
    OrderStep(m, order, k, start, end, m');
    ProcessRules(tasks, off, deadline, m, order, task, end, start, m');
    forall t | t in tasks && k in t.dependencies
      ensures t.id in order
    {
      assert t.id in DependentIds(tasks, k);
    }
    FirstStep(tasks, order, k);
  }

  lemma ProcessRules(tasks: seq<HookTask>, off: Day -> bool, deadline: Day, m: map<int, HookTask>, order: map<int, nat>,
                     task: HookTask, end: Day, start: Day, m': map<int, HookTask>)
    requires RulesHold(tasks, off, deadline, m, order) && WellFlagged(m)
    requires task in tasks && task.id in m && !m[task.id].processed
    requires forall x :: x in m && m[x].processed ==> x in order
    requires forall x :: x in DependentIds(tasks, task.id) ==> x in m && m[x].processed
    requires end == EndFor(tasks, m, task.id, deadline) && BackwardBy(off, end, task.duration, start)
    requires m' == m[task.id := m[task.id].(startDate := Some(start), endDate := Some(end), processed := true)]
    ensures RulesHold(tasks, off, deadline, m', order[task.id := |order|]) && Stable(m, m')
  {
    var k := task.id;
    assert k !in DependentIds(tasks, k);
    assert Stable(m, m');
    NewRule(tasks, off, deadline, m, task, end, start, m');
    forall x | x in order[k := |order|]
      ensures DatedRule(tasks, off, deadline, m', x)
    {
      if x != k {
        RuleKept(tasks, off, deadline, m, m', x);
      }
    }
  }

  /** The rule of the entry just dated holds. */
  lemma NewRule(tasks: seq<HookTask>, off: Day -> bool, deadline: Day, m: map<int, HookTask>,
                task: HookTask, end: Day, start: Day, m': map<int, HookTask>)
    requires task in tasks && task.id in m && task.id !in DependentIds(tasks, task.id)
    requires forall x :: x in DependentIds(tasks, task.id) ==> x in m && m[x].processed && m[x].startDate.Some?
    requires end == EndFor(tasks, m, task.id, deadline) && BackwardBy(off, end, task.duration, start)
    requires m' == m[task.id := m[task.id].(startDate := Some(start), endDate := Some(end), processed := true)]
    ensures DatedRule(tasks, off, deadline, m', task.id)
  {
    var deps := DependentIds(tasks, task.id);
    if |deps| > 0 {
      EarliestSame(deps, m, m');
    }
    var i :| 0 <= i < |tasks| && tasks[i] == task;
  }

  /** A pass has looked at the tasks `done`, starting from `m0` and `order0`:
      the state holds, dated entries stay, and when nothing has been dated
      yet each task looked at is settled. */
  ghost predicate Passing(tasks: seq<HookTask>, off: Day -> bool, deadline: Day, m0: map<int, HookTask>, order0: map<int, nat>,
                          done: seq<HookTask>, m: map<int, HookTask>, any: bool, order: map<int, nat>)
  {
    HookState(tasks, off, deadline, m, order) && Stable(m0, m) && order0.Keys <= order.Keys &&
    (any <==> |order| > |order0|) &&
    (!any ==> m == m0 && order == order0 && SettledAll(tasks, done, m))
  }

  lemma PassStart(tasks: seq<HookTask>, off: Day -> bool, deadline: Day, m0: map<int, HookTask>, order0: map<int, nat>)
    requires HookState(tasks, off, deadline, m0, order0)
    ensures Passing(tasks, off, deadline, m0, order0, tasks[..0], m0, false, order0)
  {
  }

  /** Looking at a settled task without dating it keeps the pass going. */
  lemma PassSkip(tasks: seq<HookTask>, off: Day -> bool, deadline: Day, m0: map<int, HookTask>, order0: map<int, nat>,
                 done: seq<HookTask>, m: map<int, HookTask>, any: bool, order: map<int, nat>, t: HookTask)
    requires Passing(tasks, off, deadline, m0, order0, done, m, any, order) && Settled(tasks, m, t.id)
    ensures Passing(tasks, off, deadline, m0, order0, done + [t], m, any, order)
  {
    assert (done + [t])[..|done|] == done;
  }

  /** Dating a task keeps the pass going and makes it count. */
  lemma PassDate(tasks: seq<HookTask>, off: Day -> bool, deadline: Day, m0: map<int, HookTask>, order0: map<int, nat>,
                 done: seq<HookTask>, m: map<int, HookTask>, any: bool, order: map<int, nat>, t: HookTask,
                 end: Day, start: Day, m': map<int, HookTask>)
    requires Passing(tasks, off, deadline, m0, order0, done, m, any, order)
    requires t in tasks && t.id in m && !m[t.id].processed
    requires forall x :: x in DependentIds(tasks, t.id) ==> x in m && m[x].processed
    requires end == EndFor(tasks, m, t.id, deadline) && BackwardBy(off, end, t.duration, start)
    requires m' == m[t.id := m[t.id].(startDate := Some(start), endDate := Some(end), processed := true)]
    ensures Passing(tasks, off, deadline, m0, order0, done + [t], m', true, order[t.id := |order|])
  {
    ProcessStep(tasks, off, deadline, m, order, t, end, start, m');
  }

  /** Lines 142-187: the visit of one task in a pass.  An unprocessed task
      whose dependents are all processed ends the day before the earliest
      dependent start (the deadline without dependents) and starts its
      duration in working days before that. */
  method VisitTask(selectedCountries: seq<string>, countryHolidays: map<string, seq<string>>,
                   tasks: seq<HookTask>, deadline: Day, ghost taskMap0: map<int, HookTask>, ghost order0: map<int, nat>,
                   ghost done: seq<HookTask>, taskMap: map<int, HookTask>, processedAny: bool, ghost order: map<int, nat>,
                   task: HookTask)
    returns (taskMap': map<int, HookTask>, processedAny': bool, ghost order': map<int, nat>)
    requires Passing(tasks, OffDays(selectedCountries, countryHolidays), deadline, taskMap0, order0, done, taskMap, processedAny, order)
    requires task in tasks
    ensures Passing(tasks, OffDays(selectedCountries, countryHolidays), deadline, taskMap0, order0, done + [task], taskMap', processedAny', order')
    ensures task.id in taskMap
    ensures taskMap[task.id].processed || !(forall x :: x in DependentIds(tasks, task.id) ==> x in taskMap && taskMap[x].processed) ==>
              taskMap' == taskMap && processedAny' == processedAny
    ensures !taskMap[task.id].processed && (forall x :: x in DependentIds(tasks, task.id) ==> x in taskMap && taskMap[x].processed) ==>
              processedAny' && (forall x :: x in DependentIds(tasks, task.id) ==> taskMap[x].startDate.Some?) &&
              exists start :: BackwardBy(OffDays(selectedCountries, countryHolidays), EndFor(tasks, taskMap, task.id, deadline), task.duration, start) &&
                taskMap' == taskMap[task.id := taskMap[task.id].(endDate := Some(EndFor(tasks, taskMap, task.id, deadline)), startDate := Some(start), processed := true)]
  {
    ghost var off := OffDays(selectedCountries, countryHolidays);
    taskMap', processedAny', order' := taskMap, processedAny, order;
    assert task.id in taskMap;
    if taskMap[task.id].processed {
      PassSkip(tasks, off, deadline, taskMap0, order0, done, taskMap, processedAny, order, task);
    } else {
      var dependentTaskIds := DependentIds(tasks, task.id);
      DependentsAreIds(tasks, task.id);
      var allDependentsProcessed := |dependentTaskIds| == 0 || AllProcessed(dependentTaskIds, taskMap);
      if allDependentsProcessed {
        var endDate := EndFor(tasks, taskMap, task.id, deadline);
        var currentDate := CountBack(selectedCountries, countryHolidays, endDate, task.duration);
        taskMap' := taskMap[task.id := taskMap[task.id].(endDate := Some(endDate), startDate := Some(currentDate), processed := true)];
        PassDate(tasks, off, deadline, taskMap0, order0, done, taskMap, processedAny, order, task, endDate, currentDate, taskMap');
        processedAny' := true;
        order' := order[task.id := |order|];
      } else {
        PassSkip(tasks, off, deadline, taskMap0, order0, done, taskMap, processedAny, order, task);
      }
    }
  }

  /** Lines 139-191: one pass over the tasks.  It dates each unprocessed task
      whose dependents are all processed, and tells whether it dated any. */
  method ProcessTasks(selectedCountries: seq<string>, countryHolidays: map<string, seq<string>>,
                      tasks: seq<HookTask>, deadline: Day, taskMap0: map<int, HookTask>, ghost order0: map<int, nat>)
    returns (taskMap: map<int, HookTask>, processedAny: bool, ghost order: map<int, nat>)
    requires HookState(tasks, OffDays(selectedCountries, countryHolidays), deadline, taskMap0, order0)
    ensures Passing(tasks, OffDays(selectedCountries, countryHolidays), deadline, taskMap0, order0, tasks, taskMap, processedAny, order)
  {
    taskMap, processedAny, order := taskMap0, false, order0;
    PassStart(tasks, OffDays(selectedCountries, countryHolidays), deadline, taskMap0, order0);
    for j := 0 to |tasks|
      invariant Passing(tasks, OffDays(selectedCountries, countryHolidays), deadline, taskMap0, order0, tasks[..j], taskMap, processedAny, order)
    {
      PrefixSnoc(tasks, j);
      taskMap, processedAny, order := VisitTask(selectedCountries, countryHolidays, tasks, deadline, taskMap0, order0,
                                                tasks[..j], taskMap, processedAny, order, tasks[j]);
    }
    PrefixAll(tasks);
  }

  /** Lines 194-201: rounds until one dates nothing, at most `MaxIterations` of
      them.  Each counted round dates at least one task, and dates once set
      never change. */
  method RunRounds(selectedCountries: seq<string>, countryHolidays: map<string, seq<string>>,
                   tasks: seq<HookTask>, deadline: Day, taskMap0: map<int, HookTask>, ghost order0: map<int, nat>)
    returns (taskMap: map<int, HookTask>, ghost order: map<int, nat>, iterations: int)
    requires HookState(tasks, OffDays(selectedCountries, countryHolidays), deadline, taskMap0, order0)
    ensures HookState(tasks, OffDays(selectedCountries, countryHolidays), deadline, taskMap, order)
    ensures Stable(taskMap0, taskMap) && order0.Keys <= order.Keys
    ensures 0 <= iterations <= MaxIterations && |order0| + iterations <= |order|
    ensures iterations < MaxIterations ==> FixedPoint(tasks, taskMap)
  {
    taskMap, order, iterations := taskMap0, order0, 0;
    while iterations < MaxIterations
      invariant HookState(tasks, OffDays(selectedCountries, countryHolidays), deadline, taskMap, order)
      invariant Stable(taskMap0, taskMap) && order0.Keys <= order.Keys
      invariant 0 <= iterations <= MaxIterations && |order0| + iterations <= |order|
      decreases MaxIterations - iterations
    {
      var processed;
      ghost var next;
      taskMap, processed, next := ProcessTasks(selectedCountries, countryHolidays, tasks, deadline, taskMap, order);
      assert FixedPoint(tasks, taskMap) || processed;
      if !processed {
        break;
      }
      order := next;
      iterations := iterations + 1;
    }
  }

  /** More than `MaxIterations` rounds can only be needed with at least that many ids. */
  lemma RoundsBound(tasks: seq<HookTask>, m: map<int, HookTask>, order: map<int, nat>)
    requires m.Keys == Ids(tasks) && OrderOf(m, order)
    ensures |order| <= |Ids(tasks)|
  {
    assert order.Keys <= m.Keys by {
      forall k | k in order.Keys
        ensures k in m.Keys
      {
        assert k in order;
      }
    }
    SubsetCard(order.Keys, m.Keys);
  }

  // ---------------------------------------------------------------
  // The result list

  /** Line 204: `Object.values(taskMap)`: every entry, once per key; the
      order of the list is not modelled. */
  method ValuesOf(m: map<int, HookTask>) returns (values: seq<HookTask>)
    ensures forall e :: e in values <==> e in m.Values
    ensures |values| == |m|
  {
    values := [];
    ghost var keys := [];
    var rest := m.Keys;
    while rest != {}
      invariant Listing(m, values, keys, rest)
      decreases |rest|
    {
      Member(rest);
      var k :| k in rest;
      ListingStep(m, values, keys, rest, k);
      values, keys := values + [m[k]], keys + [k];
      rest := rest - {k};
    }
    ValuesListed(m, values, keys);
  }

  /** The entries of `m` under `keys` are listed in `values`; `rest` holds
      the keys still to visit. */
  ghost predicate Listing(m: map<int, HookTask>, values: seq<HookTask>, keys: seq<int>, rest: set<int>)
  {
    rest !! Elems(keys) && rest + Elems(keys) == m.Keys &&
    |keys| == |values| && NoDup(keys) &&
    forall i :: 0 <= i < |values| ==> keys[i] in m && values[i] == m[keys[i]]
  }

  lemma ListingStep(m: map<int, HookTask>, values: seq<HookTask>, keys: seq<int>, rest: set<int>, k: int)
    requires Listing(m, values, keys, rest) && k in rest
    ensures Listing(m, values + [m[k]], keys + [k], rest - {k})
  {
    assert Elems(keys + [k]) == Elems(keys) + {k};
    NoDupSnoc(keys, k);
  }

  lemma ValuesListed(m: map<int, HookTask>, values: seq<HookTask>, keys: seq<int>)
    requires |keys| == |values| && NoDup(keys) && Elems(keys) == m.Keys
    requires forall i :: 0 <= i < |values| ==> keys[i] in m && values[i] == m[keys[i]]
    ensures forall e :: e in values <==> e in m.Values
    ensures |values| == |m|
  {
    forall e | e in m.Values
      ensures e in values
    {
      var k :| k in m && m[k] == e;
      assert k in Elems(keys);
      var i :| 0 <= i < |keys| && keys[i] == k;
      assert values[i] == e;
    }
    NoDupCard(keys);
    assert |m| == |m.Keys|;
  }

  /** What the hook's calculation produces from `tasks`: the map and the
      processing order satisfy the state above, the list holds each entry
      once, and with fewer than `MaxIterations` ids the rounds reached a fixed point. */
  ghost predicate HookOutcome(tasks: seq<HookTask>, off: Day -> bool, deadline: Day,
                              m: map<int, HookTask>, order: map<int, nat>, calculated: seq<HookTask>)
  {
    HookState(tasks, off, deadline, m, order) &&
    (forall e :: e in calculated <==> e in m.Values) &&
    |calculated| == |m| &&
    (forall k :: k in m && IsFinalId(tasks, k) ==> m[k].processed) &&
    (|Ids(tasks)| < MaxIterations ==> FixedPoint(tasks, m))
  }

  /** Lines 94-204: the whole calculation over the preset's tasks. */
  method HookCalculate(selectedCountries: seq<string>, countryHolidays: map<string, seq<string>>,
                       presetTasks: seq<HookTask>, deadline: Day)
    returns (calculatedTasks: seq<HookTask>, ghost taskMap: map<int, HookTask>, ghost order: map<int, nat>)
    ensures HookOutcome(presetTasks, OffDays(selectedCountries, countryHolidays), deadline, taskMap, order, calculatedTasks)
  {
    ghost var off := OffDays(selectedCountries, countryHolidays);
    var map0 := BuildTaskMap(presetTasks);
    var map1;
    ghost var order1;
    map1, order1 := DateFinalTasks(selectedCountries, countryHolidays, presetTasks, deadline, map0);
    var map2;
    ghost var iterations;
    map2, order, iterations := RunRounds(selectedCountries, countryHolidays, presetTasks, deadline, map1, order1);
    taskMap := map2;
    RoundsBound(presetTasks, taskMap, order);
    calculatedTasks := ValuesOf(map2);
  }

  // ---------------------------------------------------------------
  // Properties of a calculated schedule

  /** For A depending on B, B ends before A starts: B ends the calendar day
      before its earliest dependent starts.  And B is dated only after A. */
  lemma Precedence(tasks: seq<HookTask>, off: Day -> bool, deadline: Day, m: map<int, HookTask>, order: map<int, nat>,
                   a: HookTask, b: int)
    requires HookState(tasks, off, deadline, m, order)
    requires a in tasks && b in a.dependencies && b in m && m[b].processed
    ensures m[a.id].processed && m[b].endDate.value < m[a.id].startDate.value
  {
    assert DatedRule(tasks, off, deadline, m, b);
    var deps := DependentIds(tasks, b);
    assert a.id in deps;
  }

  /** A dated task never starts after it ends. */
  lemma StartNotAfterEnd(tasks: seq<HookTask>, off: Day -> bool, deadline: Day, m: map<int, HookTask>, order: map<int, nat>, k: int)
    requires HookState(tasks, off, deadline, m, order)
    requires k in m && m[k].processed
    ensures m[k].startDate.value <= m[k].endDate.value
  {
    assert DatedRule(tasks, off, deadline, m, k);
  }

  /** With distinct ids, a dated task ends as `EndFor` says (the deadline for a
      final task) and starts its own duration in working days before that. */
  lemma OwnDuration(tasks: seq<HookTask>, off: Day -> bool, deadline: Day, m: map<int, HookTask>, order: map<int, nat>, k: int)
    requires HookState(tasks, off, deadline, m, order) && DistinctIds(tasks)
    requires k in m && m[k].processed
    ensures IsFinalId(tasks, k) ==> m[k].endDate == Some(deadline)
    ensures BackwardBy(off, m[k].endDate.value, m[k].duration, m[k].startDate.value)
  {
    assert DatedRule(tasks, off, deadline, m, k);
    var i :| 0 <= i < |tasks| && tasks[i].id == k &&
             BackwardBy(off, m[k].endDate.value, tasks[i].duration, m[k].startDate.value);
    InitialEntry(tasks, i);
    assert Fresh(m[k]) == Fresh(tasks[i]);
  }

  /** Each member of `c` depends on the one before it, and `c` is closed. */
  ghost predicate OnDependencyCycle(tasks: seq<HookTask>, c: seq<int>)
  {
    |c| >= 2 && c[0] == c[|c| - 1] &&
    forall j :: 0 <= j < |c| - 1 ==> Feeds(tasks, c[j], c[j + 1])
  }

  /** Some task `b` lists `a` among its dependencies. */
  ghost predicate Feeds(tasks: seq<HookTask>, a: int, b: int)
  {
    exists t :: t in tasks && t.id == b && a in t.dependencies
  }

  /** Tasks on a dependency cycle are never processed: their dates stay `null`. */
  lemma CycleUndated(tasks: seq<HookTask>, off: Day -> bool, deadline: Day, m: map<int, HookTask>, order: map<int, nat>, c: seq<int>)
    requires HookState(tasks, off, deadline, m, order) && OnDependencyCycle(tasks, c)
    ensures forall j :: 0 <= j < |c| ==> c[j] !in m || (!m[c[j]].processed && m[c[j]].startDate.None?)
  {
    CycleUnplaced(tasks, order, c);
  }

  /** Along a dependency cycle the place in the processing order drops. */
  lemma PlaceDrops(tasks: seq<HookTask>, order: map<int, nat>, c: seq<int>, j: int)
    requires DependentsFirst(tasks, order) && OnDependencyCycle(tasks, c)
    requires 0 <= j < |c| - 1 && c[j] in order
    ensures c[j + 1] in order && order[c[j + 1]] < order[c[j]]
  {
    assert Feeds(tasks, c[j], c[j + 1]);
    var t :| t in tasks && t.id == c[j + 1] && c[j] in t.dependencies;
  }

  function PlaceOf(order: map<int, nat>, x: int): int
  {
    if x in order then order[x] else 0
  }

  /** No member of a dependency cycle gets a place in the processing order. */
  lemma CycleUnplaced(tasks: seq<HookTask>, order: map<int, nat>, c: seq<int>)
    requires DependentsFirst(tasks, order) && OnDependencyCycle(tasks, c)
    ensures forall j :: 0 <= j < |c| ==> c[j] !in order
  {
    var S := order.Keys;
    var f := x => PlaceOf(order, x);
    forall j | 0 <= j < |c| - 1 && c[j] in S
      ensures c[j + 1] in S && f(c[j + 1]) < f(c[j])
    {
      PlaceDrops(tasks, order, c, j);
    }
    CycleAvoids(c, S, f);
  }

  /** Every task ranks below each task it depends on: there is no cycle. */
  ghost predicate Layered(tasks: seq<HookTask>, rank: int -> nat)
  {
    forall t, d :: t in tasks && d in t.dependencies ==> rank(d) < rank(t.id)
  }

  function MaxRank(tasks: seq<HookTask>, rank: int -> nat): (r: nat)
    ensures forall t :: t in tasks ==> rank(t.id) <= r
  {
    if tasks == [] then 0
    else
      var rest := MaxRank(tasks[1..], rank);
      assert forall t :: t in tasks ==> t == tasks[0] || t in tasks[1..];
      if rank(tasks[0].id) > rest then rank(tasks[0].id) else rest
  }

  /** At a fixed point without cycles every task is processed. */
  lemma AcyclicAllDated(tasks: seq<HookTask>, m: map<int, HookTask>, rank: int -> nat)
    requires FixedPoint(tasks, m) && Layered(tasks, rank)
    ensures forall t :: t in tasks ==> t.id in m && m[t.id].processed
  {
    var top := MaxRank(tasks, rank);
    forall t | t in tasks
      ensures t.id in m && m[t.id].processed
    {
      LayeredProcessed(tasks, m, rank, top, t);
    }
  }

  lemma {:induction false} LayeredProcessed(tasks: seq<HookTask>, m: map<int, HookTask>, rank: int -> nat, top: nat, t: HookTask)
    requires FixedPoint(tasks, m) && Layered(tasks, rank)
    requires forall u :: u in tasks ==> rank(u.id) <= top
    requires t in tasks
    ensures t.id in m && m[t.id].processed
    decreases top - rank(t.id)
  {
    SettledAt(tasks, tasks, m, t);
    if !m[t.id].processed {
      var x :| x in DependentIds(tasks, t.id) && x in m && !m[x].processed;
      DependentIdSource(tasks, t.id, x);
      var u :| u in tasks && t.id in u.dependencies && u.id == x;
      LayeredProcessed(tasks, m, rank, top, u);
    }
  }

  /** With fewer than `MaxIterations` ids and no cycle, every task is dated. */
  lemma SmallAcyclicAllDated(tasks: seq<HookTask>, off: Day -> bool, deadline: Day,
                             m: map<int, HookTask>, order: map<int, nat>, calculated: seq<HookTask>, rank: int -> nat)
    requires HookOutcome(tasks, off, deadline, m, order, calculated)
    requires |Ids(tasks)| < MaxIterations && Layered(tasks, rank)
    ensures forall e :: e in calculated ==> e.processed && e.startDate.Some? && e.endDate.Some?
  {
    AcyclicAllDated(tasks, m, rank);
    forall e | e in calculated
      ensures e.processed
    {
      var k :| k in m && m[k] == e;
      var t :| t in tasks && t.id == k;
    }
  }

  // ---------------------------------------------------------------
  // Sorting and the project start

  /** `new Date(task.startDate)` as a day: an undated task (`null`) reads as
      the epoch, 1970-01-01. */
  function StartValue(t: HookTask): Day
  {
    if t.startDate.Some? then t.startDate.value else 0
  }

  /** Lines 205-212: the sort comparator, in milliseconds. */
  function Compare(a: HookTask, b: HookTask): (r: int)
    ensures b.id in a.dependencies ==> r == 1
    ensures b.id !in a.dependencies && a.id in b.dependencies ==> r == -1
    ensures b.id !in a.dependencies && a.id !in b.dependencies ==>
              (r < 0 <==> StartValue(a) < StartValue(b)) && (r == 0 <==> StartValue(a) == StartValue(b))
  {
    if b.id in a.dependencies then 1
    else if a.id in b.dependencies then -1
    else (StartValue(a) - StartValue(b)) * MsPerDay
  }

  /** Without a mutual dependency, swapping the arguments flips the sign. */
  lemma CompareAntisymmetric(a: HookTask, b: HookTask)
    requires !(b.id in a.dependencies && a.id in b.dependencies)
    ensures (Compare(a, b) < 0 <==> Compare(b, a) > 0) && (Compare(a, b) == 0 <==> Compare(b, a) == 0)
  {
  }

  /** The comparator is not a consistent order: dependencies override dates,
      so three tasks can compare in a circle. */
  lemma CompareNotTransitive()
    ensures exists a: HookTask, b: HookTask, c: HookTask ::
              Compare(a, b) < 0 && Compare(b, c) < 0 && Compare(a, c) > 0
  {
    var a := HookTask(1, "a", 1, [3], "", Some(1), Some(1), true);
    var b := HookTask(2, "b", 1, [], "", Some(2), Some(2), true);
    var c := HookTask(3, "c", 1, [], "", Some(3), Some(3), true);
    assert Compare(a, b) < 0 && Compare(b, c) < 0 && Compare(a, c) > 0;
  }

  /** Lines 219-222: `reduce` keeping the earlier start. */
  function EarliestFrom(tasks: seq<HookTask>, earliest: Day): (r: Day)
    ensures r <= earliest && forall t :: t in tasks ==> r <= StartValue(t)
    ensures r == earliest || exists t :: t in tasks && StartValue(t) == r
  {
    if tasks == [] then earliest
    else
      var taskDate := StartValue(tasks[0]);
      assert forall t :: t in tasks ==> t == tasks[0] || t in tasks[1..];
      EarliestFrom(tasks[1..], if taskDate < earliest then taskDate else earliest)
  }

  /** Lines 218-226: the project start is the earliest task start, an undated
      task counting as 1970-01-01. */
  function ProjectStart(tasks: seq<HookTask>): (r: Day)
    requires |tasks| > 0
    ensures forall t :: t in tasks ==> r <= StartValue(t)
    ensures exists t :: t in tasks && StartValue(t) == r
  {
    EarliestFrom(tasks, StartValue(tasks[0]))
  }
}
