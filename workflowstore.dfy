/** The workflow store's state and the actions that change it
    (workflowStore.js): the schedule calculation and the task-list CRUD. */
module WorkflowStore {
  import opened Lists
  import opened Wrappers
  import opened DateUtils
  import opened StoreGraph
  import opened StoreSchedule

  const NoPresetTasksMessage: string := "プリセットタスクが見つかりません"
  const CalculationFailedMessage: string := "スケジュール計算に失敗しました"

  /** `s.startsWith(prefix)`. */
  predicate StartsWith(s: string, prefix: string)
  {
    |prefix| <= |s| && s[..|prefix|] == prefix
  }

  /** `error.message || fallback`. */
  function ErrorText(message: string): (r: string)
    ensures message != "" ==> r == message
    ensures message == "" ==> r == CalculationFailedMessage
  {
    if message != "" then message else CalculationFailedMessage
  }

  /** The `id` fields of the store's tasks in list order. The hook's tasks are
      a different record (`HookSchedule.HookTask`, without `taskId`), which has
      its own `HookEdits.IdsOf`. */
  function IdList(tasks: seq<Task>): (r: seq<int>)
    ensures |r| == |tasks| && forall i :: 0 <= i < |tasks| ==> r[i] == tasks[i].id
  {
    if tasks == [] then [] else [tasks[0].id] + IdList(tasks[1..])
  }

  // ---------------------------------------------------------------
  // List rules behind the actions

  /** Lines 374-376: every task whose id matches replaced by `updated`. */
  function ReplaceById(tasks: seq<Task>, updated: Task): (r: seq<Task>)
    ensures |r| == |tasks|
    ensures forall i :: 0 <= i < |tasks| && tasks[i].id == updated.id ==> r[i] == updated
    ensures forall i :: 0 <= i < |tasks| && tasks[i].id != updated.id ==> r[i] == tasks[i]
  {
    if tasks == [] then []
    else [if tasks[0].id == updated.id then updated else tasks[0]] + ReplaceById(tasks[1..], updated)
  }

  /** Replacing keeps every position's id, so replacing twice is replacing once. */
  lemma ReplaceKeepsIds(tasks: seq<Task>, updated: Task)
    ensures IdList(ReplaceById(tasks, updated)) == IdList(tasks)
    ensures ReplaceById(ReplaceById(tasks, updated), updated) == ReplaceById(tasks, updated)
  {
    var r := ReplaceById(tasks, updated);
    assert forall i :: 0 <= i < |r| ==> r[i].id == tasks[i].id;
    var rr := ReplaceById(r, updated);
    assert forall i :: 0 <= i < |rr| ==> rr[i] == r[i];
  }

  /** An update whose id matches no task changes nothing. */
  lemma ReplaceAbsent(tasks: seq<Task>, updated: Task)
    requires forall t :: t in tasks ==> t.id != updated.id
    ensures ReplaceById(tasks, updated) == tasks
  {
    var r := ReplaceById(tasks, updated);
    assert forall i :: 0 <= i < |r| ==> r[i] == tasks[i];
  }

  /** Lines 380-393: drop the tasks with id `taskId` and strip `taskId` from
      the dependency lists of the others. */
  function TasksAfterDelete(tasks: seq<Task>, taskId: int): (r: seq<Task>)
    ensures forall t :: t in r ==> t.id != taskId && taskId !in t.dependencies
    ensures forall t :: t in r <==> exists u :: u in tasks && u.id != taskId &&
                                                 t == u.(dependencies := RemoveAll(u.dependencies, taskId))
    ensures IdList(r) == RemoveAll(IdList(tasks), taskId)
  {
    if tasks == [] then []
    else
      var t, rest := tasks[0], TasksAfterDelete(tasks[1..], taskId);
      assert forall u :: u in tasks <==> u == t || u in tasks[1..];
      assert IdList(tasks) == [t.id] + IdList(tasks[1..]);
      assert ([t.id] + IdList(tasks[1..]))[1..] == IdList(tasks[1..]);
      if t.id != taskId then
        var kept := t.(dependencies := RemoveAll(t.dependencies, taskId));
        assert IdList([kept] + rest) == [t.id] + IdList(rest);
        [kept] + rest
      else rest
  }

  /** Deleting the same id again changes nothing. */
  lemma {:induction false} DeleteIdempotent(tasks: seq<Task>, taskId: int)
    ensures TasksAfterDelete(TasksAfterDelete(tasks, taskId), taskId) == TasksAfterDelete(tasks, taskId)
  {
    if tasks != [] {
      DeleteIdempotent(tasks[1..], taskId);
      var t := tasks[0];
      if t.id != taskId {
        var kept := t.(dependencies := RemoveAll(t.dependencies, taskId));
        var rest := TasksAfterDelete(tasks[1..], taskId);
        assert ([kept] + rest)[0] == kept && ([kept] + rest)[1..] == rest;
        RemoveAllAbsent(kept.dependencies, taskId);
      }
    }
  }

  /** Deleting removes exactly the tasks that carry the id. */
  lemma {:induction false} DeleteKeepsLength(tasks: seq<Task>, taskId: int)
    ensures |TasksAfterDelete(tasks, taskId)| == |tasks| - Count(IdList(tasks), taskId)
  {
    var r := TasksAfterDelete(tasks, taskId);
    assert |IdList(r)| == |r|;
  }

  /** Line 85: the next id after loading a project, one more than the largest
      `taskId` (1 for an empty project). */
  function LoadedNextTaskId(tasks: seq<Task>): (n: int)
    ensures tasks == [] ==> n == 1
    ensures forall t :: t in tasks ==> t.taskId < n
    ensures tasks != [] ==> exists t :: t in tasks && t.taskId == n - 1
  {
    if tasks == [] then 1
    else
      var ids := TaskIdList(tasks);
      var m := MaxOf(ids);
      assert forall t :: t in tasks ==> t.taskId in ids by {
        forall t | t in tasks ensures t.taskId in ids {
          var i :| 0 <= i < |tasks| && tasks[i] == t;
          assert ids[i] == t.taskId;
        }
      }
      assert exists t :: t in tasks && t.taskId == m by {
        var i :| 0 <= i < |ids| && ids[i] == m;
        assert tasks[i] in tasks;
      }
      m + 1
  }

  function TaskIdList(tasks: seq<Task>): (r: seq<int>)
    ensures |r| == |tasks| && forall i :: 0 <= i < |tasks| ==> r[i] == tasks[i].taskId
  {
    if tasks == [] then [] else [tasks[0].taskId] + TaskIdList(tasks[1..])
  }

  /** Lines 164-172: a custom preset schedules the current tasks, a built-in
      one the tasks the preset service returned. */
  function PresetTasksFor(selectedPreset: string, tasks: seq<Task>, fetchedPreset: Option<seq<Task>>): (r: Option<seq<Task>>)
    ensures StartsWith(selectedPreset, "custom-") ==> r == Some(tasks)
    ensures !StartsWith(selectedPreset, "custom-") ==> r == fetchedPreset
  {
    if StartsWith(selectedPreset, "custom-") then Some(tasks) else fetchedPreset
  }

  /** The store after a calculation over `presetTasks` with deadline text
      `deadline`, given the task list, next id and start date before it: no
      tasks leaves everything but the error as it was; a dangling dependency,
      or a deadline text that names no day while Kahn's order `order` is not
      empty, reports the runtime error and leaves the rest as it was; and
      otherwise the store holds the schedule computed from `presetTasks`. */
  ghost predicate AfterCalculation(presetTasks: Option<seq<Task>>, deadline: string, today: Day,
                                   tasks0: seq<Task>, next0: int, start0: string,
                                   tasks: seq<Task>, next: int, start: string, error: Option<string>,
                                   order: seq<int>, dates: map<int, Span>, startDay: Day)
  {
    if presetTasks.None? || |presetTasks.value| == 0 then
      error == Some(NoPresetTasksMessage) && tasks == tasks0 && next == next0 && start == start0
    else if MissingDependency(presetTasks.value) then
      error == Some(FaultMessage(PushOnUndefined)) && tasks == tasks0 && next == next0 && start == start0
    else if DateOfText(deadline).None? && order != [] then
      error == Some(FaultMessage(InvalidTimeValue)) && tasks == tasks0 && next == next0 && start == start0 &&
      (forall x :: x in order ==> x in KeySet(presetTasks.value)) &&
      (DistinctKeys(presetTasks.value) ==> KahnOrder(presetTasks.value, order))
    else
      error.None? && start == FormatDate(startDay) &&
      (forall t :: t in tasks ==> t.id < next) &&
      ScheduleOf(presetTasks.value, DateOfText(deadline).GetOr(0), today, order, dates, tasks, startDay, next)
  }

  /** The calculation on the store's values: the new task list, next id, start
      date text and error, with the order and dates behind them. */
  method Calculate(presetTasks: Option<seq<Task>>, selectedCountries: seq<string>, deadline: string, today: Day,
                   tasks0: seq<Task>, next0: int, start0: string)
    returns (tasks: seq<Task>, next: int, start: string, error: Option<string>,
             ghost order: seq<int>, ghost dates: map<int, Span>, ghost startDay: Day)
    ensures AfterCalculation(presetTasks, deadline, today, tasks0, next0, start0,
                             tasks, next, start, error, order, dates, startDay)
    ensures presetTasks.Some? && |presetTasks.value| > 0 && DistinctKeys(presetTasks.value) &&
            !MissingDependency(presetTasks.value) && DateOfText(deadline).None? ==>
              (error == Some(FaultMessage(InvalidTimeValue)) <==>
                 exists k :: k in KeySet(presetTasks.value) && DepsOf(presetTasks.value, k) == [])
  {
    var out;
    ghost var sorted, ds;
    out, sorted, ds := ComputeSchedule(presetTasks, selectedCountries, deadline, today);
    tasks, next, start, error := tasks0, next0, start0, None;
    order, dates, startDay := [], map[], today;
    match out {
      case NoPresetTasks =>
        error := Some(NoPresetTasksMessage);
      case Failed(fault) =>
        error := Some(ErrorText(FaultMessage(fault)));
        order := sorted;
        if fault == InvalidTimeValue && DistinctKeys(presetTasks.value) {
          KahnStartsEmpty(presetTasks.value, sorted);
        }
      case Scheduled(newTasks, projectStart, n) =>
        tasks, start, next := newTasks, FormatDate(projectStart), n;
        order, dates, startDay := sorted, ds, projectStart;
        ScheduledIdsFresh(presetTasks.value, DateOfText(deadline).GetOr(0), today, sorted, ds, newTasks, projectStart, n);
        if DistinctKeys(presetTasks.value) {
          KahnStartsEmpty(presetTasks.value, sorted);
        }
    }
  }

  // ---------------------------------------------------------------
  // The store

  class Store {
    var selectedPreset: string
    var startDate: string
    var tasks: seq<Task>
    var selectedCountries: seq<string>
    var nextTaskId: int
    var loading: bool
    var error: Option<string>
    /** The order and dates behind the last calculation. */
    ghost var order: seq<int>
    ghost var taskDates: map<int, Span>
    ghost var startDay: Day

    /** Every task id is below `nextTaskId`, so the next added task gets a fresh id. */
    ghost predicate IdsFresh()
      reads this
    {
      forall t :: t in tasks ==> t.id < nextTaskId
    }

    /** Lines 19-37: the initial state. */
    constructor (today: Day)
      ensures selectedPreset == "webdev" && startDate == FormatDate(today) && tasks == []
      ensures selectedCountries == ["japan"] && nextTaskId == 1 && !loading && error.None?
      ensures IdsFresh()
    {
      selectedPreset := "webdev";
      startDate := FormatDate(today);
      tasks := [];
      selectedCountries := ["japan"];
      nextTaskId := 1;
      loading := false;
      error := None;
      order := [];
      taskDates := map[];
      startDay := today;
    }

    /** Lines 156-359.  `fetchedPreset` is the task list the preset service
        returns for a built-in preset (`None` when it has none); a preset whose
        name starts with "custom-" uses the current tasks instead. */
    method CalculateTaskDates(deadline: string, fetchedPreset: Option<seq<Task>>, today: Day)
      modifies this
      ensures selectedPreset == old(selectedPreset) && selectedCountries == old(selectedCountries) && !loading
      ensures AfterCalculation(PresetTasksFor(old(selectedPreset), old(tasks), fetchedPreset), deadline, today,
                               old(tasks), old(nextTaskId), old(startDate),
                               tasks, nextTaskId, startDate, error, order, taskDates, startDay)
      ensures error.None? ==> IdsFresh()
    {
      var presetTasks := PresetTasksFor(selectedPreset, tasks, fetchedPreset);
      var tasks', next', start', error';
      ghost var order', dates', day';
      tasks', next', start', error', order', dates', day' :=
        Calculate(presetTasks, selectedCountries, deadline, today, tasks, nextTaskId, startDate);
      tasks, nextTaskId, startDate, error, loading := tasks', next', start', error', false;
      order, taskDates, startDay := order', dates', day';
    }

    /** Lines 362-369: append the task under the next id and advance the counter. */
    method AddTask(task: Task)
      modifies this
      ensures tasks == old(tasks) + [task.(id := old(nextTaskId), taskId := old(nextTaskId))]
      ensures nextTaskId == old(nextTaskId) + 1
      ensures old(IdsFresh()) ==> IdsFresh()
      ensures unchanged(this`selectedPreset, this`startDate, this`selectedCountries, this`loading, this`error)
    {
      var newTask := task.(id := nextTaskId, taskId := nextTaskId);
      tasks := tasks + [newTask];
      nextTaskId := nextTaskId + 1;
    }

    /** Lines 371-378. */
    method UpdateTask(updatedTask: Task)
      modifies this
      ensures tasks == ReplaceById(old(tasks), updatedTask)
      ensures old(IdsFresh()) ==> IdsFresh()
      ensures unchanged(this`selectedPreset, this`startDate, this`selectedCountries, this`nextTaskId, this`loading, this`error)
    {
      ghost var before := tasks;
      tasks := ReplaceById(tasks, updatedTask);
      forall t | t in tasks ensures old(IdsFresh()) ==> t.id < nextTaskId {
        var i :| 0 <= i < |tasks| && tasks[i] == t;
        assert t.id == before[i].id && before[i] in before;
      }
    }

    /** Lines 380-393. */
    method DeleteTask(taskId: int)
      modifies this
      ensures tasks == TasksAfterDelete(old(tasks), taskId)
      ensures old(IdsFresh()) ==> IdsFresh()
      ensures unchanged(this`selectedPreset, this`startDate, this`selectedCountries, this`nextTaskId, this`loading, this`error)
    {
      tasks := TasksAfterDelete(tasks, taskId);
    }
  }
}
