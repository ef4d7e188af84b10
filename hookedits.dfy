/** The rules behind the scheduler hook's handlers (useTaskScheduler.js):
    the task-name check, the dependency-cycle check, the list edits of delete
    and save, the next new id, and the recalculation on the hook's values. */
module HookEdits {
  import opened Lists
  import opened Wrappers
  import opened DateUtils
  import opened HookDays
  import opened HookSchedule

  const TaskNameMessage: string := "Please enter a task name"
  const CycleMessage: string := "Circular dependency detected. Please review dependencies."

  // ---------------------------------------------------------------
  // The name check (line 258)

  /** The characters `String.prototype.trim` removes: the ECMAScript
      WhiteSpace and LineTerminator code points. */
  predicate IsJsSpace(c: char)
  {
    c == '\t' || c == '\n' || c == '\U{B}' || c == '\U{C}' || c == '\r' || c == ' ' ||
    c == '\U{A0}' || c == '\U{1680}' || ('\U{2000}' <= c <= '\U{200A}') ||
    c == '\U{2028}' || c == '\U{2029}' || c == '\U{202F}' || c == '\U{205F}' ||
    c == '\U{3000}' || c == '\U{FEFF}'
  }

  /** `s` with its leading white space removed. */
  function TrimStart(s: string): (r: string)
    ensures exists i :: 0 <= i <= |s| && r == s[i..] && forall k :: 0 <= k < i ==> IsJsSpace(s[k])
    ensures r == [] || !IsJsSpace(r[0])
  {
    if s != [] && IsJsSpace(s[0]) then
      var r := TrimStart(s[1..]);
      var i :| 0 <= i <= |s[1..]| && r == s[1..][i..] && forall k :: 0 <= k < i ==> IsJsSpace(s[1..][k]);
      assert r == s[i + 1..];
      r
    else
      assert s == s[0..];
      s
  }

  /** `s` with its trailing white space removed. */
  function TrimEnd(s: string): (r: string)
    ensures exists j :: 0 <= j <= |s| && r == s[..j] && forall k :: j <= k < |s| ==> IsJsSpace(s[k])
    ensures r == [] || !IsJsSpace(r[|r| - 1])
  {
    if s != [] && IsJsSpace(s[|s| - 1]) then
      var r := TrimEnd(s[..|s| - 1]);
      var j :| 0 <= j <= |s| - 1 && r == s[..|s| - 1][..j] && forall k :: j <= k < |s| - 1 ==> IsJsSpace(s[k]);
      assert r == s[..j];
      r
    else
      assert s == s[..|s|];
      s
  }

  /** `s.trim()`. */
  function Trim(s: string): string
  {
    TrimEnd(TrimStart(s))
  }

  /** `!newTask.name.trim()`: the name holds nothing but white space. */
  predicate IsBlank(name: string)
  {
    Trim(name) == ""
  }

  /** A name is blank exactly when every character of it is white space. */
  lemma BlankIffAllSpace(name: string)
    ensures IsBlank(name) <==> forall k :: 0 <= k < |name| ==> IsJsSpace(name[k])
  {
    var t := TrimStart(name);
    var i :| 0 <= i <= |name| && t == name[i..] && forall k :: 0 <= k < i ==> IsJsSpace(name[k]);
    if t == [] {
      assert i == |name|;
      assert Trim(name) == TrimEnd([]) == [];
    } else {
      assert name[i] == t[0] && !IsJsSpace(t[0]);
      var j :| 0 <= j <= |t| && TrimEnd(t) == t[..j] && forall k :: j <= k < |t| ==> IsJsSpace(t[k]);
      assert j > 0;
      assert Trim(name) == t[..j] != [];
    }
  }

  /** Trimming keeps the inner text: what is left starts and ends with a
      non-space character, and trimming it again changes nothing. */
  lemma TrimIdempotent(s: string)
    ensures Trim(Trim(s)) == Trim(s)
    ensures Trim(s) == [] || (!IsJsSpace(Trim(s)[0]) && !IsJsSpace(Trim(s)[|Trim(s)| - 1]))
  {
    var t := TrimStart(s);
    var r := TrimEnd(t);
    var j :| 0 <= j <= |t| && r == t[..j] && forall k :: j <= k < |t| ==> IsJsSpace(t[k]);
    if r != [] {
      assert r[0] == t[0];
    }
  }

  // ---------------------------------------------------------------
  // Lookups and list rules behind the handlers

  /** The first task with id `id`, as an array `find` on the id returns it. */
  function FindById(allTasks: seq<HookTask>, id: int): (r: Option<HookTask>)
    ensures r.None? <==> forall t :: t in allTasks ==> t.id != id
    ensures r.Some? ==> exists i :: 0 <= i < |allTasks| && allTasks[i] == r.value && r.value.id == id &&
                                    forall k :: 0 <= k < i ==> allTasks[k].id != id
  {
    if allTasks == [] then None
    else if allTasks[0].id == id then Some(allTasks[0])
    else
      var r := FindById(allTasks[1..], id);
      assert forall t :: t in allTasks <==> t == allTasks[0] || t in allTasks[1..];
      assert r.Some? ==> exists i :: 0 <= i < |allTasks| && allTasks[i] == r.value && r.value.id == id &&
                                     forall k :: 0 <= k < i ==> allTasks[k].id != id by {
        if r.Some? {
          var i :| 0 <= i < |allTasks[1..]| && allTasks[1..][i] == r.value && r.value.id == id &&
                   forall k :: 0 <= k < i ==> allTasks[1..][k].id != id;
          assert allTasks[i + 1] == r.value;
        }
      }
      r
  }

  /** Line 304: one more than the largest of 0 and the ids, so 1 for an empty list. */
  function NextNewId(tasks: seq<HookTask>): (n: int)
    ensures n >= 1
    ensures forall t :: t in tasks ==> t.id < n
    ensures n == 1 || exists t :: t in tasks && t.id == n - 1
  {
    if tasks == [] then 1
    else
      var rest := NextNewId(tasks[1..]);
      assert forall t :: t in tasks <==> t == tasks[0] || t in tasks[1..];
      if tasks[0].id + 1 > rest then tasks[0].id + 1 else rest
  }

  /** The ids of the hook's tasks in list order; `WorkflowStore.IdList` is
      the same for the store's task record. */
  function IdsOf(tasks: seq<HookTask>): (r: seq<int>)
    ensures |r| == |tasks| && forall i :: 0 <= i < |tasks| ==> r[i] == tasks[i].id
  {
    if tasks == [] then [] else [tasks[0].id] + IdsOf(tasks[1..])
  }

  /** Lines 241-247: drop the tasks with id `taskId` and strip `taskId` from
      the dependency lists of the others, keeping their order. */
  function WithoutTask(tasks: seq<HookTask>, taskId: int): (r: seq<HookTask>)
    ensures forall t :: t in r ==> t.id != taskId && taskId !in t.dependencies
    ensures forall t :: t in r <==> exists u :: u in tasks && u.id != taskId &&
                                                 t == u.(dependencies := RemoveAll(u.dependencies, taskId))
    ensures IdsOf(r) == RemoveAll(IdsOf(tasks), taskId)
  {
    if tasks == [] then []
    else
      var t, rest := tasks[0], WithoutTask(tasks[1..], taskId);
      assert forall u :: u in tasks <==> u == t || u in tasks[1..];
      assert IdsOf(tasks) == [t.id] + IdsOf(tasks[1..]);
      assert ([t.id] + IdsOf(tasks[1..]))[1..] == IdsOf(tasks[1..]);
      if t.id != taskId then
        var kept := t.(dependencies := RemoveAll(t.dependencies, taskId));
        assert IdsOf([kept] + rest) == [t.id] + IdsOf(rest);
        [kept] + rest
      else rest
  }

  /** Deleting the same id a second time changes nothing. */
  lemma {:induction false} WithoutIdempotent(tasks: seq<HookTask>, taskId: int)
    ensures WithoutTask(WithoutTask(tasks, taskId), taskId) == WithoutTask(tasks, taskId)
  {
    if tasks != [] {
      WithoutIdempotent(tasks[1..], taskId);
      var t := tasks[0];
      if t.id != taskId {
        var kept := t.(dependencies := RemoveAll(t.dependencies, taskId));
        var rest := WithoutTask(tasks[1..], taskId);
        assert ([kept] + rest)[0] == kept && ([kept] + rest)[1..] == rest;
        RemoveAllAbsent(kept.dependencies, taskId);
      }
    }
  }

  /** Deleting removes exactly the tasks that carry the id. */
  lemma WithoutLength(tasks: seq<HookTask>, taskId: int)
    ensures |WithoutTask(tasks, taskId)| == |tasks| - Count(IdsOf(tasks), taskId)
  {
    var r := WithoutTask(tasks, taskId);
    assert |IdsOf(r)| == |r|;
  }

  /** Lines 283-285: the edited task's id replaced by the form's task. */
  function ReplaceEdited(tasks: seq<HookTask>, editedId: int, newTask: HookTask): (r: seq<HookTask>)
    ensures |r| == |tasks|
    ensures forall i :: 0 <= i < |tasks| && tasks[i].id == editedId ==> r[i] == newTask
    ensures forall i :: 0 <= i < |tasks| && tasks[i].id != editedId ==> r[i] == tasks[i]
  {
    if tasks == [] then []
    else [if tasks[0].id == editedId then newTask else tasks[0]] + ReplaceEdited(tasks[1..], editedId, newTask)
  }

  /** Saving an edit that keeps the id keeps every position's id. */
  lemma ReplaceKeepsIds(tasks: seq<HookTask>, newTask: HookTask)
    ensures IdsOf(ReplaceEdited(tasks, newTask.id, newTask)) == IdsOf(tasks)
  {
    var r := ReplaceEdited(tasks, newTask.id, newTask);
    assert forall i :: 0 <= i < |r| ==> r[i].id == tasks[i].id;
  }

  // ---------------------------------------------------------------
  // The dependency-cycle check (lines 265-274)

  /** Following dependency `b` of the task that `find` returns for `a`. */
  ghost predicate Link(allTasks: seq<HookTask>, a: int, b: int)
  {
    var found := FindById(allTasks, a);
    found.Some? && b in found.value.dependencies
  }

  /** A chain of ids, each a dependency of the task found for the one before,
      that ends at `taskId`. */
  ghost predicate Chain(allTasks: seq<HookTask>, taskId: int, p: seq<int>)
  {
    |p| > 0 && p[|p| - 1] == taskId &&
    forall k :: 0 <= k < |p| - 1 ==> Link(allTasks, p[k], p[k + 1])
  }

  /** Some chain from `d` leads back to `taskId`. */
  ghost predicate LeadsTo(allTasks: seq<HookTask>, taskId: int, d: int)
  {
    exists p :: Chain(allTasks, taskId, p) && p[0] == d
  }

  /** Some dependency in `dependencies` leads back to `taskId`: giving the
      task `taskId` these dependencies closes a circle. */
  ghost predicate ReachesBack(taskId: int, dependencies: seq<int>, allTasks: seq<HookTask>)
  {
    exists i :: 0 <= i < |dependencies| && LeadsTo(allTasks, taskId, dependencies[i])
  }

  /** A walk that starts at one of `dependencies` and follows links
      without ever standing on `taskId`. */
  ghost predicate Walk(allTasks: seq<HookTask>, taskId: int, dependencies: seq<int>, p: seq<int>)
  {
    |p| > 0 && p[0] in dependencies &&
    (forall k :: 0 <= k < |p| ==> p[k] != taskId) &&
    forall k :: 0 <= k < |p| - 1 ==> Link(allTasks, p[k], p[k + 1])
  }

  /** The check can come to `x` from `dependencies` before it meets `taskId`. */
  ghost predicate Reachable(allTasks: seq<HookTask>, taskId: int, dependencies: seq<int>, x: int)
  {
    exists p :: Walk(allTasks, taskId, dependencies, p) && p[|p| - 1] == x
  }

  /** The part of the dependency graph that the check can explore from
      `dependencies` without meeting `taskId` is ranked: along every link
      out of it to an id other than `taskId` the rank goes down.  On such a
      graph the recursion of the check comes to an end. */
  ghost predicate RankedFrom(allTasks: seq<HookTask>, taskId: int, dependencies: seq<int>, rank: int -> nat)
  {
    forall x, d :: Reachable(allTasks, taskId, dependencies, x) && Link(allTasks, x, d) && d != taskId ==>
      rank(d) < rank(x)
  }

  /** One more than the largest rank among `ids`. */
  ghost function RankBound(ids: seq<int>, rank: int -> nat): (b: nat)
    ensures forall d :: d in ids ==> rank(d) < b
  {
    if ids == [] then 0
    else
      var rest := RankBound(ids[1..], rank);
      assert forall d :: d in ids <==> d == ids[0] || d in ids[1..];
      if rank(ids[0]) + 1 > rest then rank(ids[0]) + 1 else rest
  }

  /** Lines 265-274: for each dependency in turn, report a circle when it is
      `taskId` itself, or when the task found for it has a dependency list
      that leads back to `taskId`.  `rank` and `bound` are the measure that
      makes the recursion end. */
  function CheckDependencyCycle(taskId: int, dependencies: seq<int>, allTasks: seq<HookTask>,
                                ghost rank: int -> nat, ghost bound: nat): (r: bool)
    requires RankedFrom(allTasks, taskId, dependencies, rank)
    requires forall d :: d in dependencies && d != taskId ==> rank(d) < bound
    ensures r <==> ReachesBack(taskId, dependencies, allTasks)
    decreases bound, |dependencies|
  {
    if dependencies == [] then false
    else
      var depId := dependencies[0];
      ReachesBackCons(taskId, dependencies, allTasks);
      if depId == taskId then
        assert Chain(allTasks, taskId, [depId]);
        true
      else
        var depTask := FindById(allTasks, depId);
        RankedStep(allTasks, taskId, dependencies, rank, depId);
        RankedTail(allTasks, taskId, dependencies, rank);
        LeadsToStep(allTasks, taskId, depId);
        if depTask.Some? && CheckDependencyCycle(taskId, depTask.value.dependencies, allTasks, rank, rank(depId)) then
          true
        else
          CheckDependencyCycle(taskId, dependencies[1..], allTasks, rank, bound)
  }

  /** A list leads back when its first entry does or the rest does. */
  lemma ReachesBackCons(taskId: int, dependencies: seq<int>, allTasks: seq<HookTask>)
    requires dependencies != []
    ensures ReachesBack(taskId, dependencies, allTasks) <==>
              LeadsTo(allTasks, taskId, dependencies[0]) || ReachesBack(taskId, dependencies[1..], allTasks)
  {
    if ReachesBack(taskId, dependencies, allTasks) {
      var i :| 0 <= i < |dependencies| && LeadsTo(allTasks, taskId, dependencies[i]);
      if i > 0 {
        assert dependencies[1..][i - 1] == dependencies[i];
      }
    }
    if ReachesBack(taskId, dependencies[1..], allTasks) {
      var i :| 0 <= i < |dependencies[1..]| && LeadsTo(allTasks, taskId, dependencies[1..][i]);
      assert dependencies[i + 1] == dependencies[1..][i];
    }
  }

  /** A dependency other than `taskId` leads back exactly when the task
      found for it has a dependency list that does. */
  lemma LeadsToStep(allTasks: seq<HookTask>, taskId: int, d: int)
    requires d != taskId
    ensures LeadsTo(allTasks, taskId, d) <==>
              FindById(allTasks, d).Some? && ReachesBack(taskId, FindById(allTasks, d).value.dependencies, allTasks)
  {
    ChainTail(allTasks, taskId, d);
    var found := FindById(allTasks, d);
    if found.Some? && ReachesBack(taskId, found.value.dependencies, allTasks) {
      var i :| 0 <= i < |found.value.dependencies| && LeadsTo(allTasks, taskId, found.value.dependencies[i]);
      ChainCons(allTasks, taskId, d, found.value.dependencies[i]);
    }
  }

  /** Stepping from a dependency other than `taskId` into the task found
      for it keeps the ranking, and that task's dependencies rank below it. */
  lemma RankedStep(allTasks: seq<HookTask>, taskId: int, dependencies: seq<int>, rank: int -> nat, depId: int)
    requires RankedFrom(allTasks, taskId, dependencies, rank)
    requires depId in dependencies && depId != taskId
    ensures FindById(allTasks, depId).Some? ==>
              RankedFrom(allTasks, taskId, FindById(allTasks, depId).value.dependencies, rank) &&
              forall d :: d in FindById(allTasks, depId).value.dependencies && d != taskId ==> rank(d) < rank(depId)
  {
    var found := FindById(allTasks, depId);
    if found.Some? {
      var next := found.value.dependencies;
      assert Walk(allTasks, taskId, dependencies, [depId]);
      assert Reachable(allTasks, taskId, dependencies, depId);
      forall x, d | Reachable(allTasks, taskId, next, x) && Link(allTasks, x, d) && d != taskId
        ensures rank(d) < rank(x)
      {
        var p :| Walk(allTasks, taskId, next, p) && p[|p| - 1] == x;
        var q := [depId] + p;
        assert forall k :: 1 <= k < |q| ==> q[k] == p[k - 1];
        assert Link(allTasks, q[0], q[1]);
        assert Walk(allTasks, taskId, dependencies, q) && q[|q| - 1] == x;
      }
    }
  }

  /** Dropping the first dependency keeps the ranking. */
  lemma RankedTail(allTasks: seq<HookTask>, taskId: int, dependencies: seq<int>, rank: int -> nat)
    requires RankedFrom(allTasks, taskId, dependencies, rank) && dependencies != []
    ensures RankedFrom(allTasks, taskId, dependencies[1..], rank)
  {
    forall x, d | Reachable(allTasks, taskId, dependencies[1..], x) && Link(allTasks, x, d) && d != taskId
      ensures rank(d) < rank(x)
    {
      var p :| Walk(allTasks, taskId, dependencies[1..], p) && p[|p| - 1] == x;
      assert Walk(allTasks, taskId, dependencies, p);
    }
  }

  /** A chain from `next` extends to one from `d` when `next` is a
      dependency of the task found for `d`. */
  lemma ChainCons(allTasks: seq<HookTask>, taskId: int, d: int, next: int)
    requires LeadsTo(allTasks, taskId, next) && Link(allTasks, d, next)
    ensures LeadsTo(allTasks, taskId, d)
  {
    var p :| Chain(allTasks, taskId, p) && p[0] == next;
    var q := [d] + p;
    assert forall k :: 1 <= k < |q| - 1 ==> q[k] == p[k - 1] && q[k + 1] == p[k];
    assert Chain(allTasks, taskId, q);
  }

  /** A chain from a dependency other than `taskId` goes through the task
      found for it, and on from one of that task's dependencies. */
  lemma ChainTail(allTasks: seq<HookTask>, taskId: int, d: int)
    requires d != taskId
    ensures LeadsTo(allTasks, taskId, d) ==>
              FindById(allTasks, d).Some? && ReachesBack(taskId, FindById(allTasks, d).value.dependencies, allTasks)
  {
    if p :| Chain(allTasks, taskId, p) && p[0] == d {
      assert |p| > 1 && Link(allTasks, p[0], p[1]);
      var deps := FindById(allTasks, d).value.dependencies;
      var i :| 0 <= i < |deps| && deps[i] == p[1];
      var q := p[1..];
      assert forall k :: 0 <= k < |q| ==> q[k] == p[k + 1];
      assert Chain(allTasks, taskId, q);
    }
  }

  /** A task that names itself among its dependencies is caught at once. */
  lemma SelfDependencyCaught(taskId: int, dependencies: seq<int>, allTasks: seq<HookTask>)
    requires taskId in dependencies
    ensures ReachesBack(taskId, dependencies, allTasks)
  {
    var i :| 0 <= i < |dependencies| && dependencies[i] == taskId;
    assert Chain(allTasks, taskId, [taskId]);
  }

  /** A task whose id is `NextNewId` of the list keeps the ids distinct
      when it is appended. */
  lemma AppendFreshDistinct(tasks: seq<HookTask>, newTask: HookTask)
    requires DistinctIds(tasks) && newTask.id == NextNewId(tasks)
    ensures DistinctIds(tasks + [newTask])
  {
    var r := tasks + [newTask];
    forall i, j | 0 <= i < j < |r| ensures r[i].id != r[j].id {
      if j == |tasks| {
        assert r[i] == tasks[i] && tasks[i] in tasks;
      } else {
        assert r[i] == tasks[i] && r[j] == tasks[j];
      }
    }
  }

  // ---------------------------------------------------------------
  // The recalculation (lines 88-227)

  /** The hook's task list and start date text after `calculateTaskDates`
      with deadline text `deadline`, given the list and start date before it,
      and whether the call threw: with no preset of the selected name nothing
      changes.  A deadline text that names no day makes `new Date` an invalid
      date, and `formatDate` of it throws a `RangeError` at the first final
      task, before anything is set.  Otherwise the list holds the calculation
      over the preset's own tasks (whatever the list held before), and the
      start date is the earliest start among them when there are any.  Without
      final tasks the deadline is never read, and any day stands for it. */
  ghost predicate AfterCalculation(presets: map<string, seq<HookTask>>, selectedPreset: string,
                                   selectedCountries: seq<string>, countryHolidays: map<string, seq<string>>,
                                   deadline: string, tasks0: seq<HookTask>, start0: string,
                                   tasks: seq<HookTask>, start: string, threw: bool,
                                   taskMap: map<int, HookTask>, order: map<int, nat>)
  {
    match PresetTasks(presets, selectedPreset) {
      case None => !threw && tasks == tasks0 && start == start0
      case Some(presetTasks) =>
        if DateOfText(deadline).None? && FinalTasks(presetTasks) != [] then
          threw && tasks == tasks0 && start == start0
        else
          !threw &&
          HookOutcome(presetTasks, OffDays(selectedCountries, countryHolidays), DateOfText(deadline).GetOr(0),
                      taskMap, order, tasks) &&
          (tasks == [] ==> start == start0) &&
          (tasks != [] ==> start == FormatDate(ProjectStart(tasks)))
    }
  }

  /** Line 91: `WORKFLOW_PRESETS[selectedPreset]`, absent for an unknown name. */
  function PresetTasks(presets: map<string, seq<HookTask>>, selectedPreset: string): (r: Option<seq<HookTask>>)
    ensures r.None? <==> selectedPreset !in presets
    ensures r.Some? ==> r.value == presets[selectedPreset]
  {
    if selectedPreset in presets then Some(presets[selectedPreset]) else None
  }

  /** The calculation on the hook's values: the new task list and start date
      text, or the throw, with the task map and processing order behind them. */
  method Calculate(presets: map<string, seq<HookTask>>, selectedPreset: string,
                   selectedCountries: seq<string>, countryHolidays: map<string, seq<string>>,
                   deadline: string, tasks0: seq<HookTask>, start0: string)
    returns (tasks: seq<HookTask>, start: string, threw: bool,
             ghost taskMap: map<int, HookTask>, ghost order: map<int, nat>)
    ensures AfterCalculation(presets, selectedPreset, selectedCountries, countryHolidays, deadline,
                             tasks0, start0, tasks, start, threw, taskMap, order)
  {
    tasks, start, threw, taskMap, order := tasks0, start0, false, map[], map[];
    var selectedWorkflow := PresetTasks(presets, selectedPreset);
    if selectedWorkflow.None? {
      return;
    }
    var deadlineObj := DateOfText(deadline);
    if deadlineObj.None? && FinalTasks(selectedWorkflow.value) != [] {
      threw := true;
      return;
    }
    tasks, taskMap, order := HookCalculate(selectedCountries, countryHolidays, selectedWorkflow.value, deadlineObj.GetOr(0));
    if |tasks| > 0 {
      start := FormatDate(ProjectStart(tasks));
    }
  }

  /** Lines 282-290: the list a successful save leaves, before the
      recalculation: the edited task replaced, or the new one appended. */
  function SavedList(tasks: seq<HookTask>, editingTask: Option<HookTask>, newTask: HookTask): seq<HookTask>
  {
    if editingTask.Some? then ReplaceEdited(tasks, editingTask.value.id, newTask) else tasks + [newTask]
  }

  /** What saving the modal's task comes to: refused with an alert, or
      the task list after the save. */
  datatype SaveResult = Refused(alert: string) | Saved(list: seq<HookTask>)

  /** Lines 258-290: a blank name is refused first; then, when editing, a
      dependency list that leads back to the task is refused; otherwise the
      edited task is replaced, or a new one appended. */
  ghost predicate SaveRule(tasks: seq<HookTask>, editingTask: Option<HookTask>, newTask: HookTask, r: SaveResult)
  {
    match r {
      case Refused(alert) =>
        (IsBlank(newTask.name) && alert == TaskNameMessage) ||
        (!IsBlank(newTask.name) && editingTask.Some? && ReachesBack(newTask.id, newTask.dependencies, tasks) &&
         alert == CycleMessage)
      case Saved(list) =>
        !IsBlank(newTask.name) && (editingTask.Some? ==> !ReachesBack(newTask.id, newTask.dependencies, tasks)) &&
        list == SavedList(tasks, editingTask, newTask)
    }
  }

  /** Exactly one outcome follows the rule, whatever the inputs. */
  lemma SaveRuleUnique(tasks: seq<HookTask>, editingTask: Option<HookTask>, newTask: HookTask, r1: SaveResult, r2: SaveResult)
    requires SaveRule(tasks, editingTask, newTask, r1) && SaveRule(tasks, editingTask, newTask, r2)
    ensures r1 == r2
  {
  }

  /** Lines 256-290, the decision of `handleSaveTask`. */
  function SaveTask(tasks: seq<HookTask>, editingTask: Option<HookTask>, newTask: HookTask, ghost rank: int -> nat)
    : (r: SaveResult)
    requires editingTask.Some? ==> RankedFrom(tasks, newTask.id, newTask.dependencies, rank)
    ensures SaveRule(tasks, editingTask, newTask, r)
  {
    if IsBlank(newTask.name) then Refused(TaskNameMessage)
    else if editingTask.Some? then
      if CheckDependencyCycle(newTask.id, newTask.dependencies, tasks, rank, RankBound(newTask.dependencies, rank)) then
        Refused(CycleMessage)
      else
        Saved(ReplaceEdited(tasks, editingTask.value.id, newTask))
    else
      Saved(tasks + [newTask])
  }

  /** Lines 21-27: the modal's empty form. */
  function BlankTask(id: int): HookTask
  {
    HookTask(id, "", 1, [], "", None, None, false)
  }
}
