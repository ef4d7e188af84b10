# Deadline-driven task scheduler of the workflow planner

This project models, in Dafny, the scheduling core of a React workflow
planner in which a user picks a preset workflow, a deadline and holiday
countries. The planner dates every task backwards from the deadline. The
repository holds two independent schedulers, modelled side by side and not
merged:

- **The store scheduler.** `calculateTaskDates` in the zustand store
  (`frontend/src/store/workflowStore.js`):
  - builds a successor graph and an in-degree table;
  - orders the task keys with Kahn's algorithm;
  - walks that order backwards, dating each task from its dependents or from
    the deadline, with weekend-only working-day walks;
  - rebuilds the task list with the dates, the project start and the next id.

  The store's task-list actions `addTask`, `updateTask` and `deleteTask`, and
  the next-id rule used when a project is loaded, are modelled as well.
- **The hook scheduler.** `calculateTaskDates` in `useTaskScheduler`
  (`frontend/src/hooks/useTaskScheduler.js`):
  - marks the final tasks, which no task depends on, and ends them on the
    deadline;
  - repeats rounds over the tasks until a round dates nothing, or until 100
    rounds have run;
  - uses a per-country holiday table.

  The hook's handlers are modelled too: the name check and the recursive
  cycle check of `handleSaveTask`, `handleDeleteTask`, the modal openers and
  the effect that recalculates after a change.
- **The date helpers** `addDays`, `formatDate` and `isWeekend`
  (`frontend/src/utils/dateUtils.js`).
- **The small list rules inside UI components:**
  - the dependency and country checkboxes;
  - the dependency-name column of the task table;
  - the login and registration input check.

**Modelling choices.**

- **Dates.** A date is a day number counted from 1970-01-01 in the proleptic
  Gregorian calendar, read in UTC. `formatDate` is the civil-date conversion
  followed by `YYYY-MM-DD` printing. It is proved injective through its parse
  round trip, so a formatted date and a day number carry the same
  information. A deadline text is read back as the day that formats to it
  (`DateUtils.DateOfText`); any other text is an invalid date.
- **The working-day walks.** Their specification (`WorkingDays.BackwardBy`
  and `WorkingDays.ForwardBy`) counts the working days in a range. Both
  schedulers use it, each with its own loop.
- **Imperative code stays imperative.**
  - The graph building, Kahn's queue, the dating passes, the rounds and the
    day walks are methods with loop invariants.
  - The zustand store, the hook's state and the login form are classes
    whose methods update their fields.
  - `map`/`filter`/`find`/`join` code is written as functions.

**Behaviour of the code worth knowing:**

- The code runs two schedulers with different arithmetic.
  - The store ends a task on the working day before its earliest dependent
    starts. It starts the task `duration - 1` working days before its end.
  - The hook ends a task one calendar day before its earliest dependent
    starts. It starts the task `duration` working days strictly before its
    end.
- Neither scheduler reports a cycle. The tasks on a cycle are left undated:
  `''` in the store and `null` in the hook.
  - The store reorders nothing for them.
  - The hook stops silently after 100 rounds rather than raising an error.
- The store's holiday test looks at an always-empty list, so it tests for
  weekends only.
- A dependency on an unknown id is not validated:
  - in the store it makes `graph[depId].push` throw, and the thrown message
    becomes the store's error;
  - in the hook it is ignored.
- The in-degree is counted per dependency entry and not cross-checked.
- The store's `addTask`, `updateTask` and `deleteTask` neither validate nor
  reschedule.
- The hook's cycle check runs only when an existing task is edited.
- A deadline on a weekend is used literally as the end of the final tasks.
- A deadline text that names no day, such as the empty text, gives an
  invalid date, and `formatDate` of it throws a `RangeError`:
  - in the store as soon as there is a task to date, and the message becomes
    the store's error;
  - in the hook as soon as the preset has a final task. The hook's effect
    skips an empty deadline, but `handleDeleteTask` and `handleSaveTask` do
    not. The throw comes after they set the new task list, so that list
    stays.
- The hook's recalculation always starts again from the preset's task list
  and never reads the current tasks. So after `handleDeleteTask` or
  `handleSaveTask` the deleted task comes back, and the added or edited task
  is lost, whenever the preset is known and the deadline names a day. The
  edited list stays only when the preset is unknown or the recalculation
  throws.

## Model

| member | source | states |
|---|---|---|
| `DateUtils.AddDaysZero` | frontend/src/utils/dateUtils.js:7-11 | adding zero days gives the same date |
| `DateUtils.AddDaysCompose` | frontend/src/utils/dateUtils.js:7-11 | adding `a` and then `b` days equals adding `a + b` days |
| `DateUtils.Weekday` | frontend/src/utils/dateUtils.js:27-28 | the weekday of a day number lies in 0..6 (Sunday is 0) |
| `DateUtils.WeekdayNext` | frontend/src/utils/dateUtils.js:27-28 | the next day's weekday is the following one, modulo 7 |
| `DateUtils.WeekdayShift` | frontend/src/utils/dateUtils.js:27-28 | `k` days later the weekday has advanced by `k` modulo 7, for any integer `k` |
| `DateUtils.WeekendPeriodic` | frontend/src/utils/dateUtils.js:27-30 | the weekday and being a weekend repeat with period 7 |
| `DateUtils.CivilFromDay` | frontend/src/utils/dateUtils.js:18-20 | every day number maps to a valid year/month/day that maps back to it |
| `DateUtils.CivilRoundTrip` | frontend/src/utils/dateUtils.js:18-20 | every valid calendar date is the civil date of its own day number |
| `DateUtils.EpochIs1970` | frontend/src/utils/dateUtils.js:18-20 | day 0 of the model is 1970-01-01, as in `Date` |
| `DateUtils.FormatDate` | frontend/src/utils/dateUtils.js:18-20 | for years 0..9999 the text is 10 characters, `-` at positions 4 and 7 and digits elsewhere |
| `DateUtils.FormatDateRoundTrip` | frontend/src/utils/dateUtils.js:18-20 | parsing a formatted date gives back its year, month and day |
| `DateUtils.FormatDateInjective` | frontend/src/utils/dateUtils.js:18-20 | distinct days give distinct texts |
| `DateUtils.DateOfText` | frontend/src/hooks/useTaskScheduler.js:95 | `new Date(text)`: a day only when it formats back to the text, and an invalid date exactly when no day formats to it |
| `DateUtils.DateOfFormatted` | frontend/src/utils/dateUtils.js:18-20 | reading a formatted day gives that day back |
| `WorkingDays.CountWorking` | frontend/src/store/workflowStore.js:265-277 | the number of working days of a range is at most its length |
| `WorkingDays.BackwardUnique` | frontend/src/store/workflowStore.js:265-277 | at most one day is `n` working days before a date, so the walk's result is determined |
| `WorkingDays.ForwardUnique` | frontend/src/store/workflowStore.js:250-262 | at most one day is `n` working days after a date |
| `WorkingDays.ForwardBackward` | frontend/src/store/workflowStore.js:250-277 | from a working day, stepping `n` working days forward and then `n` back returns to it |
| `WorkingDays.WeekendGap` | frontend/src/store/workflowStore.js:233-247 | every three consecutive days include a weekday |
| `WorkingDays.WeekHasFiveWorkingDays` | frontend/src/utils/dateUtils.js:27-30 | every 7 consecutive days hold exactly 5 weekdays |
| `WorkingDays.WeekendsAndFinitelyManyDaysOff` | frontend/src/hooks/useTaskScheduler.js:122-130 | when the days off are the weekends plus a finite set `E`, every window of `7 * (\|E\| + 1)` days holds a working day |
| `StoreSchedule.StoreIsHoliday` | frontend/src/store/workflowStore.js:233-247 | the store's holiday test holds exactly on weekends, whatever the countries |
| `StoreSchedule.CountryHolidays` | frontend/src/store/workflowStore.js:244 | the holiday list consulted for every country is empty |
| `StoreSchedule.AdjustWorkingDaysBackward` | frontend/src/store/workflowStore.js:265-277 | `n <= 0` gives the date itself; otherwise the result is a weekday before the date with exactly `n` weekdays from it up to the day before the date |
| `StoreSchedule.AdjustWorkingDays` | frontend/src/store/workflowStore.js:250-262 | the mirror image going forward: a weekday after the date with exactly `n` weekdays between the two |
| `StoreSchedule.BackwardShape` | frontend/src/store/workflowStore.js:265-277 | the backward walk returns the date for `n <= 0`, otherwise a weekday strictly before it and at most `3n` days back |
| `StoreSchedule.DependentsOf` | frontend/src/store/workflowStore.js:287-289 | exactly the tasks that list the key as a dependency |
| `StoreSchedule.EarliestStart` | frontend/src/store/workflowStore.js:293-300 | absent exactly when no dependent is dated; otherwise the least start among the dated dependents |
| `StoreSchedule.DateTask` | frontend/src/store/workflowStore.js:283-324 | with a dated dependent the end is the weekday before the earliest such start, otherwise the deadline; the start is `duration - 1` weekdays before the end |
| `StoreSchedule.DateTasks` | frontend/src/store/workflowStore.js:279-325 | one date entry per emitted key; with distinct keys and a Kahn order every entry obeys the rule of `DateTask` |
| `StoreSchedule.Precedence` | frontend/src/store/workflowStore.js:287-313 | when A depends on B and both are dated, B ends strictly before A starts |
| `StoreSchedule.StartNotAfterEnd` | frontend/src/store/workflowStore.js:302-324 | every dated task starts no later than it ends; with a duration above 1 it starts on a weekday |
| `StoreSchedule.CycleUndated` | frontend/src/store/workflowStore.js:203-226 | no task on a dependency cycle gets dates |
| `StoreSchedule.AcyclicAllDated` | frontend/src/store/workflowStore.js:203-226 | without cycles and unknown dependencies every task gets dates |
| `StoreSchedule.EarliestOf` | frontend/src/store/workflowStore.js:328-331 | absent only for no keys; otherwise the least start among them |
| `StoreSchedule.Stamp` | frontend/src/store/workflowStore.js:334-343 | a task keeps its fields, and takes its key as `id` and `taskId` and its dates when it has any; the end date is empty without dates |
| `StoreSchedule.StampAll` | frontend/src/store/workflowStore.js:334-343 | the rebuilt list has one stamped task per task, in order |
| `StoreSchedule.NextTaskId` | frontend/src/store/workflowStore.js:349 | at least 1, above every key, and one more than some key unless 1 |
| `StoreSchedule.StampKeepsKeys` | frontend/src/store/workflowStore.js:334-343 | rebuilding keeps the list of keys and their order |
| `StoreSchedule.ScheduledIdsFresh` | frontend/src/store/workflowStore.js:346-351 | after a calculation every task id is below the next id |
| `StoreSchedule.ComputeSchedule` | frontend/src/store/workflowStore.js:159-351 | no tasks, a dangling dependency, a deadline text naming no day while Kahn's order is not empty, and success are told apart exactly; success yields the Kahn order, dates under the rule from the deadline's day, stamped list, earliest start (today when nothing is dated) and next id |
| `StoreSchedule.FaultMessage` | frontend/src/store/workflowStore.js:352-358 | each runtime error carries a non-empty message, so the store reports it as it stands |
| `StoreGraph.FindByKey` | frontend/src/store/workflowStore.js:284 | absent exactly when no task has the key; otherwise the first task with it, the only one when keys are distinct |
| `StoreGraph.SuccessorsCount` | frontend/src/store/workflowStore.js:190-199 | with distinct keys, `k` appears in the successor list of `c` once per entry of `c` in the dependencies of `k` |
| `StoreGraph.InDegreeDistinct` | frontend/src/store/workflowStore.js:190-199 | with distinct keys a task's in-degree is the length of its dependency list |
| `StoreGraph.EmptyTables` | frontend/src/store/workflowStore.js:184-187 | every key has an empty successor list and in-degree 0 |
| `StoreGraph.AddDependencyEdges` | frontend/src/store/workflowStore.js:191-199 | fails exactly when the task lists an unknown key; otherwise the tables now count the task's edges |
| `StoreGraph.BuildGraph` | frontend/src/store/workflowStore.js:180-200 | fails exactly when some dependency is not a task; otherwise the successor lists and in-degrees of all the tasks |
| `StoreGraph.InitialQueue` | frontend/src/store/workflowStore.js:206-212 | the keys with in-degree 0, each once when keys are distinct |
| `StoreGraph.ReleaseSuccessors` | frontend/src/store/workflowStore.js:219-225 | in-degrees stay keyed by the tasks and the queue only grows, by no more keys than leave the positive in-degrees; with distinct keys no key is queued twice and a key is queued exactly when its count reaches 0 |
| `StoreGraph.TopologicalSort` | frontend/src/store/workflowStore.js:202-226 | emits only keys; with distinct keys each at most once, each after all its dependencies, and every key left out waits on a left-out dependency |
| `StoreGraph.KahnStartsEmpty` | frontend/src/store/workflowStore.js:202-212 | a Kahn order is empty exactly when every task has a dependency |
| `StoreGraph.KahnOrderUnique` | frontend/src/store/workflowStore.js:202-226 | any two orders with the Kahn properties emit the same keys |
| `StoreGraph.CycleNotEmitted` | frontend/src/store/workflowStore.js:203-226 | no key on a dependency cycle is emitted |
| `StoreGraph.AcyclicAllEmitted` | frontend/src/store/workflowStore.js:202-226 | with a ranked (acyclic) graph and no unknown dependency, every key is emitted |
| `WorkflowStore.ErrorText` | frontend/src/store/workflowStore.js:352-358 | the exception's message, or the fixed fallback text when it is empty |
| `WorkflowStore.ReplaceById` | frontend/src/store/workflowStore.js:371-378 | same length; the tasks with the id become the update, the others stay |
| `WorkflowStore.ReplaceKeepsIds` | frontend/src/store/workflowStore.js:371-378 | an update keeps the ids in order and is idempotent |
| `WorkflowStore.ReplaceAbsent` | frontend/src/store/workflowStore.js:371-378 | updating an id no task has changes nothing |
| `WorkflowStore.TasksAfterDelete` | frontend/src/store/workflowStore.js:380-393 | no remaining task has the id or depends on it; the rest are the other tasks with the id stripped from their dependencies; their ids keep their order |
| `WorkflowStore.DeleteIdempotent` | frontend/src/store/workflowStore.js:380-393 | deleting twice is deleting once |
| `WorkflowStore.DeleteKeepsLength` | frontend/src/store/workflowStore.js:380-393 | exactly the tasks carrying the id are removed |
| `WorkflowStore.LoadedNextTaskId` | frontend/src/store/workflowStore.js:84-86 | 1 for no tasks, else one more than the largest `taskId` |
| `WorkflowStore.PresetTasksFor` | frontend/src/store/workflowStore.js:164-172 | a `custom-` preset schedules the current tasks, any other the fetched preset |
| `WorkflowStore.Calculate` | frontend/src/store/workflowStore.js:159-358 | no preset tasks, a dangling dependency and an unreadable deadline with tasks to date set their error and leave tasks, next id and start; with distinct keys the deadline error comes exactly when some task has no dependency; otherwise the tasks, next id and start text of the schedule, all ids below the next id |
| `WorkflowStore.Store.constructor` | frontend/src/store/workflowStore.js:19-37 | preset `webdev`, start today, no tasks, countries `japan`, next id 1, not loading, no error |
| `WorkflowStore.Store.CalculateTaskDates` | frontend/src/store/workflowStore.js:156-359 | the store afterwards is what `Calculate` makes of the chosen preset tasks, not loading; preset and countries unchanged |
| `WorkflowStore.Store.AddTask` | frontend/src/store/workflowStore.js:362-369 | the task is appended with `id` and `taskId` set to the next id, which then grows by exactly 1; ids stay fresh |
| `WorkflowStore.Store.UpdateTask` | frontend/src/store/workflowStore.js:371-378 | the task list becomes `ReplaceById` of the old one and nothing else changes |
| `WorkflowStore.Store.DeleteTask` | frontend/src/store/workflowStore.js:380-393 | the task list becomes `TasksAfterDelete` of the old one and nothing else changes |
| `HookDays.IsHoliday` | frontend/src/hooks/useTaskScheduler.js:34-39 | holds exactly when some selected country with an entry in the table lists the formatted date; unknown codes add nothing |
| `HookDays.HolidayListed` | frontend/src/hooks/useTaskScheduler.js:34-39 | every holiday is one of the finitely many days the lists name |
| `HookDays.HookGap` | frontend/src/hooks/useTaskScheduler.js:122-130 | whatever the holiday lists, working days occur at bounded gaps, so the hook's day walks end |
| `HookDays.CountBack` | frontend/src/hooks/useTaskScheduler.js:122-130 | `duration <= 0` gives the end itself; otherwise a day that is neither weekend nor holiday, strictly before the end, with exactly `duration` such days up to the day before the end |
| `HookSchedule.InitialMap` | frontend/src/hooks/useTaskScheduler.js:100-108 | one entry per task id, undated and unprocessed, holding the last task listed under that id |
| `HookSchedule.BuildTaskMap` | frontend/src/hooks/useTaskScheduler.js:100-108 | the loop builds exactly that map |
| `HookSchedule.FinalTasks` | frontend/src/hooks/useTaskScheduler.js:111-113 | exactly the tasks whose id no task lists as a dependency, in list order |
| `HookSchedule.DependentIds` | frontend/src/hooks/useTaskScheduler.js:146-148 | holds the id of every task that depends on `k`; empty exactly when `k` is final |
| `HookSchedule.AllProcessed` | frontend/src/hooks/useTaskScheduler.js:151-152 | holds exactly when every listed id is processed |
| `HookSchedule.EarliestDependentStart` | frontend/src/hooks/useTaskScheduler.js:156-163 | the least start among the dependents, attained by one of them |
| `HookSchedule.DateFinalTask` | frontend/src/hooks/useTaskScheduler.js:119-135 | one more final task ends on the deadline and starts `duration` working days before it; the map changes at that task's entry only |
| `HookSchedule.DateFinalTasks` | frontend/src/hooks/useTaskScheduler.js:118-136 | afterwards exactly the final tasks are processed, each dated by the rule, and the map invariant holds |
| `HookSchedule.VisitTask` | frontend/src/hooks/useTaskScheduler.js:142-187 | a processed task, or one with an unprocessed dependent, leaves the map and the progress flag as they were; otherwise the map changes at that task's entry only, which ends the day before the earliest dependent start (or on the deadline), starts `duration` working days before and is processed, and the flag is set |
| `HookSchedule.ProcessTasks` | frontend/src/hooks/useTaskScheduler.js:139-191 | one pass keeps the invariant and the processed dates; it reports progress exactly when it dated a task, and a pass with none leaves every task settled |
| `HookSchedule.RunRounds` | frontend/src/hooks/useTaskScheduler.js:193-201 | at most 100 rounds, each dating at least one task; processed tasks keep their dates; stopping before the cap means a fixed point |
| `HookSchedule.RoundsBound` | frontend/src/hooks/useTaskScheduler.js:194-201 | no more tasks are processed than there are ids |
| `HookSchedule.ValuesOf` | frontend/src/hooks/useTaskScheduler.js:204 | every map entry exactly once (the order is left open) |
| `HookSchedule.HookCalculate` | frontend/src/hooks/useTaskScheduler.js:94-204 | the result lists every map entry once; every final task is processed; every processed task obeys its dating rule; with fewer than 100 ids the rounds reach a fixed point |
| `HookSchedule.Precedence` | frontend/src/hooks/useTaskScheduler.js:160-184 | when A depends on a processed B, A is processed and B ends strictly before A starts |
| `HookSchedule.StartNotAfterEnd` | frontend/src/hooks/useTaskScheduler.js:170-183 | every processed task starts no later than it ends |
| `HookSchedule.OwnDuration` | frontend/src/hooks/useTaskScheduler.js:118-183 | with distinct ids, final tasks end on the deadline and every processed task starts its own `duration` working days before its end |
| `HookSchedule.CycleUndated` | frontend/src/hooks/useTaskScheduler.js:142-201 | tasks on a dependency cycle stay unprocessed and undated |
| `HookSchedule.CycleUnplaced` | frontend/src/hooks/useTaskScheduler.js:142-154 | no task of a cycle ever enters the processing order |
| `HookSchedule.AcyclicAllDated` | frontend/src/hooks/useTaskScheduler.js:139-201 | at a fixed point of a ranked (acyclic) graph every task is processed |
| `HookSchedule.SmallAcyclicAllDated` | frontend/src/hooks/useTaskScheduler.js:194-204 | with fewer than 100 ids and no cycle every calculated task is processed and dated |
| `HookSchedule.Compare` | frontend/src/hooks/useTaskScheduler.js:205-212 | 1 when `a` depends on `b`, else -1 when `b` depends on `a`, else the sign of the start difference |
| `HookSchedule.CompareAntisymmetric` | frontend/src/hooks/useTaskScheduler.js:205-212 | unless two tasks depend on each other, swapping them flips the sign |
| `HookSchedule.CompareNotTransitive` | frontend/src/hooks/useTaskScheduler.js:205-212 | the comparator is not a consistent order: three tasks violate transitivity |
| `HookSchedule.EarliestFrom` | frontend/src/hooks/useTaskScheduler.js:219-222 | the reduce gives the least of the seed and all task starts, attained by one of them |
| `HookSchedule.ProjectStart` | frontend/src/hooks/useTaskScheduler.js:218-226 | the least task start, attained by some task |
| `HookEdits.TrimStart` | frontend/src/hooks/useTaskScheduler.js:258 | removes a leading run of white space and nothing more |
| `HookEdits.TrimEnd` | frontend/src/hooks/useTaskScheduler.js:258 | removes a trailing run of white space and nothing more |
| `HookEdits.BlankIffAllSpace` | frontend/src/hooks/useTaskScheduler.js:258-261 | a name is refused exactly when every character is white space (or it is empty) |
| `HookEdits.TrimIdempotent` | frontend/src/hooks/useTaskScheduler.js:258 | trimming twice is trimming once; a trimmed text has no white space at either end |
| `HookEdits.FindById` | frontend/src/hooks/useTaskScheduler.js:268 | absent exactly when no task has the id; otherwise the first task with it |
| `HookEdits.NextNewId` | frontend/src/hooks/useTaskScheduler.js:304 | at least 1, above every existing id, and one more than some id unless 1 |
| `HookEdits.WithoutTask` | frontend/src/hooks/useTaskScheduler.js:241-247 | no remaining task has the id or depends on it; the rest are the other tasks with the id stripped; their ids keep their order |
| `HookEdits.WithoutIdempotent` | frontend/src/hooks/useTaskScheduler.js:241-247 | deleting twice is deleting once |
| `HookEdits.WithoutLength` | frontend/src/hooks/useTaskScheduler.js:241-247 | exactly the tasks carrying the id are removed |
| `HookEdits.ReplaceEdited` | frontend/src/hooks/useTaskScheduler.js:283-285 | same length; tasks with the edited id become the form's task, the others stay |
| `HookEdits.ReplaceKeepsIds` | frontend/src/hooks/useTaskScheduler.js:283-285 | replacing a task by one with its id keeps the ids in order |
| `HookEdits.CheckDependencyCycle` | frontend/src/hooks/useTaskScheduler.js:265-274 | true exactly when `taskId` is among the dependencies or reachable from one of them through the existing tasks' dependency lists |
| `HookEdits.SelfDependencyCaught` | frontend/src/hooks/useTaskScheduler.js:267 | a task listing itself is always a circle |
| `HookEdits.AppendFreshDistinct` | frontend/src/hooks/useTaskScheduler.js:289 | appending a task with the id the add modal picks keeps the ids distinct |
| `HookEdits.PresetTasks` | frontend/src/hooks/useTaskScheduler.js:90-91 | absent exactly for an unknown preset name, otherwise that preset's tasks |
| `HookEdits.Calculate` | frontend/src/hooks/useTaskScheduler.js:88-227 | an unknown preset changes nothing; a deadline text naming no day throws, changing nothing, exactly when the preset has a final task; otherwise the tasks are the hook calculation over the preset from the deadline's day and the start is the earliest task start, kept when there are no tasks |
| `HookEdits.SaveRuleUnique` | frontend/src/hooks/useTaskScheduler.js:256-290 | no two different outcomes both follow the saving rule, so with `SaveTask` giving one the outcome is determined |
| `HookEdits.SaveTask` | frontend/src/hooks/useTaskScheduler.js:256-290 | a blank name is refused first with its alert; an edit that closes a circle is refused with the cycle alert; otherwise the edited task is replaced or the new one appended, an add without the cycle check |
| `TaskScheduler.Scheduler.constructor` | frontend/src/hooks/useTaskScheduler.js:12-27 | preset `webdev`, deadline 30 days after today, start today, no tasks, countries `usa`, modal closed on an empty form with id 0 |
| `TaskScheduler.Scheduler.CalculateTaskDates` | frontend/src/hooks/useTaskScheduler.js:88-227 | the task list and start date become what `Calculate` makes of the current preset, countries and the given deadline, and the result tells whether it threw |
| `TaskScheduler.Scheduler.Effect` | frontend/src/hooks/useTaskScheduler.js:230-234 | an empty deadline text changes nothing and cannot throw; otherwise a recalculation with the current deadline |
| `TaskScheduler.Scheduler.SetSelectedPreset` | frontend/src/hooks/useTaskScheduler.js:230-234 | the same preset changes nothing; a new one recalculates with it when there is a deadline, and keeps the tasks and start otherwise |
| `TaskScheduler.Scheduler.SetDeadlineDate` | frontend/src/hooks/useTaskScheduler.js:230-234 | the same deadline changes nothing; an empty one keeps the tasks and start; a new non-empty one recalculates with it |
| `TaskScheduler.Scheduler.SetSelectedCountries` | frontend/src/hooks/useTaskScheduler.js:230-234 | every call recalculates with the new countries when there is a deadline, and keeps the tasks and start otherwise |
| `TaskScheduler.Scheduler.SetNewTask` | frontend/src/hooks/useTaskScheduler.js:337 | the form holds the given task |
| `TaskScheduler.Scheduler.SetShowTaskModal` | frontend/src/hooks/useTaskScheduler.js:335 | the modal flag is the given one |
| `TaskScheduler.Scheduler.HandleDeleteTask` | frontend/src/hooks/useTaskScheduler.js:240-251 | the task list is first set to the list with the task removed and its id stripped; the unguarded recalculation then replaces it with the preset's schedule, so that list stays only when the preset is unknown or the recalculation throws |
| `TaskScheduler.Scheduler.HandleSaveTask` | frontend/src/hooks/useTaskScheduler.js:256-296 | the outcome follows the saving rule; a refusal changes nothing and does not throw; a save sets the saved list, closes the modal and recalculates, which replaces the saved list with the preset's schedule unless the preset is unknown or the recalculation throws |
| `TaskScheduler.Scheduler.CloseAndRecalculate` | frontend/src/hooks/useTaskScheduler.js:286-295 | the task list is set to the given list and the modal is closed; the recalculation then replaces the list with the preset's schedule, so the given list stays only when the preset is unknown or the recalculation throws |
| `TaskScheduler.Scheduler.OpenAddTaskModal` | frontend/src/hooks/useTaskScheduler.js:301-311 | a new-task form with an id above every existing id, not editing, modal open |
| `TaskScheduler.Scheduler.OpenEditTaskModal` | frontend/src/hooks/useTaskScheduler.js:317-321 | editing the task, the form a copy of it, modal open |
| `Checkboxes.Toggle` | frontend/src/components/TaskModal/dependencySelector.jsx:11-16 | checking appends the value at the end; unchecking removes every occurrence, keeps the others' counts and their order |
| `Checkboxes.ToggleShows` | frontend/src/components/ControlPanel/holidaySelector.jsx:19-25 | after a click the value is selected exactly when checked; other values are selected as before |
| `Checkboxes.CheckThenUncheck` | frontend/src/components/TaskModal/dependencySelector.jsx:12-15 | checking an unselected value and unchecking it gives back the selection |
| `Checkboxes.UncheckIdempotent` | frontend/src/components/ControlPanel/holidaySelector.jsx:22-23 | unchecking twice is unchecking once |
| `DependencySelector.Options` | frontend/src/components/TaskModal/dependencySelector.jsx:25-26 | exactly the store's tasks other than the current one, in store order |
| `DependencySelector.NoSelfOption` | frontend/src/components/TaskModal/dependencySelector.jsx:26 | no option is the current task |
| `DependencySelector.BoxStates` | frontend/src/components/TaskModal/dependencySelector.jsx:32 | one box per option, checked exactly when its id is selected |
| `DependencySelector.ClickChangesOwnBoxes` | frontend/src/components/TaskModal/dependencySelector.jsx:11-33 | a click sets the boxes of the clicked id to the new state and leaves every other box as it was |
| `HolidaySelector.Boxes` | frontend/src/components/ControlPanel/holidaySelector.jsx:13-18 | one box per country entry in order, checked exactly when its code is selected |
| `HolidaySelector.ClickChangesOwnBoxes` | frontend/src/components/ControlPanel/holidaySelector.jsx:18-25 | a click sets the clicked country's box to the new state and leaves the others as they were |
| `TaskRow.DependencyName` | frontend/src/components/TaskList/taskRow.jsx:14-15 | the name of the first task with the id, or the empty text for an unknown id |
| `TaskRow.Entries` | frontend/src/components/TaskList/taskRow.jsx:13-15 | one entry per dependency, in dependency-list order |
| `TaskRow.DependencyNames` | frontend/src/components/TaskList/taskRow.jsx:8-17 | `-` for a missing or empty list, otherwise the entries joined by `, ` |
| `TaskRow.NameDependsOnIdsAndNames` | frontend/src/components/TaskList/taskRow.jsx:14-15 | a dependency's entry depends only on the ids and names of the tasks |
| `TaskRow.NamesDependOnIdsAndNames` | frontend/src/components/TaskList/taskRow.jsx:8-17 | the column depends only on the dependencies and the ids and names of the tasks |
| `TaskRow.ColumnLength` | frontend/src/components/TaskList/taskRow.jsx:13-16 | the column's length is the entries' total length plus two per separator, so every dependency has its place |
| `Login.Utf16Length` | frontend/src/components/Auth/Login.jsx:46 | between the number of code points and twice it; equal to it when no code point is above U+FFFF |
| `Login.Validate` | frontend/src/components/Auth/Login.jsx:39-62 | register exactly with all fields filled and a password of at least 6 units; sign in exactly with username and password filled; otherwise the message of the first failed check |
| `Login.MissingFieldFirst` | frontend/src/components/Auth/Login.jsx:39-49 | in register mode a missing field is reported before the password length |
| `Login.LoginForm.constructor` | frontend/src/components/Auth/Login.jsx:9-12 | all fields empty, login mode, the auth store's error |
| `Login.LoginForm.HandleSubmit` | frontend/src/components/Auth/Login.jsx:34-62 | the call made is the validation's decision; a rejection leaves its message as the error, a call leaves no error |
| `Login.LoginForm.ToggleMode` | frontend/src/components/Auth/Login.jsx:159-162 | switches between login and registration and clears the error |

## Left out

- JavaScript `Date` objects, local time and time zones are not modelled. Days are integers in UTC.
  - `new Date(text)` is modelled for the `YYYY-MM-DD` texts that `formatDate` writes; every other text is an invalid date in the model (`DateUtils.DateOfText`). `Date` also reads further, implementation-defined forms.
- The messages of the runtime errors (`StoreSchedule.FaultMessage`) are the V8 engine's wording. Other engines word them differently.
- What React does after the hook throws is not modelled: the thrown error leaves an event handler, or, from the effect, unmounts the tree. The model reports the throw as a result and keeps the state set before it.
- The preset and holiday tables (`WORKFLOW_PRESETS`, `COUNTRY_HOLIDAYS`) are parameters. So are the preset that the store's preset service returns, and "today".
- Network and persistence are not modelled. This covers:
  - the project and task services;
  - `initProject` apart from its next-id rule;
  - `getProjects`, `saveProject` and `deleteProject`;
  - the `*OnServer` actions;
  - the persist middleware and the auth store;
  - the `register` and `login` calls, beyond which call is made;
  - navigation after login.
- React's batching and effects are not modelled. The hook's effect is an explicit `Effect` call in the setters that trigger it. A `useCallback` identity changing is treated as "the inputs changed".
- The order of `Object.values`, and the order that `Array.prototype.sort` gives under the hook's comparator, are not modelled. The comparator is not a consistent order (`HookSchedule.CompareNotTransitive`), so the order of the calculated list is not specified. Only its contents are.
- `prepareChartData` and all rendering are not modelled: the Gantt chart, the arrows, the modal and the list layout, notifications and styling.
- The store's project fields (`currentProject`, `success`, `deadlineDate`) and its modal actions (lines 396-437) are not modelled. No part of the modelled scheduler reads them.
- The hook's `newTask` after an edit keeps the `startDate`, `endDate` and `processed` fields. The model's task record always has them.
- The store's `Task` treats a missing `dependencies` as the empty list. Every use in the store guards against `undefined`.
- `StoreGraph.Task`, `StoreSchedule.NextTaskId`: task ids are numbers, and a missing `id` or `taskId` is read as 0. In the source a task with neither field has the key `undefined`, and the next id after the calculation is then `NaN`. `WorkflowStore.ReplaceById` and `WorkflowStore.TasksAfterDelete` compare with `===`, under which a missing `id` matches no number, whereas the model matches it against 0.
- `WorkflowStore.Store.CalculateTaskDates`: the action is treated as atomic. For a preset that is not `custom-` the source waits on the fetch of the preset, and `addTask`, `updateTask`, `deleteTask` or another calculation may run during that wait. On the no-tasks and error paths the model's `tasks == old(tasks)` assumes that nothing ran in between. On the success path the source's final `set` overwrites whatever the wait let through, as the model's new state does. Interleaving at that `await` is not modelled.
- The hook's tasks are assumed to carry a `dependencies` array (`HookSchedule.HookTask`). The hook does not guard it: `includes` at useTaskScheduler.js:112 and 147 and the `filter` at line 246 throw on a task without one, and the model does not represent that throw.
- The `console.log` calls are not modelled.
- `HookEdits.CheckDependencyCycle`: requires a ranking (`HookEdits.RankedFrom`) of the tasks that the search can reach from the proposed dependencies without passing the edited task, that is, no circle among them. The source's recursion is unbounded only when its search enters such a circle before it finds the edited task; it then overflows the call stack, and the `RangeError` ("Maximum call stack size exceeded") escapes from `handleSaveTask`, which the model does not represent. So a list on which the edited task is found before the search reaches a circle is accepted by the source but excluded by the model. Circles that the search cannot reach are allowed.
- `HookEdits.SaveTask`: inherits that requirement when an existing task is edited.
- `TaskScheduler.Scheduler.HandleSaveTask`: inherits that requirement when an existing task is edited.
- `HookEdits.Calculate`: with a deadline text that names no day and a preset without final tasks, the calculation runs from day 0. The source never reads the deadline then, but the model does not prove that the outcome is the same for every day.
- `HookSchedule.HookCalculate`: promises a fixed point only for fewer than 100 task ids. With more, the 100-round cap may stop the rounds early. It states only which entries are listed, not in what order.
- `HookSchedule.OwnDuration`: assumes distinct task ids. With repeated ids the entry holds the last task listed, and its start may count the duration of another task under that id. `HookSchedule.DatedRule` states that weaker fact for all inputs.
- `StoreGraph.TopologicalSort`: states the Kahn properties for distinct task keys only. With repeated keys it states only that the keys emitted are task keys.
- `StoreSchedule.ComputeSchedule`: states the Kahn properties for distinct task keys only. With repeated keys it states only that the keys emitted are task keys.
- `DateUtils.FormatDate`: states the 10-character shape for years 0..9999 only. Other years use the extended `±YYYYYY` form, which is modelled but not stated.
