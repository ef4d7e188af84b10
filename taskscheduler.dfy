/** The scheduler hook's state and its handlers (useTaskScheduler.js): the
    recalculation from the selected preset, deleting a task, saving the task
    in the modal, and opening the modal for a new or an existing task. */
module TaskScheduler {
  import opened Wrappers
  import opened DateUtils
  import opened HookSchedule
  import opened HookEdits

  /** The hook's state.  `presets` stands for the preset table and
      `countryHolidays` for the holiday table; the ghost fields record the
      task map and processing order of the last calculation. */
  class Scheduler {
    const presets: map<string, seq<HookTask>>
    const countryHolidays: map<string, seq<string>>
    var selectedPreset: string
    var deadlineDate: string
    var startDate: string
    var tasks: seq<HookTask>
    var selectedCountries: seq<string>
    var editingTask: Option<HookTask>
    var showTaskModal: bool
    var newTask: HookTask
    ghost var taskMap: map<int, HookTask>
    ghost var order: map<int, nat>

    /** The hook's task list and start date are what a recalculation with
        preset name `preset`, countries `countries` and deadline text
        `deadline` makes of `tasks0` and `start0`; `threw` tells whether it
        threw, leaving them as they were. */
    ghost predicate Recalculated(preset: string, countries: seq<string>, deadline: string,
                                 tasks0: seq<HookTask>, start0: string, threw: bool)
      reads this
    {
      AfterCalculation(presets, preset, countries, countryHolidays, deadline,
                       tasks0, start0, tasks, startDate, threw, taskMap, order)
    }

    /** Lines 12-27: the initial state, `today` standing for `new Date()`. */
    constructor (today: Day, presets: map<string, seq<HookTask>>, countryHolidays: map<string, seq<string>>)
      ensures this.presets == presets && this.countryHolidays == countryHolidays
      ensures selectedPreset == "webdev" && deadlineDate == FormatDate(AddDays(today, 30))
      ensures startDate == FormatDate(today) && tasks == [] && selectedCountries == ["usa"]
      ensures editingTask.None? && !showTaskModal && newTask == BlankTask(0)
    {
      this.presets := presets;
      this.countryHolidays := countryHolidays;
      selectedPreset := "webdev";
      deadlineDate := FormatDate(AddDays(today, 30));
      startDate := FormatDate(today);
      tasks := [];
      selectedCountries := ["usa"];
      editingTask := None;
      showTaskModal := false;
      newTask := BlankTask(0);
      taskMap := map[];
      order := map[];
    }

    /** Lines 88-227: recalculate from the selected preset's tasks. */
    method CalculateTaskDates(deadline: string) returns (threw: bool)
      modifies this`tasks, this`startDate, this`taskMap, this`order
      ensures Recalculated(old(selectedPreset), old(selectedCountries), deadline, old(tasks), old(startDate), threw)
    {
      tasks, startDate, threw, taskMap, order :=
        Calculate(presets, selectedPreset, selectedCountries, countryHolidays, deadline, tasks, startDate);
    }

    /** Lines 230-234: the effect that runs after the first render and
        after each change of preset, deadline or countries: recalculate
        when the deadline text is not empty. */
    method Effect() returns (threw: bool)
      modifies this`tasks, this`startDate, this`taskMap, this`order
      ensures deadlineDate == "" ==> unchanged(this) && !threw
      ensures deadlineDate != "" ==>
                Recalculated(old(selectedPreset), old(selectedCountries), old(deadlineDate), old(tasks), old(startDate), threw)
    {
      threw := false;
      if deadlineDate != "" {
        threw := CalculateTaskDates(deadlineDate);
      }
    }

    /** `setSelectedPreset`; a new value triggers the effect. */
    method SetSelectedPreset(preset: string) returns (threw: bool)
      modifies this`selectedPreset, this`tasks, this`startDate, this`taskMap, this`order
      ensures selectedPreset == preset
      ensures preset == old(selectedPreset) ==> unchanged(this) && !threw
      ensures preset != old(selectedPreset) && deadlineDate == "" ==>
                tasks == old(tasks) && startDate == old(startDate) && !threw
      ensures preset != old(selectedPreset) && deadlineDate != "" ==>
                Recalculated(preset, old(selectedCountries), old(deadlineDate), old(tasks), old(startDate), threw)
    {
      threw := false;
      if preset != selectedPreset {
        selectedPreset := preset;
        threw := Effect();
      }
    }

    /** `setDeadlineDate`; a new value triggers the effect. */
    method SetDeadlineDate(deadline: string) returns (threw: bool)
      modifies this`deadlineDate, this`tasks, this`startDate, this`taskMap, this`order
      ensures deadlineDate == deadline
      ensures deadline == old(deadlineDate) ==> unchanged(this) && !threw
      ensures deadline == "" ==> tasks == old(tasks) && startDate == old(startDate) && !threw
      ensures deadline != old(deadlineDate) && deadline != "" ==>
                Recalculated(old(selectedPreset), old(selectedCountries), deadline, old(tasks), old(startDate), threw)
    {
      threw := false;
      if deadline != deadlineDate {
        deadlineDate := deadline;
        threw := Effect();
      }
    }

    /** `setSelectedCountries`; the new array always triggers the effect. */
    method SetSelectedCountries(countries: seq<string>) returns (threw: bool)
      modifies this`selectedCountries, this`tasks, this`startDate, this`taskMap, this`order
      ensures selectedCountries == countries
      ensures deadlineDate != "" ==>
                Recalculated(old(selectedPreset), countries, old(deadlineDate), old(tasks), old(startDate), threw)
      ensures deadlineDate == "" ==> tasks == old(tasks) && startDate == old(startDate) && !threw
    {
      selectedCountries := countries;
      threw := Effect();
    }

    /** `setNewTask`: the modal's form edits. */
    method SetNewTask(task: HookTask)
      modifies this`newTask
      ensures newTask == task
    {
      newTask := task;
    }

    /** `setShowTaskModal`. */
    method SetShowTaskModal(show: bool)
      modifies this`showTaskModal
      ensures showTaskModal == show
    {
      showTaskModal := show;
    }

    /** Lines 240-251: delete the task and its id from every dependency
        list, then recalculate; with a preset selected the recalculation
        replaces the shortened list.  The recalculation is not guarded by
        the deadline text, so an empty one can make it throw, after the
        shortened list is set. */
    method HandleDeleteTask(taskId: int) returns (threw: bool)
      modifies this`tasks, this`startDate, this`taskMap, this`order
      ensures Recalculated(old(selectedPreset), old(selectedCountries), old(deadlineDate),
                           WithoutTask(old(tasks), taskId), old(startDate), threw)
    {
      tasks := WithoutTask(tasks, taskId);
      threw := CalculateTaskDates(deadlineDate);
    }

    /** Lines 256-296: save the task in the modal as `SaveTask` decides; a
        refusal carries the text of its alert and changes nothing, a save
        closes the modal and recalculates (so with a preset selected the
        recalculation replaces the saved list).  `rank` witnesses that the other tasks'
        dependencies form no circle, without which the check would not
        return. */
    method HandleSaveTask(ghost rank: int -> nat) returns (outcome: SaveResult, threw: bool)
      requires editingTask.Some? ==> RankedFrom(tasks, newTask.id, newTask.dependencies, rank)
      modifies this`showTaskModal, this`tasks, this`startDate, this`taskMap, this`order
      ensures SaveRule(old(tasks), old(editingTask), old(newTask), outcome)
      ensures outcome.Refused? ==> unchanged(this) && !threw
      ensures outcome.Saved? ==>
                !showTaskModal &&
                Recalculated(old(selectedPreset), old(selectedCountries), old(deadlineDate), outcome.list, old(startDate), threw)
    {
      outcome := SaveTask(tasks, editingTask, newTask, rank);
      threw := false;
      if outcome.Saved? {
        threw := CloseAndRecalculate(outcome.list);
      }
    }

    /** Lines 286-295: store the saved list, close the modal, recalculate
        (unguarded, as in `HandleDeleteTask`). */
    method CloseAndRecalculate(list: seq<HookTask>) returns (threw: bool)
      modifies this`showTaskModal, this`tasks, this`startDate, this`taskMap, this`order
      ensures !showTaskModal
      ensures Recalculated(old(selectedPreset), old(selectedCountries), old(deadlineDate), list, old(startDate), threw)
    {
      tasks := list;
      showTaskModal := false;
      threw := CalculateTaskDates(deadlineDate);
    }

    /** Lines 301-311: open the modal on an empty form for a new task whose
        id is above every id in the list. */
    method OpenAddTaskModal()
      modifies this`editingTask, this`newTask, this`showTaskModal
      ensures editingTask.None? && showTaskModal
      ensures newTask == BlankTask(NextNewId(tasks))
      ensures forall t :: t in tasks ==> t.id < newTask.id
    {
      editingTask := None;
      newTask := BlankTask(NextNewId(tasks));
      showTaskModal := true;
    }

    /** Lines 317-321: open the modal on a copy of an existing task. */
    method OpenEditTaskModal(task: HookTask)
      modifies this`editingTask, this`newTask, this`showTaskModal
      ensures editingTask == Some(task) && newTask == task && showTaskModal
    {
      editingTask := Some(task);
      newTask := task;
      showTaskModal := true;
    }
  }
}
