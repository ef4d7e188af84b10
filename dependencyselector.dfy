/** The dependency picker of the task modal (dependencySelector.jsx): one
    checkbox per store task other than the task being edited, checked when
    its id is among the selected dependencies. */
module DependencySelector {
  import opened Lists
  import opened StoreGraph
  import opened Checkboxes

  /** Lines 25-26: the store's tasks without the current task, in store order. */
  function Options(tasks: seq<Task>, currentTaskId: int): (r: seq<Task>)
    ensures forall t :: t in r <==> t in tasks && t.id != currentTaskId
    ensures IsSubsequence(r, tasks)
  {
    if tasks == [] then []
    else
      var rest := Options(tasks[1..], currentTaskId);
      assert [tasks[0]] + tasks[1..] == tasks;
      assert forall t :: t in tasks <==> t == tasks[0] || t in tasks[1..];
      SubsequenceCons(rest, tasks[0], tasks[1..]);
      if tasks[0].id != currentTaskId then
        assert ([tasks[0]] + rest)[1..] == rest;
        [tasks[0]] + rest
      else rest
  }

  /** Line 32, over the option list: whether each box is checked. */
  function BoxStates(options: seq<Task>, selectedDependencies: seq<int>): (r: seq<bool>)
    ensures |r| == |options|
    ensures forall i :: 0 <= i < |options| ==> (r[i] <==> options[i].id in selectedDependencies)
  {
    if options == [] then [] else [options[0].id in selectedDependencies] + BoxStates(options[1..], selectedDependencies)
  }

  /** Lines 11-17: the new dependency list a click hands to `onChange`. */
  function HandleCheckboxChange(selectedDependencies: seq<int>, taskId: int, isChecked: bool): seq<int>
  {
    Toggle(selectedDependencies, taskId, isChecked)
  }

  /** A click on the box of `taskId` turns exactly the boxes of that id to
      the clicked state and leaves every other box as it was. */
  lemma ClickChangesOwnBoxes(options: seq<Task>, selectedDependencies: seq<int>, taskId: int, isChecked: bool)
    ensures var before, after := BoxStates(options, selectedDependencies),
                                 BoxStates(options, HandleCheckboxChange(selectedDependencies, taskId, isChecked));
            forall i :: 0 <= i < |options| ==>
              after[i] == (if options[i].id == taskId then isChecked else before[i])
  {
    forall i | 0 <= i < |options| {
      ToggleShows(selectedDependencies, taskId, isChecked, options[i].id);
    }
  }

  /** No option is the current task, so a task can never be made to depend
      on itself through the picker. */
  lemma NoSelfOption(tasks: seq<Task>, currentTaskId: int, i: int)
    requires 0 <= i < |Options(tasks, currentTaskId)|
    ensures Options(tasks, currentTaskId)[i].id != currentTaskId
  {
    assert Options(tasks, currentTaskId)[i] in Options(tasks, currentTaskId);
  }
}
