/** The dependency column of a task-list row (taskRow.jsx): the names of a
    task's dependencies, looked up among all store tasks. */
module TaskRow {
  import opened Lists
  import opened Wrappers
  import opened StoreGraph

  /** Lines 14-15: the name of the first task with id `depId`, or the empty
      string when there is none. */
  function DependencyName(allTasks: seq<Task>, depId: int): (r: string)
    ensures (forall t :: t in allTasks ==> t.id != depId) ==> r == ""
    ensures (exists t :: t in allTasks && t.id == depId) ==>
              exists i :: 0 <= i < |allTasks| && allTasks[i].id == depId && r == allTasks[i].name &&
                          forall k :: 0 <= k < i ==> allTasks[k].id != depId
  {
    if allTasks == [] then ""
    else if allTasks[0].id == depId then allTasks[0].name
    else
      var r := DependencyName(allTasks[1..], depId);
      NameShift(allTasks, depId, r);
      r
  }

  /** The lookup's contract on the tail carries over to the whole list when
      the head has another id. */
  lemma NameShift(allTasks: seq<Task>, depId: int, r: string)
    requires allTasks != [] && allTasks[0].id != depId
    requires (forall t :: t in allTasks[1..] ==> t.id != depId) ==> r == ""
    requires (exists t :: t in allTasks[1..] && t.id == depId) ==>
               exists i :: 0 <= i < |allTasks[1..]| && allTasks[1..][i].id == depId && r == allTasks[1..][i].name &&
                           forall k :: 0 <= k < i ==> allTasks[1..][k].id != depId
    ensures (forall t :: t in allTasks ==> t.id != depId) ==> r == ""
    ensures (exists t :: t in allTasks && t.id == depId) ==>
              exists i :: 0 <= i < |allTasks| && allTasks[i].id == depId && r == allTasks[i].name &&
                          forall k :: 0 <= k < i ==> allTasks[k].id != depId
  {
    var tail := allTasks[1..];
    if exists t :: t in allTasks && t.id == depId {
      var t :| t in allTasks && t.id == depId;
      assert t in tail;
      var i :| 0 <= i < |tail| && tail[i].id == depId && r == tail[i].name &&
               forall k :: 0 <= k < i ==> tail[k].id != depId;
      assert allTasks[i + 1] == tail[i];
      assert forall k :: 0 <= k < i + 1 ==> allTasks[k].id != depId by {
        forall k | 0 <= k < i + 1 ensures allTasks[k].id != depId {
          if k > 0 { assert allTasks[k] == tail[k - 1]; }
        }
      }
    } else {
      assert forall t :: t in tail ==> t.id != depId by {
        forall t | t in tail ensures t.id != depId {
          assert t in allTasks;
        }
      }
    }
  }

  /** Lines 13-15: one entry per dependency, in dependency-list order. */
  function Entries(dependencies: seq<int>, allTasks: seq<Task>): (r: seq<string>)
    ensures |r| == |dependencies|
    ensures forall i :: 0 <= i < |dependencies| ==> r[i] == DependencyName(allTasks, dependencies[i])
  {
    if dependencies == [] then []
    else [DependencyName(allTasks, dependencies[0])] + Entries(dependencies[1..], allTasks)
  }

  /** Lines 8-17: `'-'` for a missing (`None`) or empty dependency list,
      otherwise the entries joined with `", "`. */
  function DependencyNames(dependencies: Option<seq<int>>, allTasks: seq<Task>): (r: string)
    ensures dependencies.None? || dependencies.value == [] ==> r == "-"
    ensures dependencies.Some? && dependencies.value != [] ==> r == Join(Entries(dependencies.value, allTasks), ", ")
  {
    if dependencies.None? || |dependencies.value| == 0 then "-"
    else Join(Entries(dependencies.value, allTasks), ", ")
  }

  /** The ids and names of a task list, in order: all the lookup sees. */
  function IdNames(tasks: seq<Task>): (r: seq<(int, string)>)
    ensures |r| == |tasks| && forall i :: 0 <= i < |tasks| ==> r[i] == (tasks[i].id, tasks[i].name)
  {
    if tasks == [] then [] else [(tasks[0].id, tasks[0].name)] + IdNames(tasks[1..])
  }

  /** Two task lists with the same ids and names in the same order give every
      dependency the same name. */
  lemma {:induction false} NameDependsOnIdsAndNames(a: seq<Task>, b: seq<Task>, depId: int)
    requires IdNames(a) == IdNames(b)
    ensures DependencyName(a, depId) == DependencyName(b, depId)
  {
    if a != [] {
      assert IdNames(a[1..]) == IdNames(a)[1..];
      assert IdNames(b[1..]) == IdNames(b)[1..];
      assert IdNames(a)[0] == IdNames(b)[0];
      NameDependsOnIdsAndNames(a[1..], b[1..], depId);
    }
  }

  /** The column depends only on the dependency list and on the ids and
      names of the tasks, not on their other fields. */
  lemma NamesDependOnIdsAndNames(dependencies: Option<seq<int>>, a: seq<Task>, b: seq<Task>)
    requires IdNames(a) == IdNames(b)
    ensures DependencyNames(dependencies, a) == DependencyNames(dependencies, b)
  {
    if dependencies.Some? {
      var ea, eb := Entries(dependencies.value, a), Entries(dependencies.value, b);
      forall i | 0 <= i < |dependencies.value| ensures ea[i] == eb[i] {
        NameDependsOnIdsAndNames(a, b, dependencies.value[i]);
      }
      assert ea == eb;
    }
  }

  /** The column holds the entries and one `", "` between each pair of them. */
  lemma ColumnLength(dependencies: seq<int>, allTasks: seq<Task>)
    requires dependencies != []
    ensures |DependencyNames(Some(dependencies), allTasks)| ==
              TotalLength(Entries(dependencies, allTasks)) + 2 * (|dependencies| - 1)
  {
    JoinLength(Entries(dependencies, allTasks), ", ");
  }
}
