/** The task records of the workflow store and the first half of its
    `calculateTaskDates`: the successor graph, the in-degree table and
    Kahn's algorithm over them (workflowStore.js). */
module StoreGraph {
  import opened Lists
  import opened Wrappers
  import opened DateUtils

  /** A task as the store keeps it.  A missing (falsy) `id` is 0; a date
      that is not set (the empty string) is `None`. */
  datatype Task = Task(id: int, taskId: int, name: string, duration: int,
                       dependencies: seq<int>, assignee: string,
                       startDate: Option<Day>, endDate: Option<Day>)

  /** `task.id || task.taskId`: the key under which the scheduler files a task. */
  function Key(t: Task): int
  {
    if t.id != 0 then t.id else t.taskId
  }

  function KeySet(tasks: seq<Task>): set<int>
  {
    set t | t in tasks :: Key(t)
  }

  predicate DistinctKeys(tasks: seq<Task>)
  {
    forall i, j :: 0 <= i < j < |tasks| ==> Key(tasks[i]) != Key(tasks[j])
  }

  /** Some task depends on an id that is no task's key. */
  predicate MissingDependency(tasks: seq<Task>)
  {
    exists i, d :: 0 <= i < |tasks| && d in tasks[i].dependencies && d !in KeySet(tasks)
  }

  /** The first task whose key is `k`, as an array `find` on the key returns it. */
  function FindByKey(tasks: seq<Task>, k: int): (r: Option<Task>)
    ensures r.None? <==> k !in KeySet(tasks)
    ensures r.Some? ==> exists i :: 0 <= i < |tasks| && tasks[i] == r.value && Key(r.value) == k &&
                                    forall j :: 0 <= j < i ==> Key(tasks[j]) != k
    ensures DistinctKeys(tasks) ==> forall i :: 0 <= i < |tasks| && Key(tasks[i]) == k ==> r == Some(tasks[i])
  {
    if tasks == [] then None
    else if Key(tasks[0]) == k then Some(tasks[0])
    else
      var r := FindByKey(tasks[1..], k);
      FindShift(tasks, k, r);
      r
  }

  /** The search past a first task with another key. */
  lemma FindShift(tasks: seq<Task>, k: int, r: Option<Task>)
    requires tasks != [] && Key(tasks[0]) != k
    requires r.None? <==> k !in KeySet(tasks[1..])
    requires r.Some? ==> exists i :: 0 <= i < |tasks[1..]| && tasks[1..][i] == r.value && Key(r.value) == k &&
                                     forall j :: 0 <= j < i ==> Key(tasks[1..][j]) != k
    requires DistinctKeys(tasks[1..]) ==> forall i :: 0 <= i < |tasks[1..]| && Key(tasks[1..][i]) == k ==> r == Some(tasks[1..][i])
    ensures r.None? <==> k !in KeySet(tasks)
    ensures r.Some? ==> exists i :: 0 <= i < |tasks| && tasks[i] == r.value && Key(r.value) == k &&
                                    forall j :: 0 <= j < i ==> Key(tasks[j]) != k
    ensures DistinctKeys(tasks) ==> forall i :: 0 <= i < |tasks| && Key(tasks[i]) == k ==> r == Some(tasks[i])
  {
    var rest := tasks[1..];
    assert KeySet(tasks) == {Key(tasks[0])} + KeySet(rest) by {
      assert forall t :: t in tasks <==> t == tasks[0] || t in rest;
    }
    if r.Some? {
      var i :| 0 <= i < |rest| && rest[i] == r.value && Key(r.value) == k &&
               forall j :: 0 <= j < i ==> Key(rest[j]) != k;
      assert tasks[i + 1] == r.value;
      forall j | 0 <= j < i + 1
        ensures Key(tasks[j]) != k
      {
        if j > 0 { assert tasks[j] == rest[j - 1]; }
      }
    }
    if DistinctKeys(tasks) {
      assert DistinctKeys(rest) by {
        forall i, j | 0 <= i < j < |rest|
          ensures Key(rest[i]) != Key(rest[j])
        {
          assert rest[i] == tasks[i + 1] && rest[j] == tasks[j + 1];
        }
      }
      forall i | 0 <= i < |tasks| && Key(tasks[i]) == k
        ensures r == Some(tasks[i])
      {
        assert i > 0 && tasks[i] == rest[i - 1];
      }
    }
  }

  /** The dependency list of the task filed under `k` (empty when there is none). */
  function DepsOf(tasks: seq<Task>, k: int): seq<int>
  {
    match FindByKey(tasks, k)
    case None => []
    case Some(t) => t.dependencies
  }

  function Repeat(x: int, n: nat): seq<int>
  {
    if n == 0 then [] else Repeat(x, n - 1) + [x]
  }

  /** What `graph[c]` holds once every task has been visited: for each task in
      list order, its key once per occurrence of `c` among its dependencies. */
  function Successors(tasks: seq<Task>, c: int): seq<int>
  {
    if tasks == [] then []
    else
      var last := tasks[|tasks| - 1];
      Successors(tasks[..|tasks| - 1], c) + Repeat(Key(last), Count(last.dependencies, c))
  }

  /** What `inDegree[k]` holds once every task has been visited: one per
      dependency entry of every task filed under `k`. */
  function InDegreeOf(tasks: seq<Task>, k: int): int
  {
    if tasks == [] then 0
    else
      var last := tasks[|tasks| - 1];
      InDegreeOf(tasks[..|tasks| - 1], k) + (if Key(last) == k then |last.dependencies| else 0)
  }

  /** The two tables the store builds, keyed by task key. */
  datatype Graph = Graph(succ: map<int, seq<int>>, inDegree: map<int, int>)

  /** The tables hold one entry per key of `tasks` and record the dependency
      entries of the tasks `visited` so far. */
  ghost predicate TablesFor(tasks: seq<Task>, visited: seq<Task>, graph: map<int, seq<int>>, inDegree: map<int, int>)
  {
    graph.Keys == KeySet(tasks) && inDegree.Keys == KeySet(tasks) &&
    (forall k :: k in graph ==> graph[k] == Successors(visited, k)) &&
    (forall k :: k in inDegree ==> inDegree[k] == InDegreeOf(visited, k))
  }

  ghost predicate IsGraphOf(tasks: seq<Task>, g: Graph)
  {
    TablesFor(tasks, tasks, g.succ, g.inDegree)
  }

  // ---------------------------------------------------------------
  // Facts about the tables

  lemma KeySetSnoc(init: seq<Task>, last: Task)
    ensures KeySet(init + [last]) == KeySet(init) + {Key(last)}
  {
    assert forall t :: t in init + [last] <==> t in init || t == last;
  }

  lemma {:induction false} FindByKeySnoc(init: seq<Task>, last: Task, k: int)
    ensures FindByKey(init + [last], k) ==
      if k in KeySet(init) then FindByKey(init, k) else if Key(last) == k then Some(last) else None
  {
    if init == [] {
      assert init + [last] == [last];
      assert [last][1..] == [];
    } else {
      assert (init + [last])[1..] == init[1..] + [last];
      assert (init + [last])[0] == init[0];
      FindByKeySnoc(init[1..], last, k);
      assert KeySet(init) == {Key(init[0])} + KeySet(init[1..]) by {
        assert forall t :: t in init <==> t == init[0] || t in init[1..];
      }
    }
  }

  lemma {:induction false} RepeatCount(x: int, n: nat, k: int)
    ensures Count(Repeat(x, n), k) == if x == k then n else 0
    ensures forall y :: y in Repeat(x, n) ==> y == x
  {
    if n > 0 {
      RepeatCount(x, n - 1, k);
      CountSnoc(Repeat(x, n - 1), x, k);
    }
  }

  /** Every successor recorded in the graph is a task key. */
  lemma {:induction false} SuccessorsAreKeys(tasks: seq<Task>, c: int)
    ensures forall x :: x in Successors(tasks, c) ==> x in KeySet(tasks)
  {
    if tasks != [] {
      var init, last := tasks[..|tasks| - 1], tasks[|tasks| - 1];
      assert tasks == init + [last];
      SuccessorsAreKeys(init, c);
      RepeatCount(Key(last), Count(last.dependencies, c), c);
      KeySetSnoc(init, last);
    }
  }

  /** With distinct keys, `graph[c]` names `k` exactly as often as the task
      filed under `k` lists `c` among its dependencies. */
  lemma {:induction false} SuccessorsCount(tasks: seq<Task>, c: int, k: int)
    requires DistinctKeys(tasks)
    ensures Count(Successors(tasks, c), k) == Count(DepsOf(tasks, k), c)
  {
    if tasks != [] {
      var init, last := tasks[..|tasks| - 1], tasks[|tasks| - 1];
      assert tasks == init + [last];
      DistinctInit(tasks);
      SuccessorsCount(init, c, k);
      RepeatCount(Key(last), Count(last.dependencies, c), k);
      CountAppend(Successors(init, c), Repeat(Key(last), Count(last.dependencies, c)), k);
      FindByKeySnoc(init, last, k);
    }
  }

  /** With distinct keys, `inDegree[k]` is the length of `k`'s dependency list. */
  lemma {:induction false} InDegreeDistinct(tasks: seq<Task>, k: int)
    requires DistinctKeys(tasks)
    ensures InDegreeOf(tasks, k) == |DepsOf(tasks, k)|
  {
    if tasks != [] {
      var init, last := tasks[..|tasks| - 1], tasks[|tasks| - 1];
      assert tasks == init + [last];
      DistinctInit(tasks);
      InDegreeDistinct(init, k);
      FindByKeySnoc(init, last, k);
    }
  }

  /** Dropping the last task keeps the keys distinct, and its key is new. */
  lemma DistinctInit(tasks: seq<Task>)
    requires DistinctKeys(tasks) && tasks != []
    ensures DistinctKeys(tasks[..|tasks| - 1])
    ensures Key(tasks[|tasks| - 1]) !in KeySet(tasks[..|tasks| - 1])
  {
  }

  // ---------------------------------------------------------------
  // Building the graph

  /** Lines 184-187: an empty successor list and a zero in-degree per key. */
  method EmptyTables(tasks: seq<Task>) returns (graph: map<int, seq<int>>, inDegree: map<int, int>)
    ensures TablesFor(tasks, [], graph, inDegree)
  {
    graph, inDegree := map[], map[];
    for i := 0 to |tasks|
      invariant graph.Keys == KeySet(tasks[..i]) && inDegree.Keys == KeySet(tasks[..i])
      invariant forall k :: k in graph ==> graph[k] == []
      invariant forall k :: k in inDegree ==> inDegree[k] == 0
    {
      assert tasks[..i + 1] == tasks[..i] + [tasks[i]];
      KeySetSnoc(tasks[..i], tasks[i]);
      graph := graph[Key(tasks[i]) := []];
      inDegree := inDegree[Key(tasks[i]) := 0];
    }
    assert tasks[..|tasks|] == tasks;
  }

  lemma SuccessorsSnoc(visited: seq<Task>, t: Task, k: int)
    ensures Successors(visited + [t], k) == Successors(visited, k) + Repeat(Key(t), Count(t.dependencies, k))
    ensures InDegreeOf(visited + [t], k) == InDegreeOf(visited, k) + (if Key(t) == k then |t.dependencies| else 0)
  {
    var s := visited + [t];
    assert s[..|s| - 1] == visited;
  }

  /** The tables after the first entries `deps` of the dependency list of the task
      with key `key`, whose predecessors in the list are `visited`. */
  ghost predicate EdgesSoFar(tasks: seq<Task>, visited: seq<Task>, key: int, deps: seq<int>,
                             graph: map<int, seq<int>>, inDegree: map<int, int>)
  {
    graph.Keys == KeySet(tasks) && inDegree.Keys == KeySet(tasks) &&
    (forall k :: k in graph ==> graph[k] == Successors(visited, k) + Repeat(key, Count(deps, k))) &&
    (forall k :: k in inDegree ==> inDegree[k] == InDegreeOf(visited, k) + (if k == key then |deps| else 0))
  }

  lemma EdgesStart(tasks: seq<Task>, visited: seq<Task>, key: int, graph: map<int, seq<int>>, inDegree: map<int, int>)
    requires TablesFor(tasks, visited, graph, inDegree)
    ensures EdgesSoFar(tasks, visited, key, [], graph, inDegree)
  {
  }

  lemma EdgeStep(tasks: seq<Task>, visited: seq<Task>, key: int, deps: seq<int>, j: int,
                 graph: map<int, seq<int>>, inDegree: map<int, int>)
    requires 0 <= j < |deps| && EdgesSoFar(tasks, visited, key, deps[..j], graph, inDegree)
    requires deps[j] in graph && key in inDegree
    ensures EdgesSoFar(tasks, visited, key, deps[..j + 1], graph[deps[j] := graph[deps[j]] + [key]],
                       inDegree[key := inDegree[key] + 1])
  {
    PrefixSnoc(deps, j);
    EdgeAppend(tasks, visited, key, deps[..j], deps[j], graph, inDegree);
  }

  lemma EdgeAppend(tasks: seq<Task>, visited: seq<Task>, key: int, deps: seq<int>, d: int,
                   graph: map<int, seq<int>>, inDegree: map<int, int>)
    requires EdgesSoFar(tasks, visited, key, deps, graph, inDegree) && d in graph && key in inDegree
    ensures EdgesSoFar(tasks, visited, key, deps + [d], graph[d := graph[d] + [key]], inDegree[key := inDegree[key] + 1])
  {
    var graph', inDegree' := graph[d := graph[d] + [key]], inDegree[key := inDegree[key] + 1];
    assert graph'.Keys == graph.Keys && inDegree'.Keys == inDegree.Keys;
    forall k | k in graph'
      ensures graph'[k] == Successors(visited, k) + Repeat(key, Count(deps + [d], k))
    {
      CountSnoc(deps, d, k);
      if k == d {
        RepeatAppend(Successors(visited, k), key, Count(deps, k));
      }
    }
    forall k | k in inDegree'
      ensures inDegree'[k] == InDegreeOf(visited, k) + (if k == key then |deps + [d]| else 0)
    {
    }
  }

  lemma RepeatAppend(prefix: seq<int>, key: int, n: nat)
    ensures (prefix + Repeat(key, n)) + [key] == prefix + Repeat(key, n + 1)
  {
    assert Repeat(key, n + 1) == Repeat(key, n) + [key];
  }

  lemma EdgesDone(tasks: seq<Task>, visited: seq<Task>, t: Task, graph: map<int, seq<int>>, inDegree: map<int, int>)
    requires EdgesSoFar(tasks, visited, Key(t), t.dependencies, graph, inDegree)
    ensures TablesFor(tasks, visited + [t], graph, inDegree)
  {
    forall k ensures Successors(visited + [t], k) == Successors(visited, k) + Repeat(Key(t), Count(t.dependencies, k))
                  && InDegreeOf(visited + [t], k) == InDegreeOf(visited, k) + (if Key(t) == k then |t.dependencies| else 0) {
      SuccessorsSnoc(visited, t, k);
    }
  }

  /** Lines 191-199 for one task: each dependency entry appends the task's key
      to the dependency's successor list and adds one to the task's in-degree.
      The result is `None` as soon as a dependency is no key. */
  method AddDependencyEdges(tasks: seq<Task>, i: int, graph0: map<int, seq<int>>, inDegree0: map<int, int>)
    returns (r: Option<Graph>)
    requires 0 <= i < |tasks| && TablesFor(tasks, tasks[..i], graph0, inDegree0)
    ensures r.None? <==> exists d :: d in tasks[i].dependencies && d !in KeySet(tasks)
    ensures r.Some? ==> TablesFor(tasks, tasks[..i + 1], r.value.succ, r.value.inDegree)
  {
    ghost var visited := tasks[..i];
    var graph, inDegree := graph0, inDegree0;
    var task := tasks[i];
    var key := Key(task);
    assert key in KeySet(tasks);
    var deps := task.dependencies;
    EdgesStart(tasks, visited, key, graph, inDegree);
    assert deps[..0] == [];
    for j := 0 to |deps|
      invariant EdgesSoFar(tasks, visited, key, deps[..j], graph, inDegree)
      invariant KnownPrefix(deps, j, KeySet(tasks))
    {
      var depId := deps[j];
      if depId !in graph {
        // the successor list of an unknown id is undefined: the push throws
        assert depId in deps;
        return None;
      }
      KnownStep(deps, j, KeySet(tasks));
      EdgeStep(tasks, visited, key, deps, j, graph, inDegree);
      graph := graph[depId := graph[depId] + [key]];
      inDegree := inDegree[key := inDegree[key] + 1];
    }
    KnownAll(deps, KeySet(tasks));
    PrefixAll(deps);
    PrefixSnoc(tasks, i);
    EdgesDone(tasks, visited, task, graph, inDegree);
    return Some(Graph(graph, inDegree));
  }

  /** The first `j` entries of `deps` are all in `known`. */
  predicate KnownPrefix(deps: seq<int>, j: int, known: set<int>)
  {
    forall k :: 0 <= k < j && k < |deps| ==> deps[k] in known
  }

  lemma KnownStep(deps: seq<int>, j: int, known: set<int>)
    requires 0 <= j < |deps| && KnownPrefix(deps, j, known) && deps[j] in known
    ensures KnownPrefix(deps, j + 1, known)
  {
  }

  lemma KnownAll(deps: seq<int>, known: set<int>)
    requires KnownPrefix(deps, |deps|, known)
    ensures forall d :: d in deps ==> d in known
  {
  }

  /** Lines 180-200: the successor graph and in-degree table of the tasks, or
      `None` when some dependency is not a task (`graph[depId].push` throws). */
  method BuildGraph(tasks: seq<Task>) returns (r: Option<Graph>)
    ensures r.None? <==> MissingDependency(tasks)
    ensures r.Some? ==> IsGraphOf(tasks, r.value)
  {
    var graph, inDegree := EmptyTables(tasks);
    assert tasks[..0] == [];
    for i := 0 to |tasks|
      invariant TablesFor(tasks, tasks[..i], graph, inDegree)
      invariant forall i', d :: 0 <= i' < i && d in tasks[i'].dependencies ==> d in KeySet(tasks)
    {
      var next := AddDependencyEdges(tasks, i, graph, inDegree);
      if next.None? {
        return None;
      }
      graph, inDegree := next.value.succ, next.value.inDegree;
    }
    assert tasks[..|tasks|] == tasks;
    return Some(Graph(graph, inDegree));
  }

  // ---------------------------------------------------------------
  // Kahn's algorithm

  /** Every emitted key comes after all the dependencies of its task. */
  ghost predicate Precedes(tasks: seq<Task>, sorted: seq<int>)
  {
    forall i, d :: 0 <= i < |sorted| && d in DepsOf(tasks, sorted[i]) ==> d in sorted[..i]
  }

  /** Every key left out has a dependency that is left out as well. */
  ghost predicate Blocked(tasks: seq<Task>, sorted: seq<int>)
  {
    forall k :: k in KeySet(tasks) && k !in sorted ==> exists d :: d in DepsOf(tasks, k) && d !in sorted
  }

  /** What Kahn's algorithm promises about its output. */
  ghost predicate KahnOrder(tasks: seq<Task>, sorted: seq<int>)
  {
    (forall x :: x in sorted ==> x in KeySet(tasks)) &&
    NoDup(sorted) && Precedes(tasks, sorted) && Blocked(tasks, sorted)
  }

  /** A Kahn order is empty exactly when every task has a dependency: the
      first key emitted is one with none. */
  lemma KahnStartsEmpty(tasks: seq<Task>, sorted: seq<int>)
    requires KahnOrder(tasks, sorted)
    ensures sorted != [] <==> exists k :: k in KeySet(tasks) && DepsOf(tasks, k) == []
  {
    if sorted != [] {
      var k := sorted[0];
      assert k in sorted && sorted[..0] == [];
      assert forall d :: d !in DepsOf(tasks, k);
      ElemsEmpty(DepsOf(tasks, k));
    } else {
      forall k | k in KeySet(tasks)
        ensures DepsOf(tasks, k) != []
      {
        var d :| d in DepsOf(tasks, k) && d !in sorted;
      }
    }
  }

  function PositiveKeys(m: map<int, int>): set<int>
  {
    set k | k in m && m[k] > 0
  }

  lemma PositiveKeysDecrement(m: map<int, int>, n: int)
    requires n in m
    ensures |PositiveKeys(m[n := m[n] - 1])| <= |PositiveKeys(m)|
    ensures m[n] == 1 ==> |PositiveKeys(m[n := m[n] - 1])| == |PositiveKeys(m)| - 1
  {
    var a, b := PositiveKeys(m[n := m[n] - 1]), PositiveKeys(m);
    assert a <= b;
    assert b == a + (b - a);
    if m[n] == 1 {
      assert a == b - {n};
    }
  }

  /** With distinct keys: the in-degree of every key counts the dependency
      entries of its task that are not yet `done`. */
  ghost predicate PendingCounts(tasks: seq<Task>, inDegree: map<int, int>, done: set<int>)
  {
    forall k :: k in KeySet(tasks) ==> k in inDegree && inDegree[k] == CountNotIn(DepsOf(tasks, k), done)
  }

  /** A key has been emitted or is queued exactly when its in-degree is zero. */
  ghost predicate ZeroExactlyWhenSeen(tasks: seq<Task>, inDegree: map<int, int>, sorted: seq<int>, queue: seq<int>)
  {
    forall k :: k in KeySet(tasks) ==> k in inDegree && (k in sorted || k in queue <==> inDegree[k] == 0)
  }

  /** Lines 207-212: the keys of in-degree zero, in task order. */
  method InitialQueue(tasks: seq<Task>, g: Graph) returns (queue: seq<int>)
    requires IsGraphOf(tasks, g)
    ensures forall x :: x in queue ==> x in KeySet(tasks)
    ensures DistinctKeys(tasks) ==> NoDup(queue) && PendingCounts(tasks, g.inDegree, {}) &&
                                    ZeroExactlyWhenSeen(tasks, g.inDegree, [], queue)
  {
    ghost var D := DistinctKeys(tasks);
    queue := [];
    for i := 0 to |tasks|
      invariant forall x :: x in queue ==> x in KeySet(tasks) && g.inDegree[x] == 0
      invariant forall x :: x in queue ==> exists j :: 0 <= j < i && Key(tasks[j]) == x
      invariant forall j :: 0 <= j < i && g.inDegree[Key(tasks[j])] == 0 ==> Key(tasks[j]) in queue
      invariant D ==> NoDup(queue)
    {
      var key := Key(tasks[i]);
      assert key in KeySet(tasks);
      if g.inDegree[key] == 0 {
        queue := queue + [key];
      }
    }
    if D {
      forall k | k in KeySet(tasks)
        ensures g.inDegree[k] == CountNotIn(DepsOf(tasks, k), {})
      {
        InDegreeDistinct(tasks, k);
        CountNotInNone(DepsOf(tasks, k));
      }
    }
  }

  /** With distinct keys, the state while the successors of `current` are
      released: `done` was emitted before `current`, and the successor entries
      `released` have been decremented. */
  ghost predicate Releasing(tasks: seq<Task>, done: set<int>, released: seq<int>, sorted: seq<int>,
                            inDegree: map<int, int>, queue: seq<int>)
  {
    NoDup(sorted + queue) && Decremented(tasks, done, released, inDegree) &&
    ZeroExactlyWhenSeen(tasks, inDegree, sorted, queue)
  }

  /** Each key's count has lost its pending dependencies on `done` and one
      for each of its entries in `released`. */
  ghost predicate Decremented(tasks: seq<Task>, done: set<int>, released: seq<int>, inDegree: map<int, int>)
  {
    forall k :: k in KeySet(tasks) ==> k in inDegree && inDegree[k] == CountNotIn(DepsOf(tasks, k), done) - Count(released, k)
  }

  lemma ReleaseStart(tasks: seq<Task>, current: int, sorted: seq<int>, inDegree: map<int, int>, queue: seq<int>)
    requires |sorted| > 0 && sorted[|sorted| - 1] == current
    requires NoDup(sorted + queue) && PendingCounts(tasks, inDegree, Elems(sorted[..|sorted| - 1])) &&
             ZeroExactlyWhenSeen(tasks, inDegree, sorted, queue)
    ensures var done := Elems(sorted[..|sorted| - 1]);
            current !in done && Elems(sorted) == done + {current} &&
            Releasing(tasks, done, [], sorted, inDegree, queue)
  {
    var done := Elems(sorted[..|sorted| - 1]);
    assert sorted == sorted[..|sorted| - 1] + [current];
    var prefix := sorted[..|sorted| - 1];
    forall i | 0 <= i < |prefix|
      ensures prefix[i] != current
    {
      assert (sorted + queue)[i] == prefix[i];
      assert (sorted + queue)[|sorted| - 1] == current;
    }
  }

  lemma ReleaseStep(tasks: seq<Task>, done: set<int>, current: int, successors: seq<int>, j: int,
                    sorted: seq<int>, inDegree: map<int, int>, queue: seq<int>, queue': seq<int>)
    requires DistinctKeys(tasks) && current !in done && Elems(sorted) == done + {current}
    requires successors == Successors(tasks, current) && 0 <= j < |successors| && successors[j] in KeySet(tasks)
    requires Releasing(tasks, done, successors[..j], sorted, inDegree, queue)
    requires successors[j] in inDegree
    requires queue' == if inDegree[successors[j]] == 1 then queue + [successors[j]] else queue
    ensures Releasing(tasks, done, successors[..j + 1], sorted, inDegree[successors[j] := inDegree[successors[j]] - 1], queue')
  {
    var n := successors[j];
    // the decremented key still has a pending dependency on `current`
    CountNotInInsert(DepsOf(tasks, n), done, current);
    SuccessorsCount(tasks, current, n);
    CountPrefix(successors, j, n);
    assert inDegree[n] >= 1;
    SeenStep(tasks, sorted, inDegree, queue, n, queue');
    DecrementStep(tasks, done, successors, j, inDegree);
  }

  /** Releasing one more successor entry takes one off its count. */
  lemma DecrementStep(tasks: seq<Task>, done: set<int>, successors: seq<int>, j: int, inDegree: map<int, int>)
    requires 0 <= j < |successors| && successors[j] in inDegree
    requires Decremented(tasks, done, successors[..j], inDegree)
    ensures Decremented(tasks, done, successors[..j + 1], inDegree[successors[j] := inDegree[successors[j]] - 1])
  {
    var inDegree' := inDegree[successors[j] := inDegree[successors[j]] - 1];
    forall k | k in KeySet(tasks)
      ensures k in inDegree' && inDegree'[k] == CountNotIn(DepsOf(tasks, k), done) - Count(successors[..j + 1], k)
    {
      CountPrefix(successors, j, k);
    }
  }

  /** Decrementing a positive in-degree and queueing the key when it reaches
      zero keeps the emitted-or-queued keys exactly those of count zero. */
  lemma SeenStep(tasks: seq<Task>, sorted: seq<int>, inDegree: map<int, int>, queue: seq<int>, n: int,
                 queue': seq<int>)
    requires NoDup(sorted + queue) && ZeroExactlyWhenSeen(tasks, inDegree, sorted, queue)
    requires n in KeySet(tasks) && n in inDegree && inDegree[n] >= 1
    requires queue' == if inDegree[n] == 1 then queue + [n] else queue
    ensures NoDup(sorted + queue') && ZeroExactlyWhenSeen(tasks, inDegree[n := inDegree[n] - 1], sorted, queue')
  {
    assert n !in sorted && n !in queue;
    if inDegree[n] == 1 {
      NoDupSnoc(sorted + queue, n);
      assert (sorted + queue) + [n] == sorted + queue';
    }
    assert forall k :: k != n ==> (k in queue' <==> k in queue);
  }

  lemma ReleaseDone(tasks: seq<Task>, done: set<int>, current: int, successors: seq<int>,
                    sorted: seq<int>, inDegree: map<int, int>, queue: seq<int>)
    requires DistinctKeys(tasks) && current !in done && Elems(sorted) == done + {current}
    requires successors == Successors(tasks, current)
    requires Releasing(tasks, done, successors, sorted, inDegree, queue)
    ensures PendingCounts(tasks, inDegree, Elems(sorted))
  {
    forall k | k in KeySet(tasks)
      ensures inDegree[k] == CountNotIn(DepsOf(tasks, k), Elems(sorted))
    {
      CountNotInInsert(DepsOf(tasks, k), done, current);
      SuccessorsCount(tasks, current, k);
    }
  }

  /** Lines 220-223 for one successor entry: decrement its in-degree and queue
      it when the in-degree reaches zero. */
  /** The release loop for `current` has handled the first `j` successor
      entries, starting from `inDegree0` and `queue0`. */
  ghost predicate ReleaseSoFar(tasks: seq<Task>, done: set<int>, current: int, successors: seq<int>, j: int,
                               sorted: seq<int>, inDegree0: map<int, int>, queue0: seq<int>,
                               inDegree: map<int, int>, queue: seq<int>)
  {
    0 <= j <= |successors| && successors == Successors(tasks, current) &&
    (forall x :: x in successors ==> x in KeySet(tasks)) &&
    inDegree.Keys == KeySet(tasks) && (forall x :: x in queue ==> x in KeySet(tasks)) &&
    |queue| >= |queue0| && |PositiveKeys(inDegree)| + (|queue| - |queue0|) <= |PositiveKeys(inDegree0)| &&
    (DistinctKeys(tasks) ==> current !in done && Elems(sorted) == done + {current} &&
                             Releasing(tasks, done, successors[..j], sorted, inDegree, queue))
  }

  lemma ReleaseLoopStart(tasks: seq<Task>, current: int, successors: seq<int>, sorted: seq<int>,
                         inDegree0: map<int, int>, queue0: seq<int>)
    requires successors == Successors(tasks, current) && inDegree0.Keys == KeySet(tasks)
    requires forall x :: x in queue0 ==> x in KeySet(tasks)
    requires |sorted| > 0 && sorted[|sorted| - 1] == current
    requires DistinctKeys(tasks) ==> NoDup(sorted + queue0) &&
                                     PendingCounts(tasks, inDegree0, Elems(sorted[..|sorted| - 1])) &&
                                     ZeroExactlyWhenSeen(tasks, inDegree0, sorted, queue0)
    ensures ReleaseSoFar(tasks, Elems(sorted[..|sorted| - 1]), current, successors, 0, sorted,
                         inDegree0, queue0, inDegree0, queue0)
  {
    if DistinctKeys(tasks) {
      ReleaseStart(tasks, current, sorted, inDegree0, queue0);
      assert successors[..0] == [];
    }
    SuccessorsAreKeys(tasks, current);
  }

  lemma ReleaseLoopDone(tasks: seq<Task>, done: set<int>, current: int, successors: seq<int>,
                        sorted: seq<int>, inDegree0: map<int, int>, queue0: seq<int>,
                        inDegree: map<int, int>, queue: seq<int>)
    requires ReleaseSoFar(tasks, done, current, successors, |successors|, sorted, inDegree0, queue0, inDegree, queue)
    ensures DistinctKeys(tasks) ==> NoDup(sorted + queue) && PendingCounts(tasks, inDegree, Elems(sorted)) &&
                                    ZeroExactlyWhenSeen(tasks, inDegree, sorted, queue)
  {
    if DistinctKeys(tasks) {
      assert successors[..|successors|] == successors;
      ReleaseDone(tasks, done, current, successors, sorted, inDegree, queue);
    }
  }

  /** Lines 221-224 for the successor entry `j`: decrement its in-degree and
      queue it when the count reaches zero. */
  method ReleaseOne(tasks: seq<Task>, ghost done: set<int>, current: int, successors: seq<int>, j: int,
                    ghost sorted: seq<int>, ghost inDegree0: map<int, int>, ghost queue0: seq<int>,
                    inDegree: map<int, int>, queue: seq<int>)
    returns (inDegree': map<int, int>, queue': seq<int>)
    requires j < |successors|
    requires ReleaseSoFar(tasks, done, current, successors, j, sorted, inDegree0, queue0, inDegree, queue)
    ensures ReleaseSoFar(tasks, done, current, successors, j + 1, sorted, inDegree0, queue0, inDegree', queue')
    ensures successors[j] in inDegree && inDegree' == inDegree[successors[j] := inDegree[successors[j]] - 1]
    ensures queue' == if inDegree'[successors[j]] == 0 then queue + [successors[j]] else queue
  {
    var neighbor := successors[j];
    assert neighbor in successors;
    PositiveKeysDecrement(inDegree, neighbor);
    inDegree' := inDegree[neighbor := inDegree[neighbor] - 1];
    queue' := queue;
    if inDegree'[neighbor] == 0 {
      queue' := queue + [neighbor];
    }
    if DistinctKeys(tasks) {
      ReleaseStep(tasks, done, current, successors, j, sorted, inDegree, queue, queue');
    }
  }

  /** Lines 219-225 for one emitted key `current` (the last of `sorted`):
      decrement the in-degree of each successor and queue those reaching zero. */
  method ReleaseSuccessors(tasks: seq<Task>, successors: seq<int>, current: int, inDegree0: map<int, int>,
                           queue0: seq<int>, ghost sorted: seq<int>)
    returns (inDegree: map<int, int>, queue: seq<int>)
    requires successors == Successors(tasks, current) && inDegree0.Keys == KeySet(tasks)
    requires forall x :: x in queue0 ==> x in KeySet(tasks)
    requires |sorted| > 0 && sorted[|sorted| - 1] == current
    requires DistinctKeys(tasks) ==> NoDup(sorted + queue0) &&
                                     PendingCounts(tasks, inDegree0, Elems(sorted[..|sorted| - 1])) &&
                                     ZeroExactlyWhenSeen(tasks, inDegree0, sorted, queue0)
    ensures inDegree.Keys == KeySet(tasks) && forall x :: x in queue ==> x in KeySet(tasks)
    ensures |queue| >= |queue0| && |PositiveKeys(inDegree)| + (|queue| - |queue0|) <= |PositiveKeys(inDegree0)|
    ensures DistinctKeys(tasks) ==> NoDup(sorted + queue) && PendingCounts(tasks, inDegree, Elems(sorted)) &&
                                    ZeroExactlyWhenSeen(tasks, inDegree, sorted, queue)
  {
    ghost var done := Elems(sorted[..|sorted| - 1]);
    ReleaseLoopStart(tasks, current, successors, sorted, inDegree0, queue0);
    inDegree, queue := inDegree0, queue0;
    for j := 0 to |successors|
      invariant ReleaseSoFar(tasks, done, current, successors, j, sorted, inDegree0, queue0, inDegree, queue)
    {
      inDegree, queue := ReleaseOne(tasks, done, current, successors, j, sorted, inDegree0, queue0, inDegree, queue);
    }
    ReleaseLoopDone(tasks, done, current, successors, sorted, inDegree0, queue0, inDegree, queue);
  }

  /** With distinct keys, the state between two rounds of Kahn's loop. */
  ghost predicate KahnState(tasks: seq<Task>, inDegree: map<int, int>, queue: seq<int>, sorted: seq<int>)
  {
    NoDup(sorted + queue) && PendingCounts(tasks, inDegree, Elems(sorted)) &&
    ZeroExactlyWhenSeen(tasks, inDegree, sorted, queue) && Precedes(tasks, sorted)
  }

  /** Taking the front of the queue: its in-degree is zero, so all its
      dependencies have been emitted already. */
  lemma EmitFront(tasks: seq<Task>, inDegree: map<int, int>, queue: seq<int>, sorted: seq<int>)
    requires DistinctKeys(tasks) && KahnState(tasks, inDegree, queue, sorted)
    requires |queue| > 0 && queue[0] in KeySet(tasks)
    ensures var sorted' := sorted + [queue[0]];
            NoDup(sorted' + queue[1..]) && sorted'[..|sorted'| - 1] == sorted &&
            PendingCounts(tasks, inDegree, Elems(sorted'[..|sorted'| - 1])) &&
            ZeroExactlyWhenSeen(tasks, inDegree, sorted', queue[1..]) && Precedes(tasks, sorted')
  {
    var current := queue[0];
    var sorted' := sorted + [current];
    assert sorted + queue == sorted' + queue[1..];
    assert sorted'[..|sorted'| - 1] == sorted;
    assert forall x :: x in sorted' || x in queue[1..] <==> x in sorted || x in queue;
    var deps := DepsOf(tasks, current);
    assert CountNotIn(deps, Elems(sorted)) == 0;
    assert forall i :: 0 <= i < |deps| ==> deps[i] in Elems(sorted);
    forall i, d | 0 <= i < |sorted'| && d in DepsOf(tasks, sorted'[i])
      ensures d in sorted'[..i]
    {
      if i < |sorted| {
        assert sorted'[..i] == sorted[..i];
      }
    }
  }

  lemma KahnFinish(tasks: seq<Task>, inDegree: map<int, int>, sorted: seq<int>)
    requires DistinctKeys(tasks) && KahnState(tasks, inDegree, [], sorted)
    requires forall x :: x in sorted ==> x in KeySet(tasks)
    ensures KahnOrder(tasks, sorted)
  {
    assert sorted + [] == sorted;
    forall k | k in KeySet(tasks) && k !in sorted
      ensures exists d :: d in DepsOf(tasks, k) && d !in sorted
    {
      var deps := DepsOf(tasks, k);
      assert k !in [];
      assert CountNotIn(deps, Elems(sorted)) != 0;
      var i :| 0 <= i < |deps| && deps[i] !in Elems(sorted);
      var d := deps[i];
      assert d in DepsOf(tasks, k) && d !in sorted;
    }
  }

  /** Lines 202-226: Kahn's algorithm.  The queue starts with the keys of
      in-degree zero in task order; each key taken from its front is emitted
      and releases its successors. */
  method TopologicalSort(tasks: seq<Task>, g: Graph) returns (sorted: seq<int>)
    requires IsGraphOf(tasks, g)
    ensures forall x :: x in sorted ==> x in KeySet(tasks)
    ensures DistinctKeys(tasks) ==> KahnOrder(tasks, sorted)
  {
    ghost var K := KeySet(tasks);
    ghost var D := DistinctKeys(tasks);
    var inDegree := g.inDegree;
    var queue := InitialQueue(tasks, g);
    sorted := [];
    if D {
      assert [] + queue == queue;
      ghost var none: seq<int> := [];
      assert Elems(none) == {};
    }
    while |queue| > 0
      invariant inDegree.Keys == K
      invariant forall x :: x in queue ==> x in K
      invariant forall x :: x in sorted ==> x in K
      invariant D ==> KahnState(tasks, inDegree, queue, sorted)
      decreases |PositiveKeys(inDegree)|, |queue|
    {
      var current := queue[0];
      if D {
        EmitFront(tasks, inDegree, queue, sorted);
      }
      queue := queue[1..];
      sorted := sorted + [current];
      inDegree, queue := ReleaseSuccessors(tasks, g.succ[current], current, inDegree, queue, sorted);
    }
    if D {
      KahnFinish(tasks, inDegree, sorted);
    }
  }

  // ---------------------------------------------------------------
  // What the order determines

  /** Two orders obeying Kahn's promises emit the same set of keys. */
  lemma KahnOrderUnique(tasks: seq<Task>, s1: seq<int>, s2: seq<int>)
    requires KahnOrder(tasks, s1) && KahnOrder(tasks, s2)
    ensures forall x :: x in s1 <==> x in s2
  {
    forall i | 0 <= i < |s1| ensures s1[i] in s2 {
      EmittedInOther(tasks, s1, s2, i);
    }
    forall i | 0 <= i < |s2| ensures s2[i] in s1 {
      EmittedInOther(tasks, s2, s1, i);
    }
  }

  lemma {:induction false} EmittedInOther(tasks: seq<Task>, s1: seq<int>, s2: seq<int>, i: int)
    requires KahnOrder(tasks, s1) && KahnOrder(tasks, s2) && 0 <= i < |s1|
    ensures s1[i] in s2
    decreases i
  {
    if s1[i] !in s2 {
      var d :| d in DepsOf(tasks, s1[i]) && d !in s2;
      assert d in s1[..i];
      var q :| 0 <= q < i && s1[q] == d;
      EmittedInOther(tasks, s1, s2, q);
    }
  }

  /** A dependency cycle: a path of keys, each depending on the next, that
      returns to where it began. */
  ghost predicate IsCycle(tasks: seq<Task>, c: seq<int>)
  {
    |c| >= 2 && c[0] == c[|c| - 1] &&
    forall j :: 0 <= j < |c| - 1 ==> c[j + 1] in DepsOf(tasks, c[j])
  }

  /** Tasks on a dependency cycle never reach in-degree zero, so they are never emitted. */
  lemma CycleNotEmitted(tasks: seq<Task>, sorted: seq<int>, c: seq<int>)
    requires KahnOrder(tasks, sorted) && IsCycle(tasks, c)
    ensures forall j :: 0 <= j < |c| ==> c[j] !in sorted
  {
    var S := Elems(sorted);
    var f := x => IndexOf(sorted, x);
    forall j | 0 <= j < |c| - 1 && c[j] in S
      ensures c[j + 1] in S && f(c[j + 1]) < f(c[j])
    {
      var p :| 0 <= p < |sorted| && sorted[p] == c[j];
      assert c[j + 1] in sorted[..p];
      var q :| 0 <= q < p && sorted[q] == c[j + 1];
      IndexOfFound(sorted, p);
      IndexOfFound(sorted, q);
    }
    CycleAvoids(c, S, f);
  }

  /** The dependency graph is ranked: every dependency has a smaller rank. */
  ghost predicate Ranked(tasks: seq<Task>, rank: int -> nat)
  {
    forall k, d :: k in KeySet(tasks) && d in DepsOf(tasks, k) ==> rank(d) < rank(k)
  }

  /** Without cycles (a ranking exists) and without unknown dependencies,
      every task is emitted. */
  lemma AcyclicAllEmitted(tasks: seq<Task>, sorted: seq<int>, rank: int -> nat)
    requires KahnOrder(tasks, sorted) && Ranked(tasks, rank) && !MissingDependency(tasks)
    ensures forall k :: k in KeySet(tasks) ==> k in sorted
  {
    forall k | k in KeySet(tasks) ensures k in sorted {
      RankedEmitted(tasks, sorted, rank, k);
    }
  }

  lemma {:induction false} RankedEmitted(tasks: seq<Task>, sorted: seq<int>, rank: int -> nat, k: int)
    requires KahnOrder(tasks, sorted) && Ranked(tasks, rank) && !MissingDependency(tasks)
    requires k in KeySet(tasks)
    ensures k in sorted
    decreases rank(k)
  {
    if k !in sorted {
      var d :| d in DepsOf(tasks, k) && d !in sorted;
      var t := FindByKey(tasks, k).value;
      var i :| 0 <= i < |tasks| && tasks[i] == t;
      assert d in KeySet(tasks);
      RankedEmitted(tasks, sorted, rank, d);
    }
  }
}
