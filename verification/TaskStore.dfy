/**
 The task store: a class whose methods update its two tables in place, each proved
 to compute the function of TaskTables that describes it. The cycle search of
 `assertNoCycle` is the loop with a stack and a visited set.
 */
module TaskStore {
  import opened Option
  import opened TaskTables
  import G = Graph

  /** The nodes a search from `target` can meet. */
  ghost function Nodes(g: G.Edges, target: string): set<string> {
    {target} + set e | e in g :: e.1
  }

  /** What holds at the head of the search loop. */
  ghost predicate Searching(g: G.Edges, source: string, target: string, visited: set<string>, stack: seq<string>) {
    && (target in visited || target in stack)
    && source !in visited
    && visited <= Nodes(g, target)
    && (forall x :: x in stack ==> x in Nodes(g, target) && G.Reach(g, target, x))
    && (forall v, w :: v in visited && (v, w) in g ==> w in visited || w in stack)
  }

  lemma {:induction false} SkipKeepsSearching(
      g: G.Edges, source: string, target: string, visited: set<string>, rest: seq<string>, current: string)
    requires Searching(g, source, target, visited, rest + [current]) && current in visited
    ensures Searching(g, source, target, visited, rest)
  {
    assert forall x :: x in rest + [current] <==> x in rest || x == current;
  }

  lemma {:induction false} ExpandKeepsSearching(
      g: G.Edges, source: string, target: string, visited: set<string>, rest: seq<string>, current: string,
      rows: seq<string>)
    requires Searching(g, source, target, visited, rest + [current]) && current != source
    requires forall x :: x in rows <==> (current, x) in g
    ensures current in Nodes(g, target)
    ensures Searching(g, source, target, visited + {current}, rest + rows)
  {
    assert forall x :: x in rest + [current] <==> x in rest || x == current;
    assert forall x :: x in rest + rows <==> x in rest || x in rows;
    forall x | x in rows ensures x in Nodes(g, target) && G.Reach(g, target, x) {
      assert (current, x) in g;
      G.ReachEdge(g, current, x);
      G.ReachTrans(g, target, current, x);
    }
  }

  class Store {
    var tasks: seq<Task>
    var deps: seq<Dep>
    var authChecker: AuthChecker

    ghost function Tables(): Db
      reads this
    {
      Db(tasks, deps)
    }

    constructor (auth: AuthChecker)
      ensures Tables() == Db([], []) && authChecker == auth
    {
      tasks, deps, authChecker := [], [], auth;
    }

    method SetAuthChecker(auth: AuthChecker)
      modifies this`authChecker
      ensures authChecker == auth
    {
      authChecker := auth;
    }

    /** Throws (returns true) exactly when the source is reachable from the target. */
    method AssertNoCycle(source: string, target: string) returns (throws: bool)
      ensures throws <==> G.Reach(Blocking(deps), target, source)
    {
      ghost var g := Blocking(deps);
      var visited: set<string> := {};
      var stack := [target];
      G.ReachRefl(g, target);
      while |stack| > 0
        invariant Searching(g, source, target, visited, stack)
        decreases Nodes(g, target) - visited, |stack|
      {
        var current := stack[|stack| - 1];
        ghost var rest := stack[..|stack| - 1];
        assert stack == rest + [current];
        stack := stack[..|stack| - 1];
        if current == source {
          return true;
        }
        if current in visited {
          SkipKeepsSearching(g, source, target, visited, rest, current);
          continue;
        }
        var rows := BlockingTargets(deps, current);
        ExpandKeepsSearching(g, source, target, visited, rest, current, rows);
        visited := visited + {current};
        for k := 0 to |rows|
          invariant stack == rest + rows[..k]
        {
          stack := stack + [rows[k]];
        }
        assert stack == rest + rows;
      }
      if G.Reach(g, target, source) {
        ghost var p :| G.Walk(g, target, p, source);
        G.ClosedSetTraps(g, visited, target, p, source);
      }
      return false;
    }

    method InsertDependency(source: string, target: string, kind: DepType) returns (r: Result<Dep>)
      modifies this`deps
      ensures (Tables(), r) == InsertDep(old(Tables()), source, target, kind)
    {
      if source == target {
        return Err(Cycle([source]));
      }
      if IsBlocking(kind) {
        var throws := AssertNoCycle(source, target);
        if throws {
          return Err(Cycle([source, target]));
        }
      }
      if HasDep(deps, source, target) {
        return Err(DuplicateRow);
      }
      deps := deps + [Dep(source, target, kind)];
      return Ok(Dep(source, target, kind));
    }

    method CreateTask(caller: string, input: CreateInput, id: string) returns (r: Result<Task>)
      modifies this`tasks, this`deps
      ensures (Tables(), r) == Create(old(Tables()), authChecker, caller, input, id)
    {
      if Truthy(input.parentId) {
        var parent := Find(tasks, input.parentId.value);
        if parent.None? {
          return Err(NotFound(input.parentId.value));
        }
        if !authChecker(caller, parent.value.owner) {
          return Err(NotAuthorized(caller, parent.value.owner));
        }
      }
      var task := NewTask(caller, input, id);
      tasks := tasks + [task];
      if Truthy(input.parentId) {
        var linked := InsertDependency(id, input.parentId.value, ParentChild);
        if linked.Err? {
          return Err(linked.error);
        }
      }
      ghost var linkedTables := Tables();
      for k := 0 to |input.dependsOn|
        invariant tasks == linkedTables.tasks
        invariant InsertBlocks(Tables(), id, input.dependsOn[k..]) == InsertBlocks(linkedTables, id, input.dependsOn)
      {
        assert input.dependsOn[k..][0] == input.dependsOn[k];
        assert input.dependsOn[k..][1..] == input.dependsOn[k + 1..];
        var linked := InsertDependency(id, input.dependsOn[k], Blocks);
        if linked.Err? {
          return Err(linked.error);
        }
      }
      return Ok(task);
    }

    method UpdateTask(caller: string, id: string, input: UpdateInput) returns (r: Result<Task>)
      modifies this`tasks
      ensures (Tables(), r) == Update(old(Tables()), authChecker, caller, id, input)
    {
      var found := Find(tasks, id);
      if found.None? {
        return Err(NotFound(id));
      }
      var row := found.value;
      if !authChecker(caller, row.owner) {
        return Err(NotAuthorized(caller, row.owner));
      }
      if input.status.Some? {
        if !Allowed(row.status, input.status.value) {
          return Err(BadTransition(row.status, input.status.value));
        }
        row := row.(status := input.status.value);
      }
      if input.priority.Some? {
        row := row.(priority := input.priority.value);
      }
      if input.description.Some? {
        row := row.(description := input.description.value);
      }
      if input.acceptance.Some? {
        row := row.(acceptance := input.acceptance.value);
      }
      if input == UpdateInput(None, None, None, None) {
        return Ok(row);
      }
      tasks := SetRow(tasks, row);
      return Ok(row);
    }

    method CloseTask(caller: string, id: string, reason: string) returns (r: Result<Task>)
      modifies this`tasks
      ensures (Tables(), r) == Close(old(Tables()), authChecker, caller, id, reason)
    {
      var found := Find(tasks, id);
      if found.None? {
        return Err(NotFound(id));
      }
      var row := found.value;
      if !authChecker(caller, row.owner) {
        return Err(NotAuthorized(caller, row.owner));
      }
      if !Allowed(row.status, Closed) {
        return Err(BadTransition(row.status, Closed));
      }
      row := row.(status := Closed, closeReason := Some(reason));
      tasks := SetRow(tasks, row);
      return Ok(row);
    }

    method DeleteSession(caller: string) returns (count: nat)
      modifies this`tasks, this`deps
      ensures (Tables(), count) == DeleteBySession(old(Tables()), caller)
    {
      count := if caller == "" then |tasks| else CountOwned(tasks, caller);
      if count == 0 {
        return;
      }
      deps := DropSources(deps, IdsOwnedBy(tasks, caller));
      tasks := DropOwned(tasks, caller);
    }

    method AddDependency(caller: string, source: string, target: string, kind: DepType) returns (r: Result<Dep>)
      modifies this`deps
      ensures (Tables(), r) == AddDep(old(Tables()), authChecker, caller, source, target, kind)
    {
      var found := Find(tasks, source);
      if found.None? {
        return Err(NotFound(source));
      }
      if !authChecker(caller, found.value.owner) {
        return Err(NotAuthorized(caller, found.value.owner));
      }
      if Find(tasks, target).None? {
        return Err(NotFound(target));
      }
      r := InsertDependency(source, target, kind);
    }

    method RemoveDependency(caller: string, source: string, target: string) returns (r: Result<()>)
      modifies this`deps
      ensures (Tables(), r) == RemoveDep(old(Tables()), authChecker, caller, source, target)
    {
      var found := Find(tasks, source);
      if found.None? {
        return Err(NotFound(source));
      }
      if !authChecker(caller, found.value.owner) {
        return Err(NotAuthorized(caller, found.value.owner));
      }
      deps := DropDep(deps, source, target);
      return Ok(());
    }
  }
}
