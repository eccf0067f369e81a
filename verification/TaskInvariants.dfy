/**
 What every operation of the task store keeps: unique keys, parents listed before
 their children, edges only from live tasks, and no cycle of blocking dependencies.
 */
module TaskInvariants {
  import opened Option
  import opened TaskTables
  import G = Graph

  /** Row ids are distinct, and no row names itself or a later row as its parent. */
  ghost predicate ParentsFirst(tasks: seq<Task>) {
    forall i, j :: 0 <= i <= j < |tasks| ==>
      tasks[i].parentId != Some(tasks[j].id) && (i < j ==> tasks[i].id != tasks[j].id)
  }

  /** PRIMARY KEY (source_id, target_id), and no self-edge. */
  ghost predicate DepKeys(deps: seq<Dep>)
    decreases deps
  {
    deps == [] ||
    var n := |deps| - 1;
    && DepKeys(deps[..n])
    && deps[n].source != deps[n].target
    && !HasDep(deps[..n], deps[n].source, deps[n].target)
  }

  ghost predicate SourcesLive(db: Db) {
    forall d :: d in db.deps ==> exists t :: t in db.tasks && t.id == d.source
  }

  ghost predicate Valid(db: Db) {
    && ParentsFirst(db.tasks)
    && DepKeys(db.deps)
    && SourcesLive(db)
    && G.Acyclic(Blocking(db.deps))
  }

  /** A generated id: not empty and mentioned nowhere in the tables. */
  ghost predicate Fresh(db: Db, id: string) {
    && id != ""
    && (forall t :: t in db.tasks ==> t.id != id && t.parentId != Some(id))
    && (forall d :: d in db.deps ==> d.source != id && d.target != id)
  }

  // ---------- rows ----------

  lemma {:induction false} BlockingAppend(deps: seq<Dep>, d: Dep)
    ensures Blocking(deps + [d]) == Blocking(deps) + if IsBlocking(d.kind) then {(d.source, d.target)} else {}
  {
    assert forall x :: x in deps + [d] <==> x in deps || x == d;
  }

  lemma {:induction false} OrderAppend(tasks: seq<Task>, t: Task)
    ensures ParentsFirst(tasks + [t]) <==>
      ParentsFirst(tasks) && t.parentId != Some(t.id) &&
      forall u :: u in tasks ==> u.id != t.id && u.parentId != Some(t.id)
  {
    var n, all := |tasks|, tasks + [t];
    assert all[n] == t && forall i :: 0 <= i < n ==> all[i] == tasks[i];
    if ParentsFirst(all) {
      forall u | u in tasks ensures u.id != t.id && u.parentId != Some(t.id) {
        var i :| 0 <= i < n && tasks[i] == u;
        assert all[i] == u;
      }
    }
  }

  lemma {:induction false} KeysAppend(deps: seq<Dep>, d: Dep)
    ensures DepKeys(deps + [d]) <==>
      DepKeys(deps) && d.source != d.target && !HasDep(deps, d.source, d.target)
  {
    assert (deps + [d])[..|deps|] == deps;
  }

  lemma {:induction false} SplitLast<T>(xs: seq<T>)
    requires xs != []
    ensures xs == xs[..|xs| - 1] + [xs[|xs| - 1]]
  {}

  lemma {:induction false} SetRowKeepsOrder(tasks: seq<Task>, row: Task)
    requires ParentsFirst(tasks)
    requires forall t :: t in tasks && t.id == row.id ==> t.parentId == row.parentId
    ensures ParentsFirst(SetRow(tasks, row))
  {
    var r := SetRow(tasks, row);
    forall k | 0 <= k < |r| ensures r[k].id == tasks[k].id && r[k].parentId == tasks[k].parentId {
      assert tasks[k] in tasks;
    }
  }

  lemma {:induction false} DropOwnedKeepsOrder(tasks: seq<Task>, owner: string)
    requires ParentsFirst(tasks)
    ensures ParentsFirst(DropOwned(tasks, owner))
    decreases tasks
  {
    if tasks != [] {
      var init, last := tasks[..|tasks| - 1], tasks[|tasks| - 1];
      SplitLast(tasks);
      OrderAppend(init, last);
      DropOwnedKeepsOrder(init, owner);
      OrderAppend(DropOwned(init, owner), last);
      assert DropOwned(tasks, owner) == DropOwned(init, owner) + if last.owner == owner then [] else [last];
      assert DropOwned(init, owner) + [] == DropOwned(init, owner);
    }
  }

  lemma {:induction false} KeepKeepsKeys(deps: seq<Dep>, stays: Dep -> bool)
    requires DepKeys(deps)
    ensures DepKeys(Keep(deps, stays))
    decreases deps
  {
    if deps != [] {
      var init, last := deps[..|deps| - 1], deps[|deps| - 1];
      KeepKeepsKeys(init, stays);
      KeysAppend(Keep(init, stays), last);
      assert Keep(init, stays) + [] == Keep(init, stays);
    }
  }

  lemma {:induction false} UniqueRow(tasks: seq<Task>, t: Task, u: Task)
    requires ParentsFirst(tasks) && t in tasks && u in tasks && t.id == u.id
    ensures t == u
  {
    var i, j :| 0 <= i < |tasks| && tasks[i] == t && 0 <= j < |tasks| && tasks[j] == u;
    assert i <= j || j <= i;
  }

  // ---------- one operation ----------

  lemma {:induction false} InsertDepKeepsTasks(db: Db, source: string, target: string, kind: DepType)
    ensures InsertDep(db, source, target, kind).0.tasks == db.tasks
  {}

  lemma {:induction false} InsertDepKeepsValid(db: Db, source: string, target: string, kind: DepType)
    requires Valid(db) && Find(db.tasks, source).Some?
    ensures Valid(InsertDep(db, source, target, kind).0)
  {
    var r := InsertDep(db, source, target, kind).1;
    if r.Ok? {
      var d := Dep(source, target, kind);
      KeysAppend(db.deps, d);
      BlockingAppend(db.deps, d);
      G.AddEdgeAcyclic(Blocking(db.deps), source, target);
      assert Blocking(db.deps) + {} == Blocking(db.deps);
      assert forall x :: x in db.deps + [d] <==> x in db.deps || x == d;
      assert SourcesLive(db.(deps := db.deps + [d]));
    }
  }

  lemma {:induction false} InsertBlocksKeepsTasks(db: Db, source: string, targets: seq<string>)
    ensures InsertBlocks(db, source, targets).0.tasks == db.tasks
    decreases targets
  {
    if targets != [] {
      InsertBlocksKeepsTasks(InsertDep(db, source, targets[0], Blocks).0, source, targets[1..]);
    }
  }

  lemma {:induction false} InsertBlocksKeepsValid(db: Db, source: string, targets: seq<string>)
    requires Valid(db) && Find(db.tasks, source).Some?
    ensures Valid(InsertBlocks(db, source, targets).0)
    decreases targets
  {
    if targets != [] {
      InsertDepKeepsValid(db, source, targets[0], Blocks);
      InsertDepKeepsTasks(db, source, targets[0], Blocks);
      InsertBlocksKeepsValid(InsertDep(db, source, targets[0], Blocks).0, source, targets[1..]);
    }
  }

  /** The tables once `create` has inserted its row and before it links it. */
  function WithRow(db: Db, caller: string, input: CreateInput, id: string): Db {
    db.(tasks := db.tasks + [NewTask(caller, input, id)])
  }

  /** The tables once `create` has also linked the row to its parent. */
  ghost function WithParent(db: Db, caller: string, input: CreateInput, id: string): Db {
    var db1 := WithRow(db, caller, input, id);
    if Truthy(input.parentId) then InsertDep(db1, id, input.parentId.value, ParentChild).0 else db1
  }

  lemma {:induction false} CreateTables(db: Db, auth: AuthChecker, caller: string, input: CreateInput, id: string)
    requires CheckParent(db, auth, caller, input.parentId).Ok?
    ensures var db' := Create(db, auth, caller, input, id).0;
      || db' == WithParent(db, caller, input, id)
      || db' == InsertBlocks(WithParent(db, caller, input, id), id, input.dependsOn).0
  {}

  lemma {:induction false} CreateKeepsTasks(db: Db, auth: AuthChecker, caller: string, input: CreateInput, id: string)
    requires CheckParent(db, auth, caller, input.parentId).Ok?
    ensures Create(db, auth, caller, input, id).0.tasks == db.tasks + [NewTask(caller, input, id)]
  {
    var db2 := WithParent(db, caller, input, id);
    InsertBlocksKeepsTasks(db2, id, input.dependsOn);
  }

  lemma {:induction false} RowKeepsValid(db: Db, auth: AuthChecker, caller: string, input: CreateInput, id: string)
    requires Valid(db) && Fresh(db, id) && CheckParent(db, auth, caller, input.parentId).Ok?
    ensures Valid(WithRow(db, caller, input, id)) && Find(WithRow(db, caller, input, id).tasks, id).Some?
  {
    var task := NewTask(caller, input, id);
    var db1 := WithRow(db, caller, input, id);
    OrderAppend(db.tasks, task);
    assert task in db1.tasks;
    forall d | d in db1.deps ensures exists t :: t in db1.tasks && t.id == d.source {
      var t :| t in db.tasks && t.id == d.source;
      assert t in db1.tasks;
    }
  }

  lemma {:induction false} CreateKeepsValid(db: Db, auth: AuthChecker, caller: string, input: CreateInput, id: string)
    requires Valid(db) && Fresh(db, id)
    ensures Valid(Create(db, auth, caller, input, id).0)
  {
    if CheckParent(db, auth, caller, input.parentId).Ok? {
      RowKeepsValid(db, auth, caller, input, id);
      if Truthy(input.parentId) {
        InsertDepKeepsValid(WithRow(db, caller, input, id), id, input.parentId.value, ParentChild);
        InsertDepKeepsTasks(WithRow(db, caller, input, id), id, input.parentId.value, ParentChild);
      }
      InsertBlocksKeepsValid(WithParent(db, caller, input, id), id, input.dependsOn);
      CreateTables(db, auth, caller, input, id);
    }
  }

  lemma {:induction false} SetRowKeepsValid(db: Db, before: Task, row: Task)
    requires Valid(db) && before in db.tasks && row.id == before.id && row.parentId == before.parentId
    ensures Valid(db.(tasks := SetRow(db.tasks, row)))
  {
    forall t | t in db.tasks && t.id == row.id ensures t.parentId == row.parentId {
      UniqueRow(db.tasks, t, before);
    }
    SetRowKeepsOrder(db.tasks, row);
    var r := SetRow(db.tasks, row);
    forall d | d in db.deps ensures exists t :: t in r && t.id == d.source {
      var t :| t in db.tasks && t.id == d.source;
      var k :| 0 <= k < |r| && db.tasks[k] == t;
      assert r[k] in r;
    }
  }

  lemma {:induction false} UpdateKeepsValid(db: Db, auth: AuthChecker, caller: string, id: string, change: UpdateInput)
    requires Valid(db)
    ensures Valid(Update(db, auth, caller, id, change).0)
  {
    var (db', r) := Update(db, auth, caller, id, change);
    if r.Ok? && db' != db {
      SetRowKeepsValid(db, Find(db.tasks, id).value, r.value);
    }
  }

  lemma {:induction false} CloseKeepsValid(db: Db, auth: AuthChecker, caller: string, id: string, reason: string)
    requires Valid(db)
    ensures Valid(Close(db, auth, caller, id, reason).0)
  {
    var r := Close(db, auth, caller, id, reason).1;
    if r.Ok? {
      SetRowKeepsValid(db, Find(db.tasks, id).value, r.value);
    }
  }

  lemma {:induction false} AddDepKeepsValid(
      db: Db, auth: AuthChecker, caller: string, source: string, target: string, kind: DepType)
    requires Valid(db)
    ensures Valid(AddDep(db, auth, caller, source, target, kind).0)
  {
    if Find(db.tasks, source).Some? {
      InsertDepKeepsValid(db, source, target, kind);
    }
  }

  lemma {:induction false} RemoveDepKeepsValid(
      db: Db, auth: AuthChecker, caller: string, source: string, target: string)
    requires Valid(db)
    ensures Valid(RemoveDep(db, auth, caller, source, target).0)
  {
    KeepKeepsKeys(db.deps, OtherThan(source, target));
    G.SubgraphAcyclic(Blocking(DropDep(db.deps, source, target)), Blocking(db.deps));
  }

  lemma {:induction false} DeleteBySessionKeepsValid(db: Db, caller: string)
    requires Valid(db)
    ensures Valid(DeleteBySession(db, caller).0)
  {
    var gone := IdsOwnedBy(db.tasks, caller);
    var deps := DropSources(db.deps, gone);
    DropOwnedKeepsOrder(db.tasks, caller);
    KeepKeepsKeys(db.deps, NotFrom(gone));
    G.SubgraphAcyclic(Blocking(deps), Blocking(db.deps));
    forall d | d in deps ensures exists t :: t in DropOwned(db.tasks, caller) && t.id == d.source {
      var t :| t in db.tasks && t.id == d.source;
      assert t in DropOwned(db.tasks, caller);
    }
  }
}
