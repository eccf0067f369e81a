/**
 Whole runs of the task store: every reachable state is valid and so acyclic, ready
 work never dries up, and what calls promise about atomicity, ownership and counts.
 */
module TaskRuns {
  import opened Option
  import opened Sequences
  import opened TaskTables
  import opened TaskInvariants
  import G = Graph

  // ---------- runs ----------

  datatype Op =
    | DoCreate(input: CreateInput, id: string)
    | DoUpdate(id: string, change: UpdateInput)
    | DoClose(id: string, reason: string)
    | DoAddDep(source: string, target: string, kind: DepType)
    | DoRemoveDep(source: string, target: string)
    | DoDeleteBySession

  /** One call: who makes it, under which auth checker, and what it does. */
  datatype Call = Call(caller: string, auth: AuthChecker, op: Op)

  /** The tables after a call; a throwing call leaves what it wrote before it threw. */
  ghost function Apply(db: Db, c: Call): Db {
    match c.op
    case DoCreate(input, id) => Create(db, c.auth, c.caller, input, id).0
    case DoUpdate(id, change) => Update(db, c.auth, c.caller, id, change).0
    case DoClose(id, reason) => Close(db, c.auth, c.caller, id, reason).0
    case DoAddDep(s, t, kind) => AddDep(db, c.auth, c.caller, s, t, kind).0
    case DoRemoveDep(s, t) => RemoveDep(db, c.auth, c.caller, s, t).0
    case DoDeleteBySession => DeleteBySession(db, c.caller).0
  }

  ghost predicate FreshIds(db: Db, calls: seq<Call>)
    decreases calls
  {
    calls == [] ||
    ((calls[0].op.DoCreate? ==> Fresh(db, calls[0].op.id)) && FreshIds(Apply(db, calls[0]), calls[1..]))
  }

  ghost function Run(db: Db, calls: seq<Call>): Db
    decreases calls
  {
    if calls == [] then db else Run(Apply(db, calls[0]), calls[1..])
  }

  lemma {:induction false} ApplyKeepsValid(db: Db, c: Call)
    requires Valid(db) && (c.op.DoCreate? ==> Fresh(db, c.op.id))
    ensures Valid(Apply(db, c))
  {
    match c.op
    case DoCreate(input, id) => CreateKeepsValid(db, c.auth, c.caller, input, id);
    case DoUpdate(id, change) => UpdateKeepsValid(db, c.auth, c.caller, id, change);
    case DoClose(id, reason) => CloseKeepsValid(db, c.auth, c.caller, id, reason);
    case DoAddDep(s, t, kind) => AddDepKeepsValid(db, c.auth, c.caller, s, t, kind);
    case DoRemoveDep(s, t) => RemoveDepKeepsValid(db, c.auth, c.caller, s, t);
    case DoDeleteBySession => DeleteBySessionKeepsValid(db, c.caller);
  }

  /** Every state of every run from the empty tables is valid; in particular acyclic. */
  lemma {:induction false} RunKeepsValid(db: Db, calls: seq<Call>)
    requires Valid(db) && FreshIds(db, calls)
    ensures Valid(Run(db, calls))
    decreases calls
  {
    if calls != [] {
      ApplyKeepsValid(db, calls[0]);
      RunKeepsValid(Apply(db, calls[0]), calls[1..]);
    }
  }

  lemma {:induction false} ReachableStatesAcyclic(calls: seq<Call>)
    requires FreshIds(Db([], []), calls)
    ensures Valid(Run(Db([], []), calls))
    ensures !exists a, p :: G.ClosedWalk(Blocking(Run(Db([], []), calls).deps), a, p)
  {
    assert G.Acyclic(Blocking([]));
    RunKeepsValid(Db([], []), calls);
    G.AcyclicIffNoClosedWalk(Blocking(Run(Db([], []), calls).deps));
  }

  // ---------- ready work never dries up ----------

  /** In a valid state with work left, some unclosed task waits for no unclosed task. */
  lemma {:induction false} SomeTaskUnblocked(db: Db) returns (t: Task)
    requires Valid(db) && exists u :: u in db.tasks && u.status != Closed
    ensures t in db.tasks && t.status != Closed && !HasOpenBlocker(db, t.id)
  {
    var unclosed := set u | u in db.tasks && u.status != Closed :: u.id;
    var u :| u in db.tasks && u.status != Closed;
    assert u.id in unclosed;
    var sink := G.HasSink(Blocking(db.deps), unclosed);
    t :| t in db.tasks && t.status != Closed && t.id == sink;
    forall d, b | d in db.deps && d.source == t.id && b in db.tasks && b.id == d.target && b.status != Closed
      ensures !IsBlocking(d.kind)
    {
      assert b.id in unclosed;
      assert IsBlocking(d.kind) ==> (sink, b.id) in Blocking(db.deps);
    }
  }

  /** When every unclosed task is open, the unfiltered ready query finds one. */
  lemma {:induction false} NoDeadlock(calls: seq<Call>)
    requires FreshIds(Db([], []), calls)
    requires var db := Run(Db([], []), calls);
      (exists u :: u in db.tasks && u.status != Closed) &&
      forall u :: u in db.tasks && u.status != Closed ==> u.status == Open
    ensures Ready(Run(Db([], []), calls), None) != []
  {
    ReachableStatesAcyclic(calls);
    var t := SomeTaskUnblocked(Run(Db([], []), calls));
    assert t in Ready(Run(Db([], []), calls), None);
  }

  // ---------- create is not atomic ----------

  /** The targets `create` links the new row to, in order. */
  function Targets(input: CreateInput): seq<string> {
    (if Truthy(input.parentId) then [input.parentId.value] else []) + input.dependsOn
  }

  /** No edge enters `id`, so nothing but `id` itself reaches it. */
  lemma {:induction false} Unreachable(deps: seq<Dep>, id: string, from: string)
    requires forall d :: d in deps ==> d.target != id
    requires from != id
    ensures !G.Reach(Blocking(deps), from, id)
  {
    if G.Reach(Blocking(deps), from, id) {
      var p :| G.Walk(Blocking(deps), from, p, id);
      LastStep(Blocking(deps), from, p, id);
    }
  }

  lemma {:induction false} LastStep(g: G.Edges, a: string, p: seq<string>, b: string)
    requires G.Walk(g, a, p, b) && p != []
    ensures exists x :: (x, b) in g
    decreases p
  {
    if |p| > 1 {
      LastStep(g, p[0], p[1..], b);
    } else {
      assert p[1..] == [];
    }
  }

  /** Linking a row nothing points to succeeds exactly when the targets are new and distinct. */
  lemma {:induction false} InsertBlocksOutcome(db: Db, id: string, targets: seq<string>)
    requires forall d :: d in db.deps ==> d.target != id
    requires id !in targets
    ensures InsertBlocks(db, id, targets).1.Ok? <==>
      Distinct(targets) && forall t :: t in targets ==> !HasDep(db.deps, id, t)
    decreases targets
  {
    if targets != [] {
      var t0 := targets[0];
      Unreachable(db.deps, id, t0);
      var (db', r) := InsertDep(db, id, t0, Blocks);
      if r.Ok? {
        InsertBlocksOutcome(db', id, targets[1..]);
        forall t ensures HasDep(db'.deps, id, t) <==> HasDep(db.deps, id, t) || t == t0 {
          assert Dep(id, t0, Blocks) in db'.deps;
          assert forall d :: d in db'.deps <==> d in db.deps || d == Dep(id, t0, Blocks);
        }
        DistinctCons(t0, targets[1..]);
        assert targets == [t0] + targets[1..];
      }
    }
  }

  lemma {:induction false} DistinctCons(x: string, xs: seq<string>)
    ensures Distinct([x] + xs) <==> Distinct(xs) && x !in xs
  {
    var ys := [x] + xs;
    assert forall k :: 0 <= k < |xs| ==> xs[k] == ys[k + 1];
    if Distinct(ys) {
      forall k | 0 <= k < |xs| ensures xs[k] != x {
        assert ys[0] != ys[k + 1];
      }
    }
  }

  function BlocksFrom(id: string, targets: seq<string>): (r: seq<Dep>)
    ensures |r| == |targets| && forall k :: 0 <= k < |r| ==> r[k] == Dep(id, targets[k], Blocks)
  {
    seq(|targets|, k requires 0 <= k < |targets| => Dep(id, targets[k], Blocks))
  }

  /** The edges `create` promises for the new row: to its parent, and to what blocks it. */
  function Links(input: CreateInput, id: string): seq<Dep> {
    (if Truthy(input.parentId) then [Dep(id, input.parentId.value, ParentChild)] else []) +
    BlocksFrom(id, input.dependsOn)
  }

  /** The links added before the first one that fails, if one does. */
  lemma {:induction false} InsertBlocksLinks(db: Db, id: string, targets: seq<string>) returns (n: nat)
    ensures n <= |targets|
    ensures InsertBlocks(db, id, targets).0.deps == db.deps + BlocksFrom(id, targets)[..n]
    ensures InsertBlocks(db, id, targets).1.Ok? <==> n == |targets|
    decreases targets
  {
    n := 0;
    if targets == [] {
      assert BlocksFrom(id, targets) == [];
    } else {
      var (db', r) := InsertDep(db, id, targets[0], Blocks);
      if r.Ok? {
        var m := InsertBlocksLinks(db', id, targets[1..]);
        n := m + 1;
        assert BlocksFrom(id, targets)[..n] == [Dep(id, targets[0], Blocks)] + BlocksFrom(id, targets[1..])[..m];
      }
    }
  }

  /** The deps table has grown by the first `n` links. */
  ghost predicate Linked(db: Db, db': Db, input: CreateInput, id: string, n: nat) {
    n <= |Links(input, id)| && db'.deps == db.deps + Links(input, id)[..n]
  }

  lemma {:induction false} CreateLinks(
      db: Db, auth: AuthChecker, caller: string, input: CreateInput, id: string) returns (n: nat)
    requires Valid(db) && Fresh(db, id) && CheckParent(db, auth, caller, input.parentId).Ok?
    ensures var (db', r) := Create(db, auth, caller, input, id);
      Linked(db, db', input, id, n) && (r.Ok? <==> n == |Links(input, id)|)
  {
    var db2 := WithParent(db, caller, input, id);
    var m := InsertBlocksLinks(db2, id, input.dependsOn);
    if Truthy(input.parentId) {
      ParentLinked(db, caller, input, id);
      n := m + 1;
      var link := Dep(id, input.parentId.value, ParentChild);
      assert Links(input, id)[..n] == [link] + BlocksFrom(id, input.dependsOn)[..m];
    } else {
      n := m;
      assert Links(input, id) == BlocksFrom(id, input.dependsOn);
    }
  }

  /** The link to an existing parent never fails. */
  lemma {:induction false} ParentLinked(db: Db, caller: string, input: CreateInput, id: string)
    requires Fresh(db, id) && Truthy(input.parentId) && Find(db.tasks, input.parentId.value).Some?
    requires forall d :: d in db.deps ==> d.source != id
    ensures var p := input.parentId.value;
      InsertDep(WithRow(db, caller, input, id), id, p, ParentChild) ==
      (WithParent(db, caller, input, id), Ok(Dep(id, p, ParentChild)))
    ensures WithParent(db, caller, input, id).deps == db.deps + [Dep(id, input.parentId.value, ParentChild)]
  {
    Unreachable(db.deps, id, input.parentId.value);
  }

  /**
   After the parent check passes, `create` with a fresh id returns a task exactly when
   the parent and the listed targets are pairwise distinct, and then it has added
   exactly the promised links. Otherwise it throws, the new row is already in the
   table, and so are the links before the repeated one.
   */
  lemma {:induction false} CreateAtomicIff(db: Db, auth: AuthChecker, caller: string, input: CreateInput, id: string)
    requires Valid(db) && Fresh(db, id) && id !in input.dependsOn
    requires CheckParent(db, auth, caller, input.parentId).Ok?
    ensures var (db', r) := Create(db, auth, caller, input, id);
      && (r.Ok? <==> Distinct(Targets(input)))
      && (r.Err? ==> r.error == DuplicateRow)
      && db'.tasks == db.tasks + [NewTask(caller, input, id)]
      && exists n: nat :: Linked(db, db', input, id, n) && (r.Ok? <==> n == |Links(input, id)|)
  {
    var n := CreateLinks(db, auth, caller, input, id);
    CreateOutcome(db, auth, caller, input, id);
    CreateKeepsTasks(db, auth, caller, input, id);
  }

  lemma {:induction false} CreateOutcome(db: Db, auth: AuthChecker, caller: string, input: CreateInput, id: string)
    requires Valid(db) && Fresh(db, id) && id !in input.dependsOn
    requires CheckParent(db, auth, caller, input.parentId).Ok?
    ensures var r := Create(db, auth, caller, input, id).1;
      (r.Ok? <==> Distinct(Targets(input))) && (r.Err? ==> r.error == DuplicateRow)
  {
    var db1 := WithRow(db, caller, input, id);
    var db2 := WithParent(db, caller, input, id);
    if Truthy(input.parentId) {
      var p := input.parentId.value;
      Unreachable(db1.deps, id, p);
      assert !HasDep(db1.deps, id, p);
      var d := Dep(id, p, ParentChild);
      assert db2.deps == db.deps + [d];
      assert forall x :: x in db2.deps <==> x in db.deps || x == d;
      assert forall t :: HasDep(db2.deps, id, t) <==> t == p;
      DistinctCons(p, input.dependsOn);
    } else {
      assert Targets(input) == input.dependsOn;
    }
    InsertBlocksOutcome(db2, id, input.dependsOn);
    InsertBlocksErrors(db2, id, input.dependsOn);
  }

  lemma {:induction false} InsertBlocksErrors(db: Db, id: string, targets: seq<string>)
    requires forall d :: d in db.deps ==> d.target != id
    requires id !in targets
    ensures var r := InsertBlocks(db, id, targets).1; r.Err? ==> r.error == DuplicateRow
    decreases targets
  {
    if targets != [] {
      Unreachable(db.deps, id, targets[0]);
      var (db', r) := InsertDep(db, id, targets[0], Blocks);
      if r.Ok? {
        InsertBlocksErrors(db', id, targets[1..]);
      }
    }
  }

  /** A concrete failing create: the parent is also listed in `dependsOn`. */
  lemma {:induction false} CreateNotAtomic()
    ensures exists db, auth, input, id ::
      Valid(db) && Fresh(db, id) &&
      var (db', r) := Create(db, auth, "s", input, id);
      r.Err? && db' != db && Find(db'.tasks, id).Some?
  {
    var p := Task("p", None, "s", "", "", "", Open, 2, Plain, None);
    var db := Db([p], []);
    var auth: AuthChecker := (a, b) => a == b;
    var input := CreateInput("", "", "", 2, Plain, Some("p"), ["p"]);
    assert db.tasks[..0] == [];
    assert p in db.tasks && Find(db.tasks, "p").Some?;
    assert Valid(db) by { assert G.Acyclic(Blocking([])); }
    assert Fresh(db, "n");
    CreateAtomicIff(db, auth, "s", input, "n");
    assert !Distinct(Targets(input)) by { assert Targets(input)[0] == Targets(input)[1]; }
    var (db', r) := Create(db, auth, "s", input, "n");
    assert NewTask("s", input, "n") in db'.tasks;
    assert r.Err? && db' != db && Find(db'.tasks, "n").Some?;
  }

  // ---------- what a call leaves alone ----------

  /**
   A call changes a task that survives it only in ways the status machine allows,
   and only with the caller's authority; its id, owner and parent never change.
   */
  lemma {:induction false} OwnershipFrame(db: Db, c: Call, t: Task)
    requires Valid(db) && t in db.tasks && (c.op.DoCreate? ==> Fresh(db, c.op.id))
    ensures var after := Find(Apply(db, c).tasks, t.id);
      && (after.None? ==> c.op.DoDeleteBySession? && t.owner == c.caller)
      && (after.Some? ==>
            var u := after.value;
            && u.owner == t.owner && u.parentId == t.parentId
            && (u.status == t.status || Allowed(t.status, u.status))
            && (u != t ==> c.auth(c.caller, t.owner)))
  {
    var db' := Apply(db, c);
    ApplyKeepsValid(db, c);
    if c.op.DoCreate? {
      if CheckParent(db, c.auth, c.caller, c.op.input.parentId).Ok? {
        CreateKeepsTasks(db, c.auth, c.caller, c.op.input, c.op.id);
      }
      FindRow(db'.tasks, t);
    } else if c.op.DoUpdate? || c.op.DoClose? {
      SetRowFrame(db, c, t);
    } else if c.op.DoDeleteBySession? {
      if t in db'.tasks {
        FindRow(db'.tasks, t);
      } else {
        DroppedRow(db.tasks, t);
      }
    } else {
      FindRow(db.tasks, t);
    }
  }

  lemma {:induction false} FindRow(tasks: seq<Task>, t: Task)
    requires ParentsFirst(tasks) && t in tasks
    ensures Find(tasks, t.id) == Some(t)
  {
    UniqueRow(tasks, t, Find(tasks, t.id).value);
  }

  lemma {:induction false} DroppedRow(tasks: seq<Task>, t: Task)
    requires ParentsFirst(tasks) && t in tasks
    ensures Find(DropOwned(tasks, t.owner), t.id).None?
  {
    var rest := DropOwned(tasks, t.owner);
    if Find(rest, t.id).Some? {
      UniqueRow(tasks, t, Find(rest, t.id).value);
    }
  }

  lemma {:induction false} SetRowFrame(db: Db, c: Call, t: Task)
    requires Valid(db) && Valid(Apply(db, c)) && t in db.tasks && (c.op.DoUpdate? || c.op.DoClose?)
    ensures var after := Find(Apply(db, c).tasks, t.id);
      after.Some? &&
      var u := after.value;
      && u.owner == t.owner && u.parentId == t.parentId
      && (u.status == t.status || Allowed(t.status, u.status))
      && (u != t ==> c.auth(c.caller, t.owner))
  {
    FindRow(db.tasks, t);
    var (db', r) := if c.op.DoUpdate? then Update(db, c.auth, c.caller, c.op.id, c.op.change)
                    else Close(db, c.auth, c.caller, c.op.id, c.op.reason);
    if db' != db {
      FindSetRow(db.tasks, t, r.value);
    }
  }

  lemma {:induction false} FindSetRow(tasks: seq<Task>, t: Task, row: Task)
    requires ParentsFirst(tasks) && ParentsFirst(SetRow(tasks, row)) && t in tasks
    ensures Find(SetRow(tasks, row), t.id) == Some(if t.id == row.id then row else t)
  {
    var k :| 0 <= k < |tasks| && tasks[k] == t;
    var r := SetRow(tasks, row);
    assert r[k] in r;
    FindRow(r, r[k]);
  }

  // ---------- the count deleteBySession returns ----------

  lemma {:induction false} CountOwnedAll(tasks: seq<Task>, owner: string)
    ensures CountOwned(tasks, owner) <= |tasks|
    ensures CountOwned(tasks, owner) == |tasks| <==> forall t :: t in tasks ==> t.owner == owner
  {
    if tasks != [] {
      CountOwnedAll(tasks[1..], owner);
      assert forall t :: t in tasks <==> t == tasks[0] || t in tasks[1..];
    }
  }

  lemma {:induction false} DropOwnedCount(tasks: seq<Task>, owner: string)
    ensures |DropOwned(tasks, owner)| == |tasks| - CountOwned(tasks, owner)
  {
    if tasks != [] {
      var n := |tasks| - 1;
      DropOwnedCount(tasks[..n], owner);
      CountOwnedSplit(tasks[..n], tasks[n], owner);
      assert tasks == tasks[..n] + [tasks[n]];
    }
  }

  lemma {:induction false} CountOwnedSplit(tasks: seq<Task>, t: Task, owner: string)
    ensures CountOwned(tasks + [t], owner) == CountOwned(tasks, owner) + if t.owner == owner then 1 else 0
  {
    if tasks != [] {
      CountOwnedSplit(tasks[1..], t, owner);
      assert (tasks + [t])[1..] == tasks[1..] + [t];
    }
  }

  /**
   The returned count is the number of deleted rows, except for the empty caller
   (whose listing is unfiltered) when other sessions own tasks.
   */
  lemma {:induction false} DeleteCountIff(db: Db, caller: string)
    ensures var (db', count) := DeleteBySession(db, caller);
      count == |db.tasks| - |db'.tasks| <==>
      caller != "" || forall t :: t in db.tasks ==> t.owner == ""
  {
    CountOwnedAll(db.tasks, caller);
    DropOwnedCount(db.tasks, caller);
    assert db.tasks != [] ==> db.tasks[0] in db.tasks;
  }
}
