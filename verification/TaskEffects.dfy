/**
 What each operation of the task store does to the tables, row by row and field by
 field, and when it refuses; and what makes a task wait.
 */
module TaskEffects {
  import opened Option
  import opened TaskTables
  import opened TaskInvariants
  import opened TaskRuns
  import opened ReadyOrder
  import G = Graph

  /** Nothing but the row at position `k` differs. */
  ghost predicate OnlyRow(before: seq<Task>, after: seq<Task>, k: nat) {
    && k < |before| == |after|
    && forall j :: 0 <= j < |before| && j != k ==> after[j] == before[j]
  }

  ghost predicate HasId(tasks: seq<Task>, id: string) {
    exists k :: 0 <= k < |tasks| && tasks[k].id == id
  }

  lemma {:induction false} FindAt(tasks: seq<Task>, k: nat)
    requires ParentsFirst(tasks) && k < |tasks|
    ensures Find(tasks, tasks[k].id) == Some(tasks[k])
  {
    FindRow(tasks, tasks[k]);
  }

  lemma {:induction false} UniqueId(tasks: seq<Task>, i: nat, j: nat)
    requires ParentsFirst(tasks) && i < |tasks| && j < |tasks|
    ensures tasks[i].id == tasks[j].id ==> i == j
  {
    assert i < j || i == j || j < i;
  }

  lemma {:induction false} FindNone(tasks: seq<Task>, id: string)
    ensures Find(tasks, id).None? <==> !HasId(tasks, id)
  {
    if Find(tasks, id).Some? {
      var k :| 0 <= k < |tasks| && tasks[k] == Find(tasks, id).value;
    } else {
      forall k | 0 <= k < |tasks| ensures tasks[k].id != id {
        assert tasks[k] in tasks;
      }
    }
  }

  lemma {:induction false} SetOnlyRow(tasks: seq<Task>, k: nat, row: Task)
    requires ParentsFirst(tasks) && k < |tasks| && row.id == tasks[k].id
    ensures OnlyRow(tasks, SetRow(tasks, row), k) && SetRow(tasks, row)[k] == row
  {
    assert forall i, j :: 0 <= i < j < |tasks| ==> tasks[i].id != tasks[j].id;
  }

  // ---------- close ----------

  /**
   Closing a task of the table: refused without authority or when it is closed;
   otherwise that row alone becomes closed, with the reason, and is returned.
   */
  lemma {:induction false} CloseExact(db: Db, auth: AuthChecker, caller: string, k: nat, reason: string)
    requires Valid(db) && k < |db.tasks|
    ensures var t := db.tasks[k];
      var (db', r) := Close(db, auth, caller, t.id, reason);
      if !auth(caller, t.owner) then db' == db && r == Err(NotAuthorized(caller, t.owner))
      else if t.status == Closed then db' == db && r == Err(BadTransition(Closed, Closed))
      else
        && db'.deps == db.deps && OnlyRow(db.tasks, db'.tasks, k) && r == Ok(db'.tasks[k])
        && db'.tasks[k].status == Closed && db'.tasks[k].closeReason == Some(reason)
        && SameText(t, db'.tasks[k]) && db'.tasks[k].priority == t.priority
  {
    FindAt(db.tasks, k);
    SetOnlyRow(db.tasks, k, db.tasks[k].(status := Closed, closeReason := Some(reason)));
  }

  /** The fields that neither closing nor a change of status or priority touches. */
  ghost predicate SameText(t: Task, u: Task) {
    && SameIdentity(t, u) && u.description == t.description && u.acceptance == t.acceptance
  }

  /** The fields that no operation changes. */
  ghost predicate SameIdentity(t: Task, u: Task) {
    && u.id == t.id && u.parentId == t.parentId && u.owner == t.owner && u.title == t.title && u.kind == t.kind
  }

  // ---------- update ----------

  /** The status changes that are accepted. */
  const TRANSITIONS := {
    (Open, InProgress), (Open, Closed),
    (InProgress, Closed), (InProgress, Blocked),
    (Blocked, InProgress), (Blocked, Closed)
  }

  /** A field that is given takes the given value, and otherwise keeps its own. */
  ghost predicate Takes<T>(given: Option<T>, before: T, after: T) {
    (given.Some? ==> after == given.value) && (given.None? ==> after == before)
  }

  /**
   Updating a task of the table: refused without authority or for a change of status
   that is not accepted; otherwise that row alone takes the given fields.
   */
  lemma {:induction false} UpdateExact(db: Db, auth: AuthChecker, caller: string, k: nat, input: UpdateInput)
    requires Valid(db) && k < |db.tasks|
    ensures var t := db.tasks[k];
      var (db', r) := Update(db, auth, caller, t.id, input);
      if !auth(caller, t.owner) then db' == db && r == Err(NotAuthorized(caller, t.owner))
      else if input.status.Some? && (t.status, input.status.value) !in TRANSITIONS
      then db' == db && r == Err(BadTransition(t.status, input.status.value))
      else
        && db'.deps == db.deps && OnlyRow(db.tasks, db'.tasks, k) && r == Ok(db'.tasks[k])
        && Takes(input.status, t.status, db'.tasks[k].status)
        && Takes(input.priority, t.priority, db'.tasks[k].priority)
        && Takes(input.description, t.description, db'.tasks[k].description)
        && Takes(input.acceptance, t.acceptance, db'.tasks[k].acceptance)
        && SameIdentity(t, db'.tasks[k]) && db'.tasks[k].closeReason == t.closeReason
  {
    FindAt(db.tasks, k);
    var r := Update(db, auth, caller, db.tasks[k].id, input).1;
    if r.Ok? {
      SetOnlyRow(db.tasks, k, r.value);
    }
  }

  /** Without such a row, update, close and the dependency operations change nothing and say so. */
  lemma {:induction false} MissingRow(
      db: Db, auth: AuthChecker, caller: string, id: string, input: UpdateInput, reason: string, target: string,
      kind: DepType)
    requires !HasId(db.tasks, id)
    ensures Update(db, auth, caller, id, input) == (db, Err(NotFound(id)))
    ensures Close(db, auth, caller, id, reason) == (db, Err(NotFound(id)))
    ensures AddDep(db, auth, caller, id, target, kind) == (db, Err(NotFound(id)))
    ensures RemoveDep(db, auth, caller, id, target) == (db, Err(NotFound(id)))
  {
    FindNone(db.tasks, id);
  }

  // ---------- create ----------

  /**
   Creating a task: refused, with nothing written, when a parent is named that is not
   in the table or that the caller may not write; otherwise a new last row.
   */
  lemma {:induction false} CreateExact(db: Db, auth: AuthChecker, caller: string, input: CreateInput, id: string)
    requires Valid(db) && Fresh(db, id)
    ensures var (db', r) := Create(db, auth, caller, input, id);
      var parent := if input.parentId.Some? then input.parentId.value else "";
      if parent != "" && !HasId(db.tasks, parent) then db' == db && r == Err(NotFound(parent))
      else if parent != "" && exists k :: Forbids(db.tasks, auth, caller, parent, k)
      then
        && db' == db
        && exists k :: Forbids(db.tasks, auth, caller, parent, k) && r == Err(NotAuthorized(caller, db.tasks[k].owner))
      else
        && |db'.tasks| == |db.tasks| + 1 && db'.tasks[..|db.tasks|] == db.tasks
        && IsNew(db'.tasks[|db.tasks|], caller, input, id)
        && (r.Ok? ==> r.value == db'.tasks[|db.tasks|])
  {
    ParentChecked(db, auth, caller, input.parentId);
    if CheckParent(db, auth, caller, input.parentId).Ok? {
      CreateKeepsTasks(db, auth, caller, input, id);
    }
  }

  lemma {:induction false} ParentChecked(db: Db, auth: AuthChecker, caller: string, parentId: Option<string>)
    requires ParentsFirst(db.tasks)
    ensures var parent := if parentId.Some? then parentId.value else "";
      var r := CheckParent(db, auth, caller, parentId);
      if parent != "" && !HasId(db.tasks, parent) then r == Err(NotFound(parent))
      else if parent != "" && exists k :: Forbids(db.tasks, auth, caller, parent, k)
      then exists k :: Forbids(db.tasks, auth, caller, parent, k) && r == Err(NotAuthorized(caller, db.tasks[k].owner))
      else r == Ok(())
  {
    var parent := if parentId.Some? then parentId.value else "";
    FindNone(db.tasks, parent);
    if HasId(db.tasks, parent) {
      var k :| 0 <= k < |db.tasks| && db.tasks[k].id == parent;
      FindAt(db.tasks, k);
      forall j ensures Forbids(db.tasks, auth, caller, parent, j) ==> j == k {
        if 0 <= j < |db.tasks| {
          UniqueId(db.tasks, j, k);
        }
      }
      assert Forbids(db.tasks, auth, caller, parent, k) <==> !auth(caller, db.tasks[k].owner);
    }
  }

  /** The row at position `k` has this id, and the caller may not write for its owner. */
  ghost predicate Forbids(tasks: seq<Task>, auth: AuthChecker, caller: string, id: string, k: int) {
    0 <= k < |tasks| && tasks[k].id == id && !auth(caller, tasks[k].owner)
  }

  /** An open task of the caller, as described. */
  ghost predicate IsNew(t: Task, caller: string, input: CreateInput, id: string) {
    && t.id == id && t.owner == caller && t.parentId == input.parentId
    && t.title == input.title && t.description == input.description && t.acceptance == input.acceptance
    && t.priority == input.priority && t.kind == input.kind && t.status == Open && t.closeReason == None
  }

  // ---------- dependencies ----------

  /** The edges that must not form a cycle: every dependency but the merely related ones. */
  ghost function WaitEdges(deps: seq<Dep>): G.Edges {
    set d | d in deps && d.kind != Related :: (d.source, d.target)
  }

  ghost predicate HasKey(deps: seq<Dep>, source: string, target: string) {
    exists d :: d in deps && d.source == source && d.target == target
  }

  /**
   Adding a dependency of a task in the table: when it is refused, and why; otherwise
   one more row. A cycle is refused exactly when the edge would close one.
   */
  lemma {:induction false} AddDepExact(db: Db, auth: AuthChecker, caller: string, k: nat, target: string, kind: DepType)
    requires Valid(db) && k < |db.tasks|
    ensures var s := db.tasks[k];
      var (db', r) := AddDep(db, auth, caller, s.id, target, kind);
      if !auth(caller, s.owner) then db' == db && r == Err(NotAuthorized(caller, s.owner))
      else if !HasId(db.tasks, target) then db' == db && r == Err(NotFound(target))
      else if s.id == target then db' == db && r == Err(Cycle([s.id]))
      else if kind != Related && !G.Acyclic(WaitEdges(db.deps) + {(s.id, target)})
      then db' == db && r == Err(Cycle([s.id, target]))
      else if HasKey(db.deps, s.id, target) then db' == db && r == Err(DuplicateRow)
      else
        && db'.tasks == db.tasks && db'.deps == db.deps + [Dep(s.id, target, kind)]
        && r == Ok(Dep(s.id, target, kind))
  {
    FindAt(db.tasks, k);
    FindNone(db.tasks, target);
    assert WaitEdges(db.deps) == Blocking(db.deps);
    G.AddEdgeAcyclic(Blocking(db.deps), db.tasks[k].id, target);
  }

  lemma {:induction false} KeepCount(deps: seq<Dep>, stays: Dep -> bool, d: Dep)
    ensures multiset(Keep(deps, stays))[d] == if stays(d) then multiset(deps)[d] else 0
    decreases deps
  {
    if deps != [] {
      var n := |deps| - 1;
      KeepCount(deps[..n], stays, d);
      assert deps == deps[..n] + [deps[n]];
    }
  }

  /** Removing a dependency of a task in the table: refused without authority; otherwise exactly that row goes. */
  lemma {:induction false} RemoveDepExact(db: Db, auth: AuthChecker, caller: string, k: nat, target: string)
    requires Valid(db) && k < |db.tasks|
    ensures var s := db.tasks[k];
      var (db', r) := RemoveDep(db, auth, caller, s.id, target);
      if !auth(caller, s.owner) then db' == db && r == Err(NotAuthorized(caller, s.owner))
      else
        && db'.tasks == db.tasks && r == Ok(())
        && forall d :: multiset(db'.deps)[d] ==
             if d.source == s.id && d.target == target then 0 else multiset(db.deps)[d]
  {
    FindAt(db.tasks, k);
    var s := db.tasks[k];
    forall d ensures multiset(DropDep(db.deps, s.id, target))[d] ==
      if d.source == s.id && d.target == target then 0 else multiset(db.deps)[d]
    {
      KeepCount(db.deps, OtherThan(s.id, target), d);
    }
  }

  // ---------- deleteBySession ----------

  ghost predicate OwnsId(tasks: seq<Task>, owner: string, id: string) {
    exists k :: 0 <= k < |tasks| && tasks[k].owner == owner && tasks[k].id == id
  }

  lemma {:induction false} DropOwnedExact(tasks: seq<Task>, owner: string, t: Task)
    ensures multiset(DropOwned(tasks, owner))[t] == if t.owner == owner then 0 else multiset(tasks)[t]
    decreases tasks
  {
    if tasks != [] {
      var n := |tasks| - 1;
      DropOwnedExact(tasks[..n], owner, t);
      assert tasks == tasks[..n] + [tasks[n]];
    }
  }

  lemma {:induction false} BeforeMore(rows: seq<Task>, t: Task, x: Task, y: Task)
    ensures Before(rows, x, y) ==> Before(rows + [t], x, y)
    ensures x in rows ==> Before(rows + [t], x, t)
    ensures Before(rows + [t], x, y) ==> Before(rows, x, y) || (x in rows && y == t)
  {
    var all := rows + [t];
    if Before(rows, x, y) {
      var a, b :| 0 <= a < b < |rows| && rows[a] == x && rows[b] == y;
      assert all[a] == x && all[b] == y;
    }
    if x in rows {
      var a :| 0 <= a < |rows| && rows[a] == x;
      assert all[a] == x && all[|rows|] == t;
    }
    if Before(all, x, y) {
      var a, b :| 0 <= a < b < |all| && all[a] == x && all[b] == y;
      assert rows[a] == x;
      if b < |rows| {
        assert rows[b] == y;
      }
    }
  }

  lemma {:induction false} DropOwnedBefore(tasks: seq<Task>, owner: string, x: Task, y: Task)
    requires Before(DropOwned(tasks, owner), x, y)
    ensures Before(tasks, x, y)
    decreases tasks
  {
    if tasks != [] {
      var init, t := tasks[..|tasks| - 1], tasks[|tasks| - 1];
      assert tasks == init + [t];
      BeforeMore(init, t, x, y);
      BeforeMore(DropOwned(init, owner), t, x, y);
      assert DropOwned(init, owner) + [] == DropOwned(init, owner);
      if Before(DropOwned(init, owner), x, y) {
        DropOwnedBefore(init, owner, x, y);
      }
    }
  }

  /** Deleting by session: the caller's rows go, with the edges out of them, and nothing else, in the same order. */
  lemma {:induction false} DeleteExact(db: Db, caller: string)
    ensures var db' := DeleteBySession(db, caller).0;
      && (forall t :: multiset(db'.tasks)[t] == if t.owner == caller then 0 else multiset(db.tasks)[t])
      && (forall x, y :: Before(db'.tasks, x, y) ==> Before(db.tasks, x, y))
      && forall d :: multiset(db'.deps)[d] == if OwnsId(db.tasks, caller, d.source) then 0 else multiset(db.deps)[d]
  {
    var db' := DeleteBySession(db, caller).0;
    CountOwnedAll(db.tasks, caller);
    if db' == db {
      NothingOwned(db.tasks, caller);
    }
    forall t
      ensures multiset(DropOwned(db.tasks, caller))[t] == if t.owner == caller then 0 else multiset(db.tasks)[t]
    {
      DropOwnedExact(db.tasks, caller, t);
    }
    forall x, y | Before(DropOwned(db.tasks, caller), x, y) ensures Before(db.tasks, x, y) {
      DropOwnedBefore(db.tasks, caller, x, y);
    }
    forall d ensures multiset(DropSources(db.deps, IdsOwnedBy(db.tasks, caller)))[d] ==
      if OwnsId(db.tasks, caller, d.source) then 0 else multiset(db.deps)[d]
    {
      KeepCount(db.deps, NotFrom(IdsOwnedBy(db.tasks, caller)), d);
    }
  }

  // ---------- waiting ----------

  /** An unclosed row with this id. */
  ghost predicate Unclosed(tasks: seq<Task>, id: string) {
    exists k :: 0 <= k < |tasks| && tasks[k].id == id && tasks[k].status != Closed
  }

  /** A task waits for the dependencies it has, one by one: those that are not merely related, on an unclosed task. */
  lemma {:induction false} WaitsExact(tasks: seq<Task>, deps: seq<Dep>, d: Dep, id: string)
    ensures !HasOpenBlocker(Db(tasks, []), id)
    ensures HasOpenBlocker(Db(tasks, deps + [d]), id) <==>
      HasOpenBlocker(Db(tasks, deps), id) || (d.source == id && d.kind != Related && Unclosed(tasks, d.target))
  {
    assert forall x :: x in deps + [d] <==> x in deps || x == d;
    assert forall b :: b in tasks <==> exists k :: 0 <= k < |tasks| && tasks[k] == b;
  }

  /** The task waits for an unclosed task other than the one at position `k`. */
  ghost predicate WaitsForOther(db: Db, id: string, k: nat) {
    exists d, j :: d in db.deps && d.source == id && d.kind != Related &&
                   0 <= j < |db.tasks| && j != k && db.tasks[j].id == d.target && db.tasks[j].status != Closed
  }

  /** Closing a task ends exactly the waiting for it: a task with no other unclosed blocker waits no longer. */
  lemma {:induction false} CloseUnblocks(
      db: Db, auth: AuthChecker, caller: string, k: nat, reason: string, id: string)
    requires Valid(db) && k < |db.tasks| && db.tasks[k].status != Closed && auth(caller, db.tasks[k].owner)
    ensures HasOpenBlocker(Close(db, auth, caller, db.tasks[k].id, reason).0, id) <==> WaitsForOther(db, id, k)
  {
    CloseExact(db, auth, caller, k, reason);
    OtherWaits(db, Close(db, auth, caller, db.tasks[k].id, reason).0, id, k);
  }

  lemma {:induction false} OtherWaits(db: Db, db': Db, id: string, k: nat)
    requires db'.deps == db.deps && OnlyRow(db.tasks, db'.tasks, k) && db'.tasks[k].status == Closed
    ensures HasOpenBlocker(db', id) <==> WaitsForOther(db, id, k)
  {
    if HasOpenBlocker(db', id) {
      var d, b :| d in db'.deps && d.source == id && IsBlocking(d.kind) &&
                  b in db'.tasks && b.id == d.target && b.status != Closed;
      var j :| 0 <= j < |db'.tasks| && db'.tasks[j] == b;
      assert db.tasks[j] == b;
    }
    if WaitsForOther(db, id, k) {
      var d, j :| d in db.deps && d.source == id && d.kind != Related &&
                  0 <= j < |db.tasks| && j != k && db.tasks[j].id == d.target && db.tasks[j].status != Closed;
      assert db'.tasks[j] in db'.tasks && IsBlocking(d.kind);
    }
  }

  lemma {:induction false} NothingOwned(tasks: seq<Task>, owner: string)
    ensures CountOwned(tasks, owner) == 0 ==> forall t :: t in tasks ==> t.owner != owner
    decreases tasks
  {
    if tasks != [] {
      NothingOwned(tasks[1..], owner);
      assert forall t :: t in tasks <==> t == tasks[0] || t in tasks[1..];
    }
  }
}
