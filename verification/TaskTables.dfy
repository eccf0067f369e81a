/**
 The two tables of the task tracker as row sequences in insertion order, the
 queries on them, and every operation of the store as a function from tables to
 tables. The class in TaskStore.dfy updates its tables in place and is proved to
 compute these functions.
 */
module TaskTables {
  import opened Option
  import G = Graph

  datatype Status = Open | InProgress | Blocked | Closed
  datatype DepType = Blocks | ParentChild | Related
  datatype TaskType = Plain | Epic | Bug

  datatype Task = Task(
    id: string, parentId: Option<string>, owner: string, title: string, description: string,
    acceptance: string, status: Status, priority: int, kind: TaskType, closeReason: Option<string>)

  datatype Dep = Dep(source: string, target: string, kind: DepType)

  datatype Db = Db(tasks: seq<Task>, deps: seq<Dep>)

  datatype Error =
    | NotFound(id: string)
    | NotAuthorized(caller: string, owner: string)
    | Cycle(path: seq<string>)
    | BadTransition(from: Status, to: Status)
    | DuplicateRow

  datatype Result<+T> = Ok(value: T) | Err(error: Error)

  type AuthChecker = (string, string) -> bool

  datatype CreateInput = CreateInput(
    title: string, description: string, acceptance: string, priority: int, kind: TaskType,
    parentId: Option<string>, dependsOn: seq<string>)

  datatype UpdateInput = UpdateInput(
    status: Option<Status>, priority: Option<int>, description: Option<string>, acceptance: Option<string>)

  // ---------- queries ----------

  function Find(tasks: seq<Task>, id: string): (r: Option<Task>)
    ensures r.Some? ==> r.value in tasks && r.value.id == id
    ensures r.None? ==> forall t :: t in tasks ==> t.id != id
  {
    if tasks == [] then None
    else if tasks[0].id == id then Some(tasks[0])
    else Find(tasks[1..], id)
  }

  predicate IsBlocking(kind: DepType) {
    kind == Blocks || kind == ParentChild
  }

  /** The edges of the blocking dependencies: from a task to what it waits for. */
  ghost function Blocking(deps: seq<Dep>): G.Edges {
    set d | d in deps && IsBlocking(d.kind) :: (d.source, d.target)
  }

  /** SELECT target_id FROM task_deps WHERE source_id = ? AND dep_type is blocking. */
  function BlockingTargets(deps: seq<Dep>, source: string): (r: seq<string>)
    ensures forall x :: x in r <==> (source, x) in Blocking(deps)
  {
    if deps == [] then []
    else
      assert forall d :: d in deps <==> d == deps[0] || d in deps[1..];
      (if deps[0].source == source && IsBlocking(deps[0].kind) then [deps[0].target] else [])
      + BlockingTargets(deps[1..], source)
  }

  predicate HasDep(deps: seq<Dep>, source: string, target: string) {
    exists d :: d in deps && d.source == source && d.target == target
  }

  predicate Allowed(from: Status, to: Status) {
    match from
    case Open => to == InProgress || to == Closed
    case InProgress => to == Closed || to == Blocked
    case Blocked => to == InProgress || to == Closed
    case Closed => false
  }

  /** `if (input.parentId)`: the empty string counts as absent. */
  predicate Truthy(s: Option<string>) {
    s.Some? && s.value != ""
  }

  // ---------- row updates ----------

  /** UPDATE tasks SET ... WHERE id = ? with the row's new value. */
  function SetRow(tasks: seq<Task>, row: Task): (r: seq<Task>)
    ensures |r| == |tasks|
    ensures forall k :: 0 <= k < |r| ==> r[k] == if tasks[k].id == row.id then row else tasks[k]
  {
    seq(|tasks|, k requires 0 <= k < |tasks| => if tasks[k].id == row.id then row else tasks[k])
  }

  /** DELETE FROM tasks WHERE owner_session = ?. */
  function DropOwned(tasks: seq<Task>, owner: string): (r: seq<Task>)
    ensures forall t :: t in r <==> t in tasks && t.owner != owner
  {
    if tasks == [] then []
    else
      var n := |tasks| - 1;
      assert forall t :: t in tasks <==> t in tasks[..n] || t == tasks[n];
      DropOwned(tasks[..n], owner) + if tasks[n].owner == owner then [] else [tasks[n]]
  }

  /** The dependency rows that a DELETE leaves. */
  function Keep(deps: seq<Dep>, stays: Dep -> bool): (r: seq<Dep>)
    ensures forall d :: d in r <==> d in deps && stays(d)
  {
    if deps == [] then []
    else
      var n := |deps| - 1;
      assert forall d :: d in deps <==> d in deps[..n] || d == deps[n];
      Keep(deps[..n], stays) + if stays(deps[n]) then [deps[n]] else []
  }

  function NotFrom(gone: set<string>): Dep -> bool {
    (d: Dep) => d.source !in gone
  }

  function OtherThan(source: string, target: string): Dep -> bool {
    (d: Dep) => d.source != source || d.target != target
  }

  /** DELETE FROM task_deps WHERE source_id IN (the given ids). */
  function DropSources(deps: seq<Dep>, gone: set<string>): (r: seq<Dep>)
    ensures forall d :: d in r <==> d in deps && d.source !in gone
  {
    Keep(deps, NotFrom(gone))
  }

  /** DELETE FROM task_deps WHERE source_id = ? AND target_id = ?. */
  function DropDep(deps: seq<Dep>, source: string, target: string): (r: seq<Dep>)
    ensures forall d :: d in r <==> d in deps && (d.source != source || d.target != target)
  {
    Keep(deps, OtherThan(source, target))
  }

  /** SELECT ids FROM tasks WHERE owner_session = ?. */
  function IdsOwnedBy(tasks: seq<Task>, owner: string): set<string> {
    set t | t in tasks && t.owner == owner :: t.id
  }

  function CountOwned(tasks: seq<Task>, owner: string): nat {
    if tasks == [] then 0
    else (if tasks[0].owner == owner then 1 else 0) + CountOwned(tasks[1..], owner)
  }

  // ---------- operations ----------

  /** `addDepInternal`: self-edge, cycle and primary-key checks, then the insert. */
  ghost function InsertDep(db: Db, source: string, target: string, kind: DepType): (Db, Result<Dep>) {
    if source == target then (db, Err(Cycle([source])))
    else if IsBlocking(kind) && G.Reach(Blocking(db.deps), target, source) then
      (db, Err(Cycle([source, target])))
    else if HasDep(db.deps, source, target) then (db, Err(DuplicateRow))
    else
      var d := Dep(source, target, kind);
      (db.(deps := db.deps + [d]), Ok(d))
  }

  ghost function InsertBlocks(db: Db, source: string, targets: seq<string>): (Db, Result<()>)
    decreases targets
  {
    if targets == [] then (db, Ok(()))
    else
      var (db', r) := InsertDep(db, source, targets[0], Blocks);
      if r.Err? then (db', Err(r.error)) else InsertBlocks(db', source, targets[1..])
  }

  function NewTask(caller: string, input: CreateInput, id: string): Task {
    Task(id, input.parentId, caller, input.title, input.description, input.acceptance,
         Open, input.priority, input.kind, None)
  }

  /** The parent check that precedes every write of `create`. */
  function CheckParent(db: Db, auth: AuthChecker, caller: string, parentId: Option<string>): Result<()> {
    if !Truthy(parentId) then Ok(())
    else
      var parent := Find(db.tasks, parentId.value);
      if parent.None? then Err(NotFound(parentId.value))
      else if !auth(caller, parent.value.owner) then Err(NotAuthorized(caller, parent.value.owner))
      else Ok(())
  }

  ghost function Create(db: Db, auth: AuthChecker, caller: string, input: CreateInput, id: string): (Db, Result<Task>) {
    var check := CheckParent(db, auth, caller, input.parentId);
    if check.Err? then (db, Err(check.error))
    else
      var task := NewTask(caller, input, id);
      var db1 := db.(tasks := db.tasks + [task]);
      var (db2, r2) := if Truthy(input.parentId) then InsertDep(db1, id, input.parentId.value, ParentChild)
                       else (db1, Ok(Dep(id, id, ParentChild)));
      if r2.Err? then (db2, Err(r2.error))
      else
        var (db3, r3) := InsertBlocks(db2, id, input.dependsOn);
        if r3.Err? then (db3, Err(r3.error)) else (db3, Ok(task))
  }

  function Update(db: Db, auth: AuthChecker, caller: string, id: string, input: UpdateInput): (Db, Result<Task>) {
    var found := Find(db.tasks, id);
    if found.None? then (db, Err(NotFound(id)))
    else
      var task := found.value;
      if !auth(caller, task.owner) then (db, Err(NotAuthorized(caller, task.owner)))
      else if input.status.Some? && !Allowed(task.status, input.status.value) then
        (db, Err(BadTransition(task.status, input.status.value)))
      else if input == UpdateInput(None, None, None, None) then (db, Ok(task))
      else
        var row := task.(
          status := if input.status.Some? then input.status.value else task.status,
          priority := if input.priority.Some? then input.priority.value else task.priority,
          description := if input.description.Some? then input.description.value else task.description,
          acceptance := if input.acceptance.Some? then input.acceptance.value else task.acceptance);
        (db.(tasks := SetRow(db.tasks, row)), Ok(row))
  }

  function Close(db: Db, auth: AuthChecker, caller: string, id: string, reason: string): (Db, Result<Task>) {
    var found := Find(db.tasks, id);
    if found.None? then (db, Err(NotFound(id)))
    else
      var task := found.value;
      if !auth(caller, task.owner) then (db, Err(NotAuthorized(caller, task.owner)))
      else if !Allowed(task.status, Closed) then (db, Err(BadTransition(task.status, Closed)))
      else
        var row := task.(status := Closed, closeReason := Some(reason));
        (db.(tasks := SetRow(db.tasks, row)), Ok(row))
  }

  ghost function AddDep(
      db: Db, auth: AuthChecker, caller: string, source: string, target: string, kind: DepType): (Db, Result<Dep>)
  {
    var found := Find(db.tasks, source);
    if found.None? then (db, Err(NotFound(source)))
    else if !auth(caller, found.value.owner) then (db, Err(NotAuthorized(caller, found.value.owner)))
    else if Find(db.tasks, target).None? then (db, Err(NotFound(target)))
    else InsertDep(db, source, target, kind)
  }

  function RemoveDep(db: Db, auth: AuthChecker, caller: string, source: string, target: string): (Db, Result<()>) {
    var found := Find(db.tasks, source);
    if found.None? then (db, Err(NotFound(source)))
    else if !auth(caller, found.value.owner) then (db, Err(NotAuthorized(caller, found.value.owner)))
    else (db.(deps := DropDep(db.deps, source, target)), Ok(()))
  }

  /** `list("")` is the unfiltered list, so an empty caller counts every row. */
  function DeleteBySession(db: Db, caller: string): (Db, nat) {
    var listed := if caller == "" then |db.tasks| else CountOwned(db.tasks, caller);
    if listed == 0 then (db, 0)
    else
      (Db(DropOwned(db.tasks, caller), DropSources(db.deps, IdsOwnedBy(db.tasks, caller))), listed)
  }

  // ---------- ready work ----------

  /** The NOT EXISTS subquery: a dependency row joined with an unclosed blocker row. */
  predicate HasOpenBlocker(db: Db, id: string) {
    exists d, b ::
      d in db.deps && d.source == id && IsBlocking(d.kind) &&
      b in db.tasks && b.id == d.target && b.status != Closed
  }

  /** The ready query; creation order is table order. */
  function Ready(db: Db, owner: Option<string>): (r: seq<Task>)
    ensures forall t :: t in r <==> IsReady(db, t, owner)
  {
    ByPriority(ReadyRows(db, db.tasks, owner))
  }

  predicate IsReady(db: Db, t: Task, owner: Option<string>) {
    t in db.tasks && t.status == Open && !HasOpenBlocker(db, t.id) && (Truthy(owner) ==> t.owner == owner.value)
  }

  /** ORDER BY priority ASC, with ties left in the order given. */
  function ByPriority(rows: seq<Task>): (r: seq<Task>)
    ensures forall t :: t in r <==> t in rows
  {
    if rows == [] then []
    else
      assert forall x :: x in rows <==> x == rows[0] || x in rows[1..];
      InsertByPriority(rows[0], ByPriority(rows[1..]))
  }

  function InsertByPriority(t: Task, rows: seq<Task>): (r: seq<Task>)
    ensures forall x :: x in r <==> x == t || x in rows
  {
    if rows == [] || t.priority <= rows[0].priority then [t] + rows
    else
      assert forall x :: x in rows <==> x == rows[0] || x in rows[1..];
      [rows[0]] + InsertByPriority(t, rows[1..])
  }

  function ReadyRows(db: Db, rows: seq<Task>, owner: Option<string>): (r: seq<Task>)
    ensures forall t :: t in r <==>
      t in rows && t.status == Open && !HasOpenBlocker(db, t.id) &&
      (Truthy(owner) ==> t.owner == owner.value)
  {
    if rows == [] then []
    else
      var t := rows[0];
      assert forall x :: x in rows <==> x == t || x in rows[1..];
      (if t.status == Open && (!Truthy(owner) || t.owner == owner.value) && !HasOpenBlocker(db, t.id) then [t] else [])
      + ReadyRows(db, rows[1..], owner)
  }
}
