/** The order of the ready query: by priority, ties in table order, every row as often as in the table. */
module ReadyOrder {
  import opened Option
  import opened TaskTables

  /** Some occurrence of `x` comes before some occurrence of `y`. */
  ghost predicate Before(rows: seq<Task>, x: Task, y: Task) {
    exists a, b :: 0 <= a < b < |rows| && rows[a] == x && rows[b] == y
  }

  ghost predicate Ordered(rows: seq<Task>, r: seq<Task>) {
    forall i, j :: 0 <= i < j < |r| ==> InOrder(rows, r[i], r[j])
  }

  /** Lower priority first; at equal priority the earlier row first. */
  ghost predicate InOrder(rows: seq<Task>, x: Task, y: Task) {
    x.priority < y.priority || (x.priority == y.priority && Before(rows, x, y))
  }

  lemma {:induction false} BeforeCons(t: Task, rows: seq<Task>, x: Task, y: Task)
    ensures Before(rows, x, y) ==> Before([t] + rows, x, y)
    ensures y in rows ==> Before([t] + rows, t, y)
  {
    var all := [t] + rows;
    if Before(rows, x, y) {
      var a, b :| 0 <= a < b < |rows| && rows[a] == x && rows[b] == y;
      assert all[a + 1] == x && all[b + 1] == y;
    }
    if y in rows {
      var b :| 0 <= b < |rows| && rows[b] == y;
      assert all[0] == t && all[b + 1] == y;
    }
  }

  lemma {:induction false} OrderedCons(rows: seq<Task>, x: Task, r: seq<Task>)
    requires Ordered(rows, r) && forall y :: y in r ==> InOrder(rows, x, y)
    ensures Ordered(rows, [x] + r)
  {
    var all := [x] + r;
    forall i, j | 0 <= i < j < |all| ensures InOrder(rows, all[i], all[j]) {
      assert all[j] == r[j - 1] && all[j] in r;
    }
  }

  lemma {:induction false} OrderedTail(rows: seq<Task>, r: seq<Task>)
    requires Ordered(rows, r) && r != []
    ensures Ordered(rows, r[1..]) && forall y :: y in r[1..] ==> InOrder(rows, r[0], y)
  {
    forall y | y in r[1..] ensures InOrder(rows, r[0], y) {
      var j :| 0 <= j < |r[1..]| && r[1..][j] == y;
      assert r[j + 1] == y;
    }
  }

  lemma {:induction false} InsertCount(t: Task, r: seq<Task>)
    ensures multiset(InsertByPriority(t, r)) == multiset{t} + multiset(r)
    decreases r
  {
    if r != [] && t.priority > r[0].priority {
      InsertCount(t, r[1..]);
      assert r == [r[0]] + r[1..];
    }
  }

  lemma {:induction false} FirstInOrder(t: Task, rows: seq<Task>, r: seq<Task>)
    requires Ordered(rows, r) && forall y :: y in r ==> Before(rows, t, y)
    requires r == [] || t.priority <= r[0].priority
    ensures Ordered(rows, [t] + r)
  {
    if r != [] {
      OrderedTail(rows, r);
      assert forall y :: y in r ==> y == r[0] || y in r[1..];
    }
    OrderedCons(rows, t, r);
  }

  /** Inserting a row that comes before all the others of the table. */
  lemma {:induction false} InsertOrdered(t: Task, rows: seq<Task>, r: seq<Task>)
    requires Ordered(rows, r) && forall y :: y in r ==> Before(rows, t, y)
    ensures Ordered(rows, InsertByPriority(t, r))
    decreases r
  {
    if r == [] || t.priority <= r[0].priority {
      FirstInOrder(t, rows, r);
    } else {
      OrderedTail(rows, r);
      InsertOrdered(t, rows, r[1..]);
      OrderedCons(rows, r[0], InsertByPriority(t, r[1..]));
    }
  }

  lemma {:induction false} OrderedWeaken(t: Task, rows: seq<Task>, r: seq<Task>)
    requires Ordered(rows, r)
    ensures Ordered([t] + rows, r)
  {
    forall i, j | 0 <= i < j < |r| ensures InOrder([t] + rows, r[i], r[j]) {
      assert InOrder(rows, r[i], r[j]);
      BeforeCons(t, rows, r[i], r[j]);
    }
  }

  lemma {:induction false} ByPriorityOrdered(rows: seq<Task>)
    ensures Ordered(rows, ByPriority(rows)) && multiset(ByPriority(rows)) == multiset(rows)
    decreases rows
  {
    if rows != [] {
      var t, rest := rows[0], rows[1..];
      assert rows == [t] + rest;
      ByPriorityOrdered(rest);
      OrderedWeaken(t, rest, ByPriority(rest));
      forall y | y in ByPriority(rest) ensures Before(rows, t, y) {
        BeforeCons(t, rest, t, y);
      }
      InsertOrdered(t, rows, ByPriority(rest));
      InsertCount(t, ByPriority(rest));
    }
  }

  lemma {:induction false} RowsStep(db: Db, t: Task, rest: seq<Task>, owner: Option<string>)
    requires t in db.tasks
    ensures ReadyRows(db, [t] + rest, owner) ==
      if IsReady(db, t, owner) then [t] + ReadyRows(db, rest, owner) else ReadyRows(db, rest, owner)
  {
    assert ([t] + rest)[1..] == rest;
  }

  lemma {:induction false} ReadyHead(db: Db, t: Task, rest: seq<Task>, owner: Option<string>, x: Task, y: Task)
    requires t in db.tasks && Before(ReadyRows(db, [t] + rest, owner), x, y)
    ensures Before(ReadyRows(db, rest, owner), x, y) || (x == t && y in rest)
  {
    RowsStep(db, t, rest, owner);
    if IsReady(db, t, owner) {
      HeadBefore(t, ReadyRows(db, rest, owner), x, y);
    }
  }

  /** The filter keeps the table's order. */
  lemma {:induction false} RowsBefore(db: Db, rows: seq<Task>, owner: Option<string>, x: Task, y: Task)
    requires (forall t :: t in rows ==> t in db.tasks) && Before(ReadyRows(db, rows, owner), x, y)
    ensures Before(rows, x, y)
    decreases rows
  {
    if rows != [] {
      var t, rest := rows[0], rows[1..];
      assert rows == [t] + rest && t in rows;
      ReadyHead(db, t, rest, owner, x, y);
      BeforeCons(t, rest, x, y);
      if Before(ReadyRows(db, rest, owner), x, y) {
        RowsBefore(db, rest, owner, x, y);
      }
    }
  }

  /** And every occurrence of a ready row. */
  lemma {:induction false} RowsCount(db: Db, rows: seq<Task>, owner: Option<string>, x: Task)
    requires forall t :: t in rows ==> t in db.tasks
    ensures multiset(ReadyRows(db, rows, owner))[x] == if IsReady(db, x, owner) then multiset(rows)[x] else 0
    decreases rows
  {
    if rows != [] {
      var t, rest := rows[0], rows[1..];
      assert rows == [t] + rest && t in rows;
      RowsStep(db, t, rest, owner);
      RowsCount(db, rest, owner, x);
    }
  }

  lemma {:induction false} HeadBefore(t: Task, rows: seq<Task>, x: Task, y: Task)
    requires Before([t] + rows, x, y)
    ensures Before(rows, x, y) || (x == t && y in rows)
  {
    var a, b :| 0 <= a < b < |[t] + rows| && ([t] + rows)[a] == x && ([t] + rows)[b] == y;
    assert rows[b - 1] == y;
    if a > 0 {
      assert rows[a - 1] == x;
    }
  }

  /**
   The ready query returns every ready row exactly as often as the table has it, by
   priority, and rows of equal priority in table order.
   */
  lemma {:induction false} ReadyInOrder(db: Db, owner: Option<string>)
    ensures Ordered(db.tasks, Ready(db, owner))
    ensures forall t :: multiset(Ready(db, owner))[t] == if IsReady(db, t, owner) then multiset(db.tasks)[t] else 0
  {
    var rows := ReadyRows(db, db.tasks, owner);
    var r := Ready(db, owner);
    ByPriorityOrdered(rows);
    forall i, j | 0 <= i < j < |r| ensures InOrder(db.tasks, r[i], r[j]) {
      assert InOrder(rows, r[i], r[j]);
      if r[i].priority == r[j].priority {
        RowsBefore(db, db.tasks, owner, r[i], r[j]);
      }
    }
    forall t ensures multiset(r)[t] == if IsReady(db, t, owner) then multiset(db.tasks)[t] else 0 {
      RowsCount(db, db.tasks, owner, t);
    }
  }
}
