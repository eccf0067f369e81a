/**
 The tree query. In every reachable table the recursion ends, and the tree of a
 root lists the root and each of its descendants exactly once, at the depth that
 counts the parent links up to the root. Rows whose parent was deleted simply do
 not hang below anything.
 */
module TaskTree {
  import opened Option
  import opened TaskTables
  import opened TaskInvariants
  import opened TaskRuns
  import opened ReadyOrder

  datatype TreeNode = TreeNode(task: Task, depth: nat, children: seq<TreeNode>)

  /** Position of the row with this id. */
  function RowOf(tasks: seq<Task>, id: string): (r: Option<nat>)
    ensures r.Some? ==> r.value < |tasks| && tasks[r.value].id == id
    ensures r.None? ==> forall k :: 0 <= k < |tasks| ==> tasks[k].id != id
  {
    if tasks == [] then None
    else if tasks[0].id == id then Some(0)
    else match RowOf(tasks[1..], id) case None => None case Some(k) => Some(k + 1)
  }

  /** SELECT * FROM tasks WHERE parent_id = ? ORDER BY created_at, as row positions. */
  function ChildRows(tasks: seq<Task>, id: string): (r: seq<nat>)
    ensures forall i :: 0 <= i < |r| ==> r[i] < |tasks| && tasks[r[i]].parentId == Some(id)
    ensures forall k :: 0 <= k < |tasks| && tasks[k].parentId == Some(id) ==> k in r
    ensures forall i, j :: 0 <= i < j < |r| ==> r[i] < r[j]
  {
    if tasks == [] then []
    else
      var n := |tasks| - 1;
      var rest := ChildRows(tasks[..n], id);
      assert forall k :: 0 <= k < n ==> tasks[..n][k] == tasks[k];
      rest + if tasks[n].parentId == Some(id) then [n] else []
  }

  lemma {:induction false} ParentIsEarlier(tasks: seq<Task>, i: nat, j: nat)
    requires ParentsFirst(tasks) && i < |tasks| && j < |tasks|
    ensures tasks[i].parentId == Some(tasks[j].id) ==> j < i
    ensures tasks[i].id == tasks[j].id ==> i == j
  {
    assert i <= j || j <= i;
  }

  ghost predicate Later(kids: seq<nat>, above: nat, n: nat) {
    forall i :: 0 <= i < |kids| ==> above < kids[i] < n
  }

  lemma {:induction false} KidsAreLater(tasks: seq<Task>, k: nat)
    requires ParentsFirst(tasks) && k < |tasks|
    ensures var kids := ChildRows(tasks, tasks[k].id);
      Later(kids, k, |tasks|)
  {
    var kids := ChildRows(tasks, tasks[k].id);
    forall i | 0 <= i < |kids| ensures k < kids[i] {
      ParentIsEarlier(tasks, kids[i], k);
    }
  }

  /** What `buildTreeRecursive` makes of the row at position `k`. */
  function TreeAt(tasks: seq<Task>, k: nat, depth: nat): TreeNode
    requires ParentsFirst(tasks) && k < |tasks|
    decreases |tasks| - k, 1, 0
  {
    var kids := ChildRows(tasks, tasks[k].id);
    KidsAreLater(tasks, k);
    TreeNode(tasks[k], depth, Forest(tasks, k, kids, depth + 1))
  }

  function Forest(tasks: seq<Task>, above: nat, kids: seq<nat>, depth: nat): seq<TreeNode>
    requires ParentsFirst(tasks) && above < |tasks|
    requires Later(kids, above, |tasks|)
    decreases |tasks| - above, 0, |kids|
  {
    if kids == [] then []
    else [TreeAt(tasks, kids[0], depth)] + Forest(tasks, above, kids[1..], depth)
  }

  /** The first `i` children are built. */
  ghost predicate Built(tasks: seq<Task>, above: nat, kids: seq<nat>, i: nat, depth: nat, children: seq<TreeNode>)
    requires ParentsFirst(tasks) && above < |tasks| && Later(kids, above, |tasks|) && i <= |kids|
  {
    children + Forest(tasks, above, kids[i..], depth) == Forest(tasks, above, kids, depth)
  }

  lemma {:induction false} BuildStep(
      tasks: seq<Task>, above: nat, kids: seq<nat>, i: nat, depth: nat, children: seq<TreeNode>)
    requires ParentsFirst(tasks) && above < |tasks| && Later(kids, above, |tasks|) && i < |kids|
    requires Built(tasks, above, kids, i, depth, children)
    ensures above < kids[i] < |tasks|
    ensures Built(tasks, above, kids, i + 1, depth, children + [TreeAt(tasks, kids[i], depth)])
  {
    assert kids[i..][0] == kids[i] && kids[i..][1..] == kids[i + 1..];
    var rest := Forest(tasks, above, kids[i + 1..], depth);
    assert children + ([TreeAt(tasks, kids[i], depth)] + rest) == (children + [TreeAt(tasks, kids[i], depth)]) + rest;
  }

  lemma {:induction false} BuildEnds(tasks: seq<Task>, above: nat, kids: seq<nat>, depth: nat, children: seq<TreeNode>)
    requires ParentsFirst(tasks) && above < |tasks| && Later(kids, above, |tasks|)
    ensures Built(tasks, above, kids, 0, depth, [])
    ensures Built(tasks, above, kids, |kids|, depth, children) ==> children == Forest(tasks, above, kids, depth)
  {
    assert kids[0..] == kids;
  }

  /** The recursion of the source: query the children, build each, push it. */
  method BuildTree(tasks: seq<Task>, k: nat, depth: nat) returns (node: TreeNode)
    requires ParentsFirst(tasks) && k < |tasks|
    ensures node == TreeAt(tasks, k, depth)
    decreases |tasks| - k
  {
    var kids := ChildRows(tasks, tasks[k].id);
    KidsAreLater(tasks, k);
    var children: seq<TreeNode> := [];
    BuildEnds(tasks, k, kids, depth + 1, children);
    for i := 0 to |kids|
      invariant Built(tasks, k, kids, i, depth + 1, children)
    {
      BuildStep(tasks, k, kids, i, depth + 1, children);
      var child := BuildTree(tasks, kids[i], depth + 1);
      children := children + [child];
    }
    BuildEnds(tasks, k, kids, depth + 1, children);
    node := TreeNode(tasks[k], depth, children);
  }

  method Tree(tasks: seq<Task>, rootId: string) returns (r: Option<TreeNode>)
    requires ParentsFirst(tasks)
    ensures r.None? <==> RowOf(tasks, rootId).None?
    ensures r.Some? ==> r.value == TreeAt(tasks, RowOf(tasks, rootId).value, 0)
  {
    var k := RowOf(tasks, rootId);
    if k.None? {
      return None;
    }
    var node := BuildTree(tasks, k.value, 0);
    return Some(node);
  }

  /** The rows of a tree with their depths, with multiplicity. */
  ghost function Entries(node: TreeNode): multiset<(Task, nat)> {
    multiset{(node.task, node.depth)} + ForestEntries(node.children)
  }

  ghost function ForestEntries(nodes: seq<TreeNode>): multiset<(Task, nat)> {
    if nodes == [] then multiset{} else Entries(nodes[0]) + ForestEntries(nodes[1..])
  }

  /** Number of parent links from row `k` up to row `root`, or -1 when `root` is not above it. */
  ghost function Level(tasks: seq<Task>, k: nat, root: nat): (r: int)
    requires ParentsFirst(tasks) && k < |tasks| && root < |tasks|
    ensures r == -1 || (r >= 0 && root <= k)
    decreases k
  {
    if k == root then 0
    else if tasks[k].parentId.None? then -1
    else
      var up := RowOf(tasks, tasks[k].parentId.value);
      if up.None? then -1
      else
        ParentIsEarlier(tasks, k, up.value);
        var above := Level(tasks, up.value, root);
        if above == -1 then -1 else above + 1
  }

  /** How often row `k` is expected at depth `e` below row `root` placed at depth `d`. */
  ghost function Expected(tasks: seq<Task>, k: nat, e: int, root: nat, d: int): nat
    requires ParentsFirst(tasks) && k < |tasks| && root < |tasks|
  {
    if Level(tasks, k, root) >= 0 && e == d + Level(tasks, k, root) then 1 else 0
  }

  ghost function ExpectedSum(tasks: seq<Task>, k: nat, e: int, kids: seq<nat>, d: int): nat
    requires ParentsFirst(tasks) && k < |tasks| && forall i :: 0 <= i < |kids| ==> kids[i] < |tasks|
  {
    if kids == [] then 0
    else Expected(tasks, k, e, kids[0], d) + ExpectedSum(tasks, k, e, kids[1..], d)
  }

  lemma {:induction false} SumZero(tasks: seq<Task>, k: nat, e: int, kids: seq<nat>, d: int)
    requires ParentsFirst(tasks) && k < |tasks|
    requires forall i :: 0 <= i < |kids| ==> kids[i] < |tasks| && Level(tasks, k, kids[i]) == -1
    ensures ExpectedSum(tasks, k, e, kids, d) == 0
    decreases kids
  {
    if kids != [] {
      SumZero(tasks, k, e, kids[1..], d);
    }
  }

  lemma {:induction false} SumSelf(tasks: seq<Task>, k: nat, e: int, kids: seq<nat>, d: int)
    requires ParentsFirst(tasks) && k < |tasks| && k in kids
    requires forall i :: 0 <= i < |kids| ==> kids[i] < |tasks| && (kids[i] != k ==> Level(tasks, k, kids[i]) == -1)
    requires forall i, j :: 0 <= i < j < |kids| ==> kids[i] < kids[j]
    ensures ExpectedSum(tasks, k, e, kids, d) == if e == d then 1 else 0
    decreases kids
  {
    if kids[0] == k {
      SumZero(tasks, k, e, kids[1..], d);
    } else {
      SumSelf(tasks, k, e, kids[1..], d);
    }
  }

  lemma {:induction false} SumUp(tasks: seq<Task>, k: nat, up: nat, e: int, kids: seq<nat>, d: int)
    requires ParentsFirst(tasks) && k < |tasks|
    requires tasks[k].parentId.Some? && RowOf(tasks, tasks[k].parentId.value) == Some(up)
    requires forall i :: 0 <= i < |kids| ==> kids[i] < |tasks| && kids[i] != k
    ensures up < k && ExpectedSum(tasks, k, e, kids, d) == ExpectedSum(tasks, up, e - 1, kids, d)
    decreases kids
  {
    ParentIsEarlier(tasks, k, up);
    if kids != [] {
      SumUp(tasks, k, up, e, kids[1..], d);
    }
  }

  /** A row strictly below `root` is below exactly one child of `root`, one level less deep. */
  lemma {:induction false} ChildrenPartition(tasks: seq<Task>, k: nat, e: int, root: nat, d: int)
    requires ParentsFirst(tasks) && k < |tasks| && root < |tasks| && k != root
    ensures var kids := ChildRows(tasks, tasks[root].id);
      ExpectedSum(tasks, k, e, kids, d + 1) == Expected(tasks, k, e, root, d)
    decreases k
  {
    var kids := ChildRows(tasks, tasks[root].id);
    KidsAreLater(tasks, root);
    var up := if tasks[k].parentId.None? then None else RowOf(tasks, tasks[k].parentId.value);
    if up.None? {
      NotAChild(tasks, k, root);
      forall i | 0 <= i < |kids| ensures Level(tasks, k, kids[i]) == -1 {}
      SumZero(tasks, k, e, kids, d + 1);
    } else {
      ParentIsEarlier(tasks, k, up.value);
      if up.value == root {
        DirectChild(tasks, k, e, root, d);
      } else {
        NotAChild(tasks, k, root);
        SumUp(tasks, k, up.value, e, kids, d + 1);
        ChildrenPartition(tasks, up.value, e - 1, root, d);
      }
    }
  }

  lemma {:induction false} DirectChild(tasks: seq<Task>, k: nat, e: int, root: nat, d: int)
    requires ParentsFirst(tasks) && k < |tasks| && root < k
    requires tasks[k].parentId.Some? && RowOf(tasks, tasks[k].parentId.value) == Some(root)
    ensures var kids := ChildRows(tasks, tasks[root].id);
      Later(kids, root, |tasks|) &&
      ExpectedSum(tasks, k, e, kids, d + 1) == Expected(tasks, k, e, root, d)
  {
    var kids := ChildRows(tasks, tasks[root].id);
    KidsAreLater(tasks, root);
    forall i | 0 <= i < |kids| && kids[i] != k ensures Level(tasks, k, kids[i]) == -1 {
      assert Level(tasks, root, kids[i]) == -1;
    }
    assert k in kids;
    SumSelf(tasks, k, e, kids, d + 1);
    assert Level(tasks, root, root) == 0 && Level(tasks, k, root) == 1;
  }

  /** A row whose parent lookup does not give `root` is not listed among its children. */
  lemma {:induction false} NotAChild(tasks: seq<Task>, k: nat, root: nat)
    requires ParentsFirst(tasks) && k < |tasks| && root < |tasks|
    requires tasks[k].parentId.Some? ==> RowOf(tasks, tasks[k].parentId.value) != Some(root)
    ensures var kids := ChildRows(tasks, tasks[root].id);
      forall i :: 0 <= i < |kids| ==> kids[i] < |tasks| && kids[i] != k
  {
    if tasks[k].parentId == Some(tasks[root].id) {
      var up := RowOf(tasks, tasks[root].id);
      ParentIsEarlier(tasks, root, up.value);
      assert false;
    }
  }

  lemma {:induction false} ForestSplit(tasks: seq<Task>, above: nat, kids: seq<nat>, d: nat)
    requires ParentsFirst(tasks) && above < |tasks| && kids != [] && Later(kids, above, |tasks|)
    ensures ForestEntries(Forest(tasks, above, kids, d)) ==
      Entries(TreeAt(tasks, kids[0], d)) + ForestEntries(Forest(tasks, above, kids[1..], d))
  {
    var forest := Forest(tasks, above, kids, d);
    assert forest[0] == TreeAt(tasks, kids[0], d);
    assert forest[1..] == Forest(tasks, above, kids[1..], d);
  }

  lemma {:induction false} TreeExact(tasks: seq<Task>, k: nat, e: nat, root: nat, d: nat)
    requires ParentsFirst(tasks) && k < |tasks| && root < |tasks|
    ensures Entries(TreeAt(tasks, root, d))[(tasks[k], e)] == Expected(tasks, k, e, root, d)
    decreases |tasks| - root, 1, 0
  {
    var kids := ChildRows(tasks, tasks[root].id);
    KidsAreLater(tasks, root);
    ForestExact(tasks, k, e, root, kids, d + 1);
    ParentIsEarlier(tasks, k, root);
    if k != root {
      ChildrenPartition(tasks, k, e, root, d);
    } else {
      SumZero(tasks, k, e, kids, d + 1);
    }
  }

  lemma {:induction false} ForestExact(tasks: seq<Task>, k: nat, e: nat, above: nat, kids: seq<nat>, d: nat)
    requires ParentsFirst(tasks) && k < |tasks| && above < |tasks|
    requires Later(kids, above, |tasks|)
    ensures ForestEntries(Forest(tasks, above, kids, d))[(tasks[k], e)] == ExpectedSum(tasks, k, e, kids, d)
    decreases |tasks| - above, 0, |kids|
  {
    if kids != [] {
      TreeExact(tasks, k, e, kids[0], d);
      ForestExact(tasks, k, e, above, kids[1..], d);
      ForestSplit(tasks, above, kids, d);
    }
  }

  /** No entry comes from outside the table. */
  lemma {:induction false} TreeOnlyRows(tasks: seq<Task>, t: Task, e: nat, root: nat, d: nat)
    requires ParentsFirst(tasks) && root < |tasks| && t !in tasks
    ensures (t, e) !in Entries(TreeAt(tasks, root, d))
    decreases |tasks| - root, 1, 0
  {
    var kids := ChildRows(tasks, tasks[root].id);
    KidsAreLater(tasks, root);
    ForestOnlyRows(tasks, t, e, root, kids, d + 1);
  }

  lemma {:induction false} ForestOnlyRows(tasks: seq<Task>, t: Task, e: nat, above: nat, kids: seq<nat>, d: nat)
    requires ParentsFirst(tasks) && above < |tasks| && t !in tasks
    requires Later(kids, above, |tasks|)
    ensures (t, e) !in ForestEntries(Forest(tasks, above, kids, d))
    decreases |tasks| - above, 0, |kids|
  {
    if kids != [] {
      TreeOnlyRows(tasks, t, e, kids[0], d);
      ForestOnlyRows(tasks, t, e, above, kids[1..], d);
      ForestSplit(tasks, above, kids, d);
    }
  }

  lemma {:induction false} RowOfRow(tasks: seq<Task>, k: nat)
    requires ParentsFirst(tasks) && k < |tasks|
    ensures RowOf(tasks, tasks[k].id) == Some(k)
  {
    var r := RowOf(tasks, tasks[k].id);
    ParentIsEarlier(tasks, r.value, k);
  }

  lemma {:induction false} TableTreeExact(tasks: seq<Task>, root: nat, t: Task, e: nat)
    requires ParentsFirst(tasks) && root < |tasks|
    ensures t in tasks ==> RowOf(tasks, t.id).Some?
    ensures Entries(TreeAt(tasks, root, 0))[(t, e)] ==
      if t in tasks && Level(tasks, RowOf(tasks, t.id).value, root) == e then 1 else 0
  {
    if t in tasks {
      var k :| 0 <= k < |tasks| && tasks[k] == t;
      RowOfRow(tasks, k);
      TreeExact(tasks, k, e, root, 0);
    } else {
      TreeOnlyRows(tasks, t, e, root, 0);
    }
  }

  /**
   After any run, the tree of a root holds a row at a depth once when the row is that
   many parent links below the root, and nothing else.
   */
  lemma {:induction false} ReachableTreeExact(calls: seq<Call>, root: nat, t: Task, e: nat)
    requires FreshIds(Db([], []), calls)
    requires root < |Run(Db([], []), calls).tasks|
    ensures var tasks := Run(Db([], []), calls).tasks;
      && ParentsFirst(tasks) && (t in tasks ==> RowOf(tasks, t.id).Some?)
      && Entries(TreeAt(tasks, root, 0))[(t, e)] ==
           if t in tasks && Level(tasks, RowOf(tasks, t.id).value, root) == e then 1 else 0
  {
    ReachableStatesAcyclic(calls);
    TableTreeExact(Run(Db([], []), calls).tasks, root, t, e);
  }

  // ---------- nesting ----------

  /** Below a node hang exactly the rows that name it as their parent, one level deeper and in table order. */
  ghost predicate Nested(tasks: seq<Task>, node: TreeNode) {
    && node.task in tasks
    && (forall t :: t in tasks && t.parentId == Some(node.task.id) ==> HasChild(node, t))
    && (forall i :: 0 <= i < |node.children| ==>
          var child := node.children[i];
          child.task.parentId == Some(node.task.id) && child.depth == node.depth + 1 && Nested(tasks, child))
    && (forall i, j :: 0 <= i < j < |node.children| ==> Before(tasks, node.children[i].task, node.children[j].task))
  }

  ghost predicate HasChild(node: TreeNode, t: Task) {
    exists i :: 0 <= i < |node.children| && node.children[i].task == t
  }

  lemma {:induction false} ForestAt(tasks: seq<Task>, above: nat, kids: seq<nat>, d: nat, i: nat)
    requires ParentsFirst(tasks) && above < |tasks| && Later(kids, above, |tasks|) && i < |kids|
    ensures |Forest(tasks, above, kids, d)| == |kids| && Forest(tasks, above, kids, d)[i] == TreeAt(tasks, kids[i], d)
    decreases |kids|
  {
    if |kids| > 1 {
      ForestAt(tasks, above, kids[1..], d, if i == 0 then 0 else i - 1);
    }
  }

  /** The children of a node, by position. */
  lemma {:induction false} ChildAt(tasks: seq<Task>, k: nat, depth: nat, i: nat)
    requires ParentsFirst(tasks) && k < |tasks| && i < |ChildRows(tasks, tasks[k].id)|
    ensures var kids, node := ChildRows(tasks, tasks[k].id), TreeAt(tasks, k, depth);
      && k < kids[i] < |tasks| && |node.children| == |kids|
      && node.children[i] == TreeAt(tasks, kids[i], depth + 1)
  {
    KidsAreLater(tasks, k);
    ForestAt(tasks, k, ChildRows(tasks, tasks[k].id), depth + 1, i);
  }

  lemma {:induction false} NoKidsNoChildren(tasks: seq<Task>, k: nat, depth: nat)
    requires ParentsFirst(tasks) && k < |tasks|
    ensures |TreeAt(tasks, k, depth).children| == |ChildRows(tasks, tasks[k].id)|
  {
    if ChildRows(tasks, tasks[k].id) != [] {
      ChildAt(tasks, k, depth, 0);
    }
  }

  /** The children of the node are the rows at these positions. */
  ghost predicate ChildrenAre(tasks: seq<Task>, node: TreeNode, kids: seq<nat>) {
    && |node.children| == |kids|
    && forall i :: 0 <= i < |kids| ==>
         kids[i] < |tasks| && node.children[i].task == tasks[kids[i]] && node.children[i].depth == node.depth + 1
  }

  lemma {:induction false} ChildrenAreRows(tasks: seq<Task>, k: nat, depth: nat)
    requires ParentsFirst(tasks) && k < |tasks|
    ensures ChildrenAre(tasks, TreeAt(tasks, k, depth), ChildRows(tasks, tasks[k].id))
  {
    NoKidsNoChildren(tasks, k, depth);
    forall i | 0 <= i < |ChildRows(tasks, tasks[k].id)|
      ensures var kids, node := ChildRows(tasks, tasks[k].id), TreeAt(tasks, k, depth);
        kids[i] < |tasks| && node.children[i].task == tasks[kids[i]] && node.children[i].depth == depth + 1
    {
      ChildAt(tasks, k, depth, i);
    }
  }

  lemma {:induction false} ChildrenComplete(tasks: seq<Task>, node: TreeNode, kids: seq<nat>)
    requires ChildrenAre(tasks, node, kids)
    requires forall j :: 0 <= j < |tasks| && tasks[j].parentId == Some(node.task.id) ==> j in kids
    ensures forall t :: t in tasks && t.parentId == Some(node.task.id) ==> HasChild(node, t)
  {
    forall t | t in tasks && t.parentId == Some(node.task.id) ensures HasChild(node, t) {
      var j :| 0 <= j < |tasks| && tasks[j] == t;
      var i :| 0 <= i < |kids| && kids[i] == j;
      assert node.children[i].task == t;
    }
  }

  lemma {:induction false} ChildrenOrdered(tasks: seq<Task>, node: TreeNode, kids: seq<nat>)
    requires ChildrenAre(tasks, node, kids)
    requires forall i, j :: 0 <= i < j < |kids| ==> kids[i] < kids[j]
    ensures forall i, j :: 0 <= i < j < |node.children| ==>
      Before(tasks, node.children[i].task, node.children[j].task)
  {
    forall i, j | 0 <= i < j < |node.children|
      ensures Before(tasks, node.children[i].task, node.children[j].task)
    {
      assert tasks[kids[i]] == node.children[i].task && tasks[kids[j]] == node.children[j].task;
    }
  }

  lemma {:induction false} TreeNested(tasks: seq<Task>, k: nat, depth: nat)
    requires ParentsFirst(tasks) && k < |tasks|
    ensures Nested(tasks, TreeAt(tasks, k, depth))
    decreases |tasks| - k
  {
    var kids, node := ChildRows(tasks, tasks[k].id), TreeAt(tasks, k, depth);
    ChildrenAreRows(tasks, k, depth);
    ChildrenComplete(tasks, node, kids);
    ChildrenOrdered(tasks, node, kids);
    forall i | 0 <= i < |kids| ensures Nested(tasks, node.children[i]) {
      ChildAt(tasks, k, depth, i);
      TreeNested(tasks, kids[i], depth + 1);
    }
    NestedHere(tasks, node, kids);
  }

  lemma {:induction false} NestedHere(tasks: seq<Task>, node: TreeNode, kids: seq<nat>)
    requires node.task in tasks && ChildrenAre(tasks, node, kids)
    requires forall t :: t in tasks && t.parentId == Some(node.task.id) ==> HasChild(node, t)
    requires forall i :: 0 <= i < |kids| ==> tasks[kids[i]].parentId == Some(node.task.id)
    requires forall i :: 0 <= i < |kids| ==> Nested(tasks, node.children[i])
    requires forall i, j :: 0 <= i < j < |node.children| ==>
      Before(tasks, node.children[i].task, node.children[j].task)
    ensures Nested(tasks, node)
  {}

  /** After any run, the tree of a root starts with the root at depth 0 and is nested by parent. */
  lemma {:induction false} ReachableTreeNested(calls: seq<Call>, root: nat)
    requires FreshIds(Db([], []), calls)
    requires root < |Run(Db([], []), calls).tasks|
    ensures var tasks := Run(Db([], []), calls).tasks;
      && ParentsFirst(tasks)
      && TreeAt(tasks, root, 0).task == tasks[root] && TreeAt(tasks, root, 0).depth == 0
      && Nested(tasks, TreeAt(tasks, root, 0))
  {
    ReachableStatesAcyclic(calls);
    TreeNested(Run(Db([], []), calls).tasks, root, 0);
  }
}
