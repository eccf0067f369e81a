/**
 The subagent auth checker: a session may write an owner's tasks when the owner is
 itself or an ancestor in the parent map, which may contain cycles.
 */
module AuthChecker {
  type ParentMap = map<string, string>

  /** The session `n` parent links above `s`, when they all exist, is `t`. */
  ghost predicate Above(parents: ParentMap, s: string, n: nat, t: string)
    decreases n
  {
    if n == 0 then s == t
    else s in parents && Above(parents, parents[s], n - 1, t)
  }

  /** `owner` is the caller or one of its ancestors. */
  ghost predicate Descends(parents: ParentMap, caller: string, owner: string) {
    exists n: nat :: Above(parents, caller, n, owner)
  }

  lemma {:induction false} AboveJoin(parents: ParentMap, s: string, m: nat, t: string, n: nat, u: string)
    requires Above(parents, s, m, t) && Above(parents, t, n, u)
    ensures Above(parents, s, m + n, u)
    decreases m
  {
    if m > 0 {
      AboveJoin(parents, parents[s], m - 1, t, n, u);
    }
  }

  /** What the walk knows: visited sessions lead on to visited ones or to the current one. */
  ghost predicate Walking(parents: ParentMap, caller: string, owner: string, visited: set<string>, current: string) {
    && visited <= parents.Keys && owner !in visited && current != owner
    && (caller in visited || caller == current)
    && forall v :: v in visited ==> parents[v] in visited || parents[v] == current
  }

  /** Once the walk cannot go on, everything above a visited session was seen. */
  lemma {:induction false} NothingMissed(
      parents: ParentMap, caller: string, owner: string, visited: set<string>, current: string, s: string, n: nat)
    requires Walking(parents, caller, owner, visited, current)
    requires current !in parents || current in visited
    requires s in visited || s == current
    ensures !Above(parents, s, n, owner)
    decreases n
  {
    if n > 0 && s in parents {
      NothingMissed(parents, caller, owner, visited, current, parents[s], n - 1);
    }
  }

  /** The source's loop. It ends for every map and loses no answer by stopping at the first revisit. */
  method CanWrite(parentSessionMap: ParentMap, callerSession: string, ownerSession: string) returns (allowed: bool)
    ensures allowed <==> Descends(parentSessionMap, callerSession, ownerSession)
  {
    if callerSession == ownerSession {
      assert Above(parentSessionMap, callerSession, 0, ownerSession);
      return true;
    }
    var current := callerSession;
    var visited: set<string> := {};
    ghost var steps := 0;
    assert Above(parentSessionMap, callerSession, 0, current);
    while current in parentSessionMap && current !in visited
      invariant Walking(parentSessionMap, callerSession, ownerSession, visited, current)
      invariant Above(parentSessionMap, callerSession, steps, current)
      decreases parentSessionMap.Keys - visited
    {
      visited := visited + {current};
      assert Above(parentSessionMap, current, 1, parentSessionMap[current]);
      AboveJoin(parentSessionMap, callerSession, steps, current, 1, parentSessionMap[current]);
      current := parentSessionMap[current];
      steps := steps + 1;
      if current == ownerSession {
        return true;
      }
    }
    forall n: nat ensures !Above(parentSessionMap, callerSession, n, ownerSession) {
      NothingMissed(parentSessionMap, callerSession, ownerSession, visited, current, callerSession, n);
    }
    return false;
  }

  /** Write authority is reflexive and passes along: whoever may write for a session may write for its owners. */
  lemma {:induction false} DescendsPreorder(parents: ParentMap, a: string, b: string, c: string)
    ensures Descends(parents, a, a)
    ensures Descends(parents, a, b) && Descends(parents, b, c) ==> Descends(parents, a, c)
  {
    assert Above(parents, a, 0, a);
    if Descends(parents, a, b) && Descends(parents, b, c) {
      var m: nat :| Above(parents, a, m, b);
      var n: nat :| Above(parents, b, n, c);
      AboveJoin(parents, a, m, b, n, c);
    }
  }
}
