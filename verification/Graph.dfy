/** Finite directed graphs as sets of edges: walks, reachability, cycles. */
module Graph {
  type Node = string
  type Edges = set<(Node, Node)>

  /** `p` lists the nodes visited after `a`; the walk ends in `b`. */
  ghost predicate Walk(g: Edges, a: Node, p: seq<Node>, b: Node)
    decreases p
  {
    if p == [] then a == b
    else (a, p[0]) in g && Walk(g, p[0], p[1..], b)
  }

  ghost predicate Reach(g: Edges, a: Node, b: Node) {
    exists p :: Walk(g, a, p, b)
  }

  /** No edge lies on a cycle. */
  ghost predicate Acyclic(g: Edges) {
    forall a, b :: (a, b) in g ==> !Reach(g, b, a)
  }

  lemma {:induction false} WalkConcat(g: Edges, a: Node, p: seq<Node>, b: Node, q: seq<Node>, c: Node)
    requires Walk(g, a, p, b) && Walk(g, b, q, c)
    ensures Walk(g, a, p + q, c)
    decreases p
  {
    if p == [] {
      assert p + q == q;
    } else {
      WalkConcat(g, p[0], p[1..], b, q, c);
      assert (p + q)[1..] == p[1..] + q;
    }
  }

  lemma {:induction false} ReachRefl(g: Edges, a: Node)
    ensures Reach(g, a, a)
  {
    assert Walk(g, a, [], a);
  }

  lemma {:induction false} ReachTrans(g: Edges, a: Node, b: Node, c: Node)
    requires Reach(g, a, b) && Reach(g, b, c)
    ensures Reach(g, a, c)
  {
    var p :| Walk(g, a, p, b);
    var q :| Walk(g, b, q, c);
    WalkConcat(g, a, p, b, q, c);
  }

  lemma {:induction false} ReachEdge(g: Edges, a: Node, b: Node)
    requires (a, b) in g
    ensures Reach(g, a, b)
  {
    assert Walk(g, b, [], b);
    assert Walk(g, a, [b], b);
  }

  lemma {:induction false} WalkMono(g: Edges, h: Edges, a: Node, p: seq<Node>, b: Node)
    requires g <= h && Walk(g, a, p, b)
    ensures Walk(h, a, p, b)
    decreases p
  {
    if p != [] {
      WalkMono(g, h, p[0], p[1..], b);
    }
  }

  ghost predicate ClosedWalk(g: Edges, a: Node, p: seq<Node>) {
    p != [] && Walk(g, a, p, a)
  }

  /** Acyclicity by edges is the absence of a non-empty closed walk. */
  lemma {:induction false} AcyclicIffNoClosedWalk(g: Edges)
    ensures Acyclic(g) <==> !exists a, p :: ClosedWalk(g, a, p)
  {
    if a, p :| ClosedWalk(g, a, p) {
      assert Walk(g, p[0], p[1..], a);
      assert (a, p[0]) in g && Reach(g, p[0], a);
    }
    if !Acyclic(g) {
      var a, b :| (a, b) in g && Reach(g, b, a);
      var p :| Walk(g, b, p, a);
      assert ([b] + p)[1..] == p;
      assert ClosedWalk(g, a, [b] + p);
    }
  }

  lemma {:induction false} SubgraphAcyclic(g: Edges, h: Edges)
    requires g <= h && Acyclic(h)
    ensures Acyclic(g)
  {
    forall a, b | (a, b) in g ensures !Reach(g, b, a) {
      if Reach(g, b, a) {
        var p :| Walk(g, b, p, a);
        WalkMono(g, h, b, p, a);
      }
    }
  }

  /** A walk in a graph with one more edge either avoids that edge or splits around it. */
  lemma {:induction false} WalkThroughNewEdge(g: Edges, s: Node, t: Node, a: Node, p: seq<Node>, b: Node)
    requires Walk(g + {(s, t)}, a, p, b)
    ensures Reach(g, a, b) || (Reach(g, a, s) && Reach(g, t, b))
    decreases p
  {
    if p == [] {
      ReachRefl(g, a);
    } else {
      WalkThroughNewEdge(g, s, t, p[0], p[1..], b);
      if (a, p[0]) in g {
        ReachEdge(g, a, p[0]);
        if Reach(g, p[0], b) {
          ReachTrans(g, a, p[0], b);
        } else {
          ReachTrans(g, a, p[0], s);
        }
      } else {
        ReachRefl(g, s);
      }
    }
  }

  /** Adding an edge keeps the graph acyclic exactly when its target does not reach its source. */
  lemma {:induction false} AddEdgeAcyclic(g: Edges, s: Node, t: Node)
    requires Acyclic(g)
    ensures Acyclic(g + {(s, t)}) <==> !Reach(g, t, s)
  {
    var h := g + {(s, t)};
    if Reach(g, t, s) {
      var p :| Walk(g, t, p, s);
      WalkMono(g, h, t, p, s);
      assert (s, t) in h && Reach(h, t, s);
    } else {
      forall a, b | (a, b) in h ensures !Reach(h, b, a) {
        if Reach(h, b, a) {
          var p :| Walk(h, b, p, a);
          WalkThroughNewEdge(g, s, t, b, p, a);
          if (a, b) in g {
            ReachEdge(g, a, b);
            assert !Reach(g, b, a);
            ReachTrans(g, t, a, b);
            ReachTrans(g, t, b, s);
          }
        }
      }
    }
  }

  /** A walk cannot leave a set that is closed under the edges. */
  lemma {:induction false} ClosedSetTraps(g: Edges, closed: set<Node>, a: Node, p: seq<Node>, b: Node)
    requires forall v, w :: v in closed && (v, w) in g ==> w in closed
    requires a in closed && Walk(g, a, p, b)
    ensures b in closed
    decreases p
  {
    if p != [] {
      ClosedSetTraps(g, closed, p[0], p[1..], b);
    }
  }

  /** Every non-empty finite set of nodes of an acyclic graph has a node without an edge into the set. */
  lemma {:induction false} HasSink(g: Edges, s: set<Node>) returns (sink: Node)
    requires Acyclic(g) && s != {}
    ensures sink in s
    ensures forall u :: u in s ==> (sink, u) !in g
    decreases s
  {
    var t :| t in s;
    var below := set x | x in s && exists y :: (t, y) in g && Reach(g, y, x);
    forall u | u in s && (t, u) in g ensures u in below {
      ReachRefl(g, u);
    }
    if below == {} {
      return t;
    }
    assert t !in below;
    forall v, u | v in below && u in s && (v, u) in g ensures u in below {
      var y :| (t, y) in g && Reach(g, y, v);
      ReachEdge(g, v, u);
      ReachTrans(g, y, v, u);
    }
    sink := HasSink(g, below);
  }
}
