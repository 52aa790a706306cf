/** Directed graphs over string node ids: walks, reachability, cycles. */
module Graphs {
  import opened Ordering

  type Node = string
  type Edge = (Node, Node)

  ghost predicate IsWalk(edges: set<Edge>, w: seq<Node>) {
    |w| > 0 && forall i :: 0 <= i < |w| - 1 ==> (w[i], w[i + 1]) in edges
  }

  ghost predicate Reach(edges: set<Edge>, u: Node, v: Node) {
    exists w :: IsWalk(edges, w) && w[0] == u && w[|w| - 1] == v
  }

  ghost predicate Mutual(edges: set<Edge>, u: Node, v: Node) {
    Reach(edges, u, v) && Reach(edges, v, u)
  }

  function After(ring: seq<Node>, i: nat): Node
    requires i < |ring|
  {
    if i + 1 < |ring| then ring[i + 1] else ring[0]
  }

  /** A closed directed walk; the closing edge runs from last back to first. */
  ghost predicate IsCycle(edges: set<Edge>, ring: seq<Node>) {
    |ring| > 0 && forall i :: 0 <= i < |ring| ==> (ring[i], After(ring, i)) in edges
  }

  ghost predicate HasCycle(edges: set<Edge>) {
    exists ring :: IsCycle(edges, ring)
  }

  /** A closed directed walk through two distinct nodes. */
  ghost predicate HasProperCycle(edges: set<Edge>) {
    exists u, v :: u != v && Mutual(edges, u, v)
  }

  ghost predicate Loopless(edges: set<Edge>) {
    forall e :: e in edges ==> e.0 != e.1
  }

  ghost predicate StronglyConnected(edges: set<Edge>, nodes: set<Node>) {
    forall u, v :: u in nodes && v in nodes ==> Reach(edges, u, v)
  }

  /** Every edge that leaves the set stays in it. */
  ghost predicate Closed(edges: set<Edge>, nodes: set<Node>) {
    forall e :: e in edges && e.0 in nodes ==> e.1 in nodes
  }

  ghost predicate AcyclicOn(edges: set<Edge>, nodes: set<Node>) {
    !exists ring :: IsCycle(edges, ring) && Elements(ring) <= nodes
  }

  // ---- Reachability --------------------------------------------------------

  lemma ReachSelf(edges: set<Edge>, u: Node)
    ensures Reach(edges, u, u)
  {
    assert IsWalk(edges, [u]);
  }

  lemma ReachEdge(edges: set<Edge>, u: Node, v: Node)
    requires (u, v) in edges
    ensures Reach(edges, u, v)
  {
    var w := [u, v];
    assert IsWalk(edges, w) && w[0] == u && w[|w| - 1] == v;
  }

  lemma ReachTransitive(edges: set<Edge>, u: Node, v: Node, x: Node)
    requires Reach(edges, u, v) && Reach(edges, v, x)
    ensures Reach(edges, u, x)
  {
    var a :| IsWalk(edges, a) && a[0] == u && a[|a| - 1] == v;
    var b :| IsWalk(edges, b) && b[0] == v && b[|b| - 1] == x;
    var w := a + b[1..];
    forall i | 0 <= i < |w| - 1 ensures (w[i], w[i + 1]) in edges {
      if i >= |a| - 1 {
        assert w[i] == b[i - |a| + 1] && w[i + 1] == b[i - |a| + 2];
      }
    }
    assert IsWalk(edges, w) && w[0] == u && w[|w| - 1] == x;
  }

  lemma ReachGrows(edges: set<Edge>, more: set<Edge>, u: Node, v: Node)
    requires edges <= more && Reach(edges, u, v)
    ensures Reach(more, u, v)
  {
    var w :| IsWalk(edges, w) && w[0] == u && w[|w| - 1] == v;
    assert IsWalk(more, w);
  }

  lemma {:induction false} WalkStaysInside(edges: set<Edge>, nodes: set<Node>, w: seq<Node>)
    requires IsWalk(edges, w) && Closed(edges, nodes) && w[0] in nodes
    ensures Elements(w) <= nodes
  {
    if |w| > 1 {
      var tail := w[1..];
      forall i | 0 <= i < |tail| - 1 ensures (tail[i], tail[i + 1]) in edges {
        assert tail[i] == w[i + 1] && tail[i + 1] == w[i + 2];
      }
      WalkStaysInside(edges, nodes, tail);
      assert forall x :: x in w ==> x == w[0] || x in Elements(tail);
    }
  }

  lemma ReachStaysInside(edges: set<Edge>, nodes: set<Node>, u: Node, v: Node)
    requires Closed(edges, nodes) && u in nodes && Reach(edges, u, v)
    ensures v in nodes
  {
    var w :| IsWalk(edges, w) && w[0] == u && w[|w| - 1] == v;
    WalkStaysInside(edges, nodes, w);
    assert v in w;
  }

  // ---- Cycles --------------------------------------------------------------

  /** Any node of a cycle may be taken as its first. */
  lemma RotateCycle(edges: set<Edge>, ring: seq<Node>, k: nat) returns (turned: seq<Node>)
    requires IsCycle(edges, ring) && k < |ring|
    ensures IsCycle(edges, turned) && turned[0] == ring[k]
    ensures |turned| == |ring| && Elements(turned) == Elements(ring)
  {
    turned := ring[k..] + ring[..k];
    forall i | 0 <= i < |turned| ensures (turned[i], After(turned, i)) in edges {
      var j := if k + i < |ring| then k + i else k + i - |ring|;
      assert turned[i] == ring[j] && After(turned, i) == After(ring, j);
    }
    assert forall x :: x in ring <==> x in ring[k..] || x in ring[..k];
  }

  /** The closed walk around a cycle, first node repeated at the end. */
  lemma AroundCycle(edges: set<Edge>, ring: seq<Node>)
    requires IsCycle(edges, ring)
    ensures IsWalk(edges, (ring + [ring[0]])[1..])
  {
    var w := (ring + [ring[0]])[1..];
    forall i | 0 <= i < |w| - 1 ensures (w[i], w[i + 1]) in edges {
      assert w[i] == ring[i + 1] && w[i + 1] == After(ring, i + 1);
    }
  }

  lemma CycleStaysInside(edges: set<Edge>, nodes: set<Node>, ring: seq<Node>)
    requires IsCycle(edges, ring) && Closed(edges, nodes) && After(ring, 0) in nodes
    ensures ring[0] in nodes
  {
    AroundCycle(edges, ring);
    var w := (ring + [ring[0]])[1..];
    WalkStaysInside(edges, nodes, w);
    assert w[|w| - 1] in w;
  }

  /** Extending a closed acyclic set by a node whose successors all lie in it
      creates no cycle. */
  lemma ExtendAcyclic(edges: set<Edge>, nodes: set<Node>, n: Node)
    requires Closed(edges, nodes) && AcyclicOn(edges, nodes) && n !in nodes
    requires forall e :: e in edges && e.0 == n ==> e.1 in nodes
    ensures Closed(edges, nodes + {n}) && AcyclicOn(edges, nodes + {n})
  {
    forall ring | IsCycle(edges, ring)
      ensures !(Elements(ring) <= nodes + {n})
    {
      if n in ring {
        var k :| 0 <= k < |ring| && ring[k] == n;
        var turned := RotateCycle(edges, ring, k);
        assert (turned[0], After(turned, 0)) in edges;
        CycleStaysInside(edges, nodes, turned);
      } else {
        assert Elements(ring) <= nodes + {n} ==> Elements(ring) <= nodes;
      }
    }
  }

  /** Two distinct mutually reachable nodes lie on a closed walk. */
  lemma MutualGivesCycle(edges: set<Edge>, u: Node, v: Node)
    requires u != v && Mutual(edges, u, v)
    ensures HasCycle(edges)
  {
    var a :| IsWalk(edges, a) && a[0] == u && a[|a| - 1] == v;
    var b :| IsWalk(edges, b) && b[0] == v && b[|b| - 1] == u;
    var ring := a[..|a| - 1] + b[..|b| - 1];
    forall i | 0 <= i < |ring| ensures (ring[i], After(ring, i)) in edges {
      if i < |a| - 1 {
        assert After(ring, i) == a[i + 1];
      } else {
        var j := i - (|a| - 1);
        assert ring[i] == b[j] && After(ring, i) == b[j + 1];
      }
    }
    assert IsCycle(edges, ring);
  }

  /** Without self-loops the two notions of "cyclic" coincide. */
  lemma ProperCycleIffCycle(edges: set<Edge>)
    requires Loopless(edges)
    ensures HasProperCycle(edges) <==> HasCycle(edges)
  {
    if HasProperCycle(edges) {
      var u, v :| u != v && Mutual(edges, u, v);
      MutualGivesCycle(edges, u, v);
    }
    if HasCycle(edges) {
      var ring :| IsCycle(edges, ring);
      assert (ring[0], After(ring, 0)) in edges;
      AroundCycle(edges, ring);
      var w := (ring + [ring[0]])[1..];
      ReachEdge(edges, ring[0], ring[1]);
      assert w[0] == ring[1] && w[|w| - 1] == ring[0];
      assert Reach(edges, ring[1], ring[0]);
      assert Mutual(edges, ring[0], ring[1]);
    }
  }

  /** Erasing edges creates no cycle. */
  lemma FewerEdgesFewerCycles(edges: set<Edge>, more: set<Edge>)
    requires edges <= more
    ensures HasProperCycle(edges) ==> HasProperCycle(more)
    ensures HasCycle(edges) ==> HasCycle(more)
  {
    if HasProperCycle(edges) {
      var u, v :| u != v && Mutual(edges, u, v);
      ReachGrows(edges, more, u, v);
      ReachGrows(edges, more, v, u);
      assert Mutual(more, u, v);
    }
    if HasCycle(edges) {
      var ring :| IsCycle(edges, ring);
      assert IsCycle(more, ring);
    }
  }
}
