/** `graph-algorithms/src/scc.rs`: Tarjan's algorithm with explicit frames, and
    the proof that it returns exactly the strongly connected components. */
module Scc {
  import opened Text
  import opened Ordering
  import opened Graphs
  import opened DepthFirst

  /** One suspended visit: 0 entering, 1 reading neighbours, 2 finishing. */
  datatype Frame = Frame(node: Node, neighborIdx: nat, phase: nat)

  /** The search state shared by all visits. */
  datatype Search = Search(
    indexCounter: nat,
    stack: seq<Node>,
    onStack: set<Node>,
    indices: map<Node, nat>,
    lowlinks: map<Node, nat>,
    result: seq<seq<Node>>)

  /** A maximal set of mutually reachable nodes. */
  ghost predicate IsScc(edges: set<Edge>, component: set<Node>) {
    && component != {}
    && forall u, v :: u in component ==> (v in component <==> Mutual(edges, u, v))
  }

  ghost function Idx(s: Search, u: Node): nat {
    if u in s.indices then s.indices[u] else 0
  }

  ghost function Low(s: Search, u: Node): nat {
    if u in s.lowlinks then s.lowlinks[u] else 0
  }

  // ---- The invariant -------------------------------------------------------

  /** The active nodes: those of all frames but a top frame still in phase 0. */
  ghost function PathOf(frames: seq<Frame>): (path: seq<Node>)
    ensures |path| <= |frames| && forall k :: 0 <= k < |path| ==> path[k] == frames[k].node
    ensures |path| == if frames != [] && Last(frames).phase == 0 then |frames| - 1 else |frames|
  {
    seq(if frames != [] && Last(frames).phase == 0 then |frames| - 1 else |frames|,
        k requires 0 <= k < |frames| => frames[k].node)
  }

  ghost predicate Finished(s: Search, u: Node) {
    u in s.indices && u !in s.onStack
  }

  ghost predicate StackOk(s: Search) {
    && s.onStack == Elements(s.stack)
    && s.indices.Keys == s.lowlinks.Keys
    && s.onStack <= s.indices.Keys
    && (forall u :: u in s.indices ==> Idx(s, u) < s.indexCounter)
    && (forall i, j :: 0 <= i < j < |s.stack| ==> Idx(s, s.stack[i]) < Idx(s, s.stack[j]))
  }

  /** The active nodes lie on the stack in entry order, the first at its bottom. */
  ghost predicate PathOk(s: Search, path: seq<Node>) {
    && (forall k :: 0 <= k < |path| ==> path[k] in s.onStack)
    && (forall j, k :: 0 <= j < k < |path| ==> Idx(s, path[j]) < Idx(s, path[k]))
    && (path == [] ==> s.stack == [])
    && (path != [] ==> s.stack != [] && s.stack[0] == path[0])
  }

  ghost predicate FramesOk(adj: Adjacency, nodes: set<Node>, s: Search, frames: seq<Frame>) {
    && (forall k :: 0 <= k < |frames| ==>
      && frames[k].node in nodes
      && frames[k].neighborIdx <= |Neighbours(adj, frames[k].node)|)
    && (forall k :: 0 <= k < |frames| - 1 ==> frames[k].phase == 1)
    && (frames != [] ==>
      && Last(frames).phase <= 2
      && (Last(frames).phase == 0 ==> Last(frames).node !in s.indices && Last(frames).neighborIdx == 0)
      && (Last(frames).phase == 2 ==> Last(frames).neighborIdx == |Neighbours(adj, Last(frames).node)|))
    && (forall j, k :: 0 <= j < k < |frames| && k == j + 1 ==> frames[k].node in Neighbours(adj, frames[j].node))
  }

  /** A low link is the index of a reachable stack node. */
  ghost predicate LowAt(edges: set<Edge>, s: Search, u: Node) {
    && Low(s, u) <= Idx(s, u)
    && exists w :: w in s.onStack && Idx(s, w) == Low(s, u) && Reach(edges, u, w)
  }

  ghost predicate LowOk(edges: set<Edge>, s: Search) {
    forall u {:trigger LowAt(edges, s, u)} :: u in s.onStack ==> LowAt(edges, s, u)
  }

  /** A successor already accounted for in `low`. */
  ghost predicate Covered(s: Search, v: Node, low: nat) {
    v in s.indices && (v in s.onStack ==> low <= Idx(s, v))
  }

  /** Nodes left on the stack after their visit ended. */
  ghost predicate Settled(edges: set<Edge>, s: Search, u: Node) {
    && Low(s, u) < Idx(s, u)
    && forall e :: e in edges && e.0 == u ==> Covered(s, e.1, Low(s, u))
  }

  ghost predicate SettledOk(edges: set<Edge>, s: Search, path: seq<Node>) {
    forall u {:trigger Settled(edges, s, u)} :: u in s.onStack && u !in path ==> Settled(edges, s, u)
  }

  /** The neighbours an active node has read; the last one read may be the node
      of a frame still to be entered. */
  ghost predicate ReadsOk(adj: Adjacency, s: Search, frames: seq<Frame>) {
    forall k, j :: 0 <= k < |PathOf(frames)| && 0 <= j < frames[k].neighborIdx <= |Neighbours(adj, frames[k].node)| ==>
      ReadOk(s, frames, frames[k].node, Neighbours(adj, frames[k].node)[j])
  }

  ghost predicate ReadOk(s: Search, frames: seq<Frame>, u: Node, v: Node) {
    Covered(s, v, Low(s, u)) || (frames != [] && Last(frames).phase == 0 && v == Last(frames).node)
  }

  /** An active node reaches everything above it on the stack. */
  ghost predicate ReachOk(edges: set<Edge>, s: Search, path: seq<Node>) {
    forall k, u :: 0 <= k < |path| && u in s.onStack && Idx(s, path[k]) <= Idx(s, u) ==> Reach(edges, path[k], u)
  }

  /** `u` sits on the stack between active node `k` and the next one. */
  ghost predicate Above(s: Search, path: seq<Node>, k: nat, u: Node)
    requires k < |path|
  {
    Idx(s, path[k]) < Idx(s, u) && (k + 1 < |path| ==> Idx(s, u) < Idx(s, path[k + 1]))
  }

  /** A settled node's low link has been passed on to the active node below it. */
  ghost predicate PassedOn(s: Search, path: seq<Node>) {
    forall k, u :: 0 <= k < |path| && u in s.onStack && Above(s, path, k, u) ==> Low(s, path[k]) <= Low(s, u)
  }

  /** Finished nodes are exactly those in emitted components. */
  ghost predicate ResultOk(edges: set<Edge>, s: Search) {
    && (forall c :: 0 <= c < |s.result| ==> Distinct(s.result[c]) && IsScc(edges, Elements(s.result[c])))
    && (forall u :: Finished(s, u) <==> exists c :: 0 <= c < |s.result| && u in s.result[c])
    && (forall c, d :: 0 <= c < d < |s.result| ==> Elements(s.result[c]) !! Elements(s.result[d]))
    && (forall e :: e in edges && Finished(s, e.0) ==> Finished(s, e.1))
    && SinksFirst(edges, s.result)
  }

  /** No edge leads from an earlier component to a later one. */
  ghost predicate SinksFirst(edges: set<Edge>, sccs: seq<seq<Node>>) {
    forall c, d, e :: 0 <= c < d < |sccs| && e in edges && e.0 in sccs[c] ==> e.1 !in sccs[d]
  }

  ghost predicate Invariant(adj: Adjacency, edges: set<Edge>, nodes: set<Node>, s: Search, frames: seq<Frame>) {
    && Represents(adj, edges) && Within(adj, nodes)
    && StackOk(s) && FramesOk(adj, nodes, s, frames) && PathOk(s, PathOf(frames))
    && LowOk(edges, s) && SettledOk(edges, s, PathOf(frames)) && ReadsOk(adj, s, frames)
    && ReachOk(edges, s, PathOf(frames)) && PassedOn(s, PathOf(frames)) && ResultOk(edges, s)
    && s.indices.Keys <= nodes
  }

  // ---- Steps ---------------------------------------------------------------

  function Enter(s: Search, node: Node): Search {
    s.(indices := s.indices[node := s.indexCounter],
       lowlinks := s.lowlinks[node := s.indexCounter],
       indexCounter := s.indexCounter + 1,
       stack := s.stack + [node],
       onStack := s.onStack + {node})
  }

  /** Lower `u`'s low link to `low` if that is smaller. */
  function Relax(s: Search, u: Node, low: nat): Search {
    if u in s.lowlinks && low < s.lowlinks[u] then s.(lowlinks := s.lowlinks[u := low]) else s
  }

  function Retop(frames: seq<Frame>, top: Frame): (r: seq<Frame>)
    requires frames != []
    ensures |r| == |frames| && r[|r| - 1] == top
    ensures forall k :: 0 <= k < |frames| - 1 ==> r[k] == frames[k]
  {
    Front(frames) + [top]
  }

  // Entering a node.

  lemma EnterStack(s: Search, node: Node)
    requires StackOk(s) && node !in s.indices
    ensures StackOk(Enter(s, node))
    ensures forall u {:trigger Idx(Enter(s, node), u)} :: u in s.indices ==> Idx(Enter(s, node), u) == Idx(s, u)
    ensures forall u {:trigger Low(Enter(s, node), u)} :: u in s.indices ==> Low(Enter(s, node), u) == Low(s, u)
    ensures Idx(Enter(s, node), node) == Low(Enter(s, node), node) == s.indexCounter
  {
    PushElement(s.stack, node);
    assert forall i :: 0 <= i < |s.stack| ==> s.stack[i] in s.onStack;
  }

  lemma EnterPath(s: Search, path: seq<Node>, node: Node)
    requires StackOk(s) && PathOk(s, path) && node !in s.indices
    ensures PathOk(Enter(s, node), path + [node])
  {
    EnterStack(s, node);
  }

  lemma EnterLow(edges: set<Edge>, s: Search, node: Node)
    requires StackOk(s) && LowOk(edges, s) && node !in s.indices
    ensures LowOk(edges, Enter(s, node))
  {
    EnterStack(s, node);
    var s' := Enter(s, node);
    ReachSelf(edges, node);
    hide Reach;
    forall u | u in s'.onStack ensures LowAt(edges, s', u) {
      if u == node {
        assert node in s'.onStack && Idx(s', node) == Low(s', node);
      } else {
        assert u in s.indices && Low(s', u) == Low(s, u) && LowAt(edges, s, u);
        var w :| w in s.onStack && Idx(s, w) == Low(s, u) && Reach(edges, u, w);
        assert Idx(s', w) == Idx(s, w) && w in s'.onStack;
      }
    }
  }

  lemma EnterSettled(edges: set<Edge>, s: Search, path: seq<Node>, node: Node)
    requires StackOk(s) && SettledOk(edges, s, path) && node !in s.indices
    ensures SettledOk(edges, Enter(s, node), path + [node])
  {
    var s' := Enter(s, node);
    EnterStack(s, node);
    forall u | u in s'.onStack && u !in path + [node] ensures Settled(edges, s', u) {
      assert u != node by {
        assert (path + [node])[|path|] == node;
      }
      assert u !in path by {
        assert forall k :: 0 <= k < |path| ==> (path + [node])[k] == path[k];
      }
      assert Settled(edges, s, u);
      forall e | e in edges && e.0 == u ensures Covered(s', e.1, Low(s', u)) {
        assert Covered(s, e.1, Low(s, u));
      }
    }
  }

  lemma EnterReach(edges: set<Edge>, s: Search, path: seq<Node>, node: Node)
    requires StackOk(s) && PathOk(s, path) && ReachOk(edges, s, path) && node !in s.indices
    requires forall k :: 0 <= k < |path| ==> Reach(edges, path[k], node)
    ensures ReachOk(edges, Enter(s, node), path + [node])
  {
    var s', path' := Enter(s, node), path + [node];
    EnterStack(s, node);
    ReachSelf(edges, node);
    forall k, u | 0 <= k < |path'| && u in s'.onStack && Idx(s', path'[k]) <= Idx(s', u)
      ensures Reach(edges, path'[k], u)
    {
      if u != node {
        assert Idx(s', u) == Idx(s, u) < s.indexCounter;
        assert k < |path| && path'[k] == path[k];
      }
    }
  }

  lemma EnterPassed(s: Search, path: seq<Node>, node: Node)
    requires StackOk(s) && PathOk(s, path) && PassedOn(s, path) && node !in s.indices
    ensures PassedOn(Enter(s, node), path + [node])
  {
    var s', path' := Enter(s, node), path + [node];
    EnterStack(s, node);
    forall k, u | 0 <= k < |path'| && u in s'.onStack && Above(s', path', k, u)
      ensures Low(s', path'[k]) <= Low(s', u)
    {
      assert k < |path| && path'[k] == path[k] && path[k] in s.onStack;
      assert u in s.onStack;
      assert k + 1 < |path| ==> path'[k + 1] == path[k + 1] && path[k + 1] in s.onStack;
      assert Above(s, path, k, u);
    }
  }

  lemma EnterReads(adj: Adjacency, edges: set<Edge>, s: Search, frames: seq<Frame>)
    requires StackOk(s) && PathOk(s, PathOf(frames)) && ReadsOk(adj, s, frames)
    requires LowOk(edges, s)
    requires frames != [] && Last(frames).phase == 0 && Last(frames).node !in s.indices
    ensures ReadsOk(adj, Enter(s, Last(frames).node), Retop(frames, Frame(Last(frames).node, 0, 1)))
  {
    var node := Last(frames).node;
    var s', frames' := Enter(s, node), Retop(frames, Frame(node, 0, 1));
    EnterStack(s, node);
    forall k, j | 0 <= k < |PathOf(frames')| && 0 <= j < frames'[k].neighborIdx <= |Neighbours(adj, frames'[k].node)|
      ensures ReadOk(s', frames', frames'[k].node, Neighbours(adj, frames'[k].node)[j])
    {
      assert frames'[k] == frames[k] && PathOf(frames)[k] == frames[k].node;
      assert PathOf(frames)[k] in s.onStack && LowAt(edges, s, PathOf(frames)[k]);
      assert ReadOk(s, frames, frames[k].node, Neighbours(adj, frames[k].node)[j]);
    }
  }

  lemma EnterResult(edges: set<Edge>, s: Search, node: Node)
    requires StackOk(s) && ResultOk(edges, s) && node !in s.indices
    ensures ResultOk(edges, Enter(s, node))
  {
    assert forall u :: Finished(Enter(s, node), u) <==> Finished(s, u);
  }

  /** Every active node reaches the node about to be entered. */
  lemma EnteredReaches(adj: Adjacency, edges: set<Edge>, nodes: set<Node>, s: Search, frames: seq<Frame>, k: nat)
    requires Represents(adj, edges) && FramesOk(adj, nodes, s, frames)
    requires PathOk(s, PathOf(frames)) && ReachOk(edges, s, PathOf(frames))
    requires frames != [] && Last(frames).phase == 0 && k < |PathOf(frames)|
    ensures Reach(edges, PathOf(frames)[k], Last(frames).node)
  {
    var path := PathOf(frames);
    var parent := path[|path| - 1];
    assert frames[|path|].node in Neighbours(adj, frames[|path| - 1].node);
    ReachEdge(edges, parent, Last(frames).node);
    assert k == |path| - 1 || Idx(s, path[k]) < Idx(s, parent);
    assert Reach(edges, path[k], parent);
    ReachTransitive(edges, path[k], parent, Last(frames).node);
  }

  lemma EnterFrames(adj: Adjacency, nodes: set<Node>, s: Search, frames: seq<Frame>)
    requires FramesOk(adj, nodes, s, frames)
    requires frames != [] && Last(frames).phase == 0
    ensures FramesOk(adj, nodes, Enter(s, Last(frames).node), Retop(frames, Frame(Last(frames).node, 0, 1)))
    ensures PathOf(Retop(frames, Frame(Last(frames).node, 0, 1))) == PathOf(frames) + [Last(frames).node]
  {
  }

  lemma EnterKeeps(adj: Adjacency, edges: set<Edge>, nodes: set<Node>, s: Search, frames: seq<Frame>)
    requires Invariant(adj, edges, nodes, s, frames)
    requires frames != [] && Last(frames).phase == 0
    ensures Invariant(adj, edges, nodes, Enter(s, Last(frames).node), Retop(frames, Frame(Last(frames).node, 0, 1)))
  {
    hide PathOk, SettledOk, ReadsOk, ReachOk, PassedOn, ResultOk, LowOk;
    var node, path := Last(frames).node, PathOf(frames);
    EnterFrames(adj, nodes, s, frames);
    EnterStack(s, node);
    EnterPath(s, path, node);
    EnterLow(edges, s, node);
    EnterSettled(edges, s, path, node);
    EnterReads(adj, edges, s, frames);
    EnterPassed(s, path, node);
    EnterResult(edges, s, node);
    forall k | 0 <= k < |path| ensures Reach(edges, path[k], node) {
      EnteredReaches(adj, edges, nodes, s, frames, k);
    }
    EnterReach(edges, s, path, node);
  }

  // Lowering the low link of an active node.

  lemma RelaxFacts(s: Search, node: Node, low: nat)
    requires StackOk(s) && node in s.onStack
    ensures StackOk(Relax(s, node, low))
    ensures forall u {:trigger Idx(Relax(s, node, low), u)} :: Idx(Relax(s, node, low), u) == Idx(s, u)
    ensures forall u {:trigger Low(Relax(s, node, low), u)} :: u != node ==> Low(Relax(s, node, low), u) == Low(s, u)
    ensures Low(Relax(s, node, low), node) == if low < Low(s, node) then low else Low(s, node)
    ensures forall v, bound {:trigger Covered(Relax(s, node, low), v, bound)} ::
      Covered(Relax(s, node, low), v, bound) <==> Covered(s, v, bound)
  {
    assert forall u :: Idx(Relax(s, node, low), u) == Idx(s, u);
  }

  lemma RelaxLow(edges: set<Edge>, s: Search, node: Node, w: Node)
    requires StackOk(s) && LowOk(edges, s)
    requires node in s.onStack && w in s.onStack && Reach(edges, node, w)
    ensures LowOk(edges, Relax(s, node, Idx(s, w)))
  {
    var s' := Relax(s, node, Idx(s, w));
    RelaxFacts(s, node, Idx(s, w));
    hide Reach;
    forall u | u in s'.onStack ensures LowAt(edges, s', u) {
      assert LowAt(edges, s, u);
      if u == node && Idx(s, w) < Low(s, node) {
        assert Idx(s', w) == Low(s', u);
      } else {
        assert Low(s', u) == Low(s, u);
        var x :| x in s.onStack && Idx(s, x) == Low(s, u) && Reach(edges, u, x);
        assert Idx(s', x) == Idx(s, x);
      }
    }
  }

  lemma RelaxSettled(edges: set<Edge>, s: Search, path: seq<Node>, node: Node, low: nat)
    requires StackOk(s) && SettledOk(edges, s, path) && node in path && node in s.onStack
    ensures SettledOk(edges, Relax(s, node, low), path)
  {
    var s' := Relax(s, node, low);
    RelaxFacts(s, node, low);
    forall u | u in s'.onStack && u !in path ensures Settled(edges, s', u) {
      assert Settled(edges, s, u);
    }
  }

  lemma RelaxReads(adj: Adjacency, s: Search, frames: seq<Frame>, node: Node, low: nat)
    requires StackOk(s) && ReadsOk(adj, s, frames) && node in s.onStack
    ensures ReadsOk(adj, Relax(s, node, low), frames)
  {
    var s' := Relax(s, node, low);
    RelaxFacts(s, node, low);
    forall k, j | 0 <= k < |PathOf(frames)| && 0 <= j < frames[k].neighborIdx <= |Neighbours(adj, frames[k].node)|
      ensures ReadOk(s', frames, frames[k].node, Neighbours(adj, frames[k].node)[j])
    {
      assert ReadOk(s, frames, frames[k].node, Neighbours(adj, frames[k].node)[j]);
      assert Low(s', frames[k].node) <= Low(s, frames[k].node);
    }
  }

  lemma RelaxPassed(s: Search, path: seq<Node>, t: nat, low: nat)
    requires StackOk(s) && PathOk(s, path) && PassedOn(s, path)
    requires t < |path|
    ensures PassedOn(Relax(s, path[t], low), path)
  {
    var s' := Relax(s, path[t], low);
    RelaxFacts(s, path[t], low);
    forall k, u | 0 <= k < |path| && u in s'.onStack && Above(s', path, k, u)
      ensures Low(s', path[k]) <= Low(s', u)
    {
      assert Above(s, path, k, u);
      assert u != path[t] by {
        if k + 1 < t {
          assert Idx(s, path[k + 1]) < Idx(s, path[t]);
        } else if t < k {
          assert Idx(s, path[t]) < Idx(s, path[k]);
        }
      }
    }
  }

  lemma RelaxRest(adj: Adjacency, edges: set<Edge>, nodes: set<Node>, s: Search, frames: seq<Frame>, node: Node,
                  low: nat)
    requires StackOk(s) && FramesOk(adj, nodes, s, frames) && PathOk(s, PathOf(frames))
    requires ReachOk(edges, s, PathOf(frames)) && ResultOk(edges, s) && node in s.onStack
    ensures var s' := Relax(s, node, low);
      && FramesOk(adj, nodes, s', frames) && PathOk(s', PathOf(frames))
      && ReachOk(edges, s', PathOf(frames)) && ResultOk(edges, s')
  {
    var s' := Relax(s, node, low);
    RelaxFacts(s, node, low);
    assert forall u :: Finished(s', u) <==> Finished(s, u);
  }

  lemma RelaxKeeps(adj: Adjacency, edges: set<Edge>, nodes: set<Node>, s: Search, frames: seq<Frame>, t: nat, w: Node)
    requires Invariant(adj, edges, nodes, s, frames)
    requires t < |PathOf(frames)| && w in s.onStack && Reach(edges, PathOf(frames)[t], w)
    ensures Invariant(adj, edges, nodes, Relax(s, PathOf(frames)[t], Idx(s, w)), frames)
  {
    hide SettledOk, ReadsOk, ReachOk, PassedOn, ResultOk, LowOk, FramesOk;
    var path := PathOf(frames);
    var node, low := path[t], Idx(s, w);
    RelaxFacts(s, node, low);
    RelaxLow(edges, s, node, w);
    RelaxSettled(edges, s, path, node, low);
    RelaxReads(adj, s, frames, node, low);
    RelaxPassed(s, path, t, low);
    RelaxRest(adj, edges, nodes, s, frames, node, low);
  }

  // Moving on within the top frame.

  /** The read neighbour is accounted for: advance the cursor. */
  lemma AdvanceKeeps(adj: Adjacency, edges: set<Edge>, nodes: set<Node>, s: Search, frames: seq<Frame>)
    requires Invariant(adj, edges, nodes, s, frames)
    requires frames != [] && Last(frames).phase == 1
    requires Last(frames).neighborIdx < |Neighbours(adj, Last(frames).node)|
    requires Covered(s, Neighbours(adj, Last(frames).node)[Last(frames).neighborIdx], Low(s, Last(frames).node))
    ensures Invariant(adj, edges, nodes, s, Retop(frames, Last(frames).(neighborIdx := Last(frames).neighborIdx + 1)))
  {
    hide StackOk, PathOk, SettledOk, ReadsOk, ReachOk, PassedOn, ResultOk, LowOk;
    var frames' := Retop(frames, Last(frames).(neighborIdx := Last(frames).neighborIdx + 1));
    assert PathOf(frames') == PathOf(frames);
    MoreReads(adj, s, frames, frames');
    assert FramesOk(adj, nodes, s, frames');
  }

  /** Every neighbour is read: go to phase 2. */
  lemma PhaseKeeps(adj: Adjacency, edges: set<Edge>, nodes: set<Node>, s: Search, frames: seq<Frame>)
    requires Invariant(adj, edges, nodes, s, frames)
    requires frames != [] && Last(frames).phase == 1
    requires Last(frames).neighborIdx >= |Neighbours(adj, Last(frames).node)|
    ensures Invariant(adj, edges, nodes, s, Retop(frames, Last(frames).(phase := 2)))
  {
    hide StackOk, PathOk, SettledOk, ReadsOk, ReachOk, PassedOn, ResultOk, LowOk;
    var frames' := Retop(frames, Last(frames).(phase := 2));
    assert PathOf(frames') == PathOf(frames);
    MoreReads(adj, s, frames, frames');
    assert FramesOk(adj, nodes, s, frames');
  }

  /** An unindexed neighbour gets a frame of its own. */
  lemma PushKeeps(adj: Adjacency, edges: set<Edge>, nodes: set<Node>, s: Search, frames: seq<Frame>)
    requires Invariant(adj, edges, nodes, s, frames)
    requires frames != [] && Last(frames).phase == 1
    requires Last(frames).neighborIdx < |Neighbours(adj, Last(frames).node)|
    requires Neighbours(adj, Last(frames).node)[Last(frames).neighborIdx] !in s.indices
    ensures Invariant(adj, edges, nodes, s, Pushed(adj, frames))
  {
    hide StackOk, PathOk, SettledOk, ReadsOk, ReachOk, PassedOn, ResultOk, LowOk;
    PushFrames(adj, nodes, s, frames);
    MoreReads(adj, s, frames, Pushed(adj, frames));
  }

  function Pushed(adj: Adjacency, frames: seq<Frame>): (r: seq<Frame>)
    requires frames != [] && Last(frames).neighborIdx < |Neighbours(adj, Last(frames).node)|
    ensures |r| == |frames| + 1
    ensures forall k :: 0 <= k < |frames| - 1 ==> r[k] == frames[k]
    ensures r[|frames| - 1] == Last(frames).(neighborIdx := Last(frames).neighborIdx + 1)
    ensures r[|frames|] == Frame(Neighbours(adj, Last(frames).node)[Last(frames).neighborIdx], 0, 0)
  {
    var top := Last(frames);
    Retop(frames, top.(neighborIdx := top.neighborIdx + 1))
      + [Frame(Neighbours(adj, top.node)[top.neighborIdx], 0, 0)]
  }

  lemma PushFrames(adj: Adjacency, nodes: set<Node>, s: Search, frames: seq<Frame>)
    requires FramesOk(adj, nodes, s, frames) && Within(adj, nodes)
    requires frames != [] && Last(frames).phase == 1
    requires Last(frames).neighborIdx < |Neighbours(adj, Last(frames).node)|
    requires Neighbours(adj, Last(frames).node)[Last(frames).neighborIdx] !in s.indices
    ensures FramesOk(adj, nodes, s, Pushed(adj, frames))
    ensures PathOf(Pushed(adj, frames)) == PathOf(frames)
    ensures var top := Last(frames);
      ReadOk(s, Pushed(adj, frames), top.node, Neighbours(adj, top.node)[top.neighborIdx])
  {
    var next := Neighbours(adj, Last(frames).node)[Last(frames).neighborIdx];
    assert next in Neighbours(adj, Last(frames).node) && Last(frames).node in nodes;
    assert next in nodes;
    assert Last(Pushed(adj, frames)) == Frame(next, 0, 0);
  }

  /** Only the top active frame reads, and what it reads next is accounted for. */
  lemma MoreReads(adj: Adjacency, s: Search, frames: seq<Frame>, frames': seq<Frame>)
    requires ReadsOk(adj, s, frames) && frames != [] && Last(frames).phase == 1
    requires frames' != [] && PathOf(frames') == PathOf(frames)
    requires forall k :: 0 <= k < |frames| - 1 ==> frames'[k] == frames[k]
    requires Last(frames).neighborIdx <= frames'[|frames| - 1].neighborIdx <= Last(frames).neighborIdx + 1
    requires var i := Last(frames).neighborIdx;
      i < frames'[|frames| - 1].neighborIdx <= |Neighbours(adj, Last(frames).node)| ==>
      ReadOk(s, frames', Last(frames).node, Neighbours(adj, Last(frames).node)[i])
    ensures ReadsOk(adj, s, frames')
  {
    forall k, j | 0 <= k < |PathOf(frames')| && 0 <= j < frames'[k].neighborIdx <= |Neighbours(adj, frames'[k].node)|
      ensures ReadOk(s, frames', frames'[k].node, Neighbours(adj, frames'[k].node)[j])
    {
      assert PathOf(frames')[k] == PathOf(frames)[k] == frames[k].node == frames'[k].node;
      if k < |frames| - 1 || j < Last(frames).neighborIdx {
        assert ReadOk(s, frames, frames[k].node, Neighbours(adj, frames[k].node)[j]);
      }
    }
  }

  // Leaving a node whose low link points below it.

  lemma IdxInjective(s: Search, u: Node, v: Node)
    requires StackOk(s) && u in s.onStack && v in s.onStack && Idx(s, u) == Idx(s, v)
    ensures u == v
  {
    assert u in s.stack && v in s.stack;
    var i :| 0 <= i < |s.stack| && s.stack[i] == u;
    var j :| 0 <= j < |s.stack| && s.stack[j] == v;
    assert i == j || i < j || j < i;
  }

  /** Once all its neighbours are read, the top node's successors are covered. */
  lemma TopIsCovered(adj: Adjacency, edges: set<Edge>, s: Search, frames: seq<Frame>)
    requires Represents(adj, edges) && ReadsOk(adj, s, frames)
    requires frames != [] && Last(frames).phase == 2
    requires Last(frames).neighborIdx == |Neighbours(adj, Last(frames).node)|
    ensures forall e :: e in edges && e.0 == Last(frames).node ==> Covered(s, e.1, Low(s, Last(frames).node))
  {
    var node, top := Last(frames).node, |frames| - 1;
    forall e | e in edges && e.0 == node ensures Covered(s, e.1, Low(s, node)) {
      assert e == (node, e.1);
      assert e.1 in Neighbours(adj, node);
      var j :| 0 <= j < |Neighbours(adj, node)| && Neighbours(adj, node)[j] == e.1;
      assert ReadOk(s, frames, frames[top].node, Neighbours(adj, frames[top].node)[j]);
    }
  }

  lemma LeavePassed(s: Search, path: seq<Node>)
    requires StackOk(s) && PathOk(s, path) && PassedOn(s, path) && |path| >= 2
    requires Low(s, path[|path| - 2]) <= Low(s, path[|path| - 1])
    ensures PassedOn(s, Front(path))
  {
    var n, node := |path| - 1, Last(path);
    forall k, u | 0 <= k < n && u in s.onStack && Above(s, Front(path), k, u)
      ensures Low(s, path[k]) <= Low(s, u)
    {
      if k + 1 < n || Idx(s, u) < Idx(s, node) {
        assert Above(s, path, k, u);
      } else if Idx(s, u) == Idx(s, node) {
        IdxInjective(s, u, node);
      } else {
        assert Above(s, path, n, u);
      }
    }
  }

  lemma LeaveKeeps(adj: Adjacency, edges: set<Edge>, nodes: set<Node>, s: Search, frames: seq<Frame>)
    requires Invariant(adj, edges, nodes, s, frames)
    requires |frames| >= 2 && Last(frames).phase == 2
    requires Low(s, Last(frames).node) != Idx(s, Last(frames).node)
    requires Low(s, frames[|frames| - 2].node) <= Low(s, Last(frames).node)
    ensures Invariant(adj, edges, nodes, s, Front(frames))
  {
    hide StackOk, SettledOk, ReadsOk, ReachOk, PassedOn, ResultOk;
    LeaveFrames(adj, nodes, s, frames);
    TopIsCovered(adj, edges, s, frames);
    assert LowAt(edges, s, PathOf(frames)[|frames| - 1]);
    LeaveSettled(edges, s, PathOf(frames));
    LeavePassed(s, PathOf(frames));
    LeaveReach(edges, s, PathOf(frames));
  }

  lemma LeaveSettled(edges: set<Edge>, s: Search, path: seq<Node>)
    requires SettledOk(edges, s, path) && path != [] && Settled(edges, s, Last(path))
    ensures SettledOk(edges, s, Front(path))
  {
    assert path == Front(path) + [Last(path)];
  }

  lemma LeaveReach(edges: set<Edge>, s: Search, path: seq<Node>)
    requires ReachOk(edges, s, path) && path != []
    ensures ReachOk(edges, s, Front(path))
  {
    assert forall k :: 0 <= k < |path| - 1 ==> Front(path)[k] == path[k];
  }

  lemma LeaveFrames(adj: Adjacency, nodes: set<Node>, s: Search, frames: seq<Frame>)
    requires FramesOk(adj, nodes, s, frames) && ReadsOk(adj, s, frames) && PathOk(s, PathOf(frames))
    requires |frames| >= 1 && Last(frames).phase == 2
    ensures FramesOk(adj, nodes, s, Front(frames)) && ReadsOk(adj, s, Front(frames))
    ensures PathOf(Front(frames)) == Front(PathOf(frames))
    ensures |frames| >= 2 ==> PathOk(s, Front(PathOf(frames)))
  {
    var frames' := Front(frames);
    assert forall k :: 0 <= k < |frames'| ==> frames'[k] == frames[k];
    forall k, j | 0 <= k < |PathOf(frames')| && 0 <= j < frames'[k].neighborIdx <= |Neighbours(adj, frames'[k].node)|
      ensures ReadOk(s, frames', frames'[k].node, Neighbours(adj, frames'[k].node)[j])
    {
      assert ReadOk(s, frames, frames[k].node, Neighbours(adj, frames[k].node)[j]);
    }
  }

  // Emitting a component.

  /** The state after everything from stack position `pos` up is emitted. */
  ghost function Popped(s: Search, pos: nat): Search
    requires pos <= |s.stack|
  {
    s.(stack := s.stack[..pos],
       onStack := s.onStack - Elements(s.stack[pos..]),
       result := s.result + [s.stack[pos..]])
  }

  lemma StackDistinct(s: Search)
    requires StackOk(s)
    ensures Distinct(s.stack)
  {
  }

  lemma StackCut(s: Search, pos: nat)
    requires StackOk(s) && pos < |s.stack|
    ensures Distinct(s.stack) && Distinct(s.stack[pos..])
    ensures s.onStack == Elements(s.stack[..pos]) + Elements(s.stack[pos..])
    ensures Elements(s.stack[..pos]) !! Elements(s.stack[pos..])
    ensures forall u :: u in s.onStack ==> (u in Elements(s.stack[pos..]) <==> Idx(s, s.stack[pos]) <= Idx(s, u))
  {
    StackDistinct(s);
    StackSplit(s, pos);
    SplitElements(s.stack, pos);
    hide StackOk, Idx;
  }

  lemma SplitElements(stack: seq<Node>, pos: nat)
    requires Distinct(stack) && pos <= |stack|
    ensures Distinct(stack[pos..])
    ensures Elements(stack) == Elements(stack[..pos]) + Elements(stack[pos..])
    ensures Elements(stack[..pos]) !! Elements(stack[pos..])
  {
    assert stack == stack[..pos] + stack[pos..];
  }

  /** Indices grow up the stack. */
  lemma StackSplit(s: Search, pos: nat)
    requires StackOk(s) && pos < |s.stack|
    ensures s.onStack == Elements(s.stack)
    ensures forall u :: u in Elements(s.stack[pos..]) ==> Idx(s, s.stack[pos]) <= Idx(s, u)
    ensures forall u :: u in Elements(s.stack[..pos]) ==> Idx(s, u) < Idx(s, s.stack[pos])
  {
    var low, high := s.stack[..pos], s.stack[pos..];
    forall u | u in high ensures Idx(s, s.stack[pos]) <= Idx(s, u) {
      var j :| 0 <= j < |high| && high[j] == u;
      assert u == s.stack[pos + j];
    }
    forall u | u in low ensures Idx(s, u) < Idx(s, s.stack[pos]) {
      var j :| 0 <= j < |low| && low[j] == u;
      assert u == s.stack[j];
    }
  }

  /** Above a root, every stack node reaches back down to it. */
  lemma {:induction false} ReachesRoot(edges: set<Edge>, s: Search, path: seq<Node>, u: Node)
    requires StackOk(s) && LowOk(edges, s) && PassedOn(s, path) && PathOk(s, path) && path != []
    requires SettledOk(edges, s, path)
    requires Low(s, Last(path)) == Idx(s, Last(path))
    requires u in s.onStack && Idx(s, Last(path)) <= Idx(s, u)
    ensures Reach(edges, u, Last(path))
    decreases Idx(s, u)
  {
    hide Reach;
    var node := Last(path);
    if Idx(s, u) == Idx(s, node) {
      IdxInjective(s, u, node);
      ReachSelf(edges, node);
    } else {
      assert u !in path by {
        forall k | 0 <= k < |path| ensures path[k] != u {
          assert k == |path| - 1 || Idx(s, path[k]) < Idx(s, node);
        }
      }
      assert Settled(edges, s, u);
      assert Above(s, path, |path| - 1, u);
      assert Low(s, node) <= Low(s, u) && LowAt(edges, s, u);
      var w :| w in s.onStack && Idx(s, w) == Low(s, u) && Reach(edges, u, w);
      ReachesRoot(edges, s, path, w);
      ReachTransitive(edges, u, w, node);
    }
  }

  /** What is left of a root's stack segment leads only into it or to finished nodes. */
  lemma SegmentClosed(edges: set<Edge>, s: Search, path: seq<Node>, e: Edge)
    requires StackOk(s) && PathOk(s, path) && path != [] && SettledOk(edges, s, path) && PassedOn(s, path)
    requires Low(s, Last(path)) == Idx(s, Last(path))
    requires forall f :: f in edges && f.0 == Last(path) ==> Covered(s, f.1, Low(s, Last(path)))
    requires e in edges && e.0 in s.onStack && Idx(s, Last(path)) <= Idx(s, e.0)
    ensures Finished(s, e.1) || (e.1 in s.onStack && Idx(s, Last(path)) <= Idx(s, e.1))
  {
    var node, u := Last(path), e.0;
    if u == node {
      assert Covered(s, e.1, Low(s, node));
    } else {
      if Idx(s, u) == Idx(s, node) {
        IdxInjective(s, u, node);
      }
      assert u !in path by {
        forall k | 0 <= k < |path| ensures path[k] != u {
          assert k == |path| - 1 || Idx(s, path[k]) < Idx(s, node);
        }
      }
      assert Settled(edges, s, u);
      assert Covered(s, e.1, Low(s, u));
      assert Above(s, path, |path| - 1, u);
    }
  }

  /** A strongly connected segment whose edges lead only into it or to a closed
      set that misses it is a component. */
  lemma SegmentIsScc(edges: set<Edge>, done: set<Node>, segment: set<Node>, node: Node)
    requires node in segment && done !! segment
    requires Closed(edges, done) && Closed(edges, done + segment)
    requires forall u :: u in segment ==> Mutual(edges, node, u)
    ensures IsScc(edges, segment)
  {
    hide Reach;
    forall u, v | u in segment
      ensures v in segment <==> Mutual(edges, u, v)
    {
      if v in segment {
        ReachTransitive(edges, u, node, v);
        ReachTransitive(edges, v, node, u);
      }
      if Mutual(edges, u, v) {
        ReachStaysInside(edges, done + segment, u, v);
        if v in done {
          ReachStaysInside(edges, done, v, u);
        }
      }
    }
  }

  lemma PopStack(s: Search, pos: nat)
    requires StackOk(s) && pos < |s.stack|
    ensures StackOk(Popped(s, pos))
    ensures forall u {:trigger Idx(Popped(s, pos), u)} :: Idx(Popped(s, pos), u) == Idx(s, u)
    ensures forall u {:trigger Low(Popped(s, pos), u)} :: Low(Popped(s, pos), u) == Low(s, u)
    ensures forall u {:trigger u in Popped(s, pos).onStack} ::
      u in Popped(s, pos).onStack <==> u in s.onStack && Idx(s, u) < Idx(s, s.stack[pos])
  {
    StackCut(s, pos);
    var s' := Popped(s, pos);
    assert forall u :: Idx(s', u) == Idx(s, u);
    assert s'.onStack == Elements(s'.stack);
  }

  lemma PopLow(edges: set<Edge>, s: Search, pos: nat)
    requires StackOk(s) && LowOk(edges, s) && pos < |s.stack|
    ensures LowOk(edges, Popped(s, pos))
  {
    var s' := Popped(s, pos);
    PopStack(s, pos);
    hide Reach;
    forall u | u in s'.onStack ensures LowAt(edges, s', u) {
      assert LowAt(edges, s, u);
      var x :| x in s.onStack && Idx(s, x) == Low(s, u) && Reach(edges, u, x);
      assert x in s'.onStack && Idx(s', x) == Low(s', u);
    }
  }

  lemma PopPath(edges: set<Edge>, s: Search, path: seq<Node>, pos: nat)
    requires StackOk(s) && PathOk(s, path) && path != [] && pos < |s.stack| && s.stack[pos] == Last(path)
    requires ReachOk(edges, s, path)
    ensures PathOk(Popped(s, pos), Front(path)) && ReachOk(edges, Popped(s, pos), Front(path))
  {
    hide Reach;
    PopStack(s, pos);
    assert pos > 0 ==> Idx(s, s.stack[0]) < Idx(s, s.stack[pos]);
    assert |path| > 1 ==> Idx(s, path[0]) < Idx(s, Last(path));
  }

  lemma PopSettled(edges: set<Edge>, s: Search, path: seq<Node>, pos: nat)
    requires StackOk(s) && path != [] && pos < |s.stack| && s.stack[pos] == Last(path)
    requires SettledOk(edges, s, path)
    ensures SettledOk(edges, Popped(s, pos), Front(path))
  {
    var s', path' := Popped(s, pos), Front(path);
    PopStack(s, pos);
    forall u | u in s'.onStack && u !in path' ensures Settled(edges, s', u) {
      assert path == path' + [Last(path)];
      assert Settled(edges, s, u);
      forall e | e in edges && e.0 == u ensures Covered(s', e.1, Low(s', u)) {
        assert Covered(s, e.1, Low(s, u));
      }
    }
  }

  lemma PopPassed(s: Search, path: seq<Node>, pos: nat)
    requires StackOk(s) && path != [] && pos < |s.stack| && s.stack[pos] == Last(path)
    requires PassedOn(s, path)
    ensures PassedOn(Popped(s, pos), Front(path))
  {
    var s', path' := Popped(s, pos), Front(path);
    PopStack(s, pos);
    forall k, u | 0 <= k < |path'| && u in s'.onStack && Above(s', path', k, u)
      ensures Low(s', path'[k]) <= Low(s', u)
    {
      assert Above(s, path, k, u);
    }
  }

  lemma PopReads(adj: Adjacency, s: Search, frames: seq<Frame>, pos: nat)
    requires StackOk(s) && pos < |s.stack| && ReadsOk(adj, s, frames)
    ensures ReadsOk(adj, Popped(s, pos), frames)
  {
    var s' := Popped(s, pos);
    PopStack(s, pos);
    forall k, j | 0 <= k < |PathOf(frames)| && 0 <= j < frames[k].neighborIdx <= |Neighbours(adj, frames[k].node)|
      ensures ReadOk(s', frames, frames[k].node, Neighbours(adj, frames[k].node)[j])
    {
      assert ReadOk(s, frames, frames[k].node, Neighbours(adj, frames[k].node)[j]);
    }
  }

  lemma PopResult(edges: set<Edge>, s: Search, path: seq<Node>, pos: nat)
    requires StackOk(s) && PathOk(s, path) && path != [] && pos < |s.stack| && s.stack[pos] == Last(path)
    requires LowOk(edges, s) && SettledOk(edges, s, path) && ReachOk(edges, s, path) && PassedOn(s, path)
    requires ResultOk(edges, s)
    requires Low(s, Last(path)) == Idx(s, Last(path))
    requires forall f :: f in edges && f.0 == Last(path) ==> Covered(s, f.1, Low(s, Last(path)))
    ensures ResultOk(edges, Popped(s, pos))
  {
    hide Reach;
    var s', node, component := Popped(s, pos), Last(path), s.stack[pos..];
    var segment := Elements(component);
    var done := set u | u in s.indices && u !in s.onStack;
    StackCut(s, pos);
    PopStack(s, pos);
    forall u | u in segment ensures Mutual(edges, node, u) {
      assert u in s.onStack;
      ReachesRoot(edges, s, path, u);
      assert Reach(edges, path[|path| - 1], u);
    }
    assert Closed(edges, done) by {
      forall e | e in edges && e.0 in done ensures e.1 in done {
        assert Finished(s, e.0);
      }
    }
    assert Closed(edges, done + segment) by {
      forall e | e in edges && e.0 in segment ensures e.1 in done + segment {
        SegmentClosed(edges, s, path, e);
      }
    }
    assert component[0] == node;
    SegmentIsScc(edges, done, segment, node);
    forall u ensures Finished(s', u) <==> Finished(s, u) || u in segment {
    }
    EmitComponent(edges, s, s', component, done);
  }

  lemma EmitComponent(edges: set<Edge>, s: Search, s': Search, component: seq<Node>, done: set<Node>)
    requires ResultOk(edges, s) && s'.result == s.result + [component]
    requires Distinct(component) && IsScc(edges, Elements(component))
    requires forall u :: Finished(s, u) <==> u in done
    requires forall u :: Finished(s', u) <==> u in done || u in component
    requires done !! Elements(component) && Closed(edges, done + Elements(component))
    ensures ResultOk(edges, s')
  {
    hide IsScc;
    var n := |s.result|;
    assert s'.result[n] == component && forall c :: 0 <= c < n ==> s'.result[c] == s.result[c];
    forall u ensures Finished(s', u) <==> exists c :: 0 <= c < |s'.result| && u in s'.result[c] {
      if Finished(s', u) {
        if u in component {
          assert u in s'.result[n];
        } else {
          var c :| 0 <= c < n && u in s.result[c];
          assert u in s'.result[c];
        }
      }
      if exists c :: 0 <= c < |s'.result| && u in s'.result[c] {
        var c :| 0 <= c < |s'.result| && u in s'.result[c];
        assert c < n ==> u in s.result[c];
      }
    }
    forall c | 0 <= c < n ensures Elements(s'.result[c]) !! Elements(component) {
      forall u | u in s.result[c] ensures u in done {
        assert Finished(s, u);
      }
    }
    forall e | e in edges && Finished(s', e.0) ensures Finished(s', e.1) {
      assert e.0 in done + Elements(component);
    }
    EmitOrder(edges, s, component, done);
  }

  /** What is finished has no edge to what is not, so the new component comes last. */
  lemma EmitOrder(edges: set<Edge>, s: Search, component: seq<Node>, done: set<Node>)
    requires ResultOk(edges, s) && done !! Elements(component)
    requires forall u :: Finished(s, u) <==> u in done
    ensures SinksFirst(edges, s.result + [component])
  {
    hide IsScc;
    var n, all := |s.result|, s.result + [component];
    forall c, d, e | 0 <= c < d <= n && e in edges && e.0 in all[c] ensures e.1 !in all[d] {
      assert all[c] == s.result[c];
      if d < n {
        assert all[d] == s.result[d];
      } else {
        assert Finished(s, e.0);
        assert e.1 in done;
        InElements(component, e.1);
      }
    }
  }

  lemma PopKeeps(adj: Adjacency, edges: set<Edge>, nodes: set<Node>, s: Search, frames: seq<Frame>, pos: nat)
    requires Invariant(adj, edges, nodes, s, frames)
    requires frames != [] && Last(frames).phase == 2
    requires Low(s, Last(frames).node) == Idx(s, Last(frames).node)
    requires pos < |s.stack| && s.stack[pos] == Last(frames).node
    ensures Invariant(adj, edges, nodes, Popped(s, pos), Front(frames))
  {
    hide PathOk, SettledOk, ReadsOk, ReachOk, PassedOn, ResultOk, LowOk;
    LeaveFrames(adj, nodes, s, frames);
    TopIsCovered(adj, edges, s, frames);
    PopStack(s, pos);
    PopLow(edges, s, pos);
    PopPath(edges, s, PathOf(frames), pos);
    PopSettled(edges, s, PathOf(frames), pos);
    PopPassed(s, PathOf(frames), pos);
    PopReads(adj, s, Front(frames), pos);
    PopResult(edges, s, PathOf(frames), pos);
  }

  // ---- The loop ------------------------------------------------------------

  lemma StartKeeps(adj: Adjacency, edges: set<Edge>, nodes: set<Node>, s: Search, start: Node)
    requires Invariant(adj, edges, nodes, s, []) && start in nodes && start !in s.indices
    ensures Invariant(adj, edges, nodes, s, [Frame(start, 0, 0)])
  {
    assert PathOf([Frame(start, 0, 0)]) == [] == PathOf([]);
  }

  /** The first node of a visit is always a root. */
  lemma BottomIsRoot(edges: set<Edge>, s: Search, path: seq<Node>)
    requires StackOk(s) && PathOk(s, path) && LowOk(edges, s) && |path| == 1
    ensures Low(s, path[0]) == Idx(s, path[0])
  {
    assert path[0] in s.onStack && LowAt(edges, s, path[0]);
    var w :| w in s.onStack && Idx(s, w) == Low(s, path[0]) && Reach(edges, path[0], w);
    assert w in s.stack;
    var i :| 0 <= i < |s.stack| && s.stack[i] == w;
    assert i == 0 || Idx(s, s.stack[0]) < Idx(s, w);
  }

  /** Passing the finishing node's low link to its parent. */
  lemma ParentKeeps(adj: Adjacency, edges: set<Edge>, nodes: set<Node>, s: Search, frames: seq<Frame>)
    requires Invariant(adj, edges, nodes, s, frames)
    requires |frames| >= 2 && Last(frames).phase == 2
    ensures var parent, node := frames[|frames| - 2].node, Last(frames).node;
      var s' := Relax(s, parent, Low(s, node));
      && Invariant(adj, edges, nodes, s', frames)
      && Low(s', parent) <= Low(s', node) && Low(s', node) == Low(s, node) && Idx(s', node) == Idx(s, node)
      && (Low(s, node) == Idx(s, node) ==> s' == s)
  {
    hide StackOk, PathOk, LowOk, SettledOk, ReadsOk, ReachOk, PassedOn, ResultOk, FramesOk, Reach;
    var path := PathOf(frames);
    var parent, node := path[|path| - 2], path[|path| - 1];
    var w := ParentWitness(edges, s, path);
    RelaxKeeps(adj, edges, nodes, s, frames, |path| - 2, w);
    RelaxFacts(s, parent, Low(s, node));
  }

  lemma ParentWitness(edges: set<Edge>, s: Search, path: seq<Node>) returns (w: Node)
    requires StackOk(s) && PathOk(s, path) && LowOk(edges, s) && ReachOk(edges, s, path) && |path| >= 2
    ensures path[|path| - 2] in s.onStack && path[|path| - 2] != path[|path| - 1]
    ensures w in s.onStack && Idx(s, w) == Low(s, path[|path| - 1]) && Reach(edges, path[|path| - 2], w)
    ensures Low(s, path[|path| - 1]) == Idx(s, path[|path| - 1]) ==>
      Low(s, path[|path| - 2]) <= Low(s, path[|path| - 1])
  {
    hide Reach;
    var parent, node := path[|path| - 2], path[|path| - 1];
    assert Idx(s, parent) < Idx(s, node);
    assert LowAt(edges, s, node) && LowAt(edges, s, parent);
    w :| w in s.onStack && Idx(s, w) == Low(s, node) && Reach(edges, node, w);
    assert Reach(edges, parent, node);
    ReachTransitive(edges, parent, node, w);
  }

  /** Iterations the open frames still need: a read for each unread neighbour, the
      change of phase and the finish. A frame in phase 0 is counted when it is
      entered. */
  ghost function Owed(adj: Adjacency, frames: seq<Frame>): nat {
    if frames == [] then 0
    else
      var top := Last(frames);
      Owed(adj, Front(frames)) +
        if top.phase == 0 || top.neighborIdx > |Neighbours(adj, top.node)| then 0
        else if top.phase == 1 then |Neighbours(adj, top.node)| - top.neighborIdx + 2
        else 1
  }

  lemma ReadsNeighbor(adj: Adjacency, edges: set<Edge>, nodes: set<Node>, s: Search, frames: seq<Frame>)
    requires Invariant(adj, edges, nodes, s, frames)
    requires frames != [] && Last(frames).phase == 1
    requires Last(frames).neighborIdx < |Neighbours(adj, Last(frames).node)|
    requires Neighbours(adj, Last(frames).node)[Last(frames).neighborIdx] in s.onStack
    ensures var node, neighbor := Last(frames).node, Neighbours(adj, Last(frames).node)[Last(frames).neighborIdx];
      var s' := Relax(s, node, Idx(s, neighbor));
      Invariant(adj, edges, nodes, s', frames) && Covered(s', neighbor, Low(s', node))
  {
    hide SettledOk, ReadsOk, PassedOn, ResultOk, Reach, LowOk, ReachOk;
    var path := PathOf(frames);
    var node, neighbor := Last(frames).node, Neighbours(adj, Last(frames).node)[Last(frames).neighborIdx];
    assert path[|path| - 1] == node && node in s.onStack;
    assert neighbor in Neighbours(adj, node);
    ReachEdge(edges, node, neighbor);
    RelaxKeeps(adj, edges, nodes, s, frames, |path| - 1, neighbor);
    RelaxFacts(s, node, Idx(s, neighbor));
  }

  lemma RetopMeasures(adj: Adjacency, frames: seq<Frame>, top: Frame)
    requires frames != []
    ensures Front(Retop(frames, top)) == Front(frames)
    ensures Front(Front(frames + [top])) == Front(frames)
  {
    assert Front(frames + [top]) == frames;
  }

  lemma PopMember(s: Search, stack: seq<Node>, members: seq<Node>)
    requires stack != [] && stack <= s.stack && members == s.stack[|stack|..]
    ensures [Last(stack)] + members == s.stack[|stack| - 1..]
    ensures Elements([Last(stack)] + members) == {Last(stack)} + Elements(members)
  {
    assert stack == s.stack[..|stack|];
    assert forall x :: x in [Last(stack)] + members <==> x == Last(stack) || x in members;
  }

  lemma StackPosition(s: Search, node: Node) returns (pos: nat)
    requires StackOk(s) && node in s.onStack
    ensures node in s.stack && pos == IndexOf(s.stack, node) && Distinct(s.stack)
  {
    assert node in s.stack;
    pos := IndexOf(s.stack, node);
    StackCut(s, pos);
  }

  /** What the steps of the loop may take for granted. */
  lemma TopFrame(adj: Adjacency, edges: set<Edge>, nodes: set<Node>, s: Search, frames: seq<Frame>)
    requires Invariant(adj, edges, nodes, s, frames) && frames != []
    ensures StackOk(s) && s.indices.Keys == s.lowlinks.Keys && s.onStack <= s.indices.Keys <= nodes
    ensures Last(frames).phase <= 2 && Last(frames).neighborIdx <= |Neighbours(adj, Last(frames).node)|
    ensures Last(frames).node in nodes
    ensures Last(frames).phase == 0 ==> Last(frames).node !in s.indices && Last(frames).neighborIdx == 0
    ensures Last(frames).phase != 0 ==> Last(frames).node in s.onStack
    ensures forall k :: 0 <= k < |frames| - 1 ==> frames[k].phase == 1 && frames[k].node in s.onStack
  {
    var path := PathOf(frames);
    assert Last(frames).phase != 0 ==> path[|path| - 1] == Last(frames).node;
    forall k | 0 <= k < |frames| - 1 ensures frames[k].phase == 1 && frames[k].node in s.onStack {
      assert path[k] == frames[k].node;
    }
  }

  lemma FirstFrame(adj: Adjacency, edges: set<Edge>, nodes: set<Node>, s: Search, frames: seq<Frame>)
    requires Invariant(adj, edges, nodes, s, frames) && |frames| == 1 && frames[0].phase == 2
    ensures Low(s, frames[0].node) == Idx(s, frames[0].node)
  {
    BottomIsRoot(edges, s, PathOf(frames));
  }

  /** Pop the stack down to `node`; the members come out in stack order. */
  method PopComponent(s: Search, node: Node) returns (s': Search, ghost pos: nat)
    requires StackOk(s) && node in s.onStack
    ensures node in s.stack && s' == Popped(s, IndexOf(s.stack, node))
    ensures pos == IndexOf(s.stack, node)
  {
    hide StackOk;
    pos := StackPosition(s, node);
    var stack, onStack := s.stack, s.onStack;
    var members: seq<Node> := [];
    while true
      invariant pos < |stack| && stack <= s.stack
      invariant members == s.stack[|stack|..]
      invariant onStack == s.onStack - Elements(members)
      decreases |stack|
    {
      var popped := Last(stack);
      PopMember(s, stack, members);
      assert popped == s.stack[|stack| - 1];
      stack := Front(stack);
      onStack := onStack - {popped};
      members := [popped] + members;
      if popped == node {
        assert |stack| == pos;
        break;
      }
    }
    s' := s.(stack := stack, onStack := onStack, result := s.result + [members]);
  }

  /** Phase 1: read one neighbour, or find that all are read. */
  method ReadNeighbor(adj: Adjacency, s: Search, callStack: seq<Frame>, ghost edges: set<Edge>, ghost nodes: set<Node>)
      returns (s': Search, callStack': seq<Frame>)
    requires Invariant(adj, edges, nodes, s, callStack)
    requires callStack != [] && Last(callStack).phase == 1
    ensures Invariant(adj, edges, nodes, s', callStack') && s'.indices == s.indices
    ensures Owed(adj, callStack') + 1 == Owed(adj, callStack)
  {
    hide Invariant, StackOk;
    TopFrame(adj, edges, nodes, s, callStack);
    s' := s;
    var frame := Last(callStack);
    var neighbors := Neighbours(adj, frame.node);
    if frame.neighborIdx < |neighbors| {
      var neighbor := neighbors[frame.neighborIdx];
      var read := frame.(neighborIdx := frame.neighborIdx + 1);
      RetopMeasures(adj, callStack, read);
      if neighbor !in s.indices {
        PushKeeps(adj, edges, nodes, s, callStack);
        callStack' := Retop(callStack, read) + [Frame(neighbor, 0, 0)];
        assert Front(callStack') == Retop(callStack, read);
      } else {
        if neighbor in s.onStack {
          ReadsNeighbor(adj, edges, nodes, s, callStack);
          s' := Relax(s, frame.node, s.indices[neighbor]);
        }
        AdvanceKeeps(adj, edges, nodes, s', callStack);
        callStack' := Retop(callStack, read);
      }
    } else {
      PhaseKeeps(adj, edges, nodes, s, callStack);
      RetopMeasures(adj, callStack, frame.(phase := 2));
      callStack' := Retop(callStack, frame.(phase := 2));
    }
  }

  /** Phase 2: leave the node, emitting its component if it is a root. */
  method FinishNode(adj: Adjacency, s: Search, callStack: seq<Frame>, ghost edges: set<Edge>, ghost nodes: set<Node>)
      returns (s': Search, callStack': seq<Frame>)
    requires Invariant(adj, edges, nodes, s, callStack)
    requires callStack != [] && Last(callStack).phase == 2
    ensures Invariant(adj, edges, nodes, s', callStack') && s'.indices == s.indices
    ensures callStack' == Front(callStack) && Owed(adj, callStack') + 1 == Owed(adj, callStack)
  {
    hide Invariant, StackOk;
    TopFrame(adj, edges, nodes, s, callStack);
    s' := s;
    var node := Last(callStack).node;
    callStack' := Front(callStack);
    if callStack' != [] {
      var parentFrame := Last(callStack');
      if parentFrame.phase == 1 {
        ParentKeeps(adj, edges, nodes, s, callStack);
        s' := Relax(s, parentFrame.node, s.lowlinks[node]);
      }
    } else {
      FirstFrame(adj, edges, nodes, s, callStack);
    }
    TopFrame(adj, edges, nodes, s', callStack);
    assert s'.indices == s.indices && s'.onStack == s.onStack;
    if s'.lowlinks[node] == s'.indices[node] {
      ghost var whole, pos := s', 0;
      s', pos := PopComponent(s', node);
      PopKeeps(adj, edges, nodes, whole, callStack, pos);
    } else {
      LeaveKeeps(adj, edges, nodes, s', callStack);
    }
  }

  /** Iterations that explore these nodes completely: entering, a read for each
      neighbour, a change of phase and finishing. */
  ghost function VisitCost(adj: Adjacency, explored: seq<Node>): nat {
    Work(adj, explored) + 2 * |explored|
  }

  /** The nodes indexed since, each once. */
  ghost predicate NewlyIndexed(before: set<Node>, now: set<Node>, explored: seq<Node>) {
    now == before + Elements(explored) && Elements(explored) !! before && Distinct(explored)
  }

  lemma IndexOneMore(before: set<Node>, now: set<Node>, explored: seq<Node>, node: Node)
    requires NewlyIndexed(before, now, explored) && node !in now
    ensures NewlyIndexed(before, now + {node}, explored + [node])
  {
    PushElement(explored, node);
  }

  /** `tarjan_visit`. The early pop for an already indexed phase-0 frame is never
      taken: such a frame is pushed only for an unindexed node. `steps` counts the
      loop's iterations. */
  method TarjanVisit(start: Node, adj: Adjacency, s0: Search, ghost edges: set<Edge>, ghost nodes: set<Node>)
      returns (s: Search, ghost explored: seq<Node>, ghost steps: nat)
    requires Invariant(adj, edges, nodes, s0, []) && start in nodes && start !in s0.indices
    ensures Invariant(adj, edges, nodes, s, [])
    ensures NewlyIndexed(s0.indices.Keys, s.indices.Keys, explored) && start in s.indices
    ensures steps == VisitCost(adj, explored)
  {
    hide Invariant, StackOk, NewlyIndexed, VisitCost, Owed;
    s, explored, steps := s0, [], 0;
    var callStack := [Frame(start, 0, 0)];
    StartKeeps(adj, edges, nodes, s, start);
    NothingExplored(adj, start, s0.indices.Keys);
    while callStack != []
      invariant Invariant(adj, edges, nodes, s, callStack)
      invariant NewlyIndexed(s0.indices.Keys, s.indices.Keys, explored)
      invariant steps + Owed(adj, callStack) == VisitCost(adj, explored)
      invariant start in s.indices || callStack == [Frame(start, 0, 0)]
      decreases nodes - s.indices.Keys, Owed(adj, callStack)
    {
      var frame := Last(callStack);
      TopFrame(adj, edges, nodes, s, callStack);
      steps := steps + 1;
      if frame.phase == 0 {
        if frame.node in s.indices {
          assert false;
        }
        EnterKeeps(adj, edges, nodes, s, callStack);
        EnterCost(adj, explored, callStack);
        IndexOneMore(s0.indices.Keys, s.indices.Keys, explored, frame.node);
        assert frame.node in nodes - s.indices.Keys;
        assert Enter(s, frame.node).indices.Keys == s.indices.Keys + {frame.node};
        s := Enter(s, frame.node);
        callStack := Retop(callStack, Frame(frame.node, 0, 1));
        explored := explored + [frame.node];
      } else if frame.phase == 1 {
        s, callStack := ReadNeighbor(adj, s, callStack, edges, nodes);
      } else {
        s, callStack := FinishNode(adj, s, callStack, edges, nodes);
      }
    }
    NothingOwed(adj);
  }

  lemma NothingOwed(adj: Adjacency)
    ensures Owed(adj, []) == 0
  {
  }

  lemma NothingExplored(adj: Adjacency, start: Node, before: set<Node>)
    ensures NewlyIndexed(before, before, []) && VisitCost(adj, []) == 0 && Owed(adj, [Frame(start, 0, 0)]) == 0
  {
    assert Front([Frame(start, 0, 0)]) == [];
  }

  lemma EnterCost(adj: Adjacency, explored: seq<Node>, frames: seq<Frame>)
    requires frames != [] && Last(frames).phase == 0
    ensures var node := Last(frames).node;
      VisitCost(adj, explored + [node]) - Owed(adj, Retop(frames, Frame(node, 0, 1))) ==
      VisitCost(adj, explored) - Owed(adj, frames) + 1
  {
    var node := Last(frames).node;
    WorkStep(adj, explored, node);
    hide Work;
    RetopMeasures(adj, frames, Frame(node, 0, 1));
  }

  // ---- find_sccs -----------------------------------------------------------

  ghost function NodesOf(edges: set<Edge>): set<Node> {
    (set e | e in edges :: e.0) + (set e | e in edges :: e.1)
  }

  /** The components are pairwise disjoint, cover exactly the given nodes, and
      each is strongly connected and maximal. */
  ghost predicate IsPartition(edges: set<Edge>, nodes: set<Node>, sccs: seq<seq<Node>>) {
    && (forall c :: 0 <= c < |sccs| ==> Distinct(sccs[c]) && IsScc(edges, Elements(sccs[c])))
    && (forall u :: u in nodes <==> exists c :: 0 <= c < |sccs| && u in sccs[c])
    && (forall c, d :: 0 <= c < d < |sccs| ==> Elements(sccs[c]) !! Elements(sccs[d]))
  }

  /** `SccResult::cycles`: the components of more than one node. */
  function Nontrivial(sccs: seq<seq<Node>>): seq<seq<Node>> {
    if sccs == [] then []
    else (if |sccs[0]| > 1 then [sccs[0]] else []) + Nontrivial(sccs[1..])
  }

  lemma {:induction false} NontrivialMembers(sccs: seq<seq<Node>>)
    ensures forall x :: x in Nontrivial(sccs) <==> x in sccs && |x| > 1
  {
    if sccs != [] {
      NontrivialMembers(sccs[1..]);
    }
  }

  /** They keep the order of the components. */
  lemma {:induction false} NontrivialInOrder(sccs: seq<seq<Node>>, c: seq<Node>, rest: seq<seq<Node>>)
    ensures Nontrivial(sccs + [c] + rest) ==
      Nontrivial(sccs) + (if |c| >= 2 then [c] else []) + Nontrivial(rest)
  {
    if sccs == [] {
      assert sccs + [c] + rest == [c] + rest && ([c] + rest)[1..] == rest;
    } else {
      assert (sccs + [c] + rest)[1..] == sccs[1..] + [c] + rest;
      NontrivialInOrder(sccs[1..], c, rest);
    }
  }

  lemma NothingBuilt()
    ensures Built([], map[], [])
  {
  }

  lemma NodesStep(edges: set<Edge>, e: Edge)
    ensures NodesOf(edges + {e}) == NodesOf(edges) + {e.0} + {e.1}
  {
  }

  lemma RepresentsStep(adj: Adjacency, edges: set<Edge>, e: Edge)
    requires Represents(adj, edges)
    ensures Represents(adj[e.0 := Neighbours(adj, e.0) + [e.1]], edges + {e})
  {
    var grown := adj[e.0 := Neighbours(adj, e.0) + [e.1]];
    forall u, v ensures v in Neighbours(grown, u) <==> (u, v) in edges + {e} {
      assert v in Neighbours(adj, u) <==> (u, v) in edges;
    }
  }

  /** How many of the edges leave the node. */
  ghost function OutDegree(edges: seq<Edge>, u: Node): nat {
    if edges == [] then 0 else OutDegree(Front(edges), u) + if Last(edges).0 == u then 1 else 0
  }

  ghost predicate HasDegrees(adj: Adjacency, edges: seq<Edge>) {
    forall u :: |Neighbours(adj, u)| == OutDegree(edges, u)
  }

  lemma DegreesStep(adj: Adjacency, edges: seq<Edge>, e: Edge)
    requires HasDegrees(adj, edges)
    ensures HasDegrees(adj[e.0 := Neighbours(adj, e.0) + [e.1]], edges + [e])
  {
    var grown := adj[e.0 := Neighbours(adj, e.0) + [e.1]];
    assert Front(edges + [e]) == edges && Last(edges + [e]) == e;
    forall u ensures |Neighbours(grown, u)| == OutDegree(edges + [e], u) {
      assert |Neighbours(adj, u)| == OutDegree(edges, u);
    }
  }

  ghost function DegreeTotal(edges: seq<Edge>, nodes: seq<Node>): nat {
    if nodes == [] then 0 else DegreeTotal(edges, Front(nodes)) + OutDegree(edges, Last(nodes))
  }

  lemma {:induction false} DegreeTotalStep(edges: seq<Edge>, nodes: seq<Node>)
    requires edges != [] && Distinct(nodes)
    ensures DegreeTotal(edges, nodes) == DegreeTotal(Front(edges), nodes) + if Last(edges).0 in nodes then 1 else 0
  {
    if nodes != [] {
      FrontLast(nodes);
      PopElement(Front(nodes), Last(nodes));
      DegreeTotalStep(edges, Front(nodes));
    }
  }

  /** Every edge leaves exactly one of the nodes. */
  lemma {:induction false} DegreesAddUp(edges: seq<Edge>, nodes: seq<Node>)
    requires Distinct(nodes) && forall e :: e in edges ==> e.0 in nodes
    ensures DegreeTotal(edges, nodes) == |edges|
    decreases |edges|
  {
    if edges == [] {
      NoDegrees(nodes);
    } else {
      FrontLast(edges);
      assert forall e :: e in Front(edges) ==> e in edges;
      DegreeTotalStep(edges, nodes);
      DegreesAddUp(Front(edges), nodes);
    }
  }

  lemma {:induction false} NoDegrees(nodes: seq<Node>)
    ensures DegreeTotal([], nodes) == 0
  {
    if nodes != [] {
      NoDegrees(Front(nodes));
    }
  }

  lemma {:induction false} WorkIsDegrees(adj: Adjacency, edges: seq<Edge>, explored: seq<Node>)
    requires HasDegrees(adj, edges)
    ensures Work(adj, explored) == DegreeTotal(edges, explored) + |explored|
  {
    if explored != [] {
      WorkIsDegrees(adj, edges, Front(explored));
    }
  }

  /** Exploring every node once costs one iteration for each edge and three for
      each node. */
  lemma WholeCost(adj: Adjacency, edges: seq<Edge>, explored: seq<Node>)
    requires HasDegrees(adj, edges) && Distinct(explored) && Elements(explored) == NodesOf(Elements(edges))
    ensures VisitCost(adj, explored) == |edges| + 3 * |NodesOf(Elements(edges))|
  {
    forall e | e in edges ensures e.0 in explored {
      assert e in Elements(edges);
      InElements(explored, e.0);
    }
    hide HasDegrees, NodesOf;
    DegreesAddUp(edges, explored);
    WorkIsDegrees(adj, edges, explored);
    DistinctSize(explored);
  }

  /** The adjacency lists and starts of these edges. */
  ghost predicate Built(edges: seq<Edge>, adj: Adjacency, sortedNodes: seq<Node>) {
    && Represents(adj, Elements(edges)) && HasDegrees(adj, edges)
    && Elements(sortedNodes) == NodesOf(Elements(edges)) && Ascending(LexLe, sortedNodes)
  }

  lemma BuiltStep(edges: seq<Edge>, adj: Adjacency, sortedNodes: seq<Node>, e: Edge)
    requires Built(edges, adj, sortedNodes)
    ensures Built(edges + [e], adj[e.0 := Neighbours(adj, e.0) + [e.1]],
                  InsertUnique(LexLe, e.1, InsertUnique(LexLe, e.0, sortedNodes)))
  {
    StringOrder();
    hide Represents, NodesOf, TotalOrder, Ascending, HasDegrees, LexLe, InsertUnique, Elements;
    PushElement(edges, e);
    NodesStep(Elements(edges), e);
    RepresentsStep(adj, Elements(edges), e);
    DegreesStep(adj, edges, e);
    InsertUniqueAscending(LexLe, e.0, sortedNodes);
    InsertUniqueAscending(LexLe, e.1, InsertUnique(LexLe, e.0, sortedNodes));
  }

  method BuildGraph(edges: seq<Edge>) returns (adj: Adjacency, sortedNodes: seq<Node>)
    ensures Built(edges, adj, sortedNodes)
  {
    adj, sortedNodes := map[], [];
    NothingBuilt();
    assert edges[..0] == [];
    hide Built;
    for n := 0 to |edges|
      invariant Built(edges[..n], adj, sortedNodes)
    {
      var (source, target) := edges[n];
      assert edges[..n + 1] == edges[..n] + [edges[n]];
      BuiltStep(edges[..n], adj, sortedNodes, edges[n]);
      adj := adj[source := Neighbours(adj, source) + [target]];
      sortedNodes := InsertUnique(LexLe, source, sortedNodes);
      sortedNodes := InsertUnique(LexLe, target, sortedNodes);
    }
    assert edges[..|edges|] == edges;
  }

  lemma NothingSearched(adj: Adjacency, edges: set<Edge>, nodes: set<Node>)
    requires Represents(adj, edges) && Within(adj, nodes)
    ensures Invariant(adj, edges, nodes, Search(0, [], {}, map[], map[], []), [])
  {
  }

  /** Visiting from every start that is not indexed yet. */
  method SearchAll(adj: Adjacency, sortedNodes: seq<Node>, ghost edges: set<Edge>, ghost nodes: set<Node>)
      returns (s: Search, ghost explored: seq<Node>, ghost steps: nat)
    requires Represents(adj, edges) && Within(adj, nodes) && forall u :: u in nodes <==> u in sortedNodes
    ensures Invariant(adj, edges, nodes, s, []) && nodes <= s.indices.Keys
    ensures NewlyIndexed({}, s.indices.Keys, explored) && steps == VisitCost(adj, explored)
  {
    s, explored, steps := Search(0, [], {}, map[], map[], []), [], 0;
    NothingSearched(adj, edges, nodes);
    NothingExplored(adj, "", {});
    hide Invariant, NewlyIndexed, VisitCost, Represents, Within;
    for n := 0 to |sortedNodes|
      invariant Invariant(adj, edges, nodes, s, [])
      invariant forall u :: u in sortedNodes[..n] ==> u in s.indices
      invariant NewlyIndexed({}, s.indices.Keys, explored) && steps == VisitCost(adj, explored)
    {
      var startNode := sortedNodes[n];
      assert sortedNodes[..n + 1] == sortedNodes[..n] + [startNode];
      if startNode !in s.indices {
        s, explored, steps := VisitMore(adj, s, startNode, explored, steps, edges, nodes);
      }
    }
    assert sortedNodes[..|sortedNodes|] == sortedNodes;
  }

  method VisitMore(adj: Adjacency, s0: Search, startNode: Node, ghost explored0: seq<Node>, ghost steps0: nat,
                   ghost edges: set<Edge>, ghost nodes: set<Node>)
      returns (s: Search, ghost explored: seq<Node>, ghost steps: nat)
    requires Invariant(adj, edges, nodes, s0, []) && startNode in nodes && startNode !in s0.indices
    requires NewlyIndexed({}, s0.indices.Keys, explored0) && steps0 == VisitCost(adj, explored0)
    ensures Invariant(adj, edges, nodes, s, [])
    ensures s0.indices.Keys + {startNode} <= s.indices.Keys
    ensures NewlyIndexed({}, s.indices.Keys, explored) && steps == VisitCost(adj, explored)
  {
    hide Invariant, NewlyIndexed, VisitCost;
    ghost var more, cost;
    s, more, cost := TarjanVisit(startNode, adj, s0, edges, nodes);
    IndexedGrows(s0.indices.Keys, s.indices.Keys, more);
    CostsAddUp(adj, explored0, more, s0.indices.Keys, s.indices.Keys);
    explored, steps := explored0 + more, steps0 + cost;
  }

  /** `find_sccs`, never cancelled. The components come out in reverse topological
      order; `cycles` is empty exactly when no closed walk passes through two
      distinct nodes. `steps` counts the iterations of all visits. */
  method FindSccs(edges: seq<Edge>)
      returns (allSccs: seq<seq<Node>>, cycles: seq<seq<Node>>, nodeCount: nat, edgeCount: nat, ghost steps: nat)
    ensures IsPartition(Elements(edges), NodesOf(Elements(edges)), allSccs) && SinksFirst(Elements(edges), allSccs)
    ensures cycles == Nontrivial(allSccs)
    ensures cycles != [] <==> HasProperCycle(Elements(edges))
    ensures nodeCount == |NodesOf(Elements(edges))| && edgeCount == |edges|
    ensures steps == edgeCount + 3 * nodeCount
  {
    hide *;
    var adj, sortedNodes := BuildGraph(edges);
    ghost var graph, nodes := Elements(edges), NodesOf(Elements(edges));
    BuiltFacts(edges, adj, sortedNodes);
    ghost var explored;
    var s;
    s, explored, steps := SearchAll(adj, sortedNodes, graph, nodes);
    allSccs := s.result;
    cycles := Nontrivial(allSccs);
    SearchedEverything(adj, graph, nodes, s);
    CyclesIffProper(graph, allSccs);
    ExploredAll(explored, s.indices.Keys);
    WholeCost(adj, edges, explored);
    nodeCount, edgeCount := |sortedNodes|, |edges|;
  }

  lemma IndexedGrows(was: set<Node>, now: set<Node>, more: seq<Node>)
    requires NewlyIndexed(was, now, more)
    ensures was <= now
  {
  }

  lemma BuiltFacts(edges: seq<Edge>, adj: Adjacency, sortedNodes: seq<Node>)
    requires Built(edges, adj, sortedNodes)
    ensures var graph := Elements(edges);
      && Represents(adj, graph) && HasDegrees(adj, edges) && Within(adj, NodesOf(graph))
      && |sortedNodes| == |NodesOf(graph)| && forall u :: u in NodesOf(graph) <==> u in sortedNodes
  {
    hide HasDegrees, LexLe;
    DistinctSize(sortedNodes);
    assert forall u :: u in sortedNodes <==> u in Elements(sortedNodes);
  }

  lemma CostsAddUp(adj: Adjacency, explored: seq<Node>, more: seq<Node>, was: set<Node>, now: set<Node>)
    requires NewlyIndexed({}, was, explored) && NewlyIndexed(was, now, more)
    ensures NewlyIndexed({}, now, explored + more)
    ensures VisitCost(adj, explored + more) == VisitCost(adj, explored) + VisitCost(adj, more)
  {
    WorkOfConcat(adj, explored, more);
    hide Work;
    assert Elements(explored + more) == Elements(explored) + Elements(more);
    forall i, j | 0 <= i < |explored| && 0 <= j < |more| ensures explored[i] != more[j] {
      assert explored[i] in Elements(explored) && more[j] in Elements(more);
    }
  }

  lemma ExploredAll(explored: seq<Node>, now: set<Node>)
    requires NewlyIndexed({}, now, explored)
    ensures Distinct(explored) && Elements(explored) == now
  {
  }

  lemma SearchedEverything(adj: Adjacency, edges: set<Edge>, nodes: set<Node>, s: Search)
    requires Invariant(adj, edges, nodes, s, []) && nodes <= s.indices.Keys
    ensures IsPartition(edges, nodes, s.result) && SinksFirst(edges, s.result) && s.indices.Keys == nodes
  {
    assert PathOf([]) == [];
    assert s.onStack == {};
    assert forall u :: Finished(s, u) <==> u in nodes;
  }

  lemma CyclesIffProper(edges: set<Edge>, sccs: seq<seq<Node>>)
    requires IsPartition(edges, NodesOf(edges), sccs)
    ensures Nontrivial(sccs) != [] <==> HasProperCycle(edges)
  {
    NontrivialMembers(sccs);
    if Nontrivial(sccs) != [] {
      BigSccIsProper(edges, sccs, Nontrivial(sccs)[0]);
    }
    if HasProperCycle(edges) {
      var component := ProperCycleInScc(edges, sccs);
      assert component in Nontrivial(sccs);
    }
  }

  lemma BigSccIsProper(edges: set<Edge>, sccs: seq<seq<Node>>, component: seq<Node>)
    requires IsPartition(edges, NodesOf(edges), sccs) && component in sccs && |component| > 1
    ensures HasProperCycle(edges)
  {
    hide Mutual;
    var c :| 0 <= c < |sccs| && sccs[c] == component;
    assert component[0] in Elements(component) && component[1] in Elements(component);
    assert component[0] != component[1] && Mutual(edges, component[0], component[1]);
  }

  lemma ReachLeavesEdge(edges: set<Edge>, u: Node, v: Node)
    requires u != v && Reach(edges, u, v)
    ensures u in NodesOf(edges)
  {
    var w :| IsWalk(edges, w) && w[0] == u && w[|w| - 1] == v;
    assert (w[0], w[1]) in edges;
  }

  lemma ProperCycleInScc(edges: set<Edge>, sccs: seq<seq<Node>>) returns (component: seq<Node>)
    requires IsPartition(edges, NodesOf(edges), sccs) && HasProperCycle(edges)
    ensures component in sccs && |component| > 1
  {
    hide Reach;
    var u, v :| u != v && Mutual(edges, u, v);
    ReachLeavesEdge(edges, u, v);
    var c :| 0 <= c < |sccs| && u in sccs[c];
    component := sccs[c];
    assert u in Elements(component);
    assert v in Elements(component);
  }
}
