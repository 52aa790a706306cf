/** The depth-first search of `cycle_walk.rs`: a recursive reference search, the
    explicit-stack loop that refines it, and what both find. */
module DepthFirst {
  import opened Wrappers
  import opened Text
  import opened Ordering
  import opened Graphs

  type Adjacency = map<Node, seq<Node>>

  function Neighbours(adj: Adjacency, u: Node): seq<Node> {
    if u in adj then adj[u] else []
  }

  ghost predicate Represents(adj: Adjacency, edges: set<Edge>) {
    forall u, v :: v in Neighbours(adj, u) <==> (u, v) in edges
  }

  /** No list of a node in the set leaves the set. */
  ghost predicate Within(adj: Adjacency, nodes: set<Node>) {
    forall u, v :: u in nodes && v in Neighbours(adj, u) ==> v in nodes
  }

  // ---- The recursive reference search --------------------------------------

  datatype Outcome = Ring(ring: seq<Node>) | Exhausted(visited: set<Node>)

  /** Search from the last node of `path`, whose first `i` neighbours are done. */
  ghost function Explore(adj: Adjacency, nodes: set<Node>, path: seq<Node>, i: nat, visited: set<Node>): (r: Outcome)
    requires Within(adj, nodes) && |path| > 0 && Elements(path) <= nodes
    requires i <= |Neighbours(adj, Last(path))|
    ensures r.Exhausted? ==> visited <= r.visited
    decreases nodes - visited - Elements(path), |Neighbours(adj, Last(path))| - i
  {
    var neighbours := Neighbours(adj, Last(path));
    if i == |neighbours| then Exhausted(visited + {Last(path)})
    else
      var next := neighbours[i];
      assert Last(path) in Elements(path) && next in neighbours;
      if next in path then Ring(path[IndexOf(path, next)..])
      else if next in visited then Explore(adj, nodes, path, i + 1, visited)
      else
        assert next in nodes - visited - Elements(path) && next in Elements(path + [next]);
        match Explore(adj, nodes, path + [next], 0, visited)
        case Ring(ring) => Ring(ring)
        case Exhausted(seen) => Explore(adj, nodes, path, i + 1, seen)
  }

  /** What is left to do for a stack of half-explored nodes. */
  ghost function Unwind(adj: Adjacency, nodes: set<Node>, path: seq<Node>, cursor: seq<nat>,
                        visited: set<Node>): Outcome
    requires Within(adj, nodes) && Elements(path) <= nodes && CursorsFit(adj, path, cursor)
    decreases |path|
  {
    if path == [] then Exhausted(visited)
    else
      assert Last(path) in Elements(path);
      match Explore(adj, nodes, path, Last(cursor), visited)
      case Ring(ring) => Ring(ring)
      case Exhausted(seen) => Unwind(adj, nodes, Front(path), Front(cursor), seen)
  }

  ghost predicate CursorsFit(adj: Adjacency, path: seq<Node>, cursor: seq<nat>) {
    && |cursor| == |path|
    && forall k :: 0 <= k < |path| ==> cursor[k] <= |Neighbours(adj, path[k])|
  }

  /** What reading one neighbour leads to. */
  lemma ExploreStep(adj: Adjacency, nodes: set<Node>, path: seq<Node>, i: nat, visited: set<Node>)
    requires Within(adj, nodes) && |path| > 0 && Elements(path) <= nodes && i < |Neighbours(adj, Last(path))|
    ensures var next := Neighbours(adj, Last(path))[i];
      && next in nodes && Elements(path + [next]) == Elements(path) + {next}
      && (next in path ==> Explore(adj, nodes, path, i, visited) == Ring(path[IndexOf(path, next)..]))
      && (next !in path && next in visited ==>
        Explore(adj, nodes, path, i, visited) == Explore(adj, nodes, path, i + 1, visited))
      && (next !in path && next !in visited ==>
        Explore(adj, nodes, path, i, visited) ==
        match Explore(adj, nodes, path + [next], 0, visited)
        case Ring(ring) => Ring(ring)
        case Exhausted(seen) => Explore(adj, nodes, path, i + 1, seen))
  {
    var next := Neighbours(adj, Last(path))[i];
    assert Last(path) in Elements(path) && next in Neighbours(adj, Last(path));
    PushElement(path, next);
    hide Represents;
  }

  // ---- Soundness: a reported ring is a simple cycle ------------------------

  lemma {:induction false} RingIsCycle(adj: Adjacency, edges: set<Edge>, nodes: set<Node>, path: seq<Node>, i: nat,
                                       visited: set<Node>)
    requires Represents(adj, edges) && Within(adj, nodes)
    requires |path| > 0 && IsWalk(edges, path) && Distinct(path) && Elements(path) <= nodes
    requires i <= |Neighbours(adj, Last(path))|
    requires Explore(adj, nodes, path, i, visited).Ring?
    ensures var ring := Explore(adj, nodes, path, i, visited).ring;
      IsCycle(edges, ring) && Distinct(ring) && Elements(ring) <= nodes
    decreases nodes - visited - Elements(path), |Neighbours(adj, Last(path))| - i
  {
    hide Explore, Within, Represents, Distinct, Elements, IsCycle, IsWalk;
    if i == |Neighbours(adj, Last(path))| {
      ExploreDone(adj, nodes, path, visited);
    } else {
      var next := Neighbours(adj, Last(path))[i];
      ExploreStep(adj, nodes, path, i, visited);
      EdgeRead(adj, edges, Last(path), i);
      InElements(path, next);
      if next in path {
        ClosingEdge(edges, path, next);
      } else if next in visited {
        RingIsCycle(adj, edges, nodes, path, i + 1, visited);
      } else {
        PushElement(path, next);
        WalkPush(edges, path, next);
        match Explore(adj, nodes, path + [next], 0, visited)
        case Ring(_) => RingIsCycle(adj, edges, nodes, path + [next], 0, visited);
        case Exhausted(seen) => RingIsCycle(adj, edges, nodes, path, i + 1, seen);
      }
    }
  }

  lemma EdgeRead(adj: Adjacency, edges: set<Edge>, u: Node, i: nat)
    requires Represents(adj, edges) && i < |Neighbours(adj, u)|
    ensures (u, Neighbours(adj, u)[i]) in edges
  {
    assert Neighbours(adj, u)[i] in Neighbours(adj, u);
  }

  lemma WalkPush(edges: set<Edge>, path: seq<Node>, next: Node)
    requires IsWalk(edges, path) && (Last(path), next) in edges
    ensures IsWalk(edges, path + [next])
  {
  }

  /** An edge from the end of a simple walk back into it closes a simple cycle. */
  lemma ClosingEdge(edges: set<Edge>, path: seq<Node>, next: Node)
    requires IsWalk(edges, path) && Distinct(path) && next in path && (Last(path), next) in edges
    ensures var ring := path[IndexOf(path, next)..];
      IsCycle(edges, ring) && Distinct(ring) && Elements(ring) <= Elements(path)
  {
    var k := IndexOf(path, next);
    var ring := path[k..];
    forall j | 0 <= j < |ring| ensures (ring[j], After(ring, j)) in edges {
      if j + 1 < |ring| {
        assert ring[j] == path[k + j] && ring[j + 1] == path[k + j + 1];
      }
    }
  }

  // ---- Completeness: exhausted nodes carry no cycle ------------------------

  ghost predicate Cleared(edges: set<Edge>, visited: set<Node>) {
    Closed(edges, visited) && AcyclicOn(edges, visited)
  }

  lemma {:induction false} ExhaustedIsAcyclic(adj: Adjacency, edges: set<Edge>, nodes: set<Node>, path: seq<Node>,
                                              i: nat, visited: set<Node>)
    requires Represents(adj, edges) && Within(adj, nodes)
    requires |path| > 0 && Distinct(path) && Elements(path) <= nodes && visited <= nodes
    requires Elements(path) !! visited
    requires i <= |Neighbours(adj, Last(path))|
    requires forall k :: 0 <= k < i ==> Neighbours(adj, Last(path))[k] in visited
    requires Cleared(edges, visited)
    requires Explore(adj, nodes, path, i, visited).Exhausted?
    ensures var seen := Explore(adj, nodes, path, i, visited).visited;
      && visited + {Last(path)} <= seen <= nodes
      && Elements(Front(path)) !! seen
      && Cleared(edges, seen)
    decreases nodes - visited - Elements(path), |Neighbours(adj, Last(path))| - i
  {
    hide Explore, Within, Represents, Cleared, Distinct, Elements;
    if i == |Neighbours(adj, Last(path))| {
      ExploreDone(adj, nodes, path, visited);
      PoppedIsCleared(adj, edges, nodes, path, visited);
    } else {
      var next := Neighbours(adj, Last(path))[i];
      ExploreStep(adj, nodes, path, i, visited);
      InElements(path, next);
      if next in visited {
        ExhaustedIsAcyclic(adj, edges, nodes, path, i + 1, visited);
      } else {
        PushElement(path, next);
        FrontOfPush(path, next);
        ExhaustedIsAcyclic(adj, edges, nodes, path + [next], 0, visited);
        var seen := Explore(adj, nodes, path + [next], 0, visited).visited;
        ExhaustedIsAcyclic(adj, edges, nodes, path, i + 1, seen);
      }
    }
  }

  lemma ExploreDone(adj: Adjacency, nodes: set<Node>, path: seq<Node>, visited: set<Node>)
    requires Within(adj, nodes) && |path| > 0 && Elements(path) <= nodes
    ensures Explore(adj, nodes, path, |Neighbours(adj, Last(path))|, visited) == Exhausted(visited + {Last(path)})
  {
  }

  lemma FrontOfPush(path: seq<Node>, next: Node)
    ensures Front(path + [next]) == path && Last(path + [next]) == next
  {
  }

  /** A node whose neighbours are all visited may join them. */
  lemma PoppedIsCleared(adj: Adjacency, edges: set<Edge>, nodes: set<Node>, path: seq<Node>, visited: set<Node>)
    requires Represents(adj, edges) && |path| > 0
    requires Distinct(path) && Elements(path) <= nodes && Elements(path) !! visited
    requires forall k :: 0 <= k < |Neighbours(adj, Last(path))| ==> Neighbours(adj, Last(path))[k] in visited
    requires Cleared(edges, visited)
    ensures Cleared(edges, visited + {Last(path)}) && Last(path) in nodes
    ensures Elements(Front(path)) !! visited + {Last(path)}
  {
    var top := Last(path);
    InElements(path, top);
    assert path == Front(path) + [top];
    PopElement(Front(path), top);
    forall e | e in edges && e.0 == top ensures e.1 in visited {
      assert e == (top, e.1);
      assert e.1 in Neighbours(adj, top);
    }
    hide Represents, Distinct, Elements;
    ExtendAcyclic(edges, visited, top);
  }

  // ---- Which ring is reported ----------------------------------------------

  ghost predicate ReachesCycle(edges: set<Edge>, u: Node) {
    exists ring :: IsCycle(edges, ring) && Reach(edges, u, ring[0])
  }

  /** No successor of `u` before `v` leads to a cycle. */
  ghost predicate Skips(edges: set<Edge>, u: Node, v: Node) {
    (u, v) in edges && forall x :: (u, x) in edges && ReachesCycle(edges, x) ==> LexLe(v, x)
  }

  /** `v` is the least successor of `u` that leads to a cycle. */
  ghost predicate LeastStep(edges: set<Edge>, u: Node, v: Node) {
    Skips(edges, u, v) && ReachesCycle(edges, v)
  }

  /** A simple walk whose every step, and the step from its end back to position `k`,
      skips only what leads to no cycle. */
  ghost predicate Trail(edges: set<Edge>, trail: seq<Node>, k: nat) {
    && k < |trail| && Distinct(trail)
    && (forall j :: 0 <= j < |trail| - 1 ==> Skips(edges, trail[j], trail[j + 1]))
    && Skips(edges, Last(trail), trail[k])
  }

  ghost predicate ListsSorted(adj: Adjacency) {
    forall u :: SortedBy(LexLe, Neighbours(adj, u))
  }

  /** Nodes the search is done with lead to no cycle. */
  lemma ClearedLeadsNowhere(edges: set<Edge>, visited: set<Node>, u: Node)
    requires Cleared(edges, visited) && u in visited
    ensures !ReachesCycle(edges, u)
  {
    forall ring | IsCycle(edges, ring) && Reach(edges, u, ring[0]) ensures false {
      ReachStaysInside(edges, visited, u, ring[0]);
      assert IsWalk(edges, ring);
      WalkStaysInside(edges, visited, ring);
    }
  }

  /** The neighbours before position `i` lead nowhere, so the one there skips only those. */
  lemma NextSkips(adj: Adjacency, edges: set<Edge>, u: Node, i: nat, visited: set<Node>)
    requires Represents(adj, edges) && ListsSorted(adj) && Cleared(edges, visited)
    requires i < |Neighbours(adj, u)|
    requires forall k :: 0 <= k < i ==> Neighbours(adj, u)[k] in visited
    ensures Skips(edges, u, Neighbours(adj, u)[i])
  {
    var list := Neighbours(adj, u);
    EdgeRead(adj, edges, u, i);
    hide Cleared, ReachesCycle;
    forall x | (u, x) in edges && ReachesCycle(edges, x) ensures LexLe(list[i], x) {
      assert x in list;
      var k :| 0 <= k < |list| && list[k] == x;
      if k < i {
        ClearedLeadsNowhere(edges, visited, x);
      } else if k == i {
        LexLeReflexive(x);
      }
    }
  }

  lemma SkipsPush(edges: set<Edge>, path: seq<Node>, next: Node)
    requires path != [] && Skips(edges, Last(path), next)
    requires forall j :: 0 <= j < |path| - 1 ==> Skips(edges, path[j], path[j + 1])
    ensures forall j :: 0 <= j < |path + [next]| - 1 ==> Skips(edges, (path + [next])[j], (path + [next])[j + 1])
  {
  }

  /** A reported ring is the end of such a trail, which extends the path searched from. */
  lemma {:induction false} RingIsTrail(adj: Adjacency, edges: set<Edge>, nodes: set<Node>, path: seq<Node>,
                                       i: nat, visited: set<Node>) returns (trail: seq<Node>, k: nat)
    requires Represents(adj, edges) && Within(adj, nodes) && ListsSorted(adj)
    requires |path| > 0 && Distinct(path) && Elements(path) <= nodes && visited <= nodes
    requires Elements(path) !! visited
    requires i <= |Neighbours(adj, Last(path))|
    requires forall n :: 0 <= n < i ==> Neighbours(adj, Last(path))[n] in visited
    requires Cleared(edges, visited)
    requires forall j :: 0 <= j < |path| - 1 ==> Skips(edges, path[j], path[j + 1])
    requires Explore(adj, nodes, path, i, visited).Ring?
    ensures Trail(edges, trail, k) && path[0] == trail[0]
    ensures Explore(adj, nodes, path, i, visited).ring == trail[k..]
    decreases nodes - visited - Elements(path), |Neighbours(adj, Last(path))| - i
  {
    hide Explore, Within, Represents, Cleared, Distinct, Elements, ListsSorted, Skips, Neighbours;
    if i == |Neighbours(adj, Last(path))| {
      ExploreDone(adj, nodes, path, visited);
    } else {
      var next := Neighbours(adj, Last(path))[i];
      ExploreStep(adj, nodes, path, i, visited);
      InElements(path, next);
      NextSkips(adj, edges, Last(path), i, visited);
      if next in path {
        trail, k := path, IndexOf(path, next);
      } else if next in visited {
        trail, k := RingIsTrail(adj, edges, nodes, path, i + 1, visited);
      } else {
        PushElement(path, next);
        FrontOfPush(path, next);
        SkipsPush(edges, path, next);
        match Explore(adj, nodes, path + [next], 0, visited)
        case Ring(_) => trail, k := RingIsTrail(adj, edges, nodes, path + [next], 0, visited);
        case Exhausted(seen) =>
          ExhaustedIsAcyclic(adj, edges, nodes, path + [next], 0, visited);
          trail, k := RingIsTrail(adj, edges, nodes, path, i + 1, seen);
      }
    }
  }

  /** Every node of a trail leads to its ring, so every step is to the least such. */
  lemma TrailSteps(edges: set<Edge>, trail: seq<Node>, k: nat)
    requires Trail(edges, trail, k)
    ensures ReachesCycle(edges, trail[0])
    ensures forall j :: 0 <= j < |trail| ==>
      LeastStep(edges, trail[j], if j + 1 < |trail| then trail[j + 1] else trail[k])
  {
    assert k < |trail|;
    hide *;
    forall j: nat | j < |trail|
      ensures LeastStep(edges, trail[j], if j + 1 < |trail| then trail[j + 1] else trail[k])
    {
      TrailStep(edges, trail, k, j);
      TrailReaches(edges, trail, k, if j + 1 < |trail| then j + 1 else k);
      StepIsLeast(edges, trail[j], if j + 1 < |trail| then trail[j + 1] else trail[k]);
    }
    TrailReaches(edges, trail, k, 0);
  }

  lemma TrailStep(edges: set<Edge>, trail: seq<Node>, k: nat, j: nat)
    requires Trail(edges, trail, k) && j < |trail|
    ensures k < |trail| && Skips(edges, trail[j], if j + 1 < |trail| then trail[j + 1] else trail[k])
  {
  }

  lemma StepIsLeast(edges: set<Edge>, u: Node, v: Node)
    requires Skips(edges, u, v) && ReachesCycle(edges, v)
    ensures LeastStep(edges, u, v)
  {
  }

  lemma TrailReaches(edges: set<Edge>, trail: seq<Node>, k: nat, j: nat)
    requires Trail(edges, trail, k) && j < |trail|
    ensures ReachesCycle(edges, trail[j])
  {
    var w, ring := trail[j..] + [trail[k]], trail[k..];
    forall n: nat | n < |trail| - j ensures (w[n], w[n + 1]) in edges {
      assert w[n] == trail[j + n];
      TrailStep(edges, trail, k, j + n);
    }
    forall n: nat | n < |ring| ensures (ring[n], After(ring, n)) in edges {
      assert ring[n] == trail[k + n];
      TrailStep(edges, trail, k, k + n);
    }
    hide Trail;
    assert IsWalk(edges, w) && w[0] == trail[j] && w[|w| - 1] == ring[0];
  }

  // ---- The explicit-stack loop ---------------------------------------------

  /** Loop iterations that explore these nodes completely: one read for each
      neighbour and one pop for each node. */
  ghost function Work(adj: Adjacency, explored: seq<Node>): nat {
    if explored == [] then 0
    else Work(adj, Front(explored)) + |Neighbours(adj, Last(explored))| + 1
  }

  ghost function Sum(counts: seq<nat>): nat {
    if counts == [] then 0 else Sum(Front(counts)) + Last(counts)
  }

  lemma {:induction false} WorkOfConcat(adj: Adjacency, a: seq<Node>, b: seq<Node>)
    ensures Work(adj, a + b) == Work(adj, a) + Work(adj, b)
  {
    if b == [] {
      assert a + b == a;
    } else {
      assert Front(a + b) == a + Front(b);
      WorkOfConcat(adj, a, Front(b));
    }
  }

  /** Reads made so far never exceed the neighbours there are to read. */
  lemma {:induction false} ReadsWithinWork(adj: Adjacency, path: seq<Node>, cursor: seq<nat>)
    requires CursorsFit(adj, path, cursor)
    ensures Sum(cursor) + |path| <= Work(adj, path)
  {
    if path != [] {
      ReadsWithinWork(adj, Front(path), Front(cursor));
    }
  }

  ghost predicate WorkBounded(adj: Adjacency, nodes: set<Node>, budget: nat) {
    forall explored :: Distinct(explored) && Elements(explored) <= nodes ==> Work(adj, explored) <= budget
  }

  /** Seen nodes are the caller's and the popped ones; the stack's are not among them. */
  ghost predicate Partitioned(nodes: set<Node>, visited: set<Node>, explored: set<Node>, stacked: set<Node>,
                              seen: set<Node>) {
    && stacked <= nodes && explored <= nodes
    && explored !! visited && stacked !! seen
    && seen == visited + explored
  }

  /** The loop's bookkeeping: what has been popped, what is on the stack. */
  ghost predicate Bookkept(adj: Adjacency, nodes: set<Node>, visited: set<Node>,
                           explored: seq<Node>, path: seq<Node>, cursor: seq<nat>, seen: set<Node>, steps: nat)
  {
    && CursorsFit(adj, path, cursor)
    && Distinct(explored) && Distinct(path)
    && Partitioned(nodes, visited, Elements(explored), Elements(path), seen)
    && steps == Work(adj, explored) + Sum(cursor)
  }

  lemma BookkeepRead(adj: Adjacency, nodes: set<Node>, visited: set<Node>,
                     explored: seq<Node>, path: seq<Node>, cursor: seq<nat>, seen: set<Node>, steps: nat)
    requires Bookkept(adj, nodes, visited, explored, path, cursor, seen, steps)
    requires path != [] && Last(cursor) < |Neighbours(adj, Last(path))|
    ensures Bookkept(adj, nodes, visited, explored, path, Front(cursor) + [Last(cursor) + 1], seen, steps + 1)
  {
    assert Front(Front(cursor) + [Last(cursor) + 1]) == Front(cursor);
  }

  lemma BookkeepPush(adj: Adjacency, nodes: set<Node>, visited: set<Node>,
                     explored: seq<Node>, path: seq<Node>, cursor: seq<nat>, seen: set<Node>, steps: nat, next: Node)
    requires Bookkept(adj, nodes, visited, explored, path, cursor, seen, steps)
    requires next in nodes && next !in path && next !in seen
    ensures Bookkept(adj, nodes, visited, explored, path + [next], cursor + [0], seen, steps)
    ensures Elements(path + [next]) == Elements(path) + {next}
  {
    hide Work, Sum, Distinct, Elements, CursorsFit, Partitioned;
    InElements(path, next);
    PushElement(path, next);
    PartitionedPush(nodes, visited, Elements(explored), Elements(path), seen, next);
    SumStep(cursor, 0);
    CursorsPush(adj, path, cursor, next);
  }

  lemma SumStep(counts: seq<nat>, n: nat)
    ensures Sum(counts + [n]) == Sum(counts) + n
  {
    assert Front(counts + [n]) == counts;
  }

  lemma CursorsPush(adj: Adjacency, path: seq<Node>, cursor: seq<nat>, next: Node)
    requires CursorsFit(adj, path, cursor)
    ensures CursorsFit(adj, path + [next], cursor + [0])
  {
  }

  lemma CursorsPop(adj: Adjacency, path: seq<Node>, cursor: seq<nat>)
    requires CursorsFit(adj, path, cursor) && path != []
    ensures cursor != [] && CursorsFit(adj, Front(path), Front(cursor))
  {
  }

  lemma BookkeepPop(adj: Adjacency, nodes: set<Node>, visited: set<Node>,
                    explored: seq<Node>, path: seq<Node>, cursor: seq<nat>, seen: set<Node>, steps: nat)
    requires Bookkept(adj, nodes, visited, explored, path, cursor, seen, steps)
    requires path != [] && Last(cursor) == |Neighbours(adj, Last(path))|
    ensures Bookkept(adj, nodes, visited, explored + [Last(path)], Front(path), Front(cursor),
                     seen + {Last(path)}, steps + 1)
    ensures Elements(Front(path)) == Elements(path) - {Last(path)}
  {
    hide Work, Sum, Distinct, Elements, Front, Last, Neighbours, CursorsFit, Partitioned;
    var node, rest := Last(path), Front(path);
    CursorsPop(adj, path, cursor);
    PopElementOf(path);
    PartitionedPop(nodes, visited, Elements(explored), Elements(path), seen, node);
    PushElement(explored, node);
    WorkStep(adj, explored, node);
    SumOfFront(cursor);
  }

  lemma PopElementOf(path: seq<Node>)
    requires path != [] && Distinct(path)
    ensures Distinct(Front(path)) && Last(path) in Elements(path)
    ensures Elements(Front(path)) == Elements(path) - {Last(path)}
  {
    assert Front(path) + [Last(path)] == path;
    PopElement(Front(path), Last(path));
  }

  lemma SumOfFront(counts: seq<nat>)
    requires counts != []
    ensures Sum(counts) == Sum(Front(counts)) + Last(counts)
  {
  }


  lemma PartitionedPop(nodes: set<Node>, visited: set<Node>, explored: set<Node>, stacked: set<Node>, seen: set<Node>,
                       node: Node)
    requires Partitioned(nodes, visited, explored, stacked, seen) && node in stacked
    ensures node !in explored
    ensures Partitioned(nodes, visited, explored + {node}, stacked - {node}, seen + {node})
  {
  }

  lemma PartitionedPush(nodes: set<Node>, visited: set<Node>, explored: set<Node>, stacked: set<Node>,
                        seen: set<Node>, node: Node)
    requires Partitioned(nodes, visited, explored, stacked, seen) && node in nodes && node !in seen
    ensures Partitioned(nodes, visited, explored, stacked + {node}, seen)
  {
  }

  lemma WorkStep(adj: Adjacency, explored: seq<Node>, node: Node)
    ensures Work(adj, explored + [node]) == Work(adj, explored) + |Neighbours(adj, node)| + 1
  {
    assert Front(explored + [node]) == explored;
  }

  /** A kept stack has work left to do within the budget. */
  lemma StepsWithinBudget(adj: Adjacency, nodes: set<Node>, visited: set<Node>,
                          explored: seq<Node>, path: seq<Node>, cursor: seq<nat>, seen: set<Node>,
                          steps: nat, budget: nat)
    requires Bookkept(adj, nodes, visited, explored, path, cursor, seen, steps)
    requires WorkBounded(adj, nodes, budget)
    ensures steps + |path| <= Work(adj, explored + path) <= budget
  {
    hide Work, Sum;
    BookkeptFacts(adj, nodes, visited, explored, path, cursor, seen, steps);
    ReadsWithinWork(adj, path, cursor);
    WorkOfConcat(adj, explored, path);
  }

  /** A read leaves well-formed stacks, whether it pushes or not. */
  lemma ReadFits(adj: Adjacency, nodes: set<Node>, path: seq<Node>, cursor: seq<nat>)
    requires Within(adj, nodes) && Elements(path) <= nodes && CursorsFit(adj, path, cursor)
    requires path != [] && Last(cursor) < |Neighbours(adj, Last(path))|
    ensures var next := Neighbours(adj, Last(path))[Last(cursor)];
      var advanced := Front(cursor) + [Last(cursor) + 1];
      && next in nodes && Elements(path + [next]) <= nodes
      && CursorsFit(adj, path, advanced) && CursorsFit(adj, path + [next], advanced + [0])
  {
    var next := Neighbours(adj, Last(path))[Last(cursor)];
    assert Last(path) in Elements(path) && next in Neighbours(adj, Last(path));
    PushElement(path, next);
    CursorsPush(adj, path, Front(cursor) + [Last(cursor) + 1], next);
  }

  /** One read that stays on the same node, or that pushes, leaves the same
      search to be finished. */
  lemma UnwindRead(adj: Adjacency, nodes: set<Node>, path: seq<Node>, cursor: seq<nat>, seen: set<Node>)
    requires Within(adj, nodes) && Elements(path) <= nodes && CursorsFit(adj, path, cursor)
    requires path != [] && Last(cursor) < |Neighbours(adj, Last(path))|
    ensures Neighbours(adj, Last(path))[Last(cursor)] in nodes
    ensures var next := Neighbours(adj, Last(path))[Last(cursor)];
      var advanced := Front(cursor) + [Last(cursor) + 1];
      && CursorsFit(adj, path, advanced) && CursorsFit(adj, path + [next], advanced + [0])
      && Elements(path + [next]) <= nodes
      && (next in path ==>
        Unwind(adj, nodes, path, cursor, seen) == Ring(path[IndexOf(path, next)..]))
      && (next !in path && next in seen ==>
        Unwind(adj, nodes, path, cursor, seen) == Unwind(adj, nodes, path, advanced, seen))
      && (next !in path && next !in seen ==>
        Unwind(adj, nodes, path, cursor, seen) == Unwind(adj, nodes, path + [next], advanced + [0], seen))
  {
    ReadFits(adj, nodes, path, cursor);
    hide CursorsFit, Elements, Within;
    var next := Neighbours(adj, Last(path))[Last(cursor)];
    var advanced := Front(cursor) + [Last(cursor) + 1];
    assert Front(advanced) == Front(cursor);
    assert Front(path + [next]) == path && Front(advanced + [0]) == advanced;
  }

  lemma UnwindStart(adj: Adjacency, nodes: set<Node>, start: Node, visited: set<Node>)
    requires Within(adj, nodes) && start in nodes
    ensures Elements([start]) <= nodes && CursorsFit(adj, [start], [0])
    ensures Unwind(adj, nodes, [start], [0], visited) == Explore(adj, nodes, [start], 0, visited)
  {
    assert Front([start]) == [];
  }

  lemma UnwindPop(adj: Adjacency, nodes: set<Node>, path: seq<Node>, cursor: seq<nat>, seen: set<Node>)
    requires Within(adj, nodes) && Elements(path) <= nodes && CursorsFit(adj, path, cursor)
    requires path != [] && Last(cursor) == |Neighbours(adj, Last(path))|
    ensures Elements(Front(path)) <= nodes && CursorsFit(adj, Front(path), Front(cursor))
    ensures Unwind(adj, nodes, path, cursor, seen) ==
      Unwind(adj, nodes, Front(path), Front(cursor), seen + {Last(path)})
  {
    assert Last(path) in Elements(path);
    assert forall x :: x in Front(path) ==> x in path;
  }

  lemma BookkeepStart(adj: Adjacency, nodes: set<Node>, visited: set<Node>, start: Node)
    requires start in nodes && start !in visited
    ensures Bookkept(adj, nodes, visited, [], [start], [0], visited, 0)
  {
    assert Front<nat>([0]) == [];
  }

  lemma BookkeptFacts(adj: Adjacency, nodes: set<Node>, visited: set<Node>,
                      explored: seq<Node>, path: seq<Node>, cursor: seq<nat>, seen: set<Node>, steps: nat)
    requires Bookkept(adj, nodes, visited, explored, path, cursor, seen, steps)
    ensures CursorsFit(adj, path, cursor) && Elements(path) <= nodes
    ensures Distinct(explored + path) && Elements(explored + path) <= nodes && Elements(explored + path) !! visited
    ensures path == [] ==> explored + path == explored && steps == Work(adj, explored)
    ensures seen == visited + Elements(explored)
  {
    assert Elements(explored + path) == Elements(explored) + Elements(path);
    forall i, j | 0 <= i < |explored| && 0 <= j < |path| ensures explored[i] != path[j] {
      assert explored[i] in Elements(explored) && path[j] in Elements(path);
    }
  }

  /** `dfs_find_cycle`: refines `Explore`. The set `visited` is the caller's; it
      comes back as `seen`. `budget - steps` is what ends the loop. */
  method DfsFindCycle(start: Node, adj: Adjacency, visited: set<Node>, ghost nodes: set<Node>, ghost budget: nat)
      returns (ring: Option<seq<Node>>, seen: set<Node>, ghost explored: seq<Node>, ghost steps: nat)
    requires Within(adj, nodes) && start in nodes && start !in visited
    requires WorkBounded(adj, nodes, budget)
    ensures match Explore(adj, nodes, [start], 0, visited)
      case Ring(found) => ring == Some(found)
      case Exhausted(done) => ring == None && seen == done
    ensures Distinct(explored) && Elements(explored) <= nodes && Elements(explored) !! visited
    ensures steps <= Work(adj, explored)
    ensures ring.None? ==> seen == visited + Elements(explored)
  {
    hide Bookkept, WorkBounded, Explore, Unwind, Work, Sum, CursorsFit, Within;
    var path := [start];
    var onPath := {start};
    var cursor: seq<nat> := [0];
    seen := visited;
    explored, steps := [], 0;
    UnwindStart(adj, nodes, start, visited);
    BookkeepStart(adj, nodes, visited, start);
    while path != []
      invariant Bookkept(adj, nodes, visited, explored, path, cursor, seen, steps)
      invariant CursorsFit(adj, path, cursor) && |cursor| == |path| && Elements(path) <= nodes
      invariant onPath == Elements(path)
      invariant Unwind(adj, nodes, path, cursor, seen) == Explore(adj, nodes, [start], 0, visited)
      decreases budget - steps
    {
      var node := Last(path);
      var i := Last(cursor);
      var neighbours := Neighbours(adj, node);
      StepsWithinBudget(adj, nodes, visited, explored, path, cursor, seen, steps, budget);
      CursorInRange(adj, path, cursor);
      if i < |neighbours| {
        UnwindRead(adj, nodes, path, cursor, seen);
        BookkeepRead(adj, nodes, visited, explored, path, cursor, seen, steps);
        cursor := Front(cursor) + [i + 1];
        steps := steps + 1;
        var next := neighbours[i];
        if next in onPath {
          var from := IndexOf(path, next);
          ring := Some(path[from..]);
          StepsWithinBudget(adj, nodes, visited, explored, path, cursor, seen, steps, budget);
          BookkeptFacts(adj, nodes, visited, explored, path, cursor, seen, steps);
          explored := explored + path;
          return;
        }
        if next !in seen {
          BookkeepPush(adj, nodes, visited, explored, path, cursor, seen, steps, next);
          path := path + [next];
          onPath := onPath + {next};
          cursor := cursor + [0];
        }
      } else {
        UnwindPop(adj, nodes, path, cursor, seen);
        BookkeepPop(adj, nodes, visited, explored, path, cursor, seen, steps);
        seen := seen + {node};
        onPath := onPath - {node};
        path := Front(path);
        cursor := Front(cursor);
        explored := explored + [node];
        steps := steps + 1;
      }
    }
    BookkeptFacts(adj, nodes, visited, explored, path, cursor, seen, steps);
    UnwindDone(adj, nodes, seen);
    ring := None;
  }

  lemma CursorInRange(adj: Adjacency, path: seq<Node>, cursor: seq<nat>)
    requires CursorsFit(adj, path, cursor) && path != []
    ensures |cursor| == |path| && Last(cursor) <= |Neighbours(adj, Last(path))|
  {
  }

  lemma UnwindDone(adj: Adjacency, nodes: set<Node>, seen: set<Node>)
    requires Within(adj, nodes)
    ensures Elements<Node>([]) <= nodes && CursorsFit(adj, [], [])
    ensures Unwind(adj, nodes, [], [], seen) == Exhausted(seen)
  {
  }
}
