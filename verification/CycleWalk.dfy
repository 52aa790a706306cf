/** `cycle_walk.rs`: the selection of a cycle's real edges and the directed walk
    drawn over them. */
module CycleWalk {
  import opened Wrappers
  import opened Text
  import opened Ordering
  import opened Graphs
  import opened DepthFirst
  import opened Scc

  const EDGE_CAP: nat := 200

  /** A cycle member: its node id and its display name. */
  type Member = (Node, string)

  function Ids(members: seq<Member>): set<Node> {
    set m | m in members :: m.0
  }

  // ---- Orders --------------------------------------------------------------

  /** Start candidates go by display, then by id. */
  predicate StartLe(a: Member, b: Member) {
    PairLe((a.1, a.0), (b.1, b.0))
  }

  lemma StartOrder()
    ensures TotalOrder(StartLe)
  {
    PairOrder();
    forall x: Member, y: Member ensures StartLe(x, y) || StartLe(y, x) {
      assert PairLe((x.1, x.0), (y.1, y.0)) || PairLe((y.1, y.0), (x.1, x.0));
    }
    forall x: Member, y: Member, z: Member | StartLe(x, y) && StartLe(y, z) ensures StartLe(x, z) {
      assert PairLe((x.1, x.0), (y.1, y.0)) && PairLe((y.1, y.0), (z.1, z.0));
    }
    forall x: Member, y: Member | StartLe(x, y) && StartLe(y, x) ensures x == y {
      assert (x.1, x.0) == (y.1, y.0);
    }
  }

  // ---- Edge selection ------------------------------------------------------

  /** The real edges inside a member set: both ends members, no self-import. */
  ghost function RealEdges(ids: set<Node>, all: set<Edge>): set<Edge> {
    set e | e in all && e.0 != e.1 && e.0 in ids && e.1 in ids
  }

  /** The carried edges: the first `EDGE_CAP` real edges, and whether any were cut. */
  ghost function CarriedEdges(ids: set<Node>, all: set<Edge>): (seq<Edge>, bool) {
    var sorted := Enumeration(PairLe, RealEdges(ids, all));
    (if |sorted| > EDGE_CAP then sorted[..EDGE_CAP] else sorted, |sorted| > EDGE_CAP)
  }

  /** `intra_cycle_edges`; `kept` is the `BTreeSet` in iteration order. */
  method IntraCycleEdges(memberIds: seq<Node>, allEdges: seq<Edge>) returns (edges: seq<Edge>, truncated: bool)
    ensures (edges, truncated) == CarriedEdges(Elements(memberIds), Elements(allEdges))
    ensures |edges| <= EDGE_CAP
    ensures !truncated ==> Elements(edges) == RealEdges(Elements(memberIds), Elements(allEdges))
  {
    PairOrder();
    var members := set id | id in memberIds;
    var kept: seq<Edge> := [];
    for n := 0 to |allEdges|
      invariant Ascending(PairLe, kept)
      invariant Elements(kept) == RealEdges(members, Elements(allEdges[..n]))
    {
      var (from, to) := allEdges[n];
      assert Elements(allEdges[..n + 1]) == Elements(allEdges[..n]) + {allEdges[n]} by {
        assert allEdges[..n + 1] == allEdges[..n] + [allEdges[n]];
        PushElement(allEdges[..n], allEdges[n]);
      }
      if from == to {
        continue;
      }
      if from in members && to in members {
        InsertUniqueAscending(PairLe, (from, to), kept);
        kept := InsertUnique(PairLe, (from, to), kept);
      }
    }
    assert allEdges[..|allEdges|] == allEdges;
    EnumerationAscends(PairLe, RealEdges(members, Elements(allEdges)));
    AscendingIsUnique(PairLe, kept, Enumeration(PairLe, RealEdges(members, Elements(allEdges))));
    truncated := |kept| > EDGE_CAP;
    edges := if truncated then kept[..EDGE_CAP] else kept;
  }

  /** `a` comes strictly before `b`: by importing node, then by imported node. */
  ghost predicate Before(a: Edge, b: Edge) {
    a != b && ((a.0 != b.0 && LexLe(a.0, b.0)) || (a.0 == b.0 && LexLe(a.1, b.1)))
  }

  /** The carried edges are the first 200 of the non-self edges between members, and
      the flag says whether there are more. */
  lemma CarriedMeaning(ids: set<Node>, all: set<Edge>, inner: set<Edge>)
    requires forall e :: e in inner <==> e in all && e.0 != e.1 && e.0 in ids && e.1 in ids
    ensures var (carried, cut) := CarriedEdges(ids, all);
      && (cut <==> |inner| > 200)
      && |carried| == (if cut then 200 else |inner|)
      && (forall e :: e in carried ==> e in inner)
      && (forall i, j :: 0 <= i < j < |carried| ==> Before(carried[i], carried[j]))
      && (forall c, e :: c in carried && e in inner && e !in carried ==> Before(c, e))
  {
    assert inner == RealEdges(ids, all);
    hide RealEdges, Enumeration, Before, Distinct, SortedBy;
    var sorted := Enumeration(PairLe, inner);
    PairOrder();
    EnumerationAscends(PairLe, inner);
    DistinctSize(sorted);
    AscendingBefore(sorted);
    PrefixIsFirst(sorted, |CarriedEdges(ids, all).0|);
    assert CarriedEdges(ids, all).0 == sorted[..|CarriedEdges(ids, all).0|];
  }

  lemma AscendingBefore(sorted: seq<Edge>)
    requires Ascending(PairLe, sorted)
    ensures forall i, j :: 0 <= i < j < |sorted| ==> Before(sorted[i], sorted[j])
  {
    hide LexLe;
    forall i, j | 0 <= i < j < |sorted| ensures Before(sorted[i], sorted[j]) {
      assert PairLe(sorted[i], sorted[j]) && sorted[i] != sorted[j];
    }
  }

  lemma PrefixIsFirst(sorted: seq<Edge>, n: nat)
    requires n <= |sorted| && forall i, j :: 0 <= i < j < |sorted| ==> Before(sorted[i], sorted[j])
    ensures forall i, j :: 0 <= i < j < n ==> Before(sorted[..n][i], sorted[..n][j])
    ensures forall e :: e in sorted[..n] ==> e in Elements(sorted)
    ensures forall c, e :: c in sorted[..n] && e in Elements(sorted) && e !in sorted[..n] ==> Before(c, e)
  {
    hide Before;
    forall c, e | c in sorted[..n] && e in sorted && e !in sorted[..n] ensures Before(c, e) {
      var i :| 0 <= i < n && sorted[i] == c;
      var j :| 0 <= j < |sorted| && sorted[j] == e;
      assert j < n ==> sorted[..n][j] == e;
    }
  }

  // ---- Adjacency -----------------------------------------------------------

  predicate BothMembers(ids: set<Node>, e: Edge) {
    e.0 in ids && e.1 in ids
  }

  ghost function MemberEdges(ids: set<Node>, edges: seq<Edge>): set<Edge> {
    set e | e in edges && BothMembers(ids, e)
  }

  /** How many entries of the edge list join two members. */
  ghost function CountMemberEdges(ids: set<Node>, edges: seq<Edge>): nat {
    if edges == [] then 0
    else CountMemberEdges(ids, Front(edges)) + if BothMembers(ids, Last(edges)) then 1 else 0
  }

  /** The targets listed for `u`, in edge order. */
  ghost function Targets(ids: set<Node>, edges: seq<Edge>, u: Node): seq<Node> {
    if edges == [] then []
    else
      var e := Last(edges);
      Targets(ids, Front(edges), u) + if e.0 == u && BothMembers(ids, e) then [e.1] else []
  }

  ghost function AdjacencyOf(ids: set<Node>, edges: seq<Edge>): Adjacency {
    map u | u in ids && Targets(ids, edges, u) != [] :: Sort(LexLe, Targets(ids, edges, u))
  }

  lemma {:induction false} TargetCounts(ids: set<Node>, edges: seq<Edge>, u: Node, v: Node)
    ensures multiset(Targets(ids, edges, u))[v] == if BothMembers(ids, (u, v)) then multiset(edges)[(u, v)] else 0
  {
    if edges != [] {
      var front, e := Front(edges), Last(edges);
      TargetCounts(ids, front, u, v);
      FrontLast(edges);
      hide Front, Last;
      PushCounts(front, e, (u, v));
      PushCounts(Targets(ids, front, u), e.1, v);
      assert Targets(ids, front, u) + [] == Targets(ids, front, u);
    }
  }

  lemma AdjacencyRepresents(ids: set<Node>, edges: seq<Edge>)
    ensures Represents(AdjacencyOf(ids, edges), MemberEdges(ids, edges))
    ensures Within(AdjacencyOf(ids, edges), ids)
    ensures forall u :: |Neighbours(AdjacencyOf(ids, edges), u)| == |Targets(ids, edges, u)|
  {
    var adj := AdjacencyOf(ids, edges);
    forall u
      ensures multiset(Neighbours(adj, u)) == multiset(Targets(ids, edges, u))
      ensures |Neighbours(adj, u)| == |Targets(ids, edges, u)|
    {
      var targets := Targets(ids, edges, u);
      if u !in ids && targets != [] {
        assert targets[0] in multiset(targets);
        TargetCounts(ids, edges, u, targets[0]);
      }
      assert |multiset(Neighbours(adj, u))| == |Neighbours(adj, u)|;
      assert |multiset(targets)| == |targets|;
    }
    forall u, v
      ensures v in Neighbours(adj, u) <==> (u, v) in MemberEdges(ids, edges)
    {
      TargetCounts(ids, edges, u, v);
      assert v in Neighbours(adj, u) <==> v in multiset(Neighbours(adj, u));
      assert (u, v) in edges <==> (u, v) in multiset(edges);
    }
  }

  /** Reordering the edge list leaves the sorted adjacency unchanged. */
  lemma AdjacencyForgetsOrder(ids: set<Node>, edges: seq<Edge>, shuffled: seq<Edge>)
    requires Permutation(edges, shuffled)
    ensures AdjacencyOf(ids, edges) == AdjacencyOf(ids, shuffled)
  {
    forall u
      ensures Targets(ids, edges, u) != [] <==> Targets(ids, shuffled, u) != []
      ensures Sort(LexLe, Targets(ids, edges, u)) == Sort(LexLe, Targets(ids, shuffled, u))
    {
      TargetsForgetOrder(ids, edges, shuffled, u);
    }
  }

  lemma TargetsForgetOrder(ids: set<Node>, edges: seq<Edge>, shuffled: seq<Edge>, u: Node)
    requires Permutation(edges, shuffled)
    ensures Targets(ids, edges, u) != [] <==> Targets(ids, shuffled, u) != []
    ensures Sort(LexLe, Targets(ids, edges, u)) == Sort(LexLe, Targets(ids, shuffled, u))
  {
    hide Targets, Sort, LexLe;
    var a, b := Targets(ids, edges, u), Targets(ids, shuffled, u);
    forall v ensures multiset(a)[v] == multiset(b)[v] {
      TargetCounts(ids, edges, u, v);
      TargetCounts(ids, shuffled, u, v);
    }
    assert multiset(a) == multiset(b);
    PermutationFacts(a, b);
    StringOrder();
    SortForgetsOrder(LexLe, a, b);
  }

  // ---- The work bound ------------------------------------------------------

  ghost function TargetTotal(ids: set<Node>, edges: seq<Edge>, explored: seq<Node>): nat {
    if explored == [] then 0
    else TargetTotal(ids, edges, Front(explored)) + |Targets(ids, edges, Last(explored))|
  }

  lemma {:induction false} TargetTotalStep(ids: set<Node>, edges: seq<Edge>, explored: seq<Node>)
    requires edges != [] && Distinct(explored)
    ensures TargetTotal(ids, edges, explored) == TargetTotal(ids, Front(edges), explored)
      + if BothMembers(ids, Last(edges)) && Last(edges).0 in explored then 1 else 0
  {
    if explored != [] {
      assert explored == Front(explored) + [Last(explored)];
      PopElement(Front(explored), Last(explored));
      TargetTotalStep(ids, edges, Front(explored));
    }
  }

  lemma {:induction false} TargetTotalBound(ids: set<Node>, edges: seq<Edge>, explored: seq<Node>)
    requires Distinct(explored)
    ensures TargetTotal(ids, edges, explored) <= CountMemberEdges(ids, edges)
  {
    if edges == [] {
      NoTargets(ids, explored);
    } else {
      TargetTotalStep(ids, edges, explored);
      TargetTotalBound(ids, Front(edges), explored);
    }
  }

  lemma NoTargets(ids: set<Node>, explored: seq<Node>)
    ensures TargetTotal(ids, [], explored) == 0
  {
  }

  lemma {:induction false} WorkIsTargets(ids: set<Node>, edges: seq<Edge>, explored: seq<Node>)
    ensures Work(AdjacencyOf(ids, edges), explored) == TargetTotal(ids, edges, explored) + |explored|
  {
    AdjacencyRepresents(ids, edges);
    if explored != [] {
      WorkIsTargets(ids, edges, Front(explored));
    }
  }

  lemma WorkBound(ids: set<Node>, edges: seq<Edge>)
    ensures WorkBounded(AdjacencyOf(ids, edges), ids, CountMemberEdges(ids, edges) + |ids|)
  {
    forall explored | Distinct(explored) && Elements(explored) <= ids
      ensures Work(AdjacencyOf(ids, edges), explored) <= CountMemberEdges(ids, edges) + |ids|
    {
      WorkIsTargets(ids, edges, explored);
      TargetTotalBound(ids, edges, explored);
      DistinctSize(explored);
      SubsetSize(Elements(explored), ids);
    }
  }

  // ---- The walk ------------------------------------------------------------

  /** Searching from each start in turn, with one shared `visited` set. */
  ghost function SearchFrom(adj: Adjacency, nodes: set<Node>, starts: seq<Member>, visited: set<Node>): Outcome
    requires Within(adj, nodes) && Ids(starts) <= nodes
  {
    if starts == [] then Exhausted(visited)
    else
      var start := starts[0].0;
      assert start in Ids(starts) && Ids(starts[1..]) <= Ids(starts);
      if start in visited then SearchFrom(adj, nodes, starts[1..], visited)
      else
        match Explore(adj, nodes, [start], 0, visited)
        case Ring(ring) => Ring(ring)
        case Exhausted(seen) => SearchFrom(adj, nodes, starts[1..], seen)
  }

  function DisplayMap(members: seq<Member>): map<Node, string> {
    if members == [] then map[] else DisplayMap(Front(members))[Last(members).0 := Last(members).1]
  }

  function Shown(display: map<Node, string>, ring: seq<Node>): seq<string> {
    seq(|ring|, k requires 0 <= k < |ring| => if ring[k] in display then display[ring[k]] else ring[k])
  }

  /** What `find_cycle_walk` returns. */
  ghost function Walk(members: seq<Member>, edges: seq<Edge>): Option<seq<string>> {
    var ids := Ids(members);
    AdjacencyRepresents(ids, edges);
    SortedStarts(members);
    match SearchFrom(AdjacencyOf(ids, edges), ids, Sort(StartLe, members), {})
    case Ring(ring) => Some(Shown(DisplayMap(members), ring))
    case Exhausted(_) => None
  }

  lemma SortedStarts(members: seq<Member>)
    ensures Ids(Sort(StartLe, members)) == Ids(members)
  {
    PermutationFacts(members, Sort(StartLe, members));
  }

  lemma TargetsStep(ids: set<Node>, edges: seq<Edge>, n: nat)
    requires n < |edges|
    ensures forall u :: Targets(ids, edges[..n + 1], u) ==
                        if edges[n].0 == u && BothMembers(ids, edges[n])
                        then Targets(ids, edges[..n], u) + [edges[n].1]
                        else Targets(ids, edges[..n], u)
  {
    assert Front(edges[..n + 1]) == edges[..n];
    assert forall u :: Targets(ids, edges[..n], u) + [] == Targets(ids, edges[..n], u);
  }

  /** `adj` lists the targets of every member in edge order. */
  ghost predicate Lists(ids: set<Node>, edges: seq<Edge>, adj: Adjacency) {
    && (forall u :: Neighbours(adj, u) == Targets(ids, edges, u))
    && (forall u :: u in adj ==> u in ids && adj[u] != [])
  }

  lemma ListsStep(ids: set<Node>, edges: seq<Edge>, n: nat, adj: Adjacency)
    requires n < |edges| && Lists(ids, edges[..n], adj)
    ensures var (from, to) := edges[n];
      Lists(ids, edges[..n + 1],
            if from in ids && to in ids then adj[from := Neighbours(adj, from) + [to]] else adj)
  {
    hide Targets;
    TargetsStep(ids, edges, n);
    var (from, to) := edges[n];
    var grown := adj[from := Neighbours(adj, from) + [to]];
    assert forall u :: Neighbours(grown, u) == if u == from then Neighbours(adj, from) + [to] else Neighbours(adj, u);
  }

  lemma SortedLists(ids: set<Node>, edges: seq<Edge>, adj: Adjacency)
    requires Lists(ids, edges, adj)
    ensures (map u | u in adj :: Sort(LexLe, adj[u])) == AdjacencyOf(ids, edges)
  {
    hide Targets, Sort;
    forall u ensures u in adj <==> u in ids && Targets(ids, edges, u) != [] {
      assert Neighbours(adj, u) == Targets(ids, edges, u);
    }
  }

  method BuildAdjacency(memberIds: set<Node>, edges: seq<Edge>) returns (adj: Adjacency)
    ensures adj == AdjacencyOf(memberIds, edges)
  {
    adj := map[];
    for n := 0 to |edges|
      invariant Lists(memberIds, edges[..n], adj)
    {
      hide Lists;
      var (from, to) := edges[n];
      ListsStep(memberIds, edges, n, adj);
      if from in memberIds && to in memberIds {
        adj := adj[from := Neighbours(adj, from) + [to]];
      }
    }
    assert edges[..|edges|] == edges;
    SortedLists(memberIds, edges, adj);
    adj := map u | u in adj :: Sort(LexLe, adj[u]);
  }

  /** One start of the outer loop. */
  lemma SearchUnfold(adj: Adjacency, nodes: set<Node>, starts: seq<Member>, n: nat, visited: set<Node>)
    requires Within(adj, nodes) && Ids(starts) <= nodes && n < |starts|
    ensures starts[n].0 in nodes && Ids(starts[n..]) <= nodes && Ids(starts[n + 1..]) <= nodes
    ensures SearchFrom(adj, nodes, starts[n..], visited) ==
      if starts[n].0 in visited then SearchFrom(adj, nodes, starts[n + 1..], visited)
      else match Explore(adj, nodes, [starts[n].0], 0, visited)
           case Ring(ring) => Ring(ring)
           case Exhausted(seen) => SearchFrom(adj, nodes, starts[n + 1..], seen)
  {
    assert starts[n] in starts && starts[n].0 in Ids(starts);
    assert starts[n..][1..] == starts[n + 1..];
  }

  /** `find_cycle_walk`. `steps` counts the inner loop's iterations over all starts. */
  method FindCycleWalk(members: seq<Member>, edges: seq<Edge>) returns (walk: Option<seq<string>>, ghost steps: nat)
    ensures walk == Walk(members, edges)
    ensures steps <= CountMemberEdges(Ids(members), edges) + |Ids(members)|
  {
    var memberIds := Ids(members);
    var display := DisplayMap(members);
    var adj := BuildAdjacency(memberIds, edges);
    AdjacencyRepresents(memberIds, edges);
    WorkBound(memberIds, edges);
    SortedStarts(members);
    hide AdjacencyOf, SearchFrom, CountMemberEdges, Ids, WorkBounded, Represents, Within;
    var starts := Sort(StartLe, members);
    var ring;
    ring, steps := SearchStarts(adj, starts, memberIds, CountMemberEdges(memberIds, edges) + |memberIds|);
    walk := if ring.Some? then Some(Shown(display, ring.value)) else None;
  }

  /** The loop over the starts: nodes visited from one start are skipped by the next. */
  method SearchStarts(adj: Adjacency, starts: seq<Member>, ghost nodes: set<Node>, ghost budget: nat)
      returns (ring: Option<seq<Node>>, ghost steps: nat)
    requires Within(adj, nodes) && Ids(starts) <= nodes && WorkBounded(adj, nodes, budget)
    ensures match SearchFrom(adj, nodes, starts, {})
      case Ring(found) => ring == Some(found)
      case Exhausted(_) => ring == None
    ensures steps <= budget
  {
    ghost var goal := SearchFrom(adj, nodes, starts, {});
    var visited: set<Node> := {};
    ghost var explored: seq<Node> := [];
    steps := 0;
    assert starts[0..] == starts;
    NothingWorked(adj);
    hide Explore, Work, WorkBounded, Within, Distinct;
    for n := 0 to |starts|
      invariant Distinct(explored) && Elements(explored) == visited <= nodes
      invariant steps <= Work(adj, explored) <= budget
      invariant Ids(starts[n..]) <= nodes && SearchFrom(adj, nodes, starts[n..], visited) == goal
    {
      var start := starts[n].0;
      SearchUnfold(adj, nodes, starts, n, visited);
      if start in visited {
        continue;
      }
      var seen;
      ghost var more, extra;
      ring, seen, more, extra := DfsFindCycle(start, adj, visited, nodes, budget);
      AppendExplored(adj, nodes, budget, explored, more);
      explored, steps := explored + more, steps + extra;
      if ring.Some? {
        return;
      }
      visited := seen;
    }
    assert starts[|starts|..] == [];
    ring := None;
  }

  lemma NothingWorked(adj: Adjacency)
    ensures Work(adj, []) == 0 && Distinct<Node>([]) && Elements<Node>([]) == {}
  {
  }

  lemma AppendExplored(adj: Adjacency, nodes: set<Node>, budget: nat, explored: seq<Node>, more: seq<Node>)
    requires Distinct(explored) && Distinct(more) && Elements(more) !! Elements(explored)
    requires WorkBounded(adj, nodes, budget) && Elements(explored) <= nodes && Elements(more) <= nodes
    ensures Distinct(explored + more)
    ensures Elements(explored + more) == Elements(explored) + Elements(more)
    ensures Work(adj, explored + more) == Work(adj, explored) + Work(adj, more) <= budget
  {
    assert forall x :: x in explored + more <==> x in explored || x in more;
    WorkOfConcat(adj, explored, more);
    forall i, j | 0 <= i < |explored| && 0 <= j < |more| ensures explored[i] != more[j] {
      assert explored[i] in Elements(explored) && more[j] in Elements(more);
    }
  }

  // ---- What the walk is ----------------------------------------------------

  lemma {:induction false} SearchSound(adj: Adjacency, edges: set<Edge>, nodes: set<Node>, starts: seq<Member>,
                                       visited: set<Node>)
    requires Represents(adj, edges) && Within(adj, nodes) && Ids(starts) <= nodes && visited <= nodes
    requires Cleared(edges, visited)
    ensures match SearchFrom(adj, nodes, starts, visited)
      case Ring(ring) => IsCycle(edges, ring) && Distinct(ring) && Elements(ring) <= nodes
      case Exhausted(seen) => visited + Ids(starts) <= seen && Cleared(edges, seen)
  {
    if starts != [] {
      var start := starts[0].0;
      assert start in Ids(starts) && Ids(starts) == {start} + Ids(starts[1..]);
      if start in visited {
        SearchSound(adj, edges, nodes, starts[1..], visited);
      } else {
        assert Front([start]) == [];
        match Explore(adj, nodes, [start], 0, visited)
        case Ring(_) => RingIsCycle(adj, edges, nodes, [start], 0, visited);
        case Exhausted(seen) =>
          ExhaustedIsAcyclic(adj, edges, nodes, [start], 0, visited);
          SearchSound(adj, edges, nodes, starts[1..], seen);
      }
    }
  }

  lemma NothingVisited(edges: set<Edge>)
    ensures Cleared(edges, {})
  {
    forall ring | IsCycle(edges, ring) ensures !(Elements(ring) <= {}) {
      assert ring[0] in Elements(ring);
    }
  }

  /** Soundness: a drawn walk is the display image of a simple directed cycle of
      supplied member-to-member edges. */
  lemma WalkIsRealCycle(members: seq<Member>, edges: seq<Edge>)
    requires Walk(members, edges).Some?
    ensures exists ring ::
      && IsCycle(MemberEdges(Ids(members), edges), ring)
      && Distinct(ring) && Elements(ring) <= Ids(members)
      && Walk(members, edges).value == Shown(DisplayMap(members), ring)
  {
    var ids := Ids(members);
    AdjacencyRepresents(ids, edges);
    SortedStarts(members);
    NothingVisited(MemberEdges(ids, edges));
    SearchSound(AdjacencyOf(ids, edges), MemberEdges(ids, edges), ids, Sort(StartLe, members), {});
  }

  lemma MemberCycle(ids: set<Node>, edges: seq<Edge>, ring: seq<Node>)
    requires IsCycle(MemberEdges(ids, edges), ring)
    ensures Elements(ring) <= ids
  {
    forall x | x in ring ensures x in ids {
      var k :| 0 <= k < |ring| && ring[k] == x;
      assert (ring[k], After(ring, k)) in MemberEdges(ids, edges);
    }
  }

  /** Completeness: no walk is drawn exactly when the member-to-member edges hold
      no directed cycle, self-loops included. */
  lemma WalkMissingIffAcyclic(members: seq<Member>, edges: seq<Edge>)
    ensures Walk(members, edges) == None <==> !HasCycle(DrawnOver(members, edges))
  {
    DrawnOverIsMemberEdges(members, edges);
    hide DrawnOver;
    var ids := Ids(members);
    var inner := MemberEdges(ids, edges);
    AdjacencyRepresents(ids, edges);
    SortedStarts(members);
    NothingVisited(inner);
    SearchSound(AdjacencyOf(ids, edges), inner, ids, Sort(StartLe, members), {});
    if Walk(members, edges) == None {
      forall ring | IsCycle(inner, ring) ensures false {
        MemberCycle(ids, edges, ring);
      }
    }
  }

  // ---- Which walk is drawn -------------------------------------------------

  /** The supplied edges whose two ends are both listed as members. */
  ghost function DrawnOver(members: seq<Member>, edges: seq<Edge>): set<Edge> {
    set e | e in edges && (exists d :: (e.0, d) in members) && (exists d :: (e.1, d) in members)
  }

  lemma DrawnOverIsMemberEdges(members: seq<Member>, edges: seq<Edge>)
    ensures DrawnOver(members, edges) == MemberEdges(Ids(members), edges)
  {
    forall u ensures u in Ids(members) <==> exists d :: (u, d) in members {
      if u in Ids(members) {
        var m :| m in members && m.0 == u;
        assert (u, m.1) in members;
      }
    }
    hide Ids;
  }

  lemma AdjacencySorted(ids: set<Node>, edges: seq<Edge>)
    ensures ListsSorted(AdjacencyOf(ids, edges))
  {
    forall u ensures SortedBy(LexLe, Neighbours(AdjacencyOf(ids, edges), u)) {
      StringOrder();
      SortSorts(LexLe, Targets(ids, edges, u));
    }
  }

  /** The ring comes from the first start that leads to a cycle. */
  lemma {:induction false} SearchTrail(adj: Adjacency, edges: set<Edge>, nodes: set<Node>, starts: seq<Member>,
                                       visited: set<Node>) returns (n: nat, trail: seq<Node>, k: nat)
    requires Represents(adj, edges) && Within(adj, nodes) && ListsSorted(adj)
    requires Ids(starts) <= nodes && visited <= nodes && Cleared(edges, visited)
    requires SearchFrom(adj, nodes, starts, visited).Ring?
    ensures n < |starts| && Trail(edges, trail, k) && trail[0] == starts[n].0
    ensures forall i :: 0 <= i < n ==> !ReachesCycle(edges, starts[i].0)
    ensures SearchFrom(adj, nodes, starts, visited).ring == trail[k..]
  {
    hide Represents, Within, ListsSorted, Cleared, Trail, Explore, ReachesCycle;
    FirstStart(starts);
    var start := starts[0].0;
    ghost var rest := 0;
    if start in visited {
      ClearedLeadsNowhere(edges, visited, start);
      rest, trail, k := SearchTrail(adj, edges, nodes, starts[1..], visited);
      n := rest + 1;
    } else {
      SingletonPath(start, visited);
      match Explore(adj, nodes, [start], 0, visited)
      case Ring(_) =>
        n := 0;
        trail, k := RingIsTrail(adj, edges, nodes, [start], 0, visited);
      case Exhausted(seen) =>
        ExhaustedIsAcyclic(adj, edges, nodes, [start], 0, visited);
        ClearedLeadsNowhere(edges, seen, start);
        rest, trail, k := SearchTrail(adj, edges, nodes, starts[1..], seen);
        n := rest + 1;
    }
  }

  lemma FirstStart(starts: seq<Member>)
    ensures starts != [] ==> starts[0].0 in Ids(starts) && Ids(starts[1..]) <= Ids(starts)
  {
    assert starts != [] ==> starts[0] in starts;
  }

  lemma SingletonPath(start: Node, visited: set<Node>)
    requires start !in visited
    ensures Distinct([start]) && Elements([start]) == {start} && Last([start]) == start
    ensures Elements([start]) !! visited && Front([start]) == []
  {
  }

  /** Displayed before, or displayed alike and with a smaller id. */
  lemma StartMeaning(a: Member, b: Member)
    ensures StartLe(a, b) <==> (a.1 != b.1 && LexLe(a.1, b.1)) || (a.1 == b.1 && LexLe(a.0, b.0))
  {
  }

  /** The display of an id is the one it is listed with last. */
  lemma {:induction false} LastListedDisplay(members: seq<Member>, id: Node)
    requires id in Ids(members)
    ensures id in DisplayMap(members)
    ensures ListedAs(members, id, DisplayMap(members)[id])
  {
    hide ListedAs;
    var front, last := Front(members), Last(members);
    FrontLast(members);
    ListedLast(front, last);
    if last.0 != id {
      assert id in Ids(front);
      LastListedDisplay(front, id);
      ListedPush(front, last, id, DisplayMap(front)[id]);
    }
  }

  lemma ListedLast(members: seq<Member>, m: Member)
    ensures ListedAs(members + [m], m.0, m.1)
  {
    assert (members + [m])[|members|] == (m.0, m.1);
  }

  lemma ListedPush(members: seq<Member>, m: Member, id: Node, display: string)
    requires ListedAs(members, id, display) && m.0 != id
    ensures ListedAs(members + [m], id, display)
  {
    var i :| 0 <= i < |members| && members[i] == (id, display)
             && forall j :: i < j < |members| ==> members[j].0 != id;
    assert (members + [m])[i] == (id, display);
  }

  /** Which walk is drawn. Call the edges between members `inner`. The search starts
      at the member from which a cycle can be reached that is displayed first, ids
      deciding between equal displays. From there each step goes to the least
      successor from which a cycle can be reached, until a node comes up again; the
      walk shows the nodes from there on, under the names they are listed with. */
  lemma WalkIsLeast(members: seq<Member>, edges: seq<Edge>)
      returns (start: Member, trail: seq<Node>, k: nat)
    requires Walk(members, edges).Some?
    ensures var inner := DrawnOver(members, edges);
      && start in members && k < |trail| && trail[0] == start.0 && ReachesCycle(inner, start.0)
      && (forall m :: m in members && ReachesCycle(inner, m.0) ==>
        (start.1 != m.1 && LexLe(start.1, m.1)) || (start.1 == m.1 && LexLe(start.0, m.0)))
      && Distinct(trail)
      && (forall j :: 0 <= j < |trail| ==>
        LeastStep(inner, trail[j], if j + 1 < |trail| then trail[j + 1] else trail[k]))
    ensures |Walk(members, edges).value| == |trail| - k
    ensures forall j :: k <= j < |trail| ==> ListedAs(members, trail[j], Walk(members, edges).value[j - k])
  {
    hide Represents, Within, ListsSorted, Cleared, LeastStep, ReachesCycle, SearchFrom, AdjacencyOf, MemberEdges,
      IsCycle, Distinct, Ids, DisplayMap, StartLe, ListedAs, DrawnOver, SortedBy, Permutation;
    var ids, inner := Ids(members), DrawnOver(members, edges);
    DrawnOverIsMemberEdges(members, edges);
    var starts := Sort(StartLe, members);
    AdjacencyRepresents(ids, edges);
    AdjacencySorted(ids, edges);
    SortedStarts(members);
    NothingVisited(inner);
    var n;
    n, trail, k := SearchTrail(AdjacencyOf(ids, edges), inner, ids, starts, {});
    start := starts[n];
    TrailSteps(inner, trail, k);
    FirstStartIsLeast(members, inner, n);
    SearchSound(AdjacencyOf(ids, edges), inner, ids, starts, {});
    ShownNames(members, trail[k..]);
  }

  /** The display an id is listed with last. */
  ghost predicate ListedAs(members: seq<Member>, id: Node, display: string) {
    exists i :: 0 <= i < |members| && members[i] == (id, display)
                && forall j :: i < j < |members| ==> members[j].0 != id
  }

  lemma ShownNames(members: seq<Member>, ring: seq<Node>)
    requires Elements(ring) <= Ids(members)
    ensures var shown := Shown(DisplayMap(members), ring);
      |shown| == |ring| && forall j :: 0 <= j < |ring| ==> ListedAs(members, ring[j], shown[j])
  {
    forall j | 0 <= j < |ring| ensures ListedAs(members, ring[j], Shown(DisplayMap(members), ring)[j]) {
      assert ring[j] in Elements(ring);
      LastListedDisplay(members, ring[j]);
    }
  }

  lemma FirstStartIsLeast(members: seq<Member>, edges: set<Edge>, n: nat)
    requires n < |Sort(StartLe, members)|
    requires forall i :: 0 <= i < n ==> !ReachesCycle(edges, Sort(StartLe, members)[i].0)
    ensures var start := Sort(StartLe, members)[n];
      && start in members
      && forall m :: m in members && ReachesCycle(edges, m.0) ==>
           (start.1 != m.1 && LexLe(start.1, m.1)) || (start.1 == m.1 && LexLe(start.0, m.0))
  {
    hide ReachesCycle, StartLe, LexLe, Sort;
    var starts := Sort(StartLe, members);
    StartOrder();
    SortSorts(StartLe, members);
    PermutationFacts(members, starts);
    assert starts[n] in starts;
    forall m | m in members && ReachesCycle(edges, m.0)
      ensures (starts[n].1 != m.1 && LexLe(starts[n].1, m.1)) || (starts[n].1 == m.1 && LexLe(starts[n].0, m.0))
    {
      var i :| 0 <= i < |starts| && starts[i] == m;
      assert StartLe(m, m);
      StartMeaning(starts[n], m);
    }
  }

  // ---- A reported cycle always draws a walk --------------------------------

  /** A walk between two nodes of a component never leaves it. */
  lemma WalkStaysInScc(edges: set<Edge>, component: set<Node>, w: seq<Node>)
    requires IsScc(edges, component) && IsWalk(edges, w)
    requires w[0] in component && w[|w| - 1] in component
    ensures Elements(w) <= component
  {
    forall i | 0 <= i < |w| ensures w[i] in component {
      var head, tail := w[..i + 1], w[i..];
      assert IsWalk(edges, head) && head[0] == w[0] && head[|head| - 1] == w[i];
      assert IsWalk(edges, tail) && tail[0] == w[i] && tail[|tail| - 1] == w[|w| - 1];
      assert Mutual(edges, w[|w| - 1], w[0]);
      ReachTransitive(edges, w[i], w[|w| - 1], w[0]);
    }
  }

  /** Dropping self-imports from a walk inside the members keeps its ends joined. */
  lemma {:induction false} WalkOverRealEdges(ids: set<Node>, all: set<Edge>, w: seq<Node>)
    requires IsWalk(all, w) && Elements(w) <= ids
    ensures Reach(RealEdges(ids, all), w[0], w[|w| - 1])
  {
    var kept := RealEdges(ids, all);
    if |w| == 1 {
      ReachSelf(kept, w[0]);
    } else {
      var tail := w[1..];
      assert forall i :: 0 <= i < |tail| ==> tail[i] == w[i + 1];
      assert IsWalk(all, tail);
      WalkOverRealEdges(ids, all, tail);
      assert w[0] in Elements(w) && w[1] in Elements(w);
      if w[0] != w[1] {
        ReachEdge(kept, w[0], w[1]);
        ReachTransitive(kept, w[0], w[1], w[|w| - 1]);
      }
    }
  }

  /** When the members are a strongly connected component of at least two nodes
      and no edge was cut, a walk is drawn. */
  lemma SccDrawsWalk(members: seq<Member>, snapshot: seq<Edge>)
    requires IsScc(Elements(snapshot), Ids(members)) && |Ids(members)| >= 2
    requires !CarriedEdges(Ids(members), Elements(snapshot)).1
    ensures Walk(members, CarriedEdges(Ids(members), Elements(snapshot)).0).Some?
  {
    var ids, all := Ids(members), Elements(snapshot);
    var carried := CarriedEdges(ids, all).0;
    var kept := RealEdges(ids, all);
    assert MemberEdges(ids, carried) == kept by {
      assert Elements(carried) == kept;
    }
    var u :| u in ids;
    assert |ids - {u}| > 0;
    var v :| v in ids - {u};
    forall a, b | a in ids && b in ids ensures Reach(kept, a, b) {
      assert Mutual(all, a, b);
      var w :| IsWalk(all, w) && w[0] == a && w[|w| - 1] == b;
      WalkStaysInScc(all, ids, w);
      WalkOverRealEdges(ids, all, w);
    }
    assert Mutual(kept, u, v);
    MutualGivesCycle(kept, u, v);
    hide DrawnOver;
    DrawnOverIsMemberEdges(members, carried);
    WalkMissingIffAcyclic(members, carried);
  }

  // ---- Determinism ---------------------------------------------------------

  ghost predicate DistinctIds(members: seq<Member>) {
    forall i, j :: 0 <= i < j < |members| ==> members[i].0 != members[j].0
  }

  lemma {:induction false} DisplayMapLooksUp(members: seq<Member>)
    requires DistinctIds(members)
    ensures DisplayMap(members).Keys == Ids(members)
    ensures forall m :: m in members ==> m.0 in DisplayMap(members) && DisplayMap(members)[m.0] == m.1
  {
    if members != [] {
      DisplayMapLooksUp(Front(members));
      assert members == Front(members) + [Last(members)];
    }
  }

  lemma DistinctIdsPermutation(members: seq<Member>, shuffled: seq<Member>)
    requires Permutation(members, shuffled) && DistinctIds(members)
    ensures DistinctIds(shuffled)
  {
    DistinctPermutation(members, shuffled);
    PermutationFacts(members, shuffled);
    forall i, j | 0 <= i < j < |shuffled| ensures shuffled[i].0 != shuffled[j].0 {
      assert shuffled[i] in members && shuffled[j] in members;
      var k :| 0 <= k < |members| && members[k] == shuffled[i];
      var l :| 0 <= l < |members| && members[l] == shuffled[j];
      assert k != l;
    }
  }

  lemma DisplayMapForgetsOrder(members: seq<Member>, shuffled: seq<Member>)
    requires Permutation(members, shuffled) && DistinctIds(members)
    ensures Ids(members) == Ids(shuffled) && DisplayMap(members) == DisplayMap(shuffled)
  {
    PermutationFacts(members, shuffled);
    DistinctIdsPermutation(members, shuffled);
    DisplayMapLooksUp(members);
    DisplayMapLooksUp(shuffled);
    forall id | id in Ids(members) ensures DisplayMap(members)[id] == DisplayMap(shuffled)[id] {
      var m :| m in members && m.0 == id;
      assert m in shuffled;
    }
  }

  /** The walk does not depend on the order of members or of edges. */
  lemma WalkForgetsOrder(members: seq<Member>, shuffledMembers: seq<Member>, edges: seq<Edge>, shuffledEdges: seq<Edge>)
    requires Permutation(members, shuffledMembers) && Permutation(edges, shuffledEdges)
    requires DistinctIds(members)
    ensures Walk(members, edges) == Walk(shuffledMembers, shuffledEdges)
  {
    DisplayMapForgetsOrder(members, shuffledMembers);
    AdjacencyForgetsOrder(Ids(members), edges, shuffledEdges);
    StartOrder();
    SortForgetsOrder(StartLe, members, shuffledMembers);
  }

  /** Through `intra_cycle_edges`, duplicated or reordered snapshot edges and
      reordered members still give the same walk. */
  lemma SelectionForgetsOrder(members: seq<Member>, shuffledMembers: seq<Member>, snapshot: seq<Edge>, other: seq<Edge>)
    requires Permutation(members, shuffledMembers) && DistinctIds(members)
    requires Elements(snapshot) == Elements(other)
    ensures Walk(members, CarriedEdges(Ids(members), Elements(snapshot)).0)
      == Walk(shuffledMembers, CarriedEdges(Ids(shuffledMembers), Elements(other)).0)
  {
    DisplayMapForgetsOrder(members, shuffledMembers);
    var carried := CarriedEdges(Ids(members), Elements(snapshot)).0;
    WalkForgetsOrder(members, shuffledMembers, carried, carried);
  }
}
