/** `cycle_type_only.rs`: does a module cycle survive erasing its `import type`
    edges, and which cycles carry that verdict at all. */
module CycleTypeOnly {
  import opened Wrappers
  import opened Text
  import opened Ordering
  import opened Graphs
  import Scc
  import opened CycleWalk

  /** What is known about one import edge; absence of the fact is `None` around it. */
  datatype EdgeTypeOnly = TypeOnlyEdge | RuntimeEdge | UnreadableEdge

  datatype Verdict =
    | TypeOnly
    | BreaksAtRuntime(typeOnly: nat, of: nat)
    | HasRuntimeEdges(typeOnly: nat, of: nat)
    | Unknown(reason: string)

  type LabelledEdge = (Node, Node, Option<EdgeTypeOnly>)

  // ---- The verdict ---------------------------------------------------------

  function CountTypeOnly(edges: seq<LabelledEdge>): (n: nat)
    ensures n <= |edges|
  {
    if edges == [] then 0
    else CountTypeOnly(Front(edges)) + if Last(edges).2 == Some(TypeOnlyEdge) then 1 else 0
  }

  /** The edges left once the type-only ones are erased. */
  function RuntimeEdges(edges: seq<LabelledEdge>): seq<Edge> {
    if edges == [] then []
    else
      RuntimeEdges(Front(edges)) +
        if Last(edges).2 == Some(RuntimeEdge) then [(Last(edges).0, Last(edges).1)] else []
  }

  ghost function Runtime(edges: seq<LabelledEdge>): set<Edge> {
    set e | e in edges && e.2 == Some(RuntimeEdge) :: (e.0, e.1)
  }

  ghost function All(edges: seq<LabelledEdge>): set<Edge> {
    set e | e in edges :: (e.0, e.1)
  }

  predicate Known(edges: seq<LabelledEdge>) {
    forall e :: e in edges ==> e.2 == Some(TypeOnlyEdge) || e.2 == Some(RuntimeEdge)
  }

  const UNAVAILABLE := "cycle import edges unavailable"
  const UNREADABLE := "type-only fact unreadable"
  const UNTRACKED := "indexed before type-only tracking"

  /** The verdict, with "a runtime cycle remains" stated on the graph itself. */
  ghost function VerdictOf(edges: seq<LabelledEdge>): Verdict {
    var of, typeOnly := |edges|, CountTypeOnly(edges);
    if of == 0 then Unknown(UNAVAILABLE)
    else if exists e :: e in edges && e.2 == Some(UnreadableEdge) then Unknown(UNREADABLE)
    else if exists e :: e in edges && e.2 == None then Unknown(UNTRACKED)
    else if typeOnly == of then TypeOnly
    else if typeOnly == 0 || HasProperCycle(Runtime(edges)) then HasRuntimeEdges(typeOnly, of)
    else BreaksAtRuntime(typeOnly, of)
  }

  lemma {:induction false} RuntimeEdgesAreRuntime(edges: seq<LabelledEdge>)
    ensures Elements(RuntimeEdges(edges)) == Runtime(edges)
  {
    if edges != [] {
      var front, e := Front(edges), Last(edges);
      RuntimeEdgesAreRuntime(front);
      assert edges == front + [e];
      PushElement(RuntimeEdges(front), (e.0, e.1));
      assert RuntimeEdges(front) + [] == RuntimeEdges(front);
    }
  }

  /** `runtime_subgraph_is_cyclic`, through the real component search. */
  method RuntimeSubgraphIsCyclic(edges: seq<LabelledEdge>) returns (cyclic: bool)
    ensures cyclic <==> HasProperCycle(Runtime(edges))
  {
    RuntimeEdgesAreRuntime(edges);
    var _, cycles, _, _, _ := Scc.FindSccs(RuntimeEdges(edges));
    cyclic := cycles != [];
  }

  /** `classify_cycle_type_only`. */
  method ClassifyCycleTypeOnly(sccEdges: seq<LabelledEdge>) returns (verdict: Verdict)
    ensures verdict == VerdictOf(sccEdges)
  {
    var of := |sccEdges|;
    if of == 0 {
      return Unknown(UNAVAILABLE);
    }
    if exists e :: e in sccEdges && e.2 == Some(UnreadableEdge) {
      return Unknown(UNREADABLE);
    }
    if exists e :: e in sccEdges && e.2 == None {
      return Unknown(UNTRACKED);
    }
    var typeOnly := CountTypeOnly(sccEdges);
    if typeOnly == of {
      return TypeOnly;
    }
    if typeOnly == 0 {
      return HasRuntimeEdges(0, of);
    }
    var cyclic := RuntimeSubgraphIsCyclic(sccEdges);
    verdict := if cyclic then HasRuntimeEdges(typeOnly, of) else BreaksAtRuntime(typeOnly, of);
  }

  lemma {:induction false} CountExtremes(edges: seq<LabelledEdge>)
    requires Known(edges)
    ensures CountTypeOnly(edges) == |edges| <==> Runtime(edges) == {}
    ensures CountTypeOnly(edges) == 0 <==> forall e :: e in edges ==> e.2 == Some(RuntimeEdge)
  {
    if edges != [] {
      var front, e := Front(edges), Last(edges);
      assert edges == front + [e];
      CountExtremes(front);
      if e.2 == Some(RuntimeEdge) {
        assert (e.0, e.1) in Runtime(edges);
      } else {
        assert Runtime(edges) == Runtime(front);
      }
    }
  }

  /** Where the type-only facts stand. */
  ghost function TypeOnlyPositions(edges: seq<LabelledEdge>): set<nat> {
    set i: nat | i < |edges| && edges[i].2 == Some(TypeOnlyEdge)
  }

  lemma {:induction false} CountIsPositions(edges: seq<LabelledEdge>)
    ensures CountTypeOnly(edges) == |TypeOnlyPositions(edges)|
  {
    if edges == [] {
      assert TypeOnlyPositions(edges) == {};
    } else {
      var front, e := Front(edges), Last(edges);
      CountIsPositions(front);
      var here: set<nat> := if e.2 == Some(TypeOnlyEdge) then {|front|} else {};
      assert TypeOnlyPositions(edges) == TypeOnlyPositions(front) + here;
    }
  }

  /** When the verdict is unknown and why: no edges, an unreadable fact, or else an
      absent one. Any single such edge is enough. */
  lemma UnknownMeaning(edges: seq<LabelledEdge>)
    ensures VerdictOf(edges) == Unknown("cycle import edges unavailable") <==> edges == []
    ensures VerdictOf(edges) == Unknown("type-only fact unreadable") <==>
      exists e :: e in edges && e.2 == Some(UnreadableEdge)
    ensures VerdictOf(edges) == Unknown("indexed before type-only tracking") <==>
      (exists e :: e in edges && e.2 == None) && !exists e :: e in edges && e.2 == Some(UnreadableEdge)
    ensures VerdictOf(edges).Unknown? <==>
      edges == [] || exists e :: e in edges && (e.2 == None || e.2 == Some(UnreadableEdge))
    ensures VerdictOf(edges).Unknown? <==> edges == [] || !Known(edges)
  {
    hide CountTypeOnly, Runtime, HasProperCycle;
    assert UNAVAILABLE[0] == 'c' && UNREADABLE[0] == 't' && UNTRACKED[0] == 'i';
    if !Known(edges) {
      var e :| e in edges && e.2 != Some(TypeOnlyEdge) && e.2 != Some(RuntimeEdge);
      match e.2
      case None =>
      case Some(fact) => assert fact == UnreadableEdge;
    }
  }

  /** A known verdict: which kinds occur, and whether two distinct nodes still reach
      each other once the type-only edges are erased. */
  lemma KnownMeaning(edges: seq<LabelledEdge>, runtime: set<Edge>)
    requires edges != [] && forall e :: e in edges ==> e.2 == Some(TypeOnlyEdge) || e.2 == Some(RuntimeEdge)
    requires forall u, v :: (u, v) in runtime <==> (u, v, Some(RuntimeEdge)) in edges
    ensures VerdictOf(edges).TypeOnly? <==> forall e :: e in edges ==> e.2 == Some(TypeOnlyEdge)
    ensures VerdictOf(edges).BreaksAtRuntime? <==>
      && (exists e :: e in edges && e.2 == Some(TypeOnlyEdge))
      && (exists e :: e in edges && e.2 == Some(RuntimeEdge))
      && !exists u, v :: u != v && Reach(runtime, u, v) && Reach(runtime, v, u)
    ensures !VerdictOf(edges).TypeOnly? ==>
      && (VerdictOf(edges).BreaksAtRuntime? || VerdictOf(edges).HasRuntimeEdges?)
      && VerdictOf(edges).of == |edges| && VerdictOf(edges).typeOnly == |TypeOnlyPositions(edges)|
  {
    hide Reach;
    CountIsPositions(edges);
    RuntimeSpelled(edges, runtime);
    ProperCycleSpelled(runtime);
    CountExtremes(edges);
    hide CountTypeOnly, HasProperCycle;
    assert Runtime(edges) == {} <==> !exists e :: e in edges && e.2 == Some(RuntimeEdge) by {
      forall e | e in edges && e.2 == Some(RuntimeEdge) ensures Runtime(edges) != {} {
        assert (e.0, e.1) in Runtime(edges);
      }
    }
    hide Runtime;
  }

  lemma RuntimeSpelled(edges: seq<LabelledEdge>, runtime: set<Edge>)
    requires forall u, v :: (u, v) in runtime <==> (u, v, Some(RuntimeEdge)) in edges
    ensures runtime == Runtime(edges)
  {
    forall e | e in edges && e.2 == Some(RuntimeEdge) ensures (e.0, e.1) in runtime {
      assert e == (e.0, e.1, Some(RuntimeEdge));
    }
    forall e | e in runtime ensures e in Runtime(edges) {
      assert e == (e.0, e.1);
      assert (e.0, e.1, Some(RuntimeEdge)) in edges;
    }
  }

  lemma ProperCycleSpelled(edges: set<Edge>)
    ensures HasProperCycle(edges) <==> exists u, v :: u != v && Reach(edges, u, v) && Reach(edges, v, u)
  {
    forall u, v | u != v && Reach(edges, u, v) && Reach(edges, v, u) ensures HasProperCycle(edges) {
      assert Mutual(edges, u, v);
    }
  }

  /** When every fact is known, "has runtime edges" means "a runtime cycle
      remains" exactly unless nothing is type-only and the edges hold no cycle
      through two nodes in the first place. */
  lemma VerdictExactness(edges: seq<LabelledEdge>)
    requires Known(edges) && edges != []
    ensures (VerdictOf(edges).HasRuntimeEdges? <==> HasProperCycle(Runtime(edges)))
      <==> (CountTypeOnly(edges) > 0 || HasProperCycle(All(edges)))
  {
    CountExtremes(edges);
    if CountTypeOnly(edges) == |edges| {
      NoEdgesNoCycle();
    } else if CountTypeOnly(edges) == 0 {
      assert Runtime(edges) == All(edges);
    }
  }

  lemma NoEdgesNoCycle()
    ensures !HasProperCycle({})
  {
    var none: set<Edge> := {};
    forall w: seq<Node> | |w| > 1 ensures !IsWalk(none, w) {
      assert (w[0], w[1]) !in none;
    }
  }

  /** The counterexample: one runtime edge and no cycle, yet "has runtime edges". */
  lemma AcyclicRuntimeEdges()
    ensures var edges: seq<LabelledEdge> := [("a", "b", Some(RuntimeEdge))];
      Known(edges) && VerdictOf(edges) == HasRuntimeEdges(0, 1) && !HasCycle(Runtime(edges))
  {
    var edges: seq<LabelledEdge> := [("a", "b", Some(RuntimeEdge))];
    assert Front(edges) == [];
    assert CountTypeOnly(edges) == 0;
    assert edges[0] in edges;
    forall ring | ring != [] ensures !IsCycle(Runtime(edges), ring) {
      assert (ring[0], After(ring, 0)) in Runtime(edges) ==> ring[0] == "a";
      assert (ring[|ring| - 1], After(ring, |ring| - 1)) in Runtime(edges) ==> ring[0] == "b";
    }
  }

  /** For the edges of a strongly connected graph on at least two nodes, without
      self-imports and with every fact known, the verdict is exact. */
  lemma SccVerdictExact(edges: seq<LabelledEdge>, nodes: set<Node>)
    requires Known(edges) && Loopless(All(edges))
    requires |nodes| >= 2 && StronglyConnected(All(edges), nodes)
    ensures VerdictOf(edges).HasRuntimeEdges? <==> HasCycle(Runtime(edges))
    ensures VerdictOf(edges).BreaksAtRuntime? || VerdictOf(edges).TypeOnly? <==> !HasCycle(Runtime(edges))
  {
    var u :| u in nodes;
    assert |nodes - {u}| > 0;
    var v :| v in nodes - {u};
    assert Mutual(All(edges), u, v);
    assert edges != [] by {
      if edges == [] {
        assert All(edges) == {};
        NoEdgesNoCycle();
      }
    }
    assert Loopless(Runtime(edges)) by {
      forall e | e in Runtime(edges) ensures e.0 != e.1 {
        assert e in All(edges);
      }
    }
    VerdictExactness(edges);
    ProperCycleIffCycle(Runtime(edges));
  }

  // ---- Relabelling and reordering ------------------------------------------

  /** The same edges with some runtime facts turned into type-only facts. */
  ghost predicate Relaxed(edges: seq<LabelledEdge>, relabelled: seq<LabelledEdge>) {
    && |relabelled| == |edges|
    && forall i :: 0 <= i < |edges| ==>
      && relabelled[i].0 == edges[i].0 && relabelled[i].1 == edges[i].1
      && (relabelled[i].2 == edges[i].2
          || (edges[i].2 == Some(RuntimeEdge) && relabelled[i].2 == Some(TypeOnlyEdge)))
  }

  lemma {:induction false} RelaxedCounts(edges: seq<LabelledEdge>, relabelled: seq<LabelledEdge>)
    requires Relaxed(edges, relabelled)
    ensures CountTypeOnly(edges) <= CountTypeOnly(relabelled)
  {
    if edges != [] {
      RelaxedCounts(Front(edges), Front(relabelled));
    }
  }

  /** Learning that an edge is type-only never revives a runtime cycle. */
  lemma RelabellingNeverRevives(edges: seq<LabelledEdge>, relabelled: seq<LabelledEdge>)
    requires Relaxed(edges, relabelled)
    requires VerdictOf(edges).BreaksAtRuntime? || VerdictOf(edges).TypeOnly?
    ensures VerdictOf(relabelled).BreaksAtRuntime? || VerdictOf(relabelled).TypeOnly?
    ensures VerdictOf(edges).TypeOnly? ==> VerdictOf(relabelled).TypeOnly?
  {
    RelaxedCounts(edges, relabelled);
    forall e | e in relabelled ensures e.2 != None && e.2 != Some(UnreadableEdge) {
      var i :| 0 <= i < |relabelled| && relabelled[i] == e;
      assert edges[i] in edges;
    }
    assert Runtime(relabelled) <= Runtime(edges) by {
      forall e | e in relabelled && e.2 == Some(RuntimeEdge) ensures (e.0, e.1) in Runtime(edges) {
        var i :| 0 <= i < |relabelled| && relabelled[i] == e;
        assert edges[i] == e && edges[i] in edges;
      }
    }
    FewerEdgesFewerCycles(Runtime(relabelled), Runtime(edges));
  }

  lemma {:induction false} CountByMultiset(edges: seq<LabelledEdge>, shuffled: seq<LabelledEdge>)
    requires Permutation(edges, shuffled)
    ensures CountTypeOnly(edges) == CountTypeOnly(shuffled)
    decreases |edges|
  {
    PermutationFacts(edges, shuffled);
    if edges != [] {
      var e := Last(edges);
      assert e in shuffled;
      var j :| 0 <= j < |shuffled| && shuffled[j] == e;
      var rest := shuffled[..j] + shuffled[j + 1..];
      assert edges == Front(edges) + [e];
      assert shuffled == shuffled[..j] + [e] + shuffled[j + 1..];
      assert multiset(rest) == multiset(shuffled) - multiset{e};
      assert multiset(Front(edges)) == multiset(edges) - multiset{e};
      CountByMultiset(Front(edges), rest);
      CountOfConcat(shuffled[..j], shuffled[j + 1..]);
      CountOfConcat(shuffled[..j] + [e], shuffled[j + 1..]);
      CountOfConcat(shuffled[..j], [e]);
      assert Front([e]) == [];
    }
  }

  lemma {:induction false} CountOfConcat(a: seq<LabelledEdge>, b: seq<LabelledEdge>)
    ensures CountTypeOnly(a + b) == CountTypeOnly(a) + CountTypeOnly(b)
  {
    if b == [] {
      assert a + b == a;
    } else {
      assert Front(a + b) == a + Front(b);
      CountOfConcat(a, Front(b));
    }
  }

  /** The verdict does not depend on the order of the edges. */
  lemma VerdictForgetsOrder(edges: seq<LabelledEdge>, shuffled: seq<LabelledEdge>)
    requires Permutation(edges, shuffled)
    ensures VerdictOf(edges) == VerdictOf(shuffled)
  {
    PermutationFacts(edges, shuffled);
    CountByMultiset(edges, shuffled);
    assert Runtime(edges) == Runtime(shuffled);
  }

  // ---- Which member directories own TS/JS files ----------------------------

  predicate IsTsJsLanguageToken(token: string) {
    token == "typescript" || token == "tsx" || token == "javascript" || token == "jsx"
  }

  /** `path_in_module`: the empty directory is the repository root. */
  predicate PathInModule(path: string, dir: string) {
    dir == "" || path == dir || dir + "/" <= path
  }

  /** `d` is the longest of the directories that contain the path. */
  ghost predicate DeepestOwns(dirs: set<string>, path: string, d: string) {
    && d in dirs && PathInModule(path, d)
    && forall e :: e in dirs && PathInModule(path, e) ==> ByteLen(e) <= ByteLen(d)
  }

  /** Directories containing one path are nested, shorter around longer. */
  lemma ContainingDirsNest(path: string, a: string, b: string)
    requires PathInModule(path, a) && PathInModule(path, b) && |a| <= |b|
    ensures a <= b && PathInModule(b, a)
  {
    assert a <= path && b <= path;
    assert a == path[..|a|] && b == path[..|b|];
    if a != "" && |a| < |b| {
      assert a + "/" == path[..|a| + 1];
    }
  }

  /** So the deepest owner of a path is unique. */
  lemma DeepestOwnerUnique(dirs: set<string>, path: string, a: string, b: string)
    requires DeepestOwns(dirs, path, a) && DeepestOwns(dirs, path, b)
    ensures a == b
  {
    if |a| <= |b| {
      ContainingDirsNest(path, a, b);
      PrefixByteLen(a, b);
    } else {
      ContainingDirsNest(path, b, a);
      PrefixByteLen(b, a);
    }
  }

  /** Just the directory itself and what continues it after a slash; the empty
      directory holds everything. */
  ghost predicate Holds(dir: string, path: string) {
    dir == "" || exists rest :: path == dir + rest && (rest == "" || rest[0] == '/')
  }

  lemma PathInModuleMeaning(path: string, dir: string)
    ensures PathInModule(path, dir) <==> Holds(dir, path)
  {
    if PathInModule(path, dir) {
      assert path == dir + path[|dir|..];
    }
    forall rest | path == dir + rest && (rest == "" || rest[0] == '/') ensures PathInModule(path, dir) {
      assert rest != "" ==> path[..|dir| + 1] == dir + "/";
    }
  }

  /** The deepest owner is the longest of the directories that hold the path, counted
      in characters as well as in bytes. */
  lemma DeepestMeaning(dirs: set<string>, path: string, d: string)
    ensures DeepestOwns(dirs, path, d) <==>
      d in dirs && Holds(d, path) && forall e :: e in dirs && Holds(e, path) ==> |e| <= |d|
  {
    forall e ensures PathInModule(path, e) <==> Holds(e, path) {
      PathInModuleMeaning(path, e);
    }
    hide Holds;
    if PathInModule(path, d) {
      forall e | PathInModule(path, e) ensures |e| <= |d| <==> ByteLen(e) <= ByteLen(d) {
        LongerIsDeeper(path, e, d);
      }
    }
  }

  lemma LongerIsDeeper(path: string, e: string, d: string)
    requires PathInModule(path, e) && PathInModule(path, d)
    ensures |e| <= |d| <==> ByteLen(e) <= ByteLen(d)
  {
    if |e| <= |d| {
      ContainingDirsNest(path, e, d);
      PrefixByteLen(e, d);
    } else {
      ContainingDirsNest(path, d, e);
      PrefixByteLen(d, e);
    }
  }

  /** `filter(..).max_by_key(len)`: among equally long ones, the last. */
  function DeepestDir(dirs: seq<string>, path: string): (owner: Option<string>)
    ensures owner.None? ==> forall d :: d in dirs ==> !PathInModule(path, d)
    ensures owner.Some? ==> DeepestOwns(Elements(dirs), path, owner.value)
  {
    if dirs == [] then None
    else
      var d, best := Last(dirs), DeepestDir(Front(dirs), path);
      assert dirs == Front(dirs) + [d];
      assert forall e :: e in dirs <==> e in Front(dirs) || e == d;
      if !PathInModule(path, d) then best
      else if best.Some? && ByteLen(best.value) > ByteLen(d) then best
      else Some(d)
  }

  type TrackedFile = (string, Option<string>)

  predicate IsTsJs(f: TrackedFile) {
    f.1.Some? && IsTsJsLanguageToken(f.1.value)
  }

  /** Exactly the member directories that deepest-own some TS/JS file: a set
      function of members, directories and files, so their order is immaterial. */
  ghost function TsJsOwners(memberDirs: set<string>, allDirs: set<string>, files: set<TrackedFile>): set<string> {
    set d | d in memberDirs && exists f :: f in files && IsTsJs(f) && DeepestOwns(allDirs, f.0, d)
  }

  method TsJsCycleMemberDirs(memberDirs: set<string>, allModuleDirs: seq<string>, files: seq<TrackedFile>)
      returns (tsMembers: set<string>)
    ensures tsMembers == TsJsOwners(memberDirs, Elements(allModuleDirs), Elements(files))
  {
    tsMembers := {};
    if memberDirs == {} {
      return;
    }
    for n := 0 to |files|
      invariant tsMembers == TsJsOwners(memberDirs, Elements(allModuleDirs), Elements(files[..n]))
    {
      var f := files[n];
      assert files[..n + 1] == files[..n] + [f];
      OwnersStep(memberDirs, allModuleDirs, files[..n], f);
      if !IsTsJs(f) {
        continue;
      }
      var owner := DeepestDir(allModuleDirs, f.0);
      if owner.Some? && owner.value in memberDirs {
        tsMembers := tsMembers + {owner.value};
      }
    }
    assert files[..|files|] == files;
  }

  lemma OwnersStep(memberDirs: set<string>, allDirs: seq<string>, files: seq<TrackedFile>, f: TrackedFile)
    ensures TsJsOwners(memberDirs, Elements(allDirs), Elements(files + [f])) ==
      TsJsOwners(memberDirs, Elements(allDirs), Elements(files)) +
      var owner := DeepestDir(allDirs, f.0);
      if IsTsJs(f) && owner.Some? && owner.value in memberDirs then {owner.value} else {}
  {
    var dirs, owner := Elements(allDirs), DeepestDir(allDirs, f.0);
    PushElement(files, f);
    forall d | DeepestOwns(dirs, f.0, d) ensures owner == Some(d) {
      if owner.Some? {
        DeepestOwnerUnique(dirs, f.0, d, owner.value);
      }
    }
    var before := TsJsOwners(memberDirs, dirs, Elements(files));
    var after := TsJsOwners(memberDirs, dirs, Elements(files + [f]));
    forall d | d in after ensures d in before || (IsTsJs(f) && owner == Some(d)) {
      var g :| g in Elements(files + [f]) && IsTsJs(g) && DeepestOwns(dirs, g.0, d);
    }
    forall d | d in before ensures d in after {
      var g :| g in Elements(files) && IsTsJs(g) && DeepestOwns(dirs, g.0, d);
      assert g in Elements(files + [f]);
    }
    if IsTsJs(f) && owner.Some? && owner.value in memberDirs {
      assert f in Elements(files + [f]);
    }
  }

  // ---- The whole cycle set -------------------------------------------------

  /** One cycle's members: node id and qualified directory. */
  type CycleMembers = seq<(Node, string)>

  ghost function MemberIds(members: CycleMembers): set<Node> {
    set m | m in members :: m.0
  }

  ghost predicate DisjointCycles(cycles: seq<CycleMembers>) {
    forall i, j :: 0 <= i < j < |cycles| ==> MemberIds(cycles[i]) !! MemberIds(cycles[j])
  }

  /** The last cycle that lists the node: what the owner map holds. */
  ghost function OwnerOf(cycles: seq<CycleMembers>, id: Node): Option<nat> {
    if cycles == [] then None
    else if id in MemberIds(Last(cycles)) then Some(|cycles| - 1)
    else OwnerOf(Front(cycles), id)
  }

  ghost predicate Bucketed(cycles: seq<CycleMembers>, e: LabelledEdge, i: nat) {
    e.0 != e.1 && OwnerOf(cycles, e.0) == Some(i) && OwnerOf(cycles, e.1) == Some(i)
  }

  /** The edges that land in cycle `i`'s bucket, in input order. */
  ghost function Bucket(cycles: seq<CycleMembers>, edges: seq<LabelledEdge>, i: nat): seq<LabelledEdge> {
    if edges == [] then []
    else Bucket(cycles, Front(edges), i) + if Bucketed(cycles, Last(edges), i) then [Last(edges)] else []
  }

  /** The non-self edges with both ends in one cycle, in input order. */
  ghost function InnerEdges(members: CycleMembers, edges: seq<LabelledEdge>): seq<LabelledEdge> {
    if edges == [] then []
    else
      var e := Last(edges);
      InnerEdges(members, Front(edges)) +
        if e.0 != e.1 && e.0 in MemberIds(members) && e.1 in MemberIds(members) then [e] else []
  }

  lemma {:induction false} OwnerIsLast(cycles: seq<CycleMembers>, id: Node)
    ensures OwnerOf(cycles, id).None? ==> forall i :: 0 <= i < |cycles| ==> id !in MemberIds(cycles[i])
    ensures OwnerOf(cycles, id).Some? ==>
      && OwnerOf(cycles, id).value < |cycles| && id in MemberIds(cycles[OwnerOf(cycles, id).value])
      && forall i :: OwnerOf(cycles, id).value < i < |cycles| ==> id !in MemberIds(cycles[i])
  {
    if cycles != [] {
      OwnerIsLast(Front(cycles), id);
    }
  }

  /** With disjoint cycles the bucket is a plain filter. */
  lemma {:induction false} BucketIsInnerEdges(cycles: seq<CycleMembers>, edges: seq<LabelledEdge>, i: nat)
    requires DisjointCycles(cycles) && i < |cycles|
    ensures Bucket(cycles, edges, i) == InnerEdges(cycles[i], edges)
  {
    if edges != [] {
      BucketIsInnerEdges(cycles, Front(edges), i);
      OwnerWhenDisjoint(cycles, Last(edges).0, i);
      OwnerWhenDisjoint(cycles, Last(edges).1, i);
    }
  }

  lemma OwnerWhenDisjoint(cycles: seq<CycleMembers>, id: Node, i: nat)
    requires DisjointCycles(cycles) && i < |cycles|
    ensures OwnerOf(cycles, id) == Some(i) <==> id in MemberIds(cycles[i])
  {
    OwnerIsLast(cycles, id);
  }

  ghost function MemberDirs(cycles: seq<CycleMembers>): set<string> {
    set i, m | 0 <= i < |cycles| && m in cycles[i] :: m.1
  }

  /** Does some member directory of the cycle deepest-own a TS/JS file? */
  ghost predicate HasTsJsMember(members: CycleMembers, allDirs: set<string>, files: set<TrackedFile>) {
    exists m, f :: m in members && f in files && IsTsJs(f) && DeepestOwns(allDirs, f.0, m.1)
  }

  /** What is reported for cycle `i`: a verdict only if it has a TS/JS member. */
  ghost function ReportFor(cycles: seq<CycleMembers>, edges: seq<LabelledEdge>, files: set<TrackedFile>,
                           allDirs: set<string>, i: nat): Option<Verdict>
    requires i < |cycles|
  {
    if HasTsJsMember(cycles[i], allDirs, files) then Some(VerdictOf(Bucket(cycles, edges, i))) else None
  }

  method CollectMembers(cycles: seq<CycleMembers>) returns (memberDirs: set<string>, owner: map<Node, nat>)
    ensures memberDirs == MemberDirs(cycles)
    ensures forall id :: OwnerOf(cycles, id) == if id in owner then Some(owner[id]) else None
  {
    memberDirs, owner := {}, map[];
    for i := 0 to |cycles|
      invariant memberDirs == MemberDirs(cycles[..i])
      invariant forall id :: OwnerOf(cycles[..i], id) == if id in owner then Some(owner[id]) else None
    {
      var members := cycles[i];
      ghost var dirsBefore, ownerBefore := memberDirs, owner;
      for j := 0 to |members|
        invariant memberDirs == dirsBefore + set m | m in members[..j] :: m.1
        invariant forall id :: id in owner <==> id in ownerBefore || id in MemberIds(members[..j])
        invariant forall id :: id in owner ==>
          owner[id] == if id in MemberIds(members[..j]) then i else ownerBefore[id]
      {
        assert members[..j + 1] == members[..j] + [members[j]];
        memberDirs := memberDirs + {members[j].1};
        owner := owner[members[j].0 := i];
      }
      assert members[..|members|] == members;
      assert Front(cycles[..i + 1]) == cycles[..i] && Last(cycles[..i + 1]) == members;
    }
    assert cycles[..|cycles|] == cycles;
  }

  /** `classify_cycles_type_only`. A bucket per cycle is filled in one pass over
      the snapshot's edges. */
  method ClassifyCyclesTypeOnly(cycles: seq<CycleMembers>, moduleEdges: seq<LabelledEdge>, files: seq<TrackedFile>,
                                allModuleDirs: seq<string>)
      returns (verdicts: seq<Option<Verdict>>)
    ensures |verdicts| == |cycles|
    ensures forall i :: 0 <= i < |cycles| ==>
      verdicts[i] == ReportFor(cycles, moduleEdges, Elements(files), Elements(allModuleDirs), i)
  {
    hide HasTsJsMember, TsJsOwners, VerdictOf, Bucket, Elements, OwnerOf, MemberDirs;
    var memberDirs, owner := CollectMembers(cycles);
    var tsMemberDirs := TsJsCycleMemberDirs(memberDirs, allModuleDirs, files);
    var buckets := FillBuckets(cycles, owner, moduleEdges);
    verdicts := [];
    for i := 0 to |cycles|
      invariant |verdicts| == i
      invariant forall k :: 0 <= k < i ==>
        verdicts[k] == ReportFor(cycles, moduleEdges, Elements(files), Elements(allModuleDirs), k)
    {
      var isTs := exists m :: m in cycles[i] && m.1 in tsMemberDirs;
      TsJsGate(cycles, i, Elements(allModuleDirs), Elements(files));
      var report := None;
      if isTs {
        var verdict := ClassifyCycleTypeOnly(buckets[i]);
        report := Some(verdict);
      }
      assert report == ReportFor(cycles, moduleEdges, Elements(files), Elements(allModuleDirs), i);
      hide ReportFor;
      verdicts := verdicts + [report];
    }
  }

  /** The bucketing pass: self edges are dropped, an edge inside one cycle goes to
      that cycle. */
  method FillBuckets(cycles: seq<CycleMembers>, owner: map<Node, nat>, moduleEdges: seq<LabelledEdge>)
      returns (buckets: seq<seq<LabelledEdge>>)
    requires forall id :: OwnerOf(cycles, id) == if id in owner then Some(owner[id]) else None
    ensures |buckets| == |cycles|
    ensures forall i :: 0 <= i < |cycles| ==> buckets[i] == Bucket(cycles, moduleEdges, i)
  {
    buckets := seq(|cycles|, _ => []);
    for n := 0 to |moduleEdges|
      invariant |buckets| == |cycles|
      invariant forall i :: 0 <= i < |cycles| ==> buckets[i] == Bucket(cycles, moduleEdges[..n], i)
    {
      hide OwnerOf, Bucket;
      var e := moduleEdges[n];
      BucketStep(cycles, moduleEdges, n);
      OwnerIsLast(cycles, e.0);
      assert OwnerOf(cycles, e.0) == if e.0 in owner then Some(owner[e.0]) else None;
      assert OwnerOf(cycles, e.1) == if e.1 in owner then Some(owner[e.1]) else None;
      if e.0 == e.1 {
        continue;
      }
      if e.0 in owner && e.1 in owner && owner[e.0] == owner[e.1] {
        var i := owner[e.0];
        buckets := buckets[i := buckets[i] + [e]];
      }
    }
    assert moduleEdges[..|moduleEdges|] == moduleEdges;
  }

  lemma BucketStep(cycles: seq<CycleMembers>, edges: seq<LabelledEdge>, n: nat)
    requires n < |edges|
    ensures forall i: nat :: Bucket(cycles, edges[..n + 1], i) ==
                        if Bucketed(cycles, edges[n], i) then Bucket(cycles, edges[..n], i) + [edges[n]]
                        else Bucket(cycles, edges[..n], i)
  {
    assert Front(edges[..n + 1]) == edges[..n];
    assert forall i: nat :: Bucket(cycles, edges[..n], i) + [] == Bucket(cycles, edges[..n], i);
  }

  /** Looking a member directory up among the owners of all cycles is the gate. */
  lemma TsJsGate(cycles: seq<CycleMembers>, i: nat, allDirs: set<string>, files: set<TrackedFile>)
    requires i < |cycles|
    ensures HasTsJsMember(cycles[i], allDirs, files) <==>
      exists m :: m in cycles[i] && m.1 in TsJsOwners(MemberDirs(cycles), allDirs, files)
  {
    if HasTsJsMember(cycles[i], allDirs, files) {
      var m, f :| m in cycles[i] && f in files && IsTsJs(f) && DeepestOwns(allDirs, f.0, m.1);
      assert m.1 in MemberDirs(cycles);
      assert m.1 in TsJsOwners(MemberDirs(cycles), allDirs, files);
    }
  }

  /** The member's directory is the longest of all module directories holding this
      TypeScript or JavaScript file. */
  ghost predicate OwnsSource(members: CycleMembers, files: set<TrackedFile>, allDirs: set<string>, id: Node,
                             dir: string, path: string, language: string) {
    && (id, dir) in members && (path, Some(language)) in files
    && language in ["typescript", "tsx", "javascript", "jsx"]
    && dir in allDirs && Holds(dir, path)
    && forall e :: e in allDirs && Holds(e, path) ==> |e| <= |dir|
  }

  lemma SourceGivesMember(members: CycleMembers, files: set<TrackedFile>, allDirs: set<string>, id: Node,
                          dir: string, path: string, language: string)
    requires OwnsSource(members, files, allDirs, id, dir, path, language)
    ensures HasTsJsMember(members, allDirs, files)
  {
    DeepestMeaning(allDirs, path, dir);
    hide DeepestOwns, Holds;
    var m, f: TrackedFile := (id, dir), (path, Some(language));
    assert m in members && f in files && IsTsJs(f) && DeepestOwns(allDirs, f.0, m.1);
  }

  lemma MemberGivesSource(members: CycleMembers, files: set<TrackedFile>, allDirs: set<string>)
      returns (id: Node, dir: string, path: string, language: string)
    requires HasTsJsMember(members, allDirs, files)
    ensures OwnsSource(members, files, allDirs, id, dir, path, language)
  {
    var m, f :| m in members && f in files && IsTsJs(f) && DeepestOwns(allDirs, f.0, m.1);
    id, dir, path, language := m.0, m.1, f.0, f.1.value;
    DeepestMeaning(allDirs, path, dir);
    hide DeepestOwns, Holds;
    assert (id, dir) == m && (path, Some(language)) == f;
  }

  /** Which cycles carry a verdict: those with such a member. */
  lemma GateMeaning(cycles: seq<CycleMembers>, edges: seq<LabelledEdge>, files: set<TrackedFile>,
                    allDirs: set<string>, i: nat)
    requires i < |cycles|
    ensures ReportFor(cycles, edges, files, allDirs, i).Some? <==>
      exists id, dir, path, language :: OwnsSource(cycles[i], files, allDirs, id, dir, path, language)
  {
    hide HasTsJsMember, OwnsSource, VerdictOf, Bucket;
    if HasTsJsMember(cycles[i], allDirs, files) {
      var id, dir, path, language := MemberGivesSource(cycles[i], files, allDirs);
    }
    forall id, dir, path, language | OwnsSource(cycles[i], files, allDirs, id, dir, path, language)
      ensures HasTsJsMember(cycles[i], allDirs, files)
    {
      SourceGivesMember(cycles[i], files, allDirs, id, dir, path, language);
    }
  }

  /** The verdict is about exactly the non-self edges that join two members of the
      cycle, each as often as the snapshot lists it. */
  lemma {:induction false} InnerCounts(members: CycleMembers, edges: seq<LabelledEdge>, e: LabelledEdge)
    ensures multiset(InnerEdges(members, edges))[e] ==
      if e.0 != e.1 && (exists d :: (e.0, d) in members) && (exists d :: (e.1, d) in members)
      then multiset(edges)[e] else 0
  {
    MemberIdsSpelled(members, e.0);
    MemberIdsSpelled(members, e.1);
    hide MemberIds;
    if edges != [] {
      var front, last := Front(edges), Last(edges);
      InnerCounts(members, front, e);
      FrontLast(edges);
      hide Front, Last;
      PushCounts(front, last, e);
      PushCounts(InnerEdges(members, front), last, e);
      assert InnerEdges(members, front) + [] == InnerEdges(members, front);
    }
  }

  lemma MemberIdsSpelled(members: CycleMembers, id: Node)
    ensures id in MemberIds(members) <==> exists d :: (id, d) in members
  {
    if id in MemberIds(members) {
      var m :| m in members && m.0 == id;
      assert (id, m.1) in members;
    }
  }

  /** What a report says is the verdict on exactly those edges. */
  lemma ReportIsVerdict(cycles: seq<CycleMembers>, edges: seq<LabelledEdge>, files: set<TrackedFile>,
                        allDirs: set<string>, i: nat, inner: seq<LabelledEdge>)
    requires DisjointCycles(cycles) && i < |cycles|
    requires forall e ::
      multiset(inner)[e] ==
      (if e.0 != e.1 && (exists d :: (e.0, d) in cycles[i]) && (exists d :: (e.1, d) in cycles[i])
       then multiset(edges)[e] else 0)
    requires ReportFor(cycles, edges, files, allDirs, i).Some?
    ensures ReportFor(cycles, edges, files, allDirs, i).value == VerdictOf(inner)
  {
    hide HasTsJsMember, VerdictOf, Bucket, InnerEdges, DisjointCycles;
    BucketIsInnerEdges(cycles, edges, i);
    forall e ensures multiset(InnerEdges(cycles[i], edges))[e] == multiset(inner)[e] {
      InnerCounts(cycles[i], edges, e);
    }
    assert multiset(InnerEdges(cycles[i], edges)) == multiset(inner);
    VerdictForgetsOrder(InnerEdges(cycles[i], edges), inner);
  }

  lemma {:induction false} InnerEdgesAreReal(members: CycleMembers, edges: seq<LabelledEdge>)
    ensures All(InnerEdges(members, edges)) == RealEdges(MemberIds(members), All(edges))
  {
    if edges != [] {
      var front, e := Front(edges), Last(edges);
      InnerEdgesAreReal(members, front);
      assert edges == front + [e];
      assert All(edges) == All(front) + {(e.0, e.1)};
      assert InnerEdges(members, front) + [] == InnerEdges(members, front);
      assert All(InnerEdges(members, front) + [e]) == All(InnerEdges(members, front)) + {(e.0, e.1)};
    }
  }

  /** When the members are a strongly connected component of the snapshot and its
      inner facts are known, the verdict on them says exactly whether a runtime cycle
      remains. */
  lemma InnerVerdictExact(members: CycleMembers, edges: seq<LabelledEdge>)
    requires Scc.IsScc(All(edges), MemberIds(members)) && |MemberIds(members)| >= 2
    requires Known(InnerEdges(members, edges))
    ensures VerdictOf(InnerEdges(members, edges)).HasRuntimeEdges? <==> HasCycle(Runtime(InnerEdges(members, edges)))
  {
    var ids, inner := MemberIds(members), InnerEdges(members, edges);
    InnerEdgesAreReal(members, edges);
    forall a, b | a in ids && b in ids ensures Reach(All(inner), a, b) {
      assert Mutual(All(edges), a, b);
      var w :| IsWalk(All(edges), w) && w[0] == a && w[|w| - 1] == b;
      WalkStaysInScc(All(edges), ids, w);
      WalkOverRealEdges(ids, All(edges), w);
    }
    SccVerdictExact(inner, ids);
  }

  /** The reported cycles are the nontrivial components the search found, in order. */
  ghost predicate Found(cycles: seq<CycleMembers>, sccs: seq<seq<Node>>) {
    && |cycles| == |Scc.Nontrivial(sccs)|
    && forall i :: 0 <= i < |cycles| ==> MemberIds(cycles[i]) == Elements(Scc.Nontrivial(sccs)[i])
  }

  ghost predicate PairwiseApart(sccs: seq<seq<Node>>) {
    forall c, d :: 0 <= c < d < |sccs| ==> Elements(sccs[c]) !! Elements(sccs[d])
  }

  lemma {:induction false} NontrivialApart(sccs: seq<seq<Node>>)
    requires PairwiseApart(sccs)
    ensures PairwiseApart(Scc.Nontrivial(sccs))
  {
    if sccs != [] {
      var tail := Scc.Nontrivial(sccs[1..]);
      NontrivialApart(sccs[1..]);
      Scc.NontrivialMembers(sccs[1..]);
      forall d | 0 <= d < |tail| ensures Elements(sccs[0]) !! Elements(tail[d]) {
        assert tail[d] in sccs[1..];
        var k :| 0 <= k < |sccs[1..]| && sccs[1..][k] == tail[d];
        assert tail[d] == sccs[k + 1];
      }
    }
  }

  lemma FoundCycle(cycles: seq<CycleMembers>, edges: set<Edge>, sccs: seq<seq<Node>>, i: nat)
    requires Scc.IsPartition(edges, Scc.NodesOf(edges), sccs) && Found(cycles, sccs) && i < |cycles|
    ensures DisjointCycles(cycles) && Scc.IsScc(edges, MemberIds(cycles[i])) && |MemberIds(cycles[i])| >= 2
  {
    hide MemberIds;
    NontrivialApart(sccs);
    Scc.NontrivialMembers(sccs);
    var component := Scc.Nontrivial(sccs)[i];
    assert component in Scc.Nontrivial(sccs);
    DistinctSize(component);
  }

  /** End to end: for the cycles the component search finds in the snapshot, a report
      with known facts says exactly whether a runtime cycle remains among the
      members, and it is missing exactly when no member directory deepest-owns a
      TS/JS file. */
  lemma ReportedCycleVerdict(cycles: seq<CycleMembers>, edges: seq<LabelledEdge>, sccs: seq<seq<Node>>,
                             files: set<TrackedFile>, allDirs: set<string>, i: nat)
    requires Scc.IsPartition(All(edges), Scc.NodesOf(All(edges)), sccs) && Found(cycles, sccs) && i < |cycles|
    requires Known(InnerEdges(cycles[i], edges))
    ensures match ReportFor(cycles, edges, files, allDirs, i)
      case None => !HasTsJsMember(cycles[i], allDirs, files)
      case Some(verdict) =>
        && HasTsJsMember(cycles[i], allDirs, files)
        && (verdict.HasRuntimeEdges? <==> HasCycle(Runtime(InnerEdges(cycles[i], edges))))
  {
    FoundCycle(cycles, All(edges), sccs, i);
    hide HasTsJsMember, VerdictOf, Bucket, InnerEdges, DisjointCycles, MemberIds, Known;
    BucketIsInnerEdges(cycles, edges, i);
    InnerVerdictExact(cycles[i], edges);
  }
}
