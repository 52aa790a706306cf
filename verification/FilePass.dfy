/** `persist_boundary_interactions` in `compose.rs`: a file's calls are grouped by
    function and the functions taken in the order of a hash map. */
module FilePass {
  import opened Wrappers
  import opened Ordering
  import opened Surface
  import opened BindingTable
  import opened Emitter
  import opened Commutation
  import opened Refinement
  import opened SocketPass

  // ---- Functions in sequence -----------------------------------------------

  ghost function RunAll(repo: string, table: seq<BindingEntry>, st: State, fs: seq<FunctionRun>): State {
    if fs == [] then st else AfterFunction(repo, table, RunAll(repo, table, st, Front(fs)), Last(fs))
  }

  ghost predicate AllDrain(repo: string, table: seq<BindingEntry>, fs: seq<FunctionRun>) {
    forall f :: f in fs ==> Drains(repo, table, f)
  }

  /** Any sequence of functions keeps surfaces well keyed and the dual-projection
      list exact: what the program does never leaves a stale listing. */
  lemma {:induction false} RunAllExact(repo: string, table: seq<BindingEntry>, st: State, fs: seq<FunctionRun>)
    requires WellKeyed(repo, st) && DualExact(st) && AllDrain(repo, table, fs)
    ensures WellKeyed(repo, RunAll(repo, table, st, fs)) && DualExact(RunAll(repo, table, st, fs))
  {
    hide WellKeyed, DualExact, AfterFunction, Drains;
    if fs != [] {
      assert forall f :: f in Front(fs) ==> f in fs;
      RunAllExact(repo, table, st, Front(fs));
      assert Last(fs) in fs;
      FunctionDualExact(repo, table, RunAll(repo, table, st, Front(fs)), Last(fs));
    }
  }

  ghost function SitesOf(f: FunctionRun): set<Site> {
    set k | 0 <= k < |f.calls| :: SiteOf(f.calls[k].callsite)
  }

  /** A function's operations stay at the sites of its calls. */
  lemma FunctionWithin(repo: string, table: seq<BindingEntry>, f: FunctionRun)
    requires Drains(repo, table, f)
    ensures Within(repo, FunctionOps(repo, table, f), SitesOf(f))
  {
    var emissions, updates := Emissions(repo, table, f.calls), Updates(f.pairs);
    hide Emissions, Drains, SiteOf, PlaceUid;
    forall op | op in emissions + updates ensures AtOneOf(repo, op, SitesOf(f)) {
      var k: nat;
      if op in emissions {
        k := EmissionsAreCalls(repo, table, f.calls, op);
      } else {
        var i :| 0 <= i < |updates| && updates[i] == op;
        var p;
        k, p := PairPlace(repo, table, f, i);
      }
      assert At(repo, op, SiteOf(f.calls[k].callsite)) && SiteOf(f.calls[k].callsite) in SitesOf(f);
    }
  }

  /** Two functions are one and the same, or their calls sit at different sites. */
  ghost predicate Apart(f: FunctionRun, g: FunctionRun) {
    f == g || SitesOf(f) !! SitesOf(g)
  }

  ghost predicate AllApart(fs: seq<FunctionRun>) {
    forall f, g :: f in fs && g in fs ==> Apart(f, g)
  }

  /** Two functions commute: same surfaces, same channels, same listings up to order. */
  lemma FunctionsCommute(repo: string, table: seq<BindingEntry>, st: State, f: FunctionRun, g: FunctionRun)
    requires WellKeyed(repo, st) && Drains(repo, table, f) && Drains(repo, table, g) && Apart(f, g)
    ensures Same(AfterFunction(repo, table, AfterFunction(repo, table, st, f), g),
                 AfterFunction(repo, table, AfterFunction(repo, table, st, g), f))
  {
    FunctionIsRun(repo, table, st, f);
    FunctionIsRun(repo, table, AfterFunction(repo, table, st, f), g);
    FunctionIsRun(repo, table, st, g);
    FunctionIsRun(repo, table, AfterFunction(repo, table, st, g), f);
    hide AfterFunction, WellKeyed, Run, FunctionOps, Drains, SitesOf, Within, Same;
    if f == g {
      SameItself(AfterFunction(repo, table, AfterFunction(repo, table, st, f), g));
    } else {
      FunctionWithin(repo, table, f);
      FunctionWithin(repo, table, g);
      RunsCommute(repo, table, st, FunctionOps(repo, table, f), SitesOf(f), FunctionOps(repo, table, g), SitesOf(g));
    }
  }

  lemma FunctionKeepsSame(repo: string, table: seq<BindingEntry>, a: State, b: State, f: FunctionRun)
    requires Same(a, b)
    ensures Same(AfterFunction(repo, table, a, f), AfterFunction(repo, table, b, f))
  {
    hide AfterFunction, Run, FunctionOps, Same;
    FunctionIsRun(repo, table, a, f);
    FunctionIsRun(repo, table, b, f);
    RunKeepsSame(repo, table, a, b, FunctionOps(repo, table, f));
  }

  lemma {:induction false} RunAllKeepsSame(repo: string, table: seq<BindingEntry>, a: State, b: State,
                                           fs: seq<FunctionRun>)
    requires Same(a, b)
    ensures Same(RunAll(repo, table, a, fs), RunAll(repo, table, b, fs))
  {
    hide AfterFunction, Same;
    if fs != [] {
      RunAllKeepsSame(repo, table, a, b, Front(fs));
      FunctionKeepsSame(repo, table, RunAll(repo, table, a, Front(fs)), RunAll(repo, table, b, Front(fs)), Last(fs));
    }
  }

  lemma FunctionWellKeyed(repo: string, table: seq<BindingEntry>, st: State, f: FunctionRun)
    requires WellKeyed(repo, st)
    ensures WellKeyed(repo, AfterFunction(repo, table, st, f))
  {
    FunctionIsRun(repo, table, st, f);
    hide WellKeyed, AfterFunction, Run, FunctionOps;
    RunWellKeyed(repo, table, st, FunctionOps(repo, table, f));
  }

  lemma {:induction false} RunAllWellKeyed(repo: string, table: seq<BindingEntry>, st: State, fs: seq<FunctionRun>)
    requires WellKeyed(repo, st)
    ensures WellKeyed(repo, RunAll(repo, table, st, fs))
  {
    hide WellKeyed, AfterFunction;
    if fs != [] {
      RunAllWellKeyed(repo, table, st, Front(fs));
      FunctionWellKeyed(repo, table, RunAll(repo, table, st, Front(fs)), Last(fs));
    }
  }

  lemma {:induction false} RunAllConcat(repo: string, table: seq<BindingEntry>, st: State, fs: seq<FunctionRun>,
                                        gs: seq<FunctionRun>)
    ensures RunAll(repo, table, st, fs + gs) == RunAll(repo, table, RunAll(repo, table, st, fs), gs)
  {
    hide AfterFunction;
    if gs == [] {
      assert fs + gs == fs;
    } else {
      assert Front(fs + gs) == fs + Front(gs);
      RunAllConcat(repo, table, st, fs, Front(gs));
    }
  }

  /** A function may be taken first instead of later. */
  lemma {:induction false} TakenEarlier(repo: string, table: seq<BindingEntry>, st: State, before: seq<FunctionRun>,
                                        f: FunctionRun)
    requires WellKeyed(repo, st) && AllDrain(repo, table, before + [f]) && AllApart(before + [f])
    ensures Same(RunAll(repo, table, st, before + [f]), RunAll(repo, table, AfterFunction(repo, table, st, f), before))
    decreases |before|
  {
    hide WellKeyed, AfterFunction, Drains, Apart, Same;
    var all := before + [f];
    assert Front(all) == before && Last(all) == f;
    if before == [] {
      assert RunAll(repo, table, st, before) == st;
      SameItself(AfterFunction(repo, table, st, f));
    } else {
      var g, rest := Last(before), Front(before);
      var middle := RunAll(repo, table, st, rest);
      RunAllWellKeyed(repo, table, st, rest);
      assert g in all && f in all;
      FunctionsCommute(repo, table, middle, g, f);
      assert RunAll(repo, table, st, before) == AfterFunction(repo, table, middle, g);
      assert Front(rest + [f]) == rest && Last(rest + [f]) == f;
      assert forall x :: x in rest + [f] ==> x in all;
      TakenEarlier(repo, table, st, rest, f);
      FunctionKeepsSame(repo, table, RunAll(repo, table, st, rest + [f]),
                        RunAll(repo, table, AfterFunction(repo, table, st, f), rest), g);
      SameChains(RunAll(repo, table, st, all), AfterFunction(repo, table, AfterFunction(repo, table, middle, f), g),
                 RunAll(repo, table, AfterFunction(repo, table, st, f), before));
    }
  }

  /** Functions whose calls sit apart may be taken in any order. */
  lemma {:induction false} FunctionsForgetOrder(repo: string, table: seq<BindingEntry>, st: State,
                                                fs: seq<FunctionRun>, gs: seq<FunctionRun>)
    requires WellKeyed(repo, st) && AllDrain(repo, table, fs) && AllApart(fs) && Permutation(fs, gs)
    ensures Same(RunAll(repo, table, st, fs), RunAll(repo, table, st, gs))
    decreases |fs|
  {
    hide WellKeyed, AfterFunction, Drains, Apart, Same;
    PermutationFacts(fs, gs);
    if fs == [] {
      SameItself(st);
    } else {
      var j := PermutationHead(fs, gs);
      var f, before, after := fs[0], gs[..j], gs[j + 1..];
      var next := AfterFunction(repo, table, st, f);
      assert fs == [f] + fs[1..] && gs == (before + [f]) + after;
      FirstRun(repo, table, st, f);
      RunAllConcat(repo, table, st, [f], fs[1..]);
      RunAllConcat(repo, table, st, before + [f], after);
      RunAllConcat(repo, table, next, before, after);
      assert forall x :: x in before + [f] ==> x in fs;
      TakenEarlier(repo, table, st, before, f);
      RunAllKeepsSame(repo, table, RunAll(repo, table, st, before + [f]), RunAll(repo, table, next, before), after);
      FunctionWellKeyed(repo, table, st, f);
      assert forall x :: x in fs[1..] ==> x in fs;
      FunctionsForgetOrder(repo, table, next, fs[1..], before + after);
      SameTurned(RunAll(repo, table, st, gs), RunAll(repo, table, next, before + after));
      SameChains(RunAll(repo, table, st, fs), RunAll(repo, table, next, before + after), RunAll(repo, table, st, gs));
    }
  }

  lemma FirstRun(repo: string, table: seq<BindingEntry>, st: State, f: FunctionRun)
    ensures RunAll(repo, table, st, [f]) == AfterFunction(repo, table, st, f)
  {
    hide AfterFunction;
    assert Front([f]) == [];
  }

  lemma SameTurned(a: State, b: State)
    requires Same(a, b)
    ensures Same(b, a)
  {
  }

  // ---- One file ------------------------------------------------------------

  ghost function Names(raws: seq<RawCall>): set<string> {
    set raw | raw in raws :: raw.enclosingFunction
  }

  /** The calls of one function, in source order. */
  function CallsIn(raws: seq<RawCall>, name: string): seq<RawCall> {
    if raws == [] then []
    else CallsIn(Front(raws), name) + if Last(raws).enclosingFunction == name then [Last(raws)] else []
  }

  /** Grouping takes the calls one by one, in their order. */
  lemma {:induction false} CallsInOrder(raws: seq<RawCall>, raw: RawCall, rest: seq<RawCall>, name: string)
    ensures CallsIn(raws + [raw] + rest, name) ==
      CallsIn(raws, name) + (if raw.enclosingFunction == name then [raw] else []) + CallsIn(rest, name)
  {
    if rest == [] {
      assert raws + [raw] + rest == raws + [raw] && Front(raws + [raw]) == raws;
    } else {
      assert Front(raws + [raw] + rest) == raws + [raw] + Front(rest);
      CallsInOrder(raws, raw, Front(rest), name);
    }
  }

  lemma {:induction false} CallsInMembers(raws: seq<RawCall>, name: string)
    ensures forall raw :: raw in CallsIn(raws, name) <==> raw in raws && raw.enclosingFunction == name
  {
    if raws != [] {
      CallsInMembers(Front(raws), name);
      assert raws == Front(raws) + [Last(raws)];
    }
  }

  lemma {:induction false} CallsInApart(raws: seq<RawCall>, name: string)
    requires DistinctSites(raws)
    ensures DistinctSites(CallsIn(raws, name))
  {
    if raws != [] {
      hide SiteOf;
      var front, last := Front(raws), Last(raws);
      CallsInApart(front, name);
      CallsInMembers(front, name);
      forall raw | raw in front ensures SiteOf(raw.callsite) != SiteOf(last.callsite) {
        var i :| 0 <= i < |front| && front[i] == raw;
        assert raws[i] == raw && raws[|raws| - 1] == last;
      }
      forall i | 0 <= i < |CallsIn(front, name)|
        ensures SiteOf(CallsIn(front, name)[i].callsite) != SiteOf(last.callsite)
      {
        assert CallsIn(front, name)[i] in front;
      }
    }
  }

  lemma CallsInLanguage(raws: seq<RawCall>, name: string)
    requires OneLanguage(raws)
    ensures OneLanguage(CallsIn(raws, name))
  {
    var calls := CallsIn(raws, name);
    CallsInMembers(raws, name);
    hide CallsIn;
    forall i, j | 0 <= i < j < |calls| ensures calls[i].callsite.language == calls[j].callsite.language {
      assert calls[i] in raws && calls[j] in raws;
      var k :| 0 <= k < |raws| && raws[k] == calls[i];
      var l :| 0 <= l < |raws| && raws[l] == calls[j];
      assert k == l || k < l || l < k;
    }
  }

  lemma NamesApart(raws: seq<RawCall>, f: FunctionRun, name: string, g: FunctionRun, other: string)
    requires DistinctSites(raws) && name != other && f.calls == CallsIn(raws, name) && g.calls == CallsIn(raws, other)
    ensures SitesOf(f) !! SitesOf(g)
  {
    CallsInMembers(raws, name);
    CallsInMembers(raws, other);
    hide CallsIn, SiteOf;
    forall k, l | 0 <= k < |f.calls| && 0 <= l < |g.calls|
      ensures SiteOf(f.calls[k].callsite) != SiteOf(g.calls[l].callsite)
    {
      assert f.calls[k] in raws && g.calls[l] in raws;
      var i :| 0 <= i < |raws| && raws[i] == f.calls[k];
      var j :| 0 <= j < |raws| && raws[j] == g.calls[l];
      assert i < j || j < i;
    }
  }

  /** The runs are those of the named functions, each drained in some order. */
  ghost predicate RunsOf(repo: string, table: seq<BindingEntry>, raws: seq<RawCall>, order: seq<string>,
                         fs: seq<FunctionRun>) {
    && |fs| == |order|
    && forall i :: 0 <= i < |fs| ==> fs[i].calls == CallsIn(raws, order[i]) && Drains(repo, table, fs[i])
  }

  /** All functions of a file in some order. */
  ghost predicate Schedule(repo: string, table: seq<BindingEntry>, raws: seq<RawCall>, order: seq<string>,
                           fs: seq<FunctionRun>) {
    Distinct(order) && Elements(order) == Names(raws) && RunsOf(repo, table, raws, order, fs)
  }

  lemma RunsStep(repo: string, table: seq<BindingEntry>, raws: seq<RawCall>, order: seq<string>, fs: seq<FunctionRun>,
                 name: string, f: FunctionRun)
    requires RunsOf(repo, table, raws, order, fs) && f.calls == CallsIn(raws, name) && Drains(repo, table, f)
    ensures RunsOf(repo, table, raws, order + [name], fs + [f])
  {
    hide Drains, CallsIn;
  }

  /** Different drains of the same functions end in the same state. */
  lemma {:induction false} DrainsDoNotShow(repo: string, table: seq<BindingEntry>, st: State, fs: seq<FunctionRun>,
                                           gs: seq<FunctionRun>)
    requires WellKeyed(repo, st) && Accepted(table) && |fs| == |gs|
    requires forall i :: 0 <= i < |fs| ==>
      && fs[i].calls == gs[i].calls && Drains(repo, table, fs[i]) && Drains(repo, table, gs[i])
      && OneLanguage(fs[i].calls) && DistinctSocketSites(fs[i].calls)
    ensures RunAll(repo, table, st, fs) == RunAll(repo, table, st, gs)
  {
    hide WellKeyed, Accepted, AfterFunction, Drains, OneLanguage, DistinctSocketSites;
    if fs != [] {
      DrainsDoNotShow(repo, table, st, Front(fs), Front(gs));
      RunAllWellKeyed(repo, table, st, Front(fs));
      OneDrain(repo, table, RunAll(repo, table, st, Front(fs)), Last(fs), Last(gs));
    }
  }

  lemma OneDrain(repo: string, table: seq<BindingEntry>, st: State, f: FunctionRun, g: FunctionRun)
    requires WellKeyed(repo, st) && Accepted(table) && f.calls == g.calls
    requires Drains(repo, table, f) && Drains(repo, table, g) && OneLanguage(f.calls) && DistinctSocketSites(f.calls)
    ensures AfterFunction(repo, table, st, f) == AfterFunction(repo, table, st, g)
  {
    var first :| DrainOf(EntriesOf(repo, table, f.calls), first, f.pairs);
    var second :| DrainOf(EntriesOf(repo, table, g.calls), second, g.pairs);
    CallsAreRun(repo, table, st, f.calls);
    hide WellKeyed, Accepted, OneLanguage, DistinctSocketSites, NoClash, AfterCalls, EntriesOf;
    DistinctSitesNeverClash(repo, table, st, f.calls);
    FunctionForgetsDrainOrder(repo, table, st, f.calls, first, f.pairs, second, g.pairs);
  }

  /** The runs of a name list under an assignment of runs to names. */
  ghost function Assigned(runs: map<string, FunctionRun>, order: seq<string>): (fs: seq<FunctionRun>)
    requires forall name :: name in order ==> name in runs
    ensures |fs| == |order| && forall i :: 0 <= i < |order| ==> fs[i] == runs[order[i]]
  {
    seq(|order|, i requires 0 <= i < |order| => runs[order[i]])
  }

  lemma {:induction false} AssignedForgetsOrder(runs: map<string, FunctionRun>, order: seq<string>, other: seq<string>)
    requires Permutation(order, other)
    requires (forall name :: name in order ==> name in runs) && (forall name :: name in other ==> name in runs)
    ensures Permutation(Assigned(runs, order), Assigned(runs, other))
    decreases |order|
  {
    PermutationFacts(order, other);
    if order != [] {
      var j := PermutationHead(order, other);
      var fs, gs := Assigned(runs, order), Assigned(runs, other);
      AssignedForgetsOrder(runs, order[1..], other[..j] + other[j + 1..]);
      assert Assigned(runs, order[1..]) == fs[1..];
      assert Assigned(runs, other[..j] + other[j + 1..]) == gs[..j] + gs[j + 1..];
      RestoreHead(fs, gs, j);
    }
  }

  lemma NamesToRuns(order: seq<string>, fs: seq<FunctionRun>) returns (runs: map<string, FunctionRun>)
    requires Distinct(order) && |fs| == |order|
    ensures forall i :: 0 <= i < |order| ==> order[i] in runs && runs[order[i]] == fs[i]
  {
    runs := map name | name in order :: fs[IndexOf(order, name)];
  }

  /** A whole file: whatever order its functions are taken in and whatever order
      each registry is drained in, the surfaces and channels come out the same, and
      so do the dual-projection listings up to order. */
  lemma FileForgetsOrder(repo: string, table: seq<BindingEntry>, st: State, raws: seq<RawCall>,
                         order: seq<string>, fs: seq<FunctionRun>, other: seq<string>, gs: seq<FunctionRun>)
    requires WellKeyed(repo, st) && Accepted(table) && OneLanguage(raws) && DistinctSites(raws)
    requires Schedule(repo, table, raws, order, fs) && Schedule(repo, table, raws, other, gs)
    ensures Same(RunAll(repo, table, st, fs), RunAll(repo, table, st, gs))
  {
    hide WellKeyed, Accepted, RunAll, Same, Drains, OneLanguage, DistinctSites;
    SameElements(order, other);
    var runs := NamesToRuns(order, fs);
    assert forall name :: name in order <==> name in Elements(order);
    assert forall name :: name in other <==> name in Elements(order);
    assert forall name :: name in order ==> name in runs;
    var hs := Assigned(runs, other);
    assert Assigned(runs, order) == fs;
    AssignedForgetsOrder(runs, order, other);
    ScheduleApart(repo, table, raws, order, fs);
    FunctionsForgetOrder(repo, table, st, fs, hs);
    forall i | 0 <= i < |hs|
      ensures hs[i].calls == gs[i].calls && Drains(repo, table, hs[i]) && Drains(repo, table, gs[i])
      ensures OneLanguage(hs[i].calls) && DistinctSocketSites(hs[i].calls)
    {
      assert other[i] in order;
      var k :| 0 <= k < |order| && order[k] == other[i];
      CallsInLanguage(raws, other[i]);
      CallsInApart(raws, other[i]);
      ApartSockets(hs[i].calls);
    }
    DrainsDoNotShow(repo, table, st, hs, gs);
  }

  lemma ApartSockets(calls: seq<RawCall>)
    requires DistinctSites(calls)
    ensures DistinctSocketSites(calls)
  {
  }

  lemma ScheduleApart(repo: string, table: seq<BindingEntry>, raws: seq<RawCall>, order: seq<string>,
                      fs: seq<FunctionRun>)
    requires DistinctSites(raws) && Schedule(repo, table, raws, order, fs)
    ensures AllDrain(repo, table, fs) && AllApart(fs)
    ensures forall i, j :: 0 <= i < j < |fs| ==> SitesOf(fs[i]) !! SitesOf(fs[j])
  {
    hide DistinctSites, Drains, SitesOf, CallsIn;
    forall i, j | 0 <= i < j < |fs| ensures SitesOf(fs[i]) !! SitesOf(fs[j]) {
      NamesApart(raws, fs[i], order[i], fs[j], order[j]);
    }
    forall f, g | f in fs && g in fs ensures Apart(f, g) {
      var i :| 0 <= i < |fs| && fs[i] == f;
      var j :| 0 <= j < |fs| && fs[j] == g;
      assert i == j || i < j || j < i;
    }
  }

  // ---- Nothing is overwritten over a whole program -------------------------

  ghost predicate SurfacesWithin(st: State, sites: set<Site>) {
    forall uid :: uid in st.surfaces ==> PlaceSite(PlaceOf(st.surfaces[uid])) in sites
  }

  lemma StepSites(repo: string, table: seq<BindingEntry>, st: State, op: Op, sites: set<Site>)
    requires WellKeyed(repo, st) && SurfacesWithin(st, sites) && AtOneOf(repo, op, sites)
    ensures SurfacesWithin(Step(repo, table, st, op), sites)
  {
    var s :| s in sites && At(repo, op, s);
    hide WellKeyed, SurfacesWithin, AfterEmit, AfterUpdate, PlaceUid, SiteOf;
    match op
    case Emit(c) => EmitSites(repo, table, st, c, sites);
    case Update(uid, d) =>
      var p :| uid == PlaceUid(repo, p) && PlaceSite(p) == s;
      UpdateSites(repo, st, p, d, sites);
    case Clear =>
  }

  lemma EmitSites(repo: string, table: seq<BindingEntry>, st: State, c: Callsite, sites: set<Site>)
    requires SurfacesWithin(st, sites) && SiteOf(c) in sites
    ensures SurfacesWithin(AfterEmit(repo, table, st, c), sites)
  {
    hide PlaceUid, PlaceOf, SiteOf, EmitFacts, BuildChannelUid;
    if EmitFacts(repo, table, c).Some? {
      EmittedPlace(repo, table, c);
    }
  }

  lemma UpdateSites(repo: string, st: State, p: Place, d: Direction, sites: set<Site>)
    requires WellKeyed(repo, st) && SurfacesWithin(st, sites) && PlaceSite(p) in sites
    ensures SurfacesWithin(AfterUpdate(st, PlaceUid(repo, p), d), sites)
  {
    if PlaceUid(repo, p) in st.surfaces {
      TurnedPlace(repo, st, p, d);
    }
    hide WellKeyed, PlaceUid, PlaceOf, Turned, Repointed, ReplaceFirst;
  }

  lemma {:induction false} RunSites(repo: string, table: seq<BindingEntry>, st: State, ops: seq<Op>, sites: set<Site>)
    requires WellKeyed(repo, st) && SurfacesWithin(st, sites) && Within(repo, ops, sites)
    ensures SurfacesWithin(Run(repo, table, st, ops), sites)
  {
    hide WellKeyed, SurfacesWithin, Step, AtOneOf;
    if ops != [] {
      assert Last(ops) in ops && forall op :: op in Front(ops) ==> op in ops;
      RunSites(repo, table, st, Front(ops), sites);
      RunWellKeyed(repo, table, st, Front(ops));
      StepSites(repo, table, Run(repo, table, st, Front(ops)), Last(ops), sites);
    }
  }

  ghost function AllSites(fs: seq<FunctionRun>): set<Site> {
    if fs == [] then {} else AllSites(Front(fs)) + SitesOf(Last(fs))
  }

  lemma {:induction false} RunAllSites(repo: string, table: seq<BindingEntry>, fs: seq<FunctionRun>)
    requires AllDrain(repo, table, fs)
    ensures SurfacesWithin(RunAll(repo, table, EMPTY, fs), AllSites(fs))
    ensures WellKeyed(repo, RunAll(repo, table, EMPTY, fs))
  {
    NothingIsWellKeyed(repo);
    hide WellKeyed, AfterFunction, Drains, SitesOf, PlaceOf;
    if fs != [] {
      var front, f := Front(fs), Last(fs);
      assert f in fs && forall g :: g in front ==> g in fs;
      RunAllSites(repo, table, front);
      var before := RunAll(repo, table, EMPTY, front);
      FunctionIsRun(repo, table, before, f);
      FunctionWithin(repo, table, f);
      WithinMore(repo, FunctionOps(repo, table, f), SitesOf(f), AllSites(fs));
      RunSites(repo, table, before, FunctionOps(repo, table, f), AllSites(fs));
      RunWellKeyed(repo, table, before, FunctionOps(repo, table, f));
    }
  }

  lemma WithinMore(repo: string, ops: seq<Op>, sites: set<Site>, more: set<Site>)
    requires Within(repo, ops, sites) && sites <= more
    ensures Within(repo, ops, more)
  {
    hide At;
    forall op | op in ops ensures AtOneOf(repo, op, more) {
      assert AtOneOf(repo, op, sites);
    }
  }

  lemma {:induction false} SiteOfSome(fs: seq<FunctionRun>, s: Site)
    requires s in AllSites(fs)
    ensures exists i :: 0 <= i < |fs| && s in SitesOf(fs[i])
  {
    hide SitesOf;
    if s in SitesOf(Last(fs)) {
      assert fs[|fs| - 1] == Last(fs);
    } else {
      SiteOfSome(Front(fs), s);
      var i :| 0 <= i < |Front(fs)| && s in SitesOf(Front(fs)[i]);
      assert fs[i] == Front(fs)[i];
    }
  }

  /** Over all functions of all files, taken from an empty emitter, no refinement
      overwrites a surface, as long as all calls sit at different sites. */
  lemma ProgramLosesNothing(repo: string, table: seq<BindingEntry>, fs: seq<FunctionRun>, n: nat)
    requires AllDrain(repo, table, fs) && n < |fs| && DistinctSites(fs[n].calls)
    requires forall i :: 0 <= i < n ==> SitesOf(fs[i]) !! SitesOf(fs[n])
    ensures var before := RunAll(repo, table, EMPTY, fs[..n]);
      |AfterFunction(repo, table, before, fs[n]).surfaces| ==
      |AfterCalls(repo, table, before, fs[n].calls).emitted.surfaces|
  {
    var before, f := RunAll(repo, table, EMPTY, fs[..n]), fs[n];
    assert forall g :: g in fs[..n] ==> g in fs;
    assert f in fs;
    RunAllSites(repo, table, fs[..n]);
    var drained :| DrainOf(EntriesOf(repo, table, f.calls), drained, f.pairs);
    forall uid, k | uid in before.surfaces && 0 <= k < |f.calls|
      ensures PlaceSite(PlaceOf(before.surfaces[uid])) != SiteOf(f.calls[k].callsite)
    {
      var s := PlaceSite(PlaceOf(before.surfaces[uid]));
      SiteOfSome(fs[..n], s);
      var i :| 0 <= i < n && s in SitesOf(fs[..n][i]);
      assert SiteOf(f.calls[k].callsite) in SitesOf(f);
    }
    hide RunAll, AfterCalls, EntriesOf, WellKeyed, DistinctSites, ApplyAll;
    FunctionLosesNothing(repo, table, before, f.calls, drained, f.pairs);
  }

  // ---- The loops -----------------------------------------------------------

  /** Grouping the extracted calls by the function around them. */
  method GroupCalls(raws: seq<RawCall>) returns (callsByFunction: map<string, seq<RawCall>>)
    ensures callsByFunction.Keys == Names(raws)
    ensures forall name :: name in callsByFunction ==> callsByFunction[name] == CallsIn(raws, name)
  {
    callsByFunction := map[];
    for n := 0 to |raws|
      invariant callsByFunction.Keys == Names(raws[..n])
      invariant forall name :: name in callsByFunction ==> callsByFunction[name] == CallsIn(raws[..n], name)
    {
      var raw := raws[n];
      assert raws[..n + 1] == raws[..n] + [raw] && Front(raws[..n + 1]) == raws[..n];
      NoCallsNoName(raws[..n], raw.enclosingFunction);
      var calls := if raw.enclosingFunction in callsByFunction then callsByFunction[raw.enclosingFunction] else [];
      callsByFunction := callsByFunction[raw.enclosingFunction := calls + [raw]];
    }
    assert raws[..|raws|] == raws;
  }

  lemma NoCallsNoName(raws: seq<RawCall>, name: string)
    ensures name !in Names(raws) ==> CallsIn(raws, name) == []
  {
    CallsInMembers(raws, name);
    if CallsIn(raws, name) != [] {
      assert CallsIn(raws, name)[0] in raws;
    }
  }

  /** One file against a live emitter: the functions come out of the map in an order
      of its own, which `order` records. */
  method ProcessFile(emitter: BoundaryInteractionEmitter, raws: seq<RawCall>)
      returns (ghost order: seq<string>, ghost fs: seq<FunctionRun>)
    requires emitter.Valid()
    modifies emitter
    ensures emitter.Valid()
    ensures Schedule(emitter.repoUid, emitter.bindingTable, raws, order, fs)
    ensures emitter.View() == RunAll(emitter.repoUid, emitter.bindingTable, old(emitter.View()), fs)
  {
    var callsByFunction := GroupCalls(raws);
    var left := callsByFunction.Keys;
    order, fs := [], [];
    while left != {}
      invariant emitter.Valid() && left <= Names(raws)
      invariant Distinct(order) && Elements(order) == Names(raws) - left
      invariant RunsOf(emitter.repoUid, emitter.bindingTable, raws, order, fs)
      invariant emitter.View() == RunAll(emitter.repoUid, emitter.bindingTable, old(emitter.View()), fs)
      decreases left
    {
      hide Drains, CallsIn, AfterFunction, RunsOf;
      var name :| name in left;
      left := left - {name};
      ghost var f := ProcessFunction(emitter, callsByFunction[name]);
      PushElement(order, name);
      RunsStep(emitter.repoUid, emitter.bindingTable, raws, order, fs, name, f);
      assert Front(fs + [f]) == fs;
      order, fs := order + [name], fs + [f];
    }
  }
}
