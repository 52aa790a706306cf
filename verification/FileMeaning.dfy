/** What a whole file comes to: every call belongs to one function, and what a socket's
    own function makes of its surface is what the file leaves. */
module FileMeaning {
  import opened Wrappers
  import opened Text
  import opened Ordering
  import opened Surface
  import opened BindingTable
  import opened Emitter
  import opened Commutation
  import opened SocketPass
  import opened EmissionMeaning
  import opened SocketMeaning
  import opened FilePass

  /** Every call of a file is processed with exactly one function, together with the
      calls of that function and no others. */
  lemma EveryCallOnce(repo: string, table: seq<BindingEntry>, raws: seq<RawCall>, order: seq<string>,
                      fs: seq<FunctionRun>, raw: RawCall) returns (i: nat)
    requires Schedule(repo, table, raws, order, fs) && raw in raws
    ensures i < |fs| && raw in fs[i].calls
    ensures forall other :: other in fs[i].calls <==> other in raws && other.enclosingFunction == raw.enclosingFunction
    ensures forall j :: 0 <= j < |fs| && raw in fs[j].calls ==> j == i
  {
    hide Drains;
    assert raw.enclosingFunction in Names(raws);
    assert raw.enclosingFunction in Elements(order);
    i :| 0 <= i < |order| && order[i] == raw.enclosingFunction;
    forall j | 0 <= j < |fs|
      ensures forall other :: other in fs[j].calls <==> other in raws && other.enclosingFunction == order[j]
    {
      CallsInMembers(raws, order[j]);
    }
    hide CallsIn;
  }

  /** A function leaves alone what sits at none of its calls. */
  lemma FunctionElsewhere(repo: string, table: seq<BindingEntry>, st: State, f: FunctionRun, uid: string)
    requires WellKeyed(repo, st) && DistinctSocketSites(f.calls) && Drains(repo, table, f)
    requires uid in st.surfaces && PlaceSite(PlaceOf(st.surfaces[uid])) !in SitesOf(f)
    ensures uid in AfterFunction(repo, table, st, f).surfaces
    ensures AfterFunction(repo, table, st, f).surfaces[uid] == st.surfaces[uid]
  {
    hide AfterFunction, AfterCalls, WellKeyed, DistinctSocketSites, Drains, PlaceOf, SiteOf;
    CallsKeepSurface(repo, table, st, f.calls, uid);
    forall k | 0 <= k < |f.calls| ensures PlaceSite(PlaceOf(st.surfaces[uid])) != SiteOf(f.calls[k].callsite) {
      assert SiteOf(f.calls[k].callsite) in SitesOf(f);
    }
    FunctionKeepsRest(repo, table, st, f, uid);
  }

  lemma {:induction false} CallsKeepSurface(repo: string, table: seq<BindingEntry>, st: State, calls: seq<RawCall>,
                                            uid: string)
    requires uid in st.surfaces
    ensures uid in AfterCalls(repo, table, st, calls).emitted.surfaces
    ensures AfterCalls(repo, table, st, calls).emitted.surfaces[uid] == st.surfaces[uid]
  {
    hide AfterEmit, EventOf, EvidenceOnly;
    if calls != [] {
      CallsKeepSurface(repo, table, st, Front(calls), uid);
      EmitKeepsSurfaces(repo, table, AfterCalls(repo, table, st, Front(calls)).emitted, Last(calls).callsite);
    }
  }

  /** So does a sequence of functions. */
  lemma {:induction false} FunctionsElsewhere(repo: string, table: seq<BindingEntry>, st: State, fs: seq<FunctionRun>,
                                              uid: string)
    requires WellKeyed(repo, st) && AllDrain(repo, table, fs)
    requires forall f :: f in fs ==> DistinctSocketSites(f.calls)
    requires uid in st.surfaces && forall f :: f in fs ==> PlaceSite(PlaceOf(st.surfaces[uid])) !in SitesOf(f)
    ensures uid in RunAll(repo, table, st, fs).surfaces
    ensures RunAll(repo, table, st, fs).surfaces[uid] == st.surfaces[uid]
  {
    hide AfterFunction, WellKeyed, DistinctSocketSites, Drains, PlaceOf, SitesOf;
    if fs != [] {
      FrontLast(fs);
      assert forall f :: f in Front(fs) ==> f in fs;
      FunctionsElsewhere(repo, table, st, Front(fs), uid);
      RunAllWellKeyed(repo, table, st, Front(fs));
      FunctionElsewhere(repo, table, RunAll(repo, table, st, Front(fs)), Last(fs), uid);
    }
  }

  lemma ScheduledSockets(repo: string, table: seq<BindingEntry>, raws: seq<RawCall>, order: seq<string>,
                         fs: seq<FunctionRun>)
    requires Schedule(repo, table, raws, order, fs) && DistinctSites(raws)
    ensures forall i :: 0 <= i < |fs| ==> DistinctSocketSites(fs[i].calls)
  {
    hide CallsIn, Drains, SiteOf;
    forall i | 0 <= i < |fs| ensures DistinctSocketSites(fs[i].calls) {
      CallsInApart(raws, order[i]);
    }
  }

  /** What a function stores at one of its calls outlives the functions after it. */
  lemma OutlivesLater(repo: string, table: seq<BindingEntry>, st: State, fs: seq<FunctionRun>, i: nat, uid: string)
    requires WellKeyed(repo, st) && AllDrain(repo, table, fs) && i < |fs|
    requires forall j :: i < j < |fs| ==> DistinctSocketSites(fs[j].calls) && SitesOf(fs[i]) !! SitesOf(fs[j])
    requires var now := AfterFunction(repo, table, RunAll(repo, table, st, fs[..i]), fs[i]);
      uid in now.surfaces && PlaceSite(PlaceOf(now.surfaces[uid])) in SitesOf(fs[i])
    ensures uid in RunAll(repo, table, st, fs).surfaces
    ensures RunAll(repo, table, st, fs).surfaces[uid] ==
      AfterFunction(repo, table, RunAll(repo, table, st, fs[..i]), fs[i]).surfaces[uid]
  {
    var late := fs[i + 1..];
    RunAllSplit(repo, table, st, fs, i);
    RunAllWellKeyed(repo, table, st, fs[..i]);
    FunctionWellKeyed(repo, table, RunAll(repo, table, st, fs[..i]), fs[i]);
    hide AfterFunction, RunAll, WellKeyed, PlaceOf, SitesOf, DistinctSocketSites, Drains;
    forall f | f in late ensures f in fs && SitesOf(fs[i]) !! SitesOf(f) && DistinctSocketSites(f.calls) {
      var j :| 0 <= j < |late| && late[j] == f;
      assert f == fs[i + 1 + j];
    }
    FunctionsElsewhere(repo, table, AfterFunction(repo, table, RunAll(repo, table, st, fs[..i]), fs[i]), late, uid);
  }

  lemma RunAllSplit(repo: string, table: seq<BindingEntry>, st: State, fs: seq<FunctionRun>, i: nat)
    requires i < |fs|
    ensures RunAll(repo, table, st, fs) ==
      RunAll(repo, table, AfterFunction(repo, table, RunAll(repo, table, st, fs[..i]), fs[i]), fs[i + 1..])
  {
    hide AfterFunction;
    var early := fs[..i + 1];
    assert Front(early) == fs[..i] && Last(early) == fs[i] && early + fs[i + 1..] == fs;
    RunAllConcat(repo, table, st, early, fs[i + 1..]);
  }

  /** After a file whose calls sit at different positions, a socket opened for a variable
      in one of its functions is stored where it was opened, facing the way the calls on
      it in that function tell. */
  lemma FileFacing(repo: string, table: seq<BindingEntry>, st: State, raws: seq<RawCall>, order: seq<string>,
                   fs: seq<FunctionRun>, i: nat, id: string, k: nat)
    requires WellKeyed(repo, st) && Schedule(repo, table, raws, order, fs) && DistinctSites(raws)
    requires forall e :: e in table && e.functionName == "socket" ==> e.role == Setup
    requires i < |fs| && Latest(repo, table, fs[i].calls, id, k)
    ensures var s := EmitFacts(repo, table, fs[i].calls[k].callsite).value.surface;
      var d := match Told(s.channelKind, fs[i].calls, k, id) case Some(told) => told case None => Bidirectional;
      var n := PrintedUid(repo, s.sourceFile, s.lineStart, s.colStart, s.channelKind, d);
      n in RunAll(repo, table, st, fs).surfaces && RunAll(repo, table, st, fs).surfaces[n].direction == d
  {
    var s := EmitFacts(repo, table, fs[i].calls[k].callsite).value.surface;
    var d := match Told(s.channelKind, fs[i].calls, k, id) case Some(told) => told case None => Bidirectional;
    var n := PrintedUid(repo, s.sourceFile, s.lineStart, s.colStart, s.channelKind, d);
    ScheduleApart(repo, table, raws, order, fs);
    ScheduledSockets(repo, table, raws, order, fs);
    var before := RunAll(repo, table, st, fs[..i]);
    RunAllWellKeyed(repo, table, st, fs[..i]);
    SocketFacing(repo, table, before, fs[i], id, k);
    FunctionWellKeyed(repo, table, before, fs[i]);
    LatestEmits(repo, table, fs[i].calls, id, k);
    hide *;
    PrintedSite(repo, table, fs[i], k, AfterFunction(repo, table, before, fs[i]), n, d);
    OutlivesLater(repo, table, st, fs, i, n);
  }

  lemma LatestEmits(repo: string, table: seq<BindingEntry>, calls: seq<RawCall>, id: string, k: nat)
    requires Latest(repo, table, calls, id, k)
    ensures k < |calls| && EmitFacts(repo, table, calls[k].callsite).Some?
  {
  }

  /** What is stored under the uid printed for a call sits at the call's site. */
  lemma PrintedSite(repo: string, table: seq<BindingEntry>, f: FunctionRun, k: nat, st: State, n: string, d: Direction)
    requires WellKeyed(repo, st) && n in st.surfaces && k < |f.calls|
    requires EmitFacts(repo, table, f.calls[k].callsite).Some?
    requires var s := EmitFacts(repo, table, f.calls[k].callsite).value.surface;
      n == PrintedUid(repo, s.sourceFile, s.lineStart, s.colStart, s.channelKind, d)
    ensures PlaceSite(PlaceOf(st.surfaces[n])) in SitesOf(f)
  {
    var s := EmitFacts(repo, table, f.calls[k].callsite).value.surface;
    EmittedPlace(repo, table, f.calls[k].callsite);
    hide WellKeyed, EmitFacts, Decimal;
    assert n == PlaceUid(repo, PlaceOf(s).Facing(d));
    StoredPlace(repo, st, PlaceOf(s).Facing(d));
    assert SiteOf(f.calls[k].callsite) in SitesOf(f);
  }
}
