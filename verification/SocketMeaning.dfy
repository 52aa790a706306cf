/** What one function's calls come to, read off the call names and descriptors: which
    calls leave evidence only, which sockets are tracked, and the way each socket's
    surface faces in the end. */
module SocketMeaning {
  import opened Wrappers
  import opened Text
  import opened Ordering
  import opened Surface
  import opened BindingTable
  import opened Emitter
  import opened SocketLineage
  import opened Commutation
  import opened Refinement
  import opened SocketPass
  import opened EmissionMeaning

  // ---- Registrations and evidence, on the calls ----------------------------

  /** The call opens a TCP or UDP socket and assigns it to the variable. */
  ghost predicate Opens(repo: string, table: seq<BindingEntry>, raw: RawCall, id: string) {
    && raw.callsite.functionName == "socket" && raw.assignedIdentifier == Some(id)
    && EmitFacts(repo, table, raw.callsite).Some?
    && EmitFacts(repo, table, raw.callsite).value.surface.channelKind in [TcpSocket, UdpSocket]
  }

  /** Call `k` is the last that opens a socket for the variable. */
  ghost predicate Latest(repo: string, table: seq<BindingEntry>, calls: seq<RawCall>, id: string, k: nat) {
    && k < |calls| && Opens(repo, table, calls[k], id)
    && forall j :: k < j < |calls| ==> !Opens(repo, table, calls[j], id)
  }

  /** After call `k`, a function of this name was called on the descriptor. */
  ghost predicate CalledSince(calls: seq<RawCall>, k: nat, functionName: string, id: string) {
    exists j :: k < j < |calls| && calls[j].callsite.functionName == functionName && calls[j].fdArgument == Some(id)
  }

  /** The entry of a variable, in terms of the calls. */
  ghost predicate Describes(repo: string, table: seq<BindingEntry>, calls: seq<RawCall>, id: string, k: nat,
                            entry: Lineage)
    requires Latest(repo, table, calls, id, k)
  {
    var surface := EmitFacts(repo, table, calls[k].callsite).value.surface;
    && entry.identifier == id && entry.originUid == surface.surfaceUid
    && (entry.kind == Tcp <==> surface.channelKind == TcpSocket)
    && (entry.evidence.hasBind <==> CalledSince(calls, k, "bind", id))
    && (entry.evidence.hasListen <==> CalledSince(calls, k, "listen", id))
    && (entry.evidence.hasConnect <==> CalledSince(calls, k, "connect", id))
    && (entry.evidence.hasAccept <==> CalledSince(calls, k, "accept", id))
  }

  ghost predicate Tracks(repo: string, table: seq<BindingEntry>, calls: seq<RawCall>, id: string, entries: Entries) {
    && (id in entries <==> exists k: nat :: Latest(repo, table, calls, id, k))
    && (forall k: nat :: Latest(repo, table, calls, id, k) ==>
      id in entries && Describes(repo, table, calls, id, k, entries[id]))
  }

  lemma CalledSinceStep(front: seq<RawCall>, raw: RawCall, k: nat, functionName: string, id: string)
    requires k < |front|
    ensures CalledSince(front + [raw], k, functionName, id) <==>
      || CalledSince(front, k, functionName, id)
      || (raw.callsite.functionName == functionName && raw.fdArgument == Some(id))
  {
    var calls := front + [raw];
    assert calls[|front|] == raw;
    if CalledSince(front, k, functionName, id) {
      var j :| k < j < |front| && front[j].callsite.functionName == functionName && front[j].fdArgument == Some(id);
      assert calls[j] == front[j];
    }
  }

  lemma LatestStep(repo: string, table: seq<BindingEntry>, front: seq<RawCall>, raw: RawCall, id: string, k: nat)
    requires !Opens(repo, table, raw, id)
    ensures Latest(repo, table, front + [raw], id, k) <==> Latest(repo, table, front, id, k)
  {
    hide Opens;
    var calls := front + [raw];
    assert calls[|front|] == raw;
    assert forall j :: 0 <= j < |front| ==> calls[j] == front[j];
  }

  lemma LatestHere(repo: string, table: seq<BindingEntry>, front: seq<RawCall>, raw: RawCall, id: string)
    requires Opens(repo, table, raw, id)
    ensures forall k: nat :: Latest(repo, table, front + [raw], id, k) <==> k == |front|
  {
    hide Opens;
    var calls := front + [raw];
    assert calls[|front|] == raw;
  }

  /** What one call does to the entry of one variable. */
  lemma EventMeaning(repo: string, table: seq<BindingEntry>, entries: Entries, raw: RawCall, id: string)
    ensures var next := match EventOf(repo, table, raw)
                        case Some(e) => AfterEvent(entries, e)
                        case None => entries;
      var facts, name := EmitFacts(repo, table, raw.callsite), raw.callsite.functionName;
      && (Opens(repo, table, raw, id) ==>
        && id in next
        && next[id] == Lineage(id, if facts.value.surface.channelKind == TcpSocket then Tcp else Udp,
                               facts.value.surface.surfaceUid, RoleEvidence(false, false, false, false)))
      && (!Opens(repo, table, raw, id) ==>
        && (id in next <==> id in entries)
        && (id in entries && raw.fdArgument != Some(id) ==> next[id] == entries[id])
        && (id in entries && raw.fdArgument == Some(id) ==>
          var was := entries[id].evidence;
          next[id] == entries[id].(evidence := RoleEvidence(
            was.hasBind || name == "bind", was.hasListen || name == "listen",
            was.hasConnect || name == "connect", was.hasAccept || name == "accept"))))
  {
    hide EmitFacts;
  }

  lemma TracksStep(repo: string, table: seq<BindingEntry>, front: seq<RawCall>, raw: RawCall, id: string,
                   entries: Entries)
    requires Tracks(repo, table, front, id, entries)
    ensures Tracks(repo, table, front + [raw], id,
                   match EventOf(repo, table, raw) case Some(e) => AfterEvent(entries, e) case None => entries)
  {
    EventMeaning(repo, table, entries, raw, id);
    hide EventOf, AfterEvent, EmitFacts;
    if Opens(repo, table, raw, id) {
      LatestHere(repo, table, front, raw, id);
      assert (front + [raw])[|front|] == raw;
      assert Latest(repo, table, front + [raw], id, |front|);
    } else {
      forall k: nat ensures Latest(repo, table, front + [raw], id, k) <==> Latest(repo, table, front, id, k) {
        LatestStep(repo, table, front, raw, id, k);
      }
      hide Opens, Latest, Describes, CalledSince;
      forall k: nat | Latest(repo, table, front, id, k) {
        DescribesStep(repo, table, front, raw, id, k, entries[id]);
      }
    }
  }

  /** A call that opens nothing for the variable adds its own name to the evidence. */
  lemma DescribesStep(repo: string, table: seq<BindingEntry>, front: seq<RawCall>, raw: RawCall, id: string, k: nat,
                      entry: Lineage)
    requires Latest(repo, table, front, id, k) && Latest(repo, table, front + [raw], id, k)
    requires Describes(repo, table, front, id, k, entry)
    ensures raw.fdArgument != Some(id) ==> Describes(repo, table, front + [raw], id, k, entry)
    ensures raw.fdArgument == Some(id) ==>
      var was, name := entry.evidence, raw.callsite.functionName;
      Describes(repo, table, front + [raw], id, k, entry.(evidence := RoleEvidence(
        was.hasBind || name == "bind", was.hasListen || name == "listen",
        was.hasConnect || name == "connect", was.hasAccept || name == "accept")))
  {
    assert k < |front|;
    hide Latest, EmitFacts, CalledSince;
    CalledSinceStep(front, raw, k, "bind", id);
    CalledSinceStep(front, raw, k, "listen", id);
    CalledSinceStep(front, raw, k, "connect", id);
    CalledSinceStep(front, raw, k, "accept", id);
    assert (front + [raw])[k] == front[k];
  }

  /** The registry after any calls: a variable is tracked from its latest TCP or UDP
      `socket` call on, with one flag for each kind of call made on it since. */
  lemma {:induction false} EntriesMeaning(repo: string, table: seq<BindingEntry>, calls: seq<RawCall>, id: string)
    ensures Tracks(repo, table, calls, id, EntriesOf(repo, table, calls))
  {
    if calls != [] {
      hide Tracks;
      FrontLast(calls);
      EntriesStep(repo, table, calls);
      EntriesMeaning(repo, table, Front(calls), id);
      TracksStep(repo, table, Front(calls), Last(calls), id, EntriesOf(repo, table, Front(calls)));
    }
  }

  /** The way the socket opened by call `k` turns out to face, if its calls tell: a TCP
      socket that connects consumes, and one that listens or accepts without ever
      connecting provides. */
  ghost function Told(kind: ChannelKind, calls: seq<RawCall>, k: nat, id: string): Option<Direction> {
    if kind == TcpSocket && CalledSince(calls, k, "connect", id) then Some(Consumer)
    else if kind == TcpSocket && (CalledSince(calls, k, "listen", id) || CalledSince(calls, k, "accept", id)) then
      Some(Provider)
    else None
  }

  /** The registry asks for a turn exactly when the calls tell, and for that one. */
  lemma ResolvedMeaning(repo: string, table: seq<BindingEntry>, calls: seq<RawCall>, id: string, k: nat)
    requires Latest(repo, table, calls, id, k)
    ensures id in EntriesOf(repo, table, calls)
    ensures var entry := EntriesOf(repo, table, calls)[id];
      var surface := EmitFacts(repo, table, calls[k].callsite).value.surface;
      && entry.originUid == surface.surfaceUid
      && (match Told(surface.channelKind, calls, k, id)
          case Some(d) => entry.Resolved() == d
          case None => entry.Resolved() == Bidirectional)
  {
    EntriesMeaning(repo, table, calls, id);
    hide EntriesOf, Latest, CalledSince, EmitFacts;
  }

  /** The next call is emitted, unless it is a bind, listen, connect or accept on the
      variable of a TCP or UDP socket opened before: that one stores nothing of its own. */
  lemma EvidenceMeaning(repo: string, table: seq<BindingEntry>, start: State, calls: seq<RawCall>, raw: RawCall)
    ensures var before, after :=
        AfterCalls(repo, table, start, calls).emitted, AfterCalls(repo, table, start, calls + [raw]).emitted;
      if raw.callsite.functionName in ["bind", "listen", "connect", "accept"]
         && exists id, k :: raw.fdArgument == Some(id) && 0 <= k < |calls| && Opens(repo, table, calls[k], id)
      then after == before
      else after == AfterEmit(repo, table, before, raw.callsite)
  {
    AfterCallEmitted(repo, table, start, calls, raw);
    CallsAreRun(repo, table, start, calls);
    hide AfterCalls, EntriesOf, AfterEmit, Run, Opens;
    if raw.fdArgument.Some? {
      TrackedIff(repo, table, calls, raw.fdArgument.value);
    }
  }

  lemma TrackedIff(repo: string, table: seq<BindingEntry>, calls: seq<RawCall>, id: string)
    ensures id in EntriesOf(repo, table, calls) <==> exists k :: 0 <= k < |calls| && Opens(repo, table, calls[k], id)
  {
    EntriesMeaning(repo, table, calls, id);
    hide Opens, EntriesOf, Describes;
    if k: nat :| Latest(repo, table, calls, id, k) {
      assert Opens(repo, table, calls[k], id);
    }
    forall k | 0 <= k < |calls| && Opens(repo, table, calls[k], id) ensures id in EntriesOf(repo, table, calls) {
      var l := LatestAfter(repo, table, calls, id, k);
    }
  }

  lemma AfterCallEmitted(repo: string, table: seq<BindingEntry>, start: State, calls: seq<RawCall>, raw: RawCall)
    ensures var pass := AfterCalls(repo, table, start, calls);
      AfterCalls(repo, table, start, calls + [raw]).emitted ==
      if EvidenceOnly(pass.entries, raw) then pass.emitted else AfterEmit(repo, table, pass.emitted, raw.callsite)
  {
    assert Front(calls + [raw]) == calls;
    hide AfterEmit, EventOf, EvidenceOnly;
  }

  lemma {:induction false} LatestAfter(repo: string, table: seq<BindingEntry>, calls: seq<RawCall>, id: string, k: nat)
      returns (l: nat)
    requires k < |calls| && Opens(repo, table, calls[k], id)
    ensures Latest(repo, table, calls, id, l)
    decreases |calls| - k
  {
    hide Opens;
    if j :| k < j < |calls| && Opens(repo, table, calls[j], id) {
      l := LatestAfter(repo, table, calls, id, j);
    } else {
      l := k;
    }
  }

  // ---- The surfaces after the function -------------------------------------

  /** The surface is stored, turned this way unless it faces it already, under the uid
      that prints it. */
  ghost predicate StoredFacing(repo: string, final: State, s: BoundarySurface, d: Direction) {
    var n := PrintedUid(repo, s.sourceFile, s.lineStart, s.colStart, s.channelKind, d);
    && n in final.surfaces && final.surfaces[n] == s.(direction := d, surfaceUid := n)
    && (s.direction != d ==> s.surfaceUid !in final.surfaces)
  }

  lemma TowardIs(repo: string, st: State, uid: string, d: Direction)
    requires WellKeyed(repo, st) && uid in st.surfaces
    ensures var s := st.surfaces[uid];
      var n := PrintedUid(repo, s.sourceFile, s.lineStart, s.colStart, s.channelKind, d);
      && Toward(s, d) == s.(direction := d, surfaceUid := n)
      && s.surfaceUid == uid && NewUid(st, (uid, d)) == n && (s.direction != d ==> n != uid)
  {
    if st.surfaces[uid].direction != d {
      TurnedUid(repo, st, uid, d);
      TurnedIs(repo, st, uid, d);
    } else {
      hide Decimal, ChannelKind.AsStr, Direction.AsStr;
    }
  }

  /** The refinements of other variables stay away from this variable's surface. */
  lemma OthersStayAway(repo: string, table: seq<BindingEntry>, start: State, calls: seq<RawCall>, id: string,
                       other: string)
    requires WellKeyed(repo, start) && DistinctSocketSites(calls) && id != other
    requires var entries := EntriesOf(repo, table, calls); id in entries && other in entries
    ensures var st, entries := AfterCalls(repo, table, start, calls).emitted, EntriesOf(repo, table, calls);
      var uid, pair := entries[id].originUid, PairOf(entries, other);
      uid in st.surfaces && pair.0 in st.surfaces && uid != pair.0 && uid != NewUid(st, pair)
  {
    var st, entries := AfterCalls(repo, table, start, calls).emitted, EntriesOf(repo, table, calls);
    CallsWellKeyed(repo, table, start, calls);
    OriginsApart(repo, table, start, calls, id, other);
    hide AfterCalls, EntriesOf, WellKeyed, PlaceOf, NewUid;
    PairsApart(repo, st, PairOf(entries, id), PairOf(entries, other));
  }

  lemma DrainedPairs(entries: Entries, drained: seq<string>, pairs: seq<Turn>)
    requires DrainOf(entries, drained, pairs)
    ensures forall id :: id in Refined(entries) ==> PairOf(entries, id) in pairs
    ensures forall p :: p in pairs ==> exists id :: id in Refined(entries) && p == PairOf(entries, id)
  {
    hide Refined;
    forall id | id in Elements(drained) ensures id in entries && PairOf(entries, id) in pairs {
      var i :| 0 <= i < |drained| && drained[i] == id;
      assert pairs[i] == PairOf(entries, id);
    }
    forall p | p in pairs ensures exists id :: id in Elements(drained) && id in entries && p == PairOf(entries, id) {
      var i :| 0 <= i < |pairs| && pairs[i] == p;
      assert drained[i] in Elements(drained);
    }
  }

  /** What Moved says of one stored uid. */
  lemma MovedAt(st: State, pairs: seq<Turn>, final: State, uid: string)
    requires Moved(st, pairs, final) && uid in st.surfaces
    requires forall p :: p in pairs ==> p.0 in st.surfaces && uid != NewUid(st, p)
    ensures (forall p :: p in pairs ==> p.0 != uid) ==> uid in final.surfaces && final.surfaces[uid] == st.surfaces[uid]
    ensures (exists p :: p in pairs && p.0 == uid) ==> uid !in final.surfaces
  {
    hide NewUid;
  }

  lemma MovedTo(st: State, pairs: seq<Turn>, final: State, p: Turn)
    requires Moved(st, pairs, final) && p in pairs && p.0 in st.surfaces
    ensures NewUid(st, p) in final.surfaces && final.surfaces[NewUid(st, p)] == Toward(st.surfaces[p.0], p.1)
  {
    hide NewUid, Toward;
    assert NewUid(st, p) in NewUids(st, pairs);
  }

  /** A tracked variable's surface stays if its role is open and is turned otherwise. */
  lemma EntrySettles(repo: string, table: seq<BindingEntry>, start: State, f: FunctionRun, id: string)
    requires WellKeyed(repo, start) && DistinctSocketSites(f.calls) && Drains(repo, table, f)
    requires id in EntriesOf(repo, table, f.calls)
    ensures var emitted, final := AfterCalls(repo, table, start, f.calls).emitted, AfterFunction(repo, table, start, f);
      var entry := EntriesOf(repo, table, f.calls)[id];
      && entry.originUid in emitted.surfaces
      && if entry.Resolved() == Bidirectional then
           && entry.originUid in final.surfaces
           && final.surfaces[entry.originUid] == emitted.surfaces[entry.originUid]
         else StoredFacing(repo, final, emitted.surfaces[entry.originUid], entry.Resolved())
  {
    var emitted, entries := AfterCalls(repo, table, start, f.calls).emitted, EntriesOf(repo, table, f.calls);
    var drained :| DrainOf(entries, drained, f.pairs);
    var l, b := EntryPlace(repo, table, start, f.calls, id);
    CallsWellKeyed(repo, table, start, f.calls);
    DrainedIsRefinable(repo, table, start, f.calls, drained, f.pairs);
    ApplyMeaning(repo, emitted, f.pairs);
    DrainedPairs(entries, drained, f.pairs);
    hide AfterCalls, EntriesOf, WellKeyed, Moved, NewUid, ApplyAll, DrainOf, DistinctSocketSites, Refinable,
      Lineage.Resolved, EmitFacts;
    forall other | other in Refined(entries) && other != id
      ensures PairOf(entries, other).0 in emitted.surfaces && PairOf(entries, other).0 != entries[id].originUid
      ensures entries[id].originUid != NewUid(emitted, PairOf(entries, other))
    {
      OthersStayAway(repo, table, start, f.calls, id, other);
    }
    PairsSettle(repo, emitted, entries, f.pairs, ApplyAll(emitted, f.pairs), id);
  }

  lemma PairsSettle(repo: string, emitted: State, entries: Entries, pairs: seq<Turn>, final: State, id: string)
    requires WellKeyed(repo, emitted) && Moved(emitted, pairs, final) && id in entries
    requires forall other :: other in Refined(entries) ==> PairOf(entries, other) in pairs
    requires forall p :: p in pairs ==> exists other :: other in Refined(entries) && p == PairOf(entries, other)
    requires entries[id].originUid in emitted.surfaces
    requires forall other :: other in Refined(entries) && other != id ==>
      && PairOf(entries, other).0 in emitted.surfaces && PairOf(entries, other).0 != entries[id].originUid
      && entries[id].originUid != NewUid(emitted, PairOf(entries, other))
    ensures var uid, d := entries[id].originUid, entries[id].Resolved();
      if d == Bidirectional then uid in final.surfaces && final.surfaces[uid] == emitted.surfaces[uid]
      else StoredFacing(repo, final, emitted.surfaces[uid], d)
  {
    var own := PairOf(entries, id);
    hide WellKeyed, Moved, NewUid, Toward, PrintedUid, Lineage.Resolved;
    if own.1 == Bidirectional {
      MovedAt(emitted, pairs, final, own.0);
    } else {
      assert id in Refined(entries);
      TowardIs(repo, emitted, own.0, own.1);
      MovedTo(emitted, pairs, final, own);
      if emitted.surfaces[own.0].direction != own.1 {
        MovedAt(emitted, pairs, final, own.0);
      }
    }
  }

  /** Where the socket opened by call `k` ends up. Its surface is stored as the calls
      left it if they do not tell its role, and otherwise at the call's place facing the
      way they tell. */
  lemma FunctionMeaning(repo: string, table: seq<BindingEntry>, start: State, f: FunctionRun, id: string, k: nat)
    requires WellKeyed(repo, start) && DistinctSocketSites(f.calls) && Drains(repo, table, f)
    requires Latest(repo, table, f.calls, id, k)
    ensures var surface := EmitFacts(repo, table, f.calls[k].callsite).value.surface;
      var emitted, final := AfterCalls(repo, table, start, f.calls).emitted, AfterFunction(repo, table, start, f);
      && surface.surfaceUid in emitted.surfaces
      && match Told(surface.channelKind, f.calls, k, id)
         case None =>
           && surface.surfaceUid in final.surfaces
           && final.surfaces[surface.surfaceUid] == emitted.surfaces[surface.surfaceUid]
         case Some(d) => StoredFacing(repo, final, emitted.surfaces[surface.surfaceUid], d)
  {
    ResolvedMeaning(repo, table, f.calls, id, k);
    hide AfterCalls, AfterFunction, EntriesOf, Latest, Told, EmitFacts, Drains, StoredFacing;
    EntrySettles(repo, table, start, f, id);
  }

  /** A refinement names and prints the site of a socket call. */
  lemma TurnSite(repo: string, table: seq<BindingEntry>, start: State, calls: seq<RawCall>, id: string)
      returns (k: nat, o: Place, q: Place)
    requires WellKeyed(repo, start) && id in EntriesOf(repo, table, calls)
    ensures var st, pair := AfterCalls(repo, table, start, calls).emitted, PairOf(EntriesOf(repo, table, calls), id);
      && k < |calls| && calls[k].callsite.functionName == "socket"
      && pair.0 in st.surfaces && pair.0 == PlaceUid(repo, o) && NewUid(st, pair) == PlaceUid(repo, q)
      && PlaceSite(o) == PlaceSite(q) == SiteOf(calls[k].callsite)
  {
    var st, pair := AfterCalls(repo, table, start, calls).emitted, PairOf(EntriesOf(repo, table, calls), id);
    CallsWellKeyed(repo, table, start, calls);
    var b;
    k, b := EntryPlace(repo, table, start, calls, id);
    o := PlaceFor(b, calls[k].callsite);
    hide AfterCalls, EntriesOf, WellKeyed, PlaceUid, SelectBinding, Registration, Emits;
    StoredPlace(repo, st, o);
    TurnedPlace(repo, st, o, pair.1);
    q := if pair.1 == o.direction then o else o.Facing(pair.1);
  }

  /** Every surface that sits at no socket call is as the calls left it. */
  lemma FunctionKeepsRest(repo: string, table: seq<BindingEntry>, start: State, f: FunctionRun, uid: string)
    requires WellKeyed(repo, start) && DistinctSocketSites(f.calls) && Drains(repo, table, f)
    requires uid in AfterCalls(repo, table, start, f.calls).emitted.surfaces
    requires var s := AfterCalls(repo, table, start, f.calls).emitted.surfaces[uid];
      forall k :: 0 <= k < |f.calls| && f.calls[k].callsite.functionName == "socket" ==>
        PlaceSite(PlaceOf(s)) != SiteOf(f.calls[k].callsite)
    ensures var emitted, final := AfterCalls(repo, table, start, f.calls).emitted, AfterFunction(repo, table, start, f);
      uid in final.surfaces && final.surfaces[uid] == emitted.surfaces[uid]
  {
    var emitted, entries := AfterCalls(repo, table, start, f.calls).emitted, EntriesOf(repo, table, f.calls);
    var drained :| DrainOf(entries, drained, f.pairs);
    CallsWellKeyed(repo, table, start, f.calls);
    DrainedIsRefinable(repo, table, start, f.calls, drained, f.pairs);
    ApplyMeaning(repo, emitted, f.pairs);
    DrainedPairs(entries, drained, f.pairs);
    hide AfterCalls, EntriesOf, WellKeyed, Moved, NewUid, ApplyAll, DrainOf, DistinctSocketSites, Refinable,
      PairOf, PlaceUid, PlaceOf, PlaceSite, SiteOf;
    forall p | p in f.pairs ensures p.0 in emitted.surfaces && p.0 != uid && uid != NewUid(emitted, p) {
      var id :| id in Refined(entries) && p == PairOf(entries, id);
      var k, o, q := TurnSite(repo, table, start, f.calls, id);
      if uid == PlaceUid(repo, o) {
        StoredPlace(repo, emitted, o);
      }
      if uid == PlaceUid(repo, q) {
        StoredPlace(repo, emitted, q);
      }
    }
    MovedAt(emitted, f.pairs, ApplyAll(emitted, f.pairs), uid);
  }

  /** With `socket` declared as setup only, as in the embedded table: the surface of call
      `k` is stored at the call's place, facing the way the calls on it tell or, if they
      tell nothing, both ways. */
  lemma SocketFacing(repo: string, table: seq<BindingEntry>, start: State, f: FunctionRun, id: string, k: nat)
    requires WellKeyed(repo, start) && DistinctSocketSites(f.calls) && Drains(repo, table, f)
    requires forall e :: e in table && e.functionName == "socket" ==> e.role == Setup
    requires Latest(repo, table, f.calls, id, k)
    ensures var surface := EmitFacts(repo, table, f.calls[k].callsite).value.surface;
      var final := AfterFunction(repo, table, start, f);
      var d := match Told(surface.channelKind, f.calls, k, id) case Some(told) => told case None => Bidirectional;
      var n := PrintedUid(repo, surface.sourceFile, surface.lineStart, surface.colStart, surface.channelKind, d);
      n in final.surfaces && final.surfaces[n].direction == d
  {
    var c := f.calls[k].callsite;
    var surface, emitted := EmitFacts(repo, table, c).value.surface, AfterCalls(repo, table, start, f.calls).emitted;
    FunctionMeaning(repo, table, start, f, id, k);
    SocketFacesBoth(repo, table, c);
    CallsWellKeyed(repo, table, start, f.calls);
    EmittedPlace(repo, table, c);
    hide AfterCalls, AfterFunction, WellKeyed, EmitFacts, Told, Latest, Drains, DistinctSocketSites;
    StoredPlace(repo, emitted, PlaceOf(surface));
    hide ChannelKind.AsStr, Direction.AsStr, Decimal;
  }
}
