/** The per-function loop of `compose.rs` that drives emitter and registry
    together: emit or record each call, then refine the sockets it left tracked. */
module SocketPass {
  import opened Wrappers
  import opened Text
  import opened Ordering
  import opened Surface
  import opened BindingTable
  import opened Emitter
  import opened SocketLineage
  import opened Commutation
  import opened Refinement

  /** One extracted call: what the emitter sees, the function around it, the variable
      a socket is assigned to and the descriptor argument of the other calls. */
  datatype RawCall = RawCall(
    callsite: Callsite,
    enclosingFunction: string,
    assignedIdentifier: Option<string>,
    fdArgument: Option<string>)

  function RoleCall(functionName: string): Option<Call> {
    if functionName == "bind" then Some(BindCall)
    else if functionName == "listen" then Some(ListenCall)
    else if functionName == "connect" then Some(ConnectCall)
    else if functionName == "accept" then Some(AcceptCall)
    else None
  }

  function TrackedKindOf(kind: ChannelKind): Option<TrackedKind> {
    match kind
    case TcpSocket => Some(Tcp)
    case UdpSocket => Some(Udp)
    case _ => None
  }

  predicate IsSocketCall(raw: RawCall) {
    raw.callsite.functionName == "socket"
  }

  /** The registration a socket call leads to, if it is emitted as TCP or UDP and
      assigned to a variable. */
  function Registration(repo: string, table: seq<BindingEntry>, raw: RawCall): Option<FdEvent> {
    match EmitFacts(repo, table, raw.callsite)
    case None => None
    case Some(facts) =>
      match (raw.assignedIdentifier, TrackedKindOf(facts.surface.channelKind))
      case (Some(id), Some(kind)) => Some(Register(id, kind, facts.surface.surfaceUid))
      case _ => None
  }

  /** What a call tells the registry. */
  function EventOf(repo: string, table: seq<BindingEntry>, raw: RawCall): Option<FdEvent> {
    if IsSocketCall(raw) then Registration(repo, table, raw)
    else
      match (RoleCall(raw.callsite.functionName), raw.fdArgument)
      case (Some(call), Some(fd)) => Some(Record(fd, call))
      case _ => None
  }

  /** A role call on a tracked descriptor is evidence only. */
  predicate EvidenceOnly(entries: Entries, raw: RawCall) {
    && !IsSocketCall(raw) && RoleCall(raw.callsite.functionName).Some?
    && raw.fdArgument.Some? && raw.fdArgument.value in entries
  }

  datatype Pass = Pass(emitted: State, entries: Entries)

  /** One call of the function. */
  function AfterCall(repo: string, table: seq<BindingEntry>, pass: Pass, raw: RawCall): Pass {
    Pass(if EvidenceOnly(pass.entries, raw) then pass.emitted else AfterEmit(repo, table, pass.emitted, raw.callsite),
         match EventOf(repo, table, raw) case Some(e) => AfterEvent(pass.entries, e) case None => pass.entries)
  }

  function AfterCalls(repo: string, table: seq<BindingEntry>, start: State, calls: seq<RawCall>): Pass {
    if calls == [] then Pass(start, map[])
    else AfterCall(repo, table, AfterCalls(repo, table, start, Front(calls)), Last(calls))
  }

  // ---- A function as a registry trace and an emitter run -------------------

  /** The trace the registry sees. */
  function Events(repo: string, table: seq<BindingEntry>, calls: seq<RawCall>): seq<FdEvent> {
    if calls == [] then []
    else
      Events(repo, table, Front(calls)) + match EventOf(repo, table, Last(calls)) case Some(e) => [e] case None => []
  }

  function EntriesOf(repo: string, table: seq<BindingEntry>, calls: seq<RawCall>): Entries {
    Tracked(Events(repo, table, calls))
  }

  /** The emissions the emitter sees. */
  function Emissions(repo: string, table: seq<BindingEntry>, calls: seq<RawCall>): seq<Op> {
    if calls == [] then []
    else
      Emissions(repo, table, Front(calls)) +
        if EvidenceOnly(EntriesOf(repo, table, Front(calls)), Last(calls)) then [] else [Emit(Last(calls).callsite)]
  }

  lemma EntriesStep(repo: string, table: seq<BindingEntry>, calls: seq<RawCall>)
    requires calls != []
    ensures EntriesOf(repo, table, calls) ==
      match EventOf(repo, table, Last(calls))
      case Some(e) => AfterEvent(EntriesOf(repo, table, Front(calls)), e)
      case None => EntriesOf(repo, table, Front(calls))
  {
    hide AfterEvent, EventOf;
    var before := Events(repo, table, Front(calls));
    match EventOf(repo, table, Last(calls))
    case Some(e) => assert (before + [e])[..|before|] == before;
    case None => assert before + [] == before;
  }

  /** The registry depends on the calls alone, and the emitter goes through a run
      that depends on the calls alone. */
  lemma {:induction false} CallsAreRun(repo: string, table: seq<BindingEntry>, start: State, calls: seq<RawCall>)
    ensures AfterCalls(repo, table, start, calls) ==
      Pass(Run(repo, table, start, Emissions(repo, table, calls)), EntriesOf(repo, table, calls))
  {
    hide AfterEmit, AfterEvent, EventOf, EvidenceOnly;
    if calls != [] {
      CallsAreRun(repo, table, start, Front(calls));
      EntriesStep(repo, table, calls);
      var before, call := Emissions(repo, table, Front(calls)), Emit(Last(calls).callsite);
      assert Front(before + [call]) == before && before + [] == before;
    }
  }

  lemma CallsWellKeyed(repo: string, table: seq<BindingEntry>, start: State, calls: seq<RawCall>)
    requires WellKeyed(repo, start)
    ensures WellKeyed(repo, AfterCalls(repo, table, start, calls).emitted)
  {
    CallsAreRun(repo, table, start, calls);
    hide WellKeyed, Run, AfterCalls;
    RunWellKeyed(repo, table, start, Emissions(repo, table, calls));
  }

  // ---- Where tracked sockets come from -------------------------------------

  /** The place a selected binding puts the call's surface at. */
  function PlaceFor(b: BindingEntry, c: Callsite): Place {
    Place(c.sourceFile, ToU32(c.location.lineStart), ToU32(c.location.colStart), b.channelKind, b.role.Direction())
  }

  /** Call `k` registered the entry. */
  ghost predicate RegisteredBy(repo: string, table: seq<BindingEntry>, calls: seq<RawCall>, entry: Lineage, k: nat) {
    && k < |calls| && IsSocketCall(calls[k])
    && Registration(repo, table, calls[k]) == Some(Register(entry.identifier, entry.kind, entry.originUid))
  }

  lemma {:induction false} EntryOrigin(repo: string, table: seq<BindingEntry>, calls: seq<RawCall>, id: string)
        returns (k: nat)
    requires id in EntriesOf(repo, table, calls)
    ensures var entry := EntriesOf(repo, table, calls)[id];
      entry.identifier == id && RegisteredBy(repo, table, calls, entry, k)
  {
    hide Registration;
    if calls == [] {
      assert false;
    } else {
      EntriesStep(repo, table, calls);
      var before := EntriesOf(repo, table, Front(calls));
      match EventOf(repo, table, Last(calls))
      case Some(Register(other, kind, uid)) =>
        if other == id {
          k := |calls| - 1;
        } else {
          k := EntryOrigin(repo, table, Front(calls), id);
        }
      case _ =>
        k := EntryOrigin(repo, table, Front(calls), id);
    }
  }

  /** A registration names the surface its call emitted: a TCP or UDP socket at the
      call's site, facing the way its binding says. */
  lemma RegistrationPlace(repo: string, table: seq<BindingEntry>, raw: RawCall) returns (b: BindingEntry)
    requires Registration(repo, table, raw).Some?
    ensures SelectBinding(table, raw.callsite) == Some(b) && EmitFacts(repo, table, raw.callsite).Some?
    ensures b.channelKind == TcpSocket || b.channelKind == UdpSocket
    ensures var e := Registration(repo, table, raw).value;
      && e.Register? && e.uid == EmitFacts(repo, table, raw.callsite).value.surface.surfaceUid
      && e.uid == PlaceUid(repo, PlaceFor(b, raw.callsite))
  {
    hide SelectBinding, ScopeAndLocality, BuildUid, BuildChannel;
    b := SelectBinding(table, raw.callsite).value;
  }

  lemma EmitKeepsSurfaces(repo: string, table: seq<BindingEntry>, st: State, c: Callsite)
    ensures var after := AfterEmit(repo, table, st, c);
      && (forall uid :: uid in st.surfaces ==> uid in after.surfaces && after.surfaces[uid] == st.surfaces[uid])
      && (EmitFacts(repo, table, c).Some? ==> EmitFacts(repo, table, c).value.surface.surfaceUid in after.surfaces)
      && (forall uid :: uid in after.surfaces && uid !in st.surfaces ==>
        EmitFacts(repo, table, c).Some? && EmitFacts(repo, table, c).value.surface.surfaceUid == uid)
  {
    hide EmitFacts;
  }

  /** The call emits a surface under this uid. */
  ghost predicate Emits(repo: string, table: seq<BindingEntry>, raw: RawCall, uid: string) {
    EmitFacts(repo, table, raw.callsite).Some? && EmitFacts(repo, table, raw.callsite).value.surface.surfaceUid == uid
  }

  /** Every socket call's surface is stored once its function's calls are read. */
  lemma {:induction false} SocketIsStored(repo: string, table: seq<BindingEntry>, start: State, calls: seq<RawCall>,
                                          k: nat, uid: string)
    requires k < |calls| && IsSocketCall(calls[k]) && Emits(repo, table, calls[k], uid)
    ensures uid in AfterCalls(repo, table, start, calls).emitted.surfaces
  {
    var before := AfterCalls(repo, table, start, Front(calls)).emitted;
    EmitKeepsSurfaces(repo, table, before, Last(calls).callsite);
    hide AfterEmit, EmitFacts, EventOf;
    if k < |calls| - 1 {
      SocketIsStored(repo, table, start, Front(calls), k, uid);
    }
  }

  /** Every stored surface was there before or is emitted by some call. */
  lemma {:induction false} StoredIsEmitted(repo: string, table: seq<BindingEntry>, start: State, calls: seq<RawCall>,
                                           uid: string)
    requires uid in AfterCalls(repo, table, start, calls).emitted.surfaces
    ensures uid in start.surfaces || exists k :: 0 <= k < |calls| && Emits(repo, table, calls[k], uid)
  {
    if calls != [] {
      var before := AfterCalls(repo, table, start, Front(calls)).emitted;
      EmitKeepsSurfaces(repo, table, before, Last(calls).callsite);
      hide AfterEmit, EventOf, Emits;
      if uid in before.surfaces {
        StoredIsEmitted(repo, table, start, Front(calls), uid);
        if k :| 0 <= k < |Front(calls)| && Emits(repo, table, Front(calls)[k], uid) {
          assert calls[k] == Front(calls)[k];
        }
      } else {
        assert Emits(repo, table, calls[|calls| - 1], uid) by {
          EmittedByLast(repo, table, before, Last(calls), uid);
        }
      }
    }
  }

  lemma EmittedByLast(repo: string, table: seq<BindingEntry>, st: State, raw: RawCall, uid: string)
    requires uid in AfterEmit(repo, table, st, raw.callsite).surfaces && uid !in st.surfaces
    ensures Emits(repo, table, raw, uid)
  {
    EmitKeepsSurfaces(repo, table, st, raw.callsite);
    hide AfterEmit, EmitFacts;
  }

  /** A tracked entry's surface is stored, at the place its registering call prints. */
  lemma EntryPlace(repo: string, table: seq<BindingEntry>, start: State, calls: seq<RawCall>, id: string)
      returns (k: nat, b: BindingEntry)
    requires id in EntriesOf(repo, table, calls)
    ensures var entry := EntriesOf(repo, table, calls)[id];
      && entry.identifier == id && RegisteredBy(repo, table, calls, entry, k)
      && SelectBinding(table, calls[k].callsite) == Some(b)
      && (b.channelKind == TcpSocket || b.channelKind == UdpSocket)
      && entry.originUid == PlaceUid(repo, PlaceFor(b, calls[k].callsite))
      && Emits(repo, table, calls[k], entry.originUid)
      && entry.originUid in AfterCalls(repo, table, start, calls).emitted.surfaces
  {
    k := EntryOrigin(repo, table, calls, id);
    b := RegistrationPlace(repo, table, calls[k]);
    hide Registration, SelectBinding, AfterCalls, EntriesOf, PlaceUid;
    SocketIsStored(repo, table, start, calls, k, EntriesOf(repo, table, calls)[id].originUid);
  }

  // ---- The order in which a registry is drained ----------------------------

  function PairOf(entries: Entries, id: string): Turn
    requires id in entries
  {
    (entries[id].originUid, entries[id].Resolved())
  }

  /** The registry's pairs for the refined identifiers, in this order. */
  ghost predicate DrainOf(entries: Entries, drained: seq<string>, pairs: seq<Turn>) {
    Distinct(drained) && Elements(drained) == Refined(entries) && PairsFor(entries, drained, pairs)
  }

  /** All calls come from one language, as a file's calls do. */
  ghost predicate OneLanguage(calls: seq<RawCall>) {
    forall i, j :: 0 <= i < j < |calls| ==> calls[i].callsite.language == calls[j].callsite.language
  }

  /** Two refined variables that share a surface want it to face the same way,
      unless it faces one of those ways already. */
  ghost predicate NoClash(st: State, entries: Entries) {
    forall id, other |
      id in Refined(entries) && other in Refined(entries) && entries[id].originUid == entries[other].originUid ::
      || entries[id].Resolved() == entries[other].Resolved()
      || (entries[id].originUid in st.surfaces && st.surfaces[entries[id].originUid].direction != Bidirectional)
  }

  /** An accepted table has one binding for a language, function and kind. */
  lemma OneBinding(table: seq<BindingEntry>, c: Callsite, d: Callsite, b: BindingEntry, e: BindingEntry)
    requires Accepted(table) && c.language == d.language && c.functionName == d.functionName
    requires SelectBinding(table, c) == Some(b) && SelectBinding(table, d) == Some(e) && b.channelKind == e.channelKind
    ensures b == e
  {
    AcceptedMeaning(table);
    SelectionPasses(table, c);
    SelectionPasses(table, d);
    hide SelectBinding, MatchesContext, Accepted;
    var i :| 0 <= i < |table| && table[i] == b;
    var j :| 0 <= j < |table| && table[j] == e;
    assert KeyOf(table[i]) == KeyOf(table[j]);
    assert i == j || i < j || j < i;
  }

  /** The pairs of two tracked sockets agree unless they clash. */
  lemma EntriesAgree(repo: string, table: seq<BindingEntry>, start: State, calls: seq<RawCall>, id: string,
                     other: string)
    requires WellKeyed(repo, start) && Accepted(table) && OneLanguage(calls)
    requires var pass := AfterCalls(repo, table, start, calls);
      NoClash(pass.emitted, pass.entries) && id in Refined(pass.entries) && other in Refined(pass.entries)
    ensures var entries := AfterCalls(repo, table, start, calls).entries;
      Compatible(repo, PairOf(entries, id), PairOf(entries, other))
  {
    CallsAreRun(repo, table, start, calls);
    CallsWellKeyed(repo, table, start, calls);
    var st, entries := AfterCalls(repo, table, start, calls).emitted, EntriesOf(repo, table, calls);
    var k, b := EntryPlace(repo, table, start, calls, id);
    var l, e := EntryPlace(repo, table, start, calls, other);
    var p, q := PlaceFor(b, calls[k].callsite), PlaceFor(e, calls[l].callsite);
    hide AfterCalls, EntriesOf, WellKeyed, PlaceUid, SelectBinding, Registration, Accepted, Emits;
    assert calls[k].callsite.language == calls[l].callsite.language by {
      assert k == l || k < l || l < k;
    }
    if p.SameSpot(q) {
      OneBinding(table, calls[k].callsite, calls[l].callsite, b, e);
    }
    if p == q {
      StoredPlace(repo, st, p);
    }
    assert Agree(p, entries[id].Resolved(), q, entries[other].Resolved());
  }

  lemma DrainIsCompatible(repo: string, table: seq<BindingEntry>, start: State, calls: seq<RawCall>,
                          drained: seq<string>, pairs: seq<Turn>)
    requires WellKeyed(repo, start) && Accepted(table) && OneLanguage(calls)
    requires var pass := AfterCalls(repo, table, start, calls);
      NoClash(pass.emitted, pass.entries) && DrainOf(pass.entries, drained, pairs)
    ensures AllCompatible(repo, pairs)
  {
    hide AfterCalls, WellKeyed, Accepted, Compatible, NoClash, Refined;
    forall a, b | a in pairs && b in pairs ensures Compatible(repo, a, b) {
      var i :| 0 <= i < |pairs| && pairs[i] == a;
      var j :| 0 <= j < |pairs| && pairs[j] == b;
      assert drained[i] in Elements(drained) && drained[j] in Elements(drained);
      EntriesAgree(repo, table, start, calls, drained[i], drained[j]);
    }
  }

  /** Two drains of one registry hand out the same pairs in different orders. */
  lemma {:induction false} DrainsArePermutations(entries: Entries, first: seq<string>, second: seq<string>,
                                                 pairs: seq<Turn>, others: seq<Turn>)
    requires Distinct(first) && Distinct(second) && Elements(first) == Elements(second)
    requires PairsFor(entries, first, pairs) && PairsFor(entries, second, others)
    ensures Permutation(pairs, others)
    decreases |first|
  {
    DistinctSize(first);
    DistinctSize(second);
    if first != [] {
      assert first[0] in Elements(second);
      var j :| 0 <= j < |second| && second[j] == first[0];
      RemoveElement(second, j);
      TailElements(first);
      assert others[j] == pairs[0];
      PairsWithout(entries, second, others, j);
      PairsWithout(entries, first, pairs, 0);
      assert first[..0] + first[1..] == first[1..] && pairs[..0] + pairs[1..] == pairs[1..];
      DrainsArePermutations(entries, first[1..], second[..j] + second[j + 1..],
                            pairs[1..], others[..j] + others[j + 1..]);
      RestoreHead(pairs, others, j);
    }
  }

  lemma PairsWithout(entries: Entries, drained: seq<string>, pairs: seq<Turn>, j: nat)
    requires PairsFor(entries, drained, pairs) && j < |drained|
    ensures PairsFor(entries, drained[..j] + drained[j + 1..], pairs[..j] + pairs[j + 1..])
  {
  }

  /** Without a clash, whatever order the registry is drained in, the emitter ends
      in the same state. */
  lemma FunctionForgetsDrainOrder(repo: string, table: seq<BindingEntry>, start: State, calls: seq<RawCall>,
                                  first: seq<string>, pairs: seq<Turn>, second: seq<string>, others: seq<Turn>)
    requires WellKeyed(repo, start) && Accepted(table) && OneLanguage(calls)
    requires var pass := AfterCalls(repo, table, start, calls);
      && NoClash(pass.emitted, pass.entries)
      && DrainOf(pass.entries, first, pairs) && DrainOf(pass.entries, second, others)
    ensures var emitted := AfterCalls(repo, table, start, calls).emitted;
      ApplyAll(emitted, pairs) == ApplyAll(emitted, others)
  {
    var pass := AfterCalls(repo, table, start, calls);
    CallsWellKeyed(repo, table, start, calls);
    DrainIsCompatible(repo, table, start, calls, first, pairs);
    hide AfterCalls, WellKeyed, Accepted, AllCompatible, NoClash, Refined;
    DrainsArePermutations(pass.entries, first, second, pairs, others);
    ApplyForgetsOrder(repo, pass.emitted, pairs, others);
  }

  // ---- A clash makes the order show ----------------------------------------

  ghost function PairsOf(entries: Entries, drained: seq<string>): (pairs: seq<Turn>)
    requires forall id :: id in drained ==> id in entries
    ensures PairsFor(entries, drained, pairs)
  {
    seq(|drained|, i requires 0 <= i < |drained| => PairOf(entries, drained[i]))
  }

  /** The pair is at the place itself or at another spot. */
  ghost predicate Elsewhere(repo: string, o: Place, t: Turn) {
    exists p :: t.0 == PlaceUid(repo, p) && (p == o || !p.SameSpot(o))
  }

  /** Once a place is vacated, updates at that place or at other spots do not decide
      what is stored around it. */
  lemma {:induction false} AroundVacated(repo: string, st: State, pairs: seq<Turn>, o: Place, q: Place)
    requires WellKeyed(repo, st) && o.SameSpot(q) && PlaceUid(repo, o) !in st.surfaces
    requires forall t :: t in pairs ==> Elsewhere(repo, o, t)
    ensures PlaceUid(repo, q) in ApplyAll(st, pairs).surfaces <==> PlaceUid(repo, q) in st.surfaces
    decreases |pairs|
  {
    hide AfterUpdate, WellKeyed, PlaceUid;
    if pairs != [] {
      var t := pairs[0];
      assert Elsewhere(repo, o, t);
      var p :| t.0 == PlaceUid(repo, p) && (p == o || !p.SameSpot(o));
      UpdateWellKeyed(repo, st, t.0, t.1);
      if p == o {
        MissingStays(st, t);
      } else {
        UpdateAway(repo, st, p, t.1, o);
        UpdateAway(repo, st, p, t.1, q);
      }
      AroundVacated(repo, AfterUpdate(st, t.0, t.1), pairs[1..], o, q);
    }
  }

  lemma MissingStays(st: State, t: Turn)
    requires t.0 !in st.surfaces
    ensures AfterUpdate(st, t.0, t.1) == st
  {
  }

  /** The first pair of a sequence wins the place: it is turned its way, and not the
      other way. */
  lemma FirstWins(repo: string, st: State, o: Place, d: Direction, rest: seq<Turn>, e: Direction)
    requires WellKeyed(repo, st) && PlaceUid(repo, o) in st.surfaces && d != o.direction && e != o.direction && d != e
    requires forall t :: t in rest ==> Elsewhere(repo, o, t)
    ensures var final := ApplyAll(st, [(PlaceUid(repo, o), d)] + rest);
      && PlaceUid(repo, o.Facing(d)) in final.surfaces
      && (PlaceUid(repo, o.Facing(e)) in final.surfaces <==> PlaceUid(repo, o.Facing(e)) in st.surfaces)
  {
    var all: seq<Turn> := [(PlaceUid(repo, o), d)] + rest;
    assert all[0] == (PlaceUid(repo, o), d) && all[1..] == rest;
    var next := AfterUpdate(st, PlaceUid(repo, o), d);
    UpdateWellKeyed(repo, st, PlaceUid(repo, o), d);
    UpdateRemoves(repo, st, o, d);
    TurnedPlace(repo, st, o, d);
    StoredPlace(repo, st, o);
    if PlaceUid(repo, o.Facing(d)) == PlaceUid(repo, o.Facing(e)) {
      PlaceUidInjective(repo, o.Facing(d), o.Facing(e));
    }
    if PlaceUid(repo, o.Facing(e)) == PlaceUid(repo, o) {
      PlaceUidInjective(repo, o.Facing(e), o);
    }
    hide WellKeyed, PlaceUid, Turned, Repointed, ReplaceFirst;
    AroundVacated(repo, next, rest, o, o.Facing(d));
    AroundVacated(repo, next, rest, o, o.Facing(e));
  }

  /** No refined socket's new uid is taken by another stored surface. */
  ghost predicate Unoccupied(st: State, entries: Entries) {
    forall id :: id in Refined(entries) && entries[id].originUid in st.surfaces ==>
      var n := NewUid(st, (entries[id].originUid, entries[id].Resolved()));
      n in st.surfaces ==> n == entries[id].originUid
  }

  lemma SomeOrder(ids: set<string>) returns (order: seq<string>)
    ensures Distinct(order) && Elements(order) == ids
  {
    StringOrder();
    EnumerationAscends(LexLe, ids);
    order := Enumeration(LexLe, ids);
  }

  /** The drain that starts with these two identifiers. */
  lemma DrainStarting(entries: Entries, id: string, other: string) returns (drained: seq<string>, rest: seq<Turn>)
    requires id in Refined(entries) && other in Refined(entries) && id != other
    ensures DrainOf(entries, drained, [PairOf(entries, id), PairOf(entries, other)] + rest)
    ensures forall t :: t in rest ==> exists k :: k in Refined(entries) && t == PairOf(entries, k)
  {
    var left := Refined(entries) - {id, other};
    var tail := SomeOrder(left);
    assert forall k :: k in tail <==> k in left;
    rest := PairsOf(entries, tail);
    drained := [id, other] + tail;
    PutFirst(entries, id, other, tail);
    hide PairOf, PairsFor;
    forall t | t in rest ensures exists k :: k in Refined(entries) && t == PairOf(entries, k) {
      var i :| 0 <= i < |rest| && rest[i] == t;
      assert tail[i] in left && rest[i] == PairOf(entries, tail[i]) by {
        PairAt(entries, tail, rest, i);
      }
    }
  }

  lemma PairAt(entries: Entries, drained: seq<string>, pairs: seq<Turn>, i: nat)
    requires PairsFor(entries, drained, pairs) && i < |drained|
    ensures drained[i] in entries && pairs[i] == PairOf(entries, drained[i])
  {
  }

  lemma PutFirst(entries: Entries, id: string, other: string, tail: seq<string>)
    requires id in Refined(entries) && other in Refined(entries) && id != other
    requires Distinct(tail) && Elements(tail) == Refined(entries) - {id, other}
    requires forall k :: k in tail ==> k in entries
    ensures DrainOf(entries, [id, other] + tail, [PairOf(entries, id), PairOf(entries, other)] + PairsOf(entries, tail))
  {
    var drained := [id, other] + tail;
    assert forall k :: k in drained <==> k == id || k == other || k in tail;
    assert forall k :: k in tail <==> k in Elements(tail);
    hide Refined;
    assert Elements(drained) == {id, other} + Elements(tail);
    assert id !in Elements(tail) && other !in Elements(tail);
    assert Distinct(drained);
  }

  lemma TrackedElsewhere(repo: string, table: seq<BindingEntry>, start: State, calls: seq<RawCall>, o: Place,
                         id: string, other: string)
    requires Accepted(table) && OneLanguage(calls)
    requires var entries := EntriesOf(repo, table, calls);
      id in entries && other in entries && entries[id].originUid == PlaceUid(repo, o)
    ensures exists p ::
      EntriesOf(repo, table, calls)[other].originUid == PlaceUid(repo, p) && (p == o || !p.SameSpot(o))
  {
    var k, b := EntryPlace(repo, table, start, calls, id);
    var l, e := EntryPlace(repo, table, start, calls, other);
    var p, q := PlaceFor(b, calls[k].callsite), PlaceFor(e, calls[l].callsite);
    hide AfterCalls, EntriesOf, PlaceUid, SelectBinding, Registration, Accepted, Emits;
    PlaceUidInjective(repo, p, o);
    assert calls[k].callsite.language == calls[l].callsite.language by {
      assert k == l || k < l || l < k;
    }
    if p.SameSpot(q) {
      OneBinding(table, calls[k].callsite, calls[l].callsite, b, e);
    }
  }

  /** Two clashing variables: draining one or the other first ends differently. */
  lemma ClashShows(repo: string, table: seq<BindingEntry>, start: State, calls: seq<RawCall>, id: string, other: string)
      returns (first: seq<string>, pairs: seq<Turn>, second: seq<string>, others: seq<Turn>)
    requires WellKeyed(repo, start) && Accepted(table) && OneLanguage(calls)
    requires var pass := AfterCalls(repo, table, start, calls);
      && Unoccupied(pass.emitted, pass.entries) && id in Refined(pass.entries) && other in Refined(pass.entries)
      && pass.entries[id].originUid == pass.entries[other].originUid
      && pass.entries[id].Resolved() != pass.entries[other].Resolved()
      && (pass.entries[id].originUid in pass.emitted.surfaces ==>
        pass.emitted.surfaces[pass.entries[id].originUid].direction == Bidirectional)
    ensures var pass := AfterCalls(repo, table, start, calls);
      && DrainOf(pass.entries, first, pairs) && DrainOf(pass.entries, second, others)
      && ApplyAll(pass.emitted, pairs) != ApplyAll(pass.emitted, others)
  {
    var pass := AfterCalls(repo, table, start, calls);
    var st, entries := pass.emitted, pass.entries;
    CallsAreRun(repo, table, start, calls);
    CallsWellKeyed(repo, table, start, calls);
    var k, b := EntryPlace(repo, table, start, calls, id);
    var o := PlaceFor(b, calls[k].callsite);
    var d, e := entries[id].Resolved(), entries[other].Resolved();
    StoredPlace(repo, st, o);
    TurnedPlace(repo, st, o, d);
    var rest, left;
    first, rest := DrainStarting(entries, id, other);
    second, left := DrainStarting(entries, other, id);
    pairs := [PairOf(entries, id), PairOf(entries, other)] + rest;
    others := [PairOf(entries, other), PairOf(entries, id)] + left;
    hide AfterCalls, EntriesOf, WellKeyed, PlaceUid, SelectBinding, Registration, Accepted, Emits, Turned, DrainOf;
    forall t | t in rest || t in left ensures Elsewhere(repo, o, t) {
      var id' :| id' in Refined(entries) && t == PairOf(entries, id');
      TrackedElsewhere(repo, table, start, calls, o, id, id');
    }
    if PlaceUid(repo, o.Facing(d)) == PlaceUid(repo, o) {
      PlaceUidInjective(repo, o.Facing(d), o);
    }
    ClashSeparates(repo, st, o, d, e, rest, left);
  }

  lemma ClashSeparates(repo: string, st: State, o: Place, d: Direction, e: Direction, rest: seq<Turn>, left: seq<Turn>)
    requires WellKeyed(repo, st) && PlaceUid(repo, o) in st.surfaces && PlaceUid(repo, o.Facing(d)) !in st.surfaces
    requires d != o.direction && e != o.direction && d != e
    requires forall t :: t in rest || t in left ==> Elsewhere(repo, o, t)
    ensures var a, b := (PlaceUid(repo, o), d), (PlaceUid(repo, o), e);
      ApplyAll(st, [a, b] + rest) != ApplyAll(st, [b, a] + left)
  {
    var a, b := (PlaceUid(repo, o), d), (PlaceUid(repo, o), e);
    hide WellKeyed, PlaceUid, ApplyAll;
    assert Elsewhere(repo, o, a) && Elsewhere(repo, o, b);
    assert [a, b] + rest == [a] + ([b] + rest) && [b, a] + left == [b] + ([a] + left);
    FirstWins(repo, st, o, d, [b] + rest, e);
    FirstWins(repo, st, o, e, [a] + left, d);
  }

  /** Unless a turned uid is taken already, the order of draining is immaterial
      exactly when no two variables clash. */
  lemma DrainOrderFreeIff(repo: string, table: seq<BindingEntry>, start: State, calls: seq<RawCall>)
    requires WellKeyed(repo, start) && Accepted(table) && OneLanguage(calls)
    requires Unoccupied(AfterCalls(repo, table, start, calls).emitted, AfterCalls(repo, table, start, calls).entries)
    ensures var pass := AfterCalls(repo, table, start, calls);
      NoClash(pass.emitted, pass.entries) <==>
      forall first, pairs, second, others ::
        DrainOf(pass.entries, first, pairs) && DrainOf(pass.entries, second, others) ==>
        ApplyAll(pass.emitted, pairs) == ApplyAll(pass.emitted, others)
  {
    var pass := AfterCalls(repo, table, start, calls);
    if NoClash(pass.emitted, pass.entries) {
      forall first, pairs, second, others |
        DrainOf(pass.entries, first, pairs) && DrainOf(pass.entries, second, others)
        ensures ApplyAll(pass.emitted, pairs) == ApplyAll(pass.emitted, others)
      {
        FunctionForgetsDrainOrder(repo, table, start, calls, first, pairs, second, others);
      }
    } else {
      var id, other :|
        && id in Refined(pass.entries) && other in Refined(pass.entries)
        && pass.entries[id].originUid == pass.entries[other].originUid
        && pass.entries[id].Resolved() != pass.entries[other].Resolved()
        && (pass.entries[id].originUid in pass.emitted.surfaces ==>
          pass.emitted.surfaces[pass.entries[id].originUid].direction == Bidirectional);
      var first, pairs, second, others := ClashShows(repo, table, start, calls, id, other);
    }
  }

  // ---- Functions whose calls sit apart -------------------------------------

  ghost predicate DistinctSocketSites(calls: seq<RawCall>) {
    forall i, j :: 0 <= i < j < |calls| && IsSocketCall(calls[i]) && IsSocketCall(calls[j]) ==>
      SiteOf(calls[i].callsite) != SiteOf(calls[j].callsite)
  }

  /** With socket calls at different sites, different variables have surfaces at
      different spots. */
  lemma OriginsApart(repo: string, table: seq<BindingEntry>, start: State, calls: seq<RawCall>, id: string,
                     other: string)
    requires WellKeyed(repo, start) && DistinctSocketSites(calls) && id != other
    requires var entries := EntriesOf(repo, table, calls); id in entries && other in entries
    ensures var st, entries := AfterCalls(repo, table, start, calls).emitted, EntriesOf(repo, table, calls);
      && entries[id].originUid in st.surfaces && entries[other].originUid in st.surfaces
      && !PlaceOf(st.surfaces[entries[id].originUid]).SameSpot(PlaceOf(st.surfaces[entries[other].originUid]))
  {
    var st := AfterCalls(repo, table, start, calls).emitted;
    CallsWellKeyed(repo, table, start, calls);
    var k, b := EntryPlace(repo, table, start, calls, id);
    var l, e := EntryPlace(repo, table, start, calls, other);
    hide AfterCalls, EntriesOf, PlaceUid, SelectBinding, Registration, Emits, WellKeyed;
    assert k != l;
    assert SiteOf(calls[k].callsite) != SiteOf(calls[l].callsite) by {
      assert k < l || l < k;
    }
    StoredPlace(repo, st, PlaceFor(b, calls[k].callsite));
    StoredPlace(repo, st, PlaceFor(e, calls[l].callsite));
  }

  /** So nothing clashes, and what is drained can be applied one by one. */
  lemma DistinctSitesNeverClash(repo: string, table: seq<BindingEntry>, start: State, calls: seq<RawCall>)
    requires WellKeyed(repo, start) && DistinctSocketSites(calls)
    ensures var pass := AfterCalls(repo, table, start, calls); NoClash(pass.emitted, pass.entries)
  {
    CallsAreRun(repo, table, start, calls);
    var entries := EntriesOf(repo, table, calls);
    hide AfterCalls, EntriesOf, WellKeyed;
    forall id, other |
      id in Refined(entries) && other in Refined(entries) && entries[id].originUid == entries[other].originUid
      ensures id == other
    {
      if id != other {
        OriginsApart(repo, table, start, calls, id, other);
      }
    }
  }

  lemma DrainedIsRefinable(repo: string, table: seq<BindingEntry>, start: State, calls: seq<RawCall>,
                           drained: seq<string>, pairs: seq<Turn>)
    requires WellKeyed(repo, start) && DistinctSocketSites(calls)
    requires DrainOf(EntriesOf(repo, table, calls), drained, pairs)
    ensures Refinable(AfterCalls(repo, table, start, calls).emitted, pairs)
  {
    var st, entries := AfterCalls(repo, table, start, calls).emitted, EntriesOf(repo, table, calls);
    hide AfterCalls, EntriesOf, WellKeyed, DistinctSocketSites, PlaceOf;
    forall i | 0 <= i < |pairs| ensures pairs[i].0 in st.surfaces {
      assert drained[i] in Elements(drained);
      var k, b := EntryPlace(repo, table, start, calls, drained[i]);
    }
    forall i, j | 0 <= i < j < |pairs|
      ensures !PlaceOf(st.surfaces[pairs[i].0]).SameSpot(PlaceOf(st.surfaces[pairs[j].0]))
    {
      assert drained[i] != drained[j];
      OriginsApart(repo, table, start, calls, drained[i], drained[j]);
    }
  }

  /** Then every refinement finds its surface as the calls left it. */
  lemma FunctionUpdatesSucceed(repo: string, table: seq<BindingEntry>, start: State, calls: seq<RawCall>,
                               drained: seq<string>, pairs: seq<Turn>, i: nat)
    requires WellKeyed(repo, start) && DistinctSocketSites(calls) && i < |pairs|
    requires DrainOf(EntriesOf(repo, table, calls), drained, pairs)
    ensures var emitted := AfterCalls(repo, table, start, calls).emitted;
      && pairs[i].0 in emitted.surfaces && pairs[i].0 in ApplyAll(emitted, pairs[..i]).surfaces
      && ApplyAll(emitted, pairs[..i]).surfaces[pairs[i].0] == emitted.surfaces[pairs[i].0]
  {
    CallsWellKeyed(repo, table, start, calls);
    DrainedIsRefinable(repo, table, start, calls, drained, pairs);
    hide AfterCalls, EntriesOf, WellKeyed, DrainOf, PlaceOf;
    ApplySucceeds(repo, AfterCalls(repo, table, start, calls).emitted, pairs, i);
  }

  /** No stored surface sits where one of the calls does. */
  ghost predicate Unvisited(st: State, calls: seq<RawCall>) {
    forall uid, k :: uid in st.surfaces && 0 <= k < |calls| ==>
      PlaceSite(PlaceOf(st.surfaces[uid])) != SiteOf(calls[k].callsite)
  }

  ghost predicate DistinctSites(calls: seq<RawCall>) {
    forall i, j :: 0 <= i < j < |calls| ==> SiteOf(calls[i].callsite) != SiteOf(calls[j].callsite)
  }

  /** A function whose calls sit apart and at sites not seen before overwrites no
      surface: no turned uid is taken. */
  lemma FunctionLosesNothing(repo: string, table: seq<BindingEntry>, start: State, calls: seq<RawCall>,
                             drained: seq<string>, pairs: seq<Turn>)
    requires WellKeyed(repo, start) && DistinctSites(calls) && Unvisited(start, calls)
    requires DrainOf(EntriesOf(repo, table, calls), drained, pairs)
    ensures var emitted := AfterCalls(repo, table, start, calls).emitted;
      && NewUids(emitted, pairs) !! (emitted.surfaces.Keys - Origins(pairs))
      && |ApplyAll(emitted, pairs).surfaces| == |emitted.surfaces|
  {
    var emitted := AfterCalls(repo, table, start, calls).emitted;
    assert DistinctSocketSites(calls);
    DrainedIsRefinable(repo, table, start, calls, drained, pairs);
    CallsWellKeyed(repo, table, start, calls);
    hide AfterCalls, EntriesOf, WellKeyed, DistinctSites, DistinctSocketSites, Unvisited, Refinable, NewUid, Refined;
    forall n | n in NewUids(emitted, pairs) && n in emitted.surfaces ensures n in Origins(pairs) {
      var p :| p in pairs && p.0 in emitted.surfaces && NewUid(emitted, p) == n;
      var i :| 0 <= i < |pairs| && pairs[i] == p;
      assert drained[i] in Elements(drained);
      TurnedUidIsOrigin(repo, table, start, calls, drained[i]);
    }
    NothingLostIff(repo, emitted, pairs);
  }

  lemma TurnedUidIsOrigin(repo: string, table: seq<BindingEntry>, start: State, calls: seq<RawCall>, id: string)
    requires WellKeyed(repo, start) && DistinctSites(calls) && Unvisited(start, calls)
    requires id in EntriesOf(repo, table, calls)
    ensures var st, entry := AfterCalls(repo, table, start, calls).emitted, EntriesOf(repo, table, calls)[id];
      && entry.originUid in st.surfaces
      && (NewUid(st, (entry.originUid, entry.Resolved())) in st.surfaces ==>
        NewUid(st, (entry.originUid, entry.Resolved())) == entry.originUid)
  {
    var st, entry := AfterCalls(repo, table, start, calls).emitted, EntriesOf(repo, table, calls)[id];
    CallsWellKeyed(repo, table, start, calls);
    var k, b := EntryPlace(repo, table, start, calls, id);
    var o := PlaceFor(b, calls[k].callsite);
    hide AfterCalls, EntriesOf, WellKeyed, PlaceUid, SelectBinding, Registration, Emits, Unvisited, DistinctSites;
    StoredPlace(repo, st, o);
    TurnedPlace(repo, st, o, entry.Resolved());
    var n := NewUid(st, (entry.originUid, entry.Resolved()));
    var q := if n == entry.originUid then o else o.Facing(entry.Resolved());
    assert n == PlaceUid(repo, q) && PlaceSite(q) == SiteOf(calls[k].callsite);
    if n in st.surfaces {
      OnlyOneAtSite(repo, table, start, calls, k, q, entry.originUid);
    }
  }

  /** Among calls that sit apart, what is stored at a call's site is what it emitted. */
  lemma OnlyOneAtSite(repo: string, table: seq<BindingEntry>, start: State, calls: seq<RawCall>, k: nat, q: Place,
                      uid: string)
    requires WellKeyed(repo, start) && DistinctSites(calls) && Unvisited(start, calls)
    requires k < |calls| && PlaceSite(q) == SiteOf(calls[k].callsite) && Emits(repo, table, calls[k], uid)
    requires PlaceUid(repo, q) in AfterCalls(repo, table, start, calls).emitted.surfaces
    ensures PlaceUid(repo, q) == uid
  {
    var n := PlaceUid(repo, q);
    StoredIsEmitted(repo, table, start, calls, n);
    hide AfterCalls, WellKeyed, PlaceUid, SelectBinding, EmitFacts, PlaceOf, SiteOf;
    if n in start.surfaces {
      StoredPlace(repo, start, q);
    } else {
      var m :| 0 <= m < |calls| && Emits(repo, table, calls[m], n);
      EmittedPlace(repo, table, calls[m].callsite);
      PlaceUidInjective(repo, q, PlaceOf(EmitFacts(repo, table, calls[m].callsite).value.surface));
      assert m == k || m < k || k < m;
    }
  }

  // ---- A function as one run -----------------------------------------------

  function Updates(pairs: seq<Turn>): (ops: seq<Op>)
    ensures |ops| == |pairs| && forall i :: 0 <= i < |pairs| ==> ops[i] == Update(pairs[i].0, pairs[i].1)
  {
    seq(|pairs|, i requires 0 <= i < |pairs| => Update(pairs[i].0, pairs[i].1))
  }

  lemma {:induction false} RunConcat(repo: string, table: seq<BindingEntry>, st: State, first: seq<Op>, second: seq<Op>)
    ensures Run(repo, table, st, first + second) == Run(repo, table, Run(repo, table, st, first), second)
  {
    hide Step;
    if second == [] {
      assert first + second == first;
    } else {
      assert Front(first + second) == first + Front(second);
      RunConcat(repo, table, st, first, Front(second));
    }
  }

  lemma {:induction false} UpdatesAreRun(repo: string, table: seq<BindingEntry>, st: State, pairs: seq<Turn>)
    ensures ApplyAll(st, pairs) == Run(repo, table, st, Updates(pairs))
    decreases |pairs|
  {
    hide AfterUpdate;
    if pairs != [] {
      var first: seq<Op> := [Update(pairs[0].0, pairs[0].1)];
      assert Updates(pairs) == first + Updates(pairs[1..]);
      RunConcat(repo, table, st, first, Updates(pairs[1..]));
      assert Front(first) == [];
      UpdatesAreRun(repo, table, AfterUpdate(st, pairs[0].0, pairs[0].1), pairs[1..]);
    }
  }

  /** One function: its calls, then its refinements. */
  datatype FunctionRun = FunctionRun(calls: seq<RawCall>, pairs: seq<Turn>)

  /** The pairs are those of the registry, in some order. */
  ghost predicate Drains(repo: string, table: seq<BindingEntry>, f: FunctionRun) {
    exists drained :: DrainOf(EntriesOf(repo, table, f.calls), drained, f.pairs)
  }

  function FunctionOps(repo: string, table: seq<BindingEntry>, f: FunctionRun): seq<Op> {
    Emissions(repo, table, f.calls) + Updates(f.pairs)
  }

  ghost function AfterFunction(repo: string, table: seq<BindingEntry>, st: State, f: FunctionRun): State {
    ApplyAll(AfterCalls(repo, table, st, f.calls).emitted, f.pairs)
  }

  lemma FunctionIsRun(repo: string, table: seq<BindingEntry>, st: State, f: FunctionRun)
    ensures AfterFunction(repo, table, st, f) == Run(repo, table, st, FunctionOps(repo, table, f))
  {
    hide ApplyAll, AfterCalls, Emissions, Run;
    CallsAreRun(repo, table, st, f.calls);
    UpdatesAreRun(repo, table, AfterCalls(repo, table, st, f.calls).emitted, f.pairs);
    RunConcat(repo, table, st, Emissions(repo, table, f.calls), Updates(f.pairs));
  }

  lemma PairPlace(repo: string, table: seq<BindingEntry>, f: FunctionRun, i: nat) returns (k: nat, p: Place)
    requires Drains(repo, table, f) && i < |f.pairs|
    ensures f.pairs[i].0 == PlaceUid(repo, p) && k < |f.calls| && PlaceSite(p) == SiteOf(f.calls[k].callsite)
    ensures !p.kind.RequiresDualProjection()
  {
    var drained :| DrainOf(EntriesOf(repo, table, f.calls), drained, f.pairs);
    assert drained[i] in Elements(drained);
    var b;
    k, b := EntryPlace(repo, table, EMPTY, f.calls, drained[i]);
    p := PlaceFor(b, f.calls[k].callsite);
  }

  lemma {:induction false} EmissionsAreCalls(repo: string, table: seq<BindingEntry>, calls: seq<RawCall>, op: Op)
        returns (k: nat)
    requires op in Emissions(repo, table, calls)
    ensures k < |calls| && op == Emit(calls[k].callsite)
  {
    hide EvidenceOnly, EntriesOf;
    if op in Emissions(repo, table, Front(calls)) {
      k := EmissionsAreCalls(repo, table, Front(calls), op);
    } else {
      k := |calls| - 1;
    }
  }

  /** The refinement of sockets never touches a surface that needs dual projection,
      so a function keeps the dual-projection list exact. */
  lemma FunctionDualExact(repo: string, table: seq<BindingEntry>, st: State, f: FunctionRun)
    requires WellKeyed(repo, st) && DualExact(st) && Drains(repo, table, f)
    ensures WellKeyed(repo, AfterFunction(repo, table, st, f)) && DualExact(AfterFunction(repo, table, st, f))
  {
    FunctionIsRun(repo, table, st, f);
    var ops := FunctionOps(repo, table, f);
    hide AfterFunction, WellKeyed, DualExact, Run, Drains, Emissions;
    forall n | 0 <= n < |ops| ensures UpdatesPlain(repo, ops[n]) {
      if n < |Emissions(repo, table, f.calls)| {
        var k := EmissionsAreCalls(repo, table, f.calls, ops[n]);
      } else {
        var k, p := PairPlace(repo, table, f, n - |Emissions(repo, table, f.calls)|);
        hide PlaceUid;
      }
    }
    RunWellKeyed(repo, table, st, ops);
    PlainRunDualExact(repo, table, st, ops);
  }

  // ---- The loop itself -----------------------------------------------------

  /** One function's calls against a live emitter. Updates' results are ignored,
      as the caller does. */
  method ProcessFunction(emitter: BoundaryInteractionEmitter, calls: seq<RawCall>) returns (ghost f: FunctionRun)
    requires emitter.Valid()
    modifies emitter
    ensures emitter.Valid()
    ensures f.calls == calls && Drains(emitter.repoUid, emitter.bindingTable, f)
    ensures emitter.View() == AfterFunction(emitter.repoUid, emitter.bindingTable, old(emitter.View()), f)
  {
    var registry := new FdRegistry();
    for n := 0 to |calls|
      invariant emitter.Valid()
      invariant Pass(emitter.View(), registry.entries) ==
        AfterCalls(emitter.repoUid, emitter.bindingTable, old(emitter.View()), calls[..n])
    {
      assert calls[..n + 1][..n] == calls[..n];
      ProcessCall(emitter, registry, calls[n]);
    }
    assert calls[..|calls|] == calls;
    CallsAreRun(emitter.repoUid, emitter.bindingTable, old(emitter.View()), calls);
    ghost var emitted := emitter.View();
    var refinements;
    ghost var drained;
    refinements, drained := registry.DrainForRefinement();
    f := FunctionRun(calls, refinements);
    for n := 0 to |refinements|
      invariant emitter.Valid()
      invariant ApplyAll(emitter.View(), refinements[n..]) == ApplyAll(emitted, refinements)
    {
      assert refinements[n..][0] == refinements[n] && refinements[n..][1..] == refinements[n + 1..];
      var _ := emitter.UpdateSurfaceDirection(refinements[n].0, refinements[n].1);
    }
    assert DrainOf(EntriesOf(emitter.repoUid, emitter.bindingTable, calls), drained, refinements);
  }

  method ProcessCall(emitter: BoundaryInteractionEmitter, registry: FdRegistry, raw: RawCall)
    requires emitter.Valid()
    modifies emitter, registry
    ensures emitter.Valid()
    ensures Pass(emitter.View(), registry.entries) ==
      AfterCall(emitter.repoUid, emitter.bindingTable, old(Pass(emitter.View(), registry.entries)), raw)
  {
    hide EmitFacts, WellKeyed;
    var call := RoleCall(raw.callsite.functionName);
    if IsSocketCall(raw) {
      var r := emitter.TryEmit(raw.callsite);
      match r.value
      case Some(facts) =>
        var kind := TrackedKindOf(facts.surface.channelKind);
        if raw.assignedIdentifier.Some? && kind.Some? {
          registry.RegisterSocket(raw.assignedIdentifier.value, kind.value, facts.surface.surfaceUid);
        }
      case None =>
    } else if call.Some? && raw.fdArgument.Some? {
      var tracked := registry.IsTracked(raw.fdArgument.value);
      if tracked {
        registry.RecordCall(raw.fdArgument.value, call.value);
      } else {
        var _ := emitter.TryEmit(raw.callsite);
      }
    } else {
      var _ := emitter.TryEmit(raw.callsite);
    }
  }
}
