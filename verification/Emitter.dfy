/** `emit.rs`: the boundary emitter. A callsite is matched against the binding
    table and stored as a surface with a channel; a later pass may turn a stored
    surface's direction, which re-keys it. */
module Emitter {
  import opened Wrappers
  import opened Text
  import opened Ordering
  import opened Surface
  import opened BindingTable

  datatype SocketFamily = UnixFamily | Inet | Inet6 | CanFamily | UnknownFamily

  datatype SocketType = Stream | Datagram | Raw | SeqPacket | UnknownType

  datatype MmapFlags = Shared | Private | UnknownFlags

  datatype EndpointLocality = Loopback | SameHostNamed | RemoteLiteral | UnknownLocality

  datatype Location = Location(lineStart: int, colStart: int, lineEnd: int, colEnd: int)

  datatype Callsite = Callsite(
    language: Language,
    functionName: string,
    location: Location,
    sourceFile: string,
    enclosingSymbolKey: string,
    extractedArgument: Option<string>,
    apiFamily: Option<string>,
    socketFamily: Option<SocketFamily>,
    socketType: Option<SocketType>,
    mmapFlags: Option<MmapFlags>,
    mknodMode: Option<nat>)

  datatype BoundarySurface = BoundarySurface(
    surfaceUid: string,
    repoUid: string,
    boundaryScope: BoundaryScope,
    channelKind: ChannelKind,
    direction: Direction,
    endpointLocality: EndpointLocality,
    symbolStableKey: string,
    sourceFile: string,
    lineStart: nat,
    lineEnd: nat,
    colStart: nat,
    colEnd: nat)

  datatype Channel = Channel(channelUid: string, surfaceUid: string, channelKind: ChannelKind, channelIdentity: string)

  datatype EmittedFacts = EmittedFacts(surface: BoundarySurface, channel: Channel, requiresDualProjection: bool)

  datatype EmitError = InvalidState(message: string)

  // ---- Choosing a binding --------------------------------------------------

  predicate IsInet(family: Option<SocketFamily>) {
    family == Some(Inet) || family == Some(Inet6)
  }

  predicate LooksLikePath(argument: Option<string>) {
    argument.Some? && argument.value != "" && (argument.value[0] == '/' || argument.value[0] == '.')
  }

  /** `S_IFIFO` is bit 12 of the mode. */
  predicate HasFifoBit(mode: nat) {
    mode / 4096 % 2 == 1
  }

  /** `binding_matches_context`. */
  predicate MatchesContext(b: BindingEntry, c: Callsite) {
    match b.channelKind
    case UnixSocket =>
      (match c.socketFamily
       case Some(UnixFamily) => true
       case Some(_) => false
       case None => c.functionName != "socket" && LooksLikePath(c.extractedArgument))
    case TcpSocket =>
      if c.functionName in {"socket", "bind", "connect"} then IsInet(c.socketFamily) && c.socketType == Some(Stream)
      else if c.functionName in {"listen", "accept", "send", "recv"} then IsInet(c.socketFamily)
      else false
    case UdpSocket =>
      if c.functionName in {"socket", "bind", "connect"} then IsInet(c.socketFamily) && c.socketType == Some(Datagram)
      else if c.functionName in {"sendto", "recvfrom"} then IsInet(c.socketFamily)
      else false
    case SharedMemory => c.functionName == "mmap" ==> c.mmapFlags == Some(Shared)
    case NamedPipe => c.functionName == "mknod" ==> c.mknodMode.Some? && HasFifoBit(c.mknodMode.value)
    case AnonymousPipe => true
    case MessageQueue => true
    case Semaphore => true
    case ProcessSignal => true
    case InterCoreChannel => true
    case SharedArrayBuffer => true
    case AmqpQueue => true
    case KafkaTopic => true
    case NatsSubject => true
    case _ => false
  }

  function FilterFamily(candidates: seq<BindingEntry>, family: Option<string>): seq<BindingEntry> {
    if candidates == [] then []
    else
      (if family.None? || candidates[0].apiFamily == family.value then [candidates[0]] else [])
        + FilterFamily(candidates[1..], family)
  }

  function FirstMatch(candidates: seq<BindingEntry>, c: Callsite): (b: Option<BindingEntry>)
    ensures b.Some? ==> b.value in candidates && MatchesContext(b.value, c)
    ensures b.None? ==> forall e :: e in candidates ==> !MatchesContext(e, c)
  {
    if candidates == [] then None
    else if MatchesContext(candidates[0], c) then Some(candidates[0])
    else FirstMatch(candidates[1..], c)
  }

  /** The candidates a callsite sees, in table order. */
  function Candidates(table: seq<BindingEntry>, c: Callsite): seq<BindingEntry> {
    FilterFamily(FindByFunction(table, c.language, c.functionName), c.apiFamily)
  }

  /** Table order is the precedence order. */
  function SelectBinding(table: seq<BindingEntry>, c: Callsite): Option<BindingEntry> {
    FirstMatch(Candidates(table, c), c)
  }

  /** Lookup, family filter and guard let the entry through. */
  predicate Suits(e: BindingEntry, c: Callsite) {
    && IsFor(e, c.language, c.functionName)
    && (c.apiFamily.Some? ==> e.apiFamily == c.apiFamily.value)
    && MatchesContext(e, c)
  }

  /** The entry may be chosen for the callsite. */
  ghost predicate Passes(table: seq<BindingEntry>, c: Callsite, e: BindingEntry) {
    e in table && Suits(e, c)
  }

  /** The first entry of the table that passes. */
  ghost predicate FirstPassing(table: seq<BindingEntry>, c: Callsite, p: nat) {
    && p < |table| && Suits(table[p], c)
    && forall q :: 0 <= q < p ==> !Suits(table[q], c)
  }

  lemma SelectionStep(table: seq<BindingEntry>, c: Callsite)
    requires table != []
    ensures SelectBinding(table, c) == if Suits(table[0], c) then Some(table[0]) else SelectBinding(table[1..], c)
  {
    hide MatchesContext;
    var found := FindByFunction(table[1..], c.language, c.functionName);
    FindByFunctionStep(table, c.language, c.functionName);
    var kept := FilterFamily(found, c.apiFamily);
    assert ([table[0]] + found)[1..] == found && ([table[0]] + kept)[1..] == kept && [] + kept == kept;
  }

  /** Declaration order is the precedence order: the selected binding is the first
      that passes, and nothing is selected only if nothing passes. */
  lemma {:induction false} SelectionIsFirst(table: seq<BindingEntry>, c: Callsite)
    ensures match SelectBinding(table, c)
      case Some(e) => exists p: nat :: FirstPassing(table, c, p) && table[p] == e
      case None => forall p :: 0 <= p < |table| ==> !Suits(table[p], c)
  {
    if table != [] {
      SelectionStep(table, c);
      hide SelectBinding, Suits;
      var tail := table[1..];
      SelectionIsFirst(tail, c);
      assert forall q :: 1 <= q < |table| ==> table[q] == tail[q - 1];
      if Suits(table[0], c) {
        assert FirstPassing(table, c, 0);
      } else if SelectBinding(tail, c).Some? {
        var p: nat :| FirstPassing(tail, c, p) && tail[p] == SelectBinding(tail, c).value;
        assert FirstPassing(table, c, p + 1);
      }
    }
  }

  lemma {:induction false} FilterFamilyMembers(candidates: seq<BindingEntry>, family: Option<string>)
    ensures forall e :: e in FilterFamily(candidates, family) <==>
      e in candidates && (family.Some? ==> e.apiFamily == family.value)
  {
    if candidates != [] {
      FilterFamilyMembers(candidates[1..], family);
    }
  }

  lemma SelectionPasses(table: seq<BindingEntry>, c: Callsite)
    ensures match SelectBinding(table, c)
      case Some(e) => Passes(table, c, e)
      case None => forall e :: !Passes(table, c, e)
  {
    FindByFunctionMembers(table, c.language, c.functionName);
    FilterFamilyMembers(FindByFunction(table, c.language, c.functionName), c.apiFamily);
  }

  /** What the guards are there to prevent: no Unix-socket fact for an internet
      socket, no internet-socket fact for a Unix socket, no shared memory without
      `MAP_SHARED`, no named pipe without `S_IFIFO`. */
  lemma GuardPromises(table: seq<BindingEntry>, c: Callsite)
    requires SelectBinding(table, c).Some?
    ensures var kind := SelectBinding(table, c).value.channelKind;
      && (IsInet(c.socketFamily) ==> kind != UnixSocket)
      && (c.socketFamily == Some(UnixFamily) ==> kind != TcpSocket && kind != UdpSocket)
      && (c.functionName == "mmap" && c.mmapFlags != Some(Shared) ==> kind != SharedMemory)
      && (c.functionName == "mknod" && !(c.mknodMode.Some? && HasFifoBit(c.mknodMode.value)) ==> kind != NamedPipe)
  {
    SelectionPasses(table, c);
  }

  /** What family and type say a `socket` call opens. */
  function SocketKindOf(c: Callsite): Option<ChannelKind> {
    if c.socketFamily == Some(UnixFamily) then Some(UnixSocket)
    else if IsInet(c.socketFamily) && c.socketType == Some(Stream) then Some(TcpSocket)
    else if IsInet(c.socketFamily) && c.socketType == Some(Datagram) then Some(UdpSocket)
    else None
  }

  lemma SocketGuardsClassify(e: BindingEntry, c: Callsite)
    requires c.functionName == "socket" && IsSocketKind(e.channelKind)
    ensures MatchesContext(e, c) <==> SocketKindOf(c) == Some(e.channelKind)
  {
  }

  /** A table that offers all three socket kinds, and only those, for `socket`
      classifies the call by family and type: exactly one kind, or none. */
  lemma SocketCallKind(table: seq<BindingEntry>, c: Callsite)
    requires c.functionName == "socket"
    requires forall e :: e in Candidates(table, c) ==> IsSocketKind(e.channelKind)
    requires forall kind :: IsSocketKind(kind) ==> exists e :: e in Candidates(table, c) && e.channelKind == kind
    ensures match SelectBinding(table, c)
      case Some(b) => SocketKindOf(c) == Some(b.channelKind)
      case None => SocketKindOf(c) == None
  {
    forall e | e in Candidates(table, c)
      ensures MatchesContext(e, c) <==> SocketKindOf(c) == Some(e.channelKind)
    {
      SocketGuardsClassify(e, c);
    }
    hide MatchesContext, Candidates;
    if SocketKindOf(c).Some? {
      assert IsSocketKind(SocketKindOf(c).value);
    }
  }

  /** At most one table entry passes the callsite's filters and guards. */
  ghost predicate Unambiguous(table: seq<BindingEntry>, c: Callsite) {
    forall e, f :: Passes(table, c, e) && Passes(table, c, f) ==> e == f
  }

  /** Table order is immaterial for a callsite exactly when it is unambiguous. */
  lemma SelectionOrderFreeIff(table: seq<BindingEntry>, c: Callsite)
    ensures Unambiguous(table, c) <==>
      forall shuffled :: Permutation(table, shuffled) ==> SelectBinding(shuffled, c) == SelectBinding(table, c)
  {
    if Unambiguous(table, c) {
      forall shuffled | Permutation(table, shuffled) ensures SelectBinding(shuffled, c) == SelectBinding(table, c) {
        PermutationFacts(table, shuffled);
        SelectionPasses(table, c);
        SelectionPasses(shuffled, c);
        assert forall e :: Passes(shuffled, c, e) <==> Passes(table, c, e);
      }
    } else {
      var e, f :| Passes(table, c, e) && Passes(table, c, f) && e != f;
      var fronted := MovedToFront(table, e, c);
      var other := MovedToFront(table, f, c);
    }
  }

  lemma MovedToFront(table: seq<BindingEntry>, e: BindingEntry, c: Callsite) returns (fronted: seq<BindingEntry>)
    requires Passes(table, c, e)
    ensures Permutation(table, fronted) && SelectBinding(fronted, c) == Some(e)
  {
    var i :| 0 <= i < |table| && table[i] == e;
    fronted := [e] + (table[..i] + table[i + 1..]);
    assert table == table[..i] + [e] + table[i + 1..];
    SelectionStep(fronted, c);
  }

  predicate IsSocketKind(kind: ChannelKind) {
    kind == UnixSocket || kind == TcpSocket || kind == UdpSocket
  }

  /** The three socket guards exclude each other on every callsite. */
  lemma SocketGuardsExclusive(e: BindingEntry, f: BindingEntry, c: Callsite)
    requires IsSocketKind(e.channelKind) && IsSocketKind(f.channelKind)
    requires MatchesContext(e, c) && MatchesContext(f, c)
    ensures e.channelKind == f.channelKind
  {
  }

  /** For an accepted table, a callsite whose candidates are all sockets selects
      the same binding under any permutation of the table. */
  lemma SocketSelectionOrderFree(table: seq<BindingEntry>, shuffled: seq<BindingEntry>, c: Callsite)
    requires Accepted(table) && Permutation(table, shuffled)
    requires forall e :: e in Candidates(table, c) ==> IsSocketKind(e.channelKind)
    ensures SelectBinding(shuffled, c) == SelectBinding(table, c)
  {
    FindByFunctionMembers(table, c.language, c.functionName);
    FilterFamilyMembers(FindByFunction(table, c.language, c.functionName), c.apiFamily);
    AcceptedMeaning(table);
    forall e, f | Passes(table, c, e) && Passes(table, c, f) ensures e == f {
      SocketGuardsExclusive(e, f, c);
      var i :| 0 <= i < |table| && table[i] == e;
      var j :| 0 <= j < |table| && table[j] == f;
      assert KeyOf(table[i]) == KeyOf(table[j]);
      assert i == j || i < j || j < i;
    }
    SelectionOrderFreeIff(table, c);
  }

  // ---- Building facts ------------------------------------------------------

  /** `determine_scope_and_locality`. */
  function ScopeAndLocality(b: BindingEntry, c: Callsite): (BoundaryScope, EndpointLocality) {
    match b.scopeHeuristic
    case Fixed =>
      (if b.fixedScope.Some? then b.fixedScope.value else UnknownScope,
       match b.channelKind
       case UnixSocket => SameHostNamed
       case NamedPipe => SameHostNamed
       case SharedMemory => SameHostNamed
       case MessageQueue => SameHostNamed
       case Semaphore => SameHostNamed
       case AnonymousPipe => SameHostNamed
       case _ => UnknownLocality)
    case ArgFamily =>
      (match c.socketFamily
       case Some(UnixFamily) => (InterProcess, SameHostNamed)
       case Some(CanFamily) => (InterDevice, UnknownLocality)
       case _ => (UnknownScope, UnknownLocality))
    case Sockaddr =>
      if c.socketFamily == Some(UnixFamily) then (InterProcess, SameHostNamed) else (UnknownScope, UnknownLocality)
    case Path => (InterProcess, SameHostNamed)
  }

  /** `x.max(0) as u32` on a signed 64-bit location. */
  function ToU32(x: int): nat {
    if x < 0 then 0 else x % 0x1_0000_0000
  }

  function SignedDecimal(x: int): string {
    if x < 0 then "-" + Decimal(-x) else Decimal(x)
  }

  function PlaceOf(s: BoundarySurface): Place {
    Place(s.sourceFile, s.lineStart, s.colStart, s.channelKind, s.direction)
  }

  function UidOf(s: BoundarySurface): string {
    PlaceUid(s.repoUid, PlaceOf(s))
  }

  function BuildSurface(repo: string, b: BindingEntry, c: Callsite): BoundarySurface {
    var (scope, locality) := ScopeAndLocality(b, c);
    var direction := b.role.Direction();
    var line, col := ToU32(c.location.lineStart), ToU32(c.location.colStart);
    BoundarySurface(BuildUid(repo, c.sourceFile, line, col, b.channelKind, direction),
                    repo, scope, b.channelKind, direction, locality, c.enclosingSymbolKey, c.sourceFile,
                    line, ToU32(c.location.lineEnd), col, ToU32(c.location.colEnd))
  }

  function BuildChannel(b: BindingEntry, c: Callsite, surfaceUid: string): Channel {
    var identity :=
      if c.extractedArgument.Some? then c.extractedArgument.value
      else c.sourceFile + ":" + SignedDecimal(c.location.lineStart);
    Channel(BuildChannelUid(surfaceUid, identity), surfaceUid, b.channelKind, identity)
  }

  function FactsFor(repo: string, b: BindingEntry, c: Callsite): EmittedFacts {
    var surface := BuildSurface(repo, b, c);
    EmittedFacts(surface, BuildChannel(b, c, surface.surfaceUid), b.channelKind.RequiresDualProjection())
  }

  // ---- The emitter's state as a value --------------------------------------

  datatype State = State(
    surfaces: map<string, BoundarySurface>,
    channels: map<string, Channel>,
    dual: seq<string>)

  const EMPTY := State(map[], map[], [])

  /** `entry(key).or_insert(value)`. */
  function OrInsert<V>(m: map<string, V>, key: string, value: V): map<string, V> {
    if key in m then m else m[key := value]
  }

  function EmitFacts(repo: string, table: seq<BindingEntry>, c: Callsite): Option<EmittedFacts> {
    match SelectBinding(table, c)
    case None => None
    case Some(b) => Some(FactsFor(repo, b, c))
  }

  function Stored(st: State, facts: EmittedFacts): State {
    State(OrInsert(st.surfaces, facts.surface.surfaceUid, facts.surface),
          OrInsert(st.channels, facts.channel.channelUid, facts.channel),
          if facts.requiresDualProjection then st.dual + [facts.surface.surfaceUid] else st.dual)
  }

  /** What one `try_emit` does to the state. */
  function AfterEmit(repo: string, table: seq<BindingEntry>, st: State, c: Callsite): State {
    match EmitFacts(repo, table, c)
    case None => st
    case Some(facts) => Stored(st, facts)
  }

  function ReplaceFirst(s: seq<string>, x: string, y: string): seq<string> {
    if s == [] then [] else if s[0] == x then [y] + s[1..] else [s[0]] + ReplaceFirst(s[1..], x, y)
  }

  function Repointed(channels: map<string, Channel>, oldUid: string, newUid: string): map<string, Channel> {
    map k | k in channels ::
      if channels[k].surfaceUid == oldUid then channels[k].(surfaceUid := newUid) else channels[k]
  }

  /** The stored surface with its direction turned and its uid recomputed. */
  function Turned(s: BoundarySurface, direction: Direction): BoundarySurface {
    var turned := s.(direction := direction);
    turned.(surfaceUid := UidOf(turned))
  }

  /** Turned only if it does not have the direction yet. */
  function Toward(s: BoundarySurface, direction: Direction): BoundarySurface {
    if s.direction == direction then s else Turned(s, direction)
  }

  /** What `update_surface_direction` does to the state; a missing uid changes nothing. */
  function AfterUpdate(st: State, oldUid: string, direction: Direction): State {
    if oldUid !in st.surfaces || st.surfaces[oldUid].direction == direction then st
    else
      var turned := Turned(st.surfaces[oldUid], direction);
      State((st.surfaces - {oldUid})[turned.surfaceUid := turned],
            Repointed(st.channels, oldUid, turned.surfaceUid),
            ReplaceFirst(st.dual, oldUid, turned.surfaceUid))
  }

  const NOT_FOUND := "surface not found for direction update: "

  /** What the update answers: the uid the surface now has, or that there is none. */
  function UpdateResult(st: State, oldUid: string, direction: Direction): Result<string, EmitError> {
    if oldUid !in st.surfaces then Err(InvalidState(NOT_FOUND + oldUid))
    else Ok(Toward(st.surfaces[oldUid], direction).surfaceUid)
  }

  // ---- Run invariants ------------------------------------------------------

  /** Surfaces sit under their own printed uid; channels point at stored surfaces. */
  ghost predicate WellKeyed(repo: string, st: State) {
    && (forall k :: k in st.surfaces ==>
      st.surfaces[k].surfaceUid == k && UidOf(st.surfaces[k]) == k && st.surfaces[k].repoUid == repo)
    && (forall k :: k in st.channels ==> st.channels[k].surfaceUid in st.surfaces)
  }

  /** The dual-projection list names exactly the stored surfaces that need it. */
  ghost predicate DualExact(st: State) {
    forall k :: k in st.dual <==> k in st.surfaces && st.surfaces[k].channelKind.RequiresDualProjection()
  }

  /** Within one repository, surfaces with one uid are at one place. */
  lemma SameUidSamePlace(s: BoundarySurface, t: BoundarySurface)
    requires s.repoUid == t.repoUid && UidOf(s) == UidOf(t)
    ensures PlaceOf(s) == PlaceOf(t)
  {
    PlaceUidInjective(s.repoUid, PlaceOf(s), PlaceOf(t));
  }

  /** What is stored under a printed place is at that place. */
  lemma StoredPlace(repo: string, st: State, p: Place)
    requires WellKeyed(repo, st) && PlaceUid(repo, p) in st.surfaces
    ensures PlaceOf(st.surfaces[PlaceUid(repo, p)]) == p
  {
    hide PlaceUid;
    PlaceUidInjective(repo, PlaceOf(st.surfaces[PlaceUid(repo, p)]), p);
  }

  lemma EmitWellKeyed(repo: string, table: seq<BindingEntry>, st: State, c: Callsite)
    requires WellKeyed(repo, st)
    ensures WellKeyed(repo, AfterEmit(repo, table, st, c))
    ensures st.surfaces.Keys <= AfterEmit(repo, table, st, c).surfaces.Keys
  {
    hide SelectBinding, ScopeAndLocality, BuildChannelUid, BuildUid;
  }

  lemma EmitDualExact(repo: string, table: seq<BindingEntry>, st: State, c: Callsite)
    requires WellKeyed(repo, st) && DualExact(st)
    ensures DualExact(AfterEmit(repo, table, st, c))
  {
    hide SelectBinding, ScopeAndLocality, BuildChannelUid, BuildUid;
    if b :| SelectBinding(table, c) == Some(b) {
      var facts := FactsFor(repo, b, c);
      var uid := facts.surface.surfaceUid;
      if uid in st.surfaces {
        SameUidSamePlace(st.surfaces[uid], facts.surface);
      }
      var after := AfterEmit(repo, table, st, c);
      assert forall k :: k in after.dual <==> k in st.dual || (facts.requiresDualProjection && k == uid);
    }
  }

  lemma TurnedUid(repo: string, st: State, oldUid: string, direction: Direction)
    requires WellKeyed(repo, st) && oldUid in st.surfaces && st.surfaces[oldUid].direction != direction
    ensures var turned := Turned(st.surfaces[oldUid], direction);
      turned.surfaceUid == UidOf(turned) && turned.repoUid == repo && turned.surfaceUid != oldUid
  {
    var turned := Turned(st.surfaces[oldUid], direction);
    if UidOf(turned) == oldUid {
      SameUidSamePlace(turned, st.surfaces[oldUid]);
    }
  }

  lemma UpdateWellKeyed(repo: string, st: State, oldUid: string, direction: Direction)
    requires WellKeyed(repo, st)
    ensures WellKeyed(repo, AfterUpdate(st, oldUid, direction))
  {
    if oldUid in st.surfaces && st.surfaces[oldUid].direction != direction {
      TurnedUid(repo, st, oldUid, direction);
      hide BuildUid;
    }
  }

  lemma {:induction false} ReplaceFirstMembers(s: seq<string>, x: string, y: string)
    requires x != y
    ensures forall k :: k != x && k != y ==> (k in ReplaceFirst(s, x, y) <==> k in s)
    ensures y in ReplaceFirst(s, x, y) <==> x in s || y in s
    ensures x in ReplaceFirst(s, x, y) <==> multiset(s)[x] >= 2
  {
    if s != [] {
      assert s == [s[0]] + s[1..];
      if s[0] != x {
        ReplaceFirstMembers(s[1..], x, y);
      } else {
        assert multiset(s)[x] == 1 + multiset(s[1..])[x];
      }
    }
  }

  /** An update keeps the dual-projection list exact if and only if the surface
      needs no dual projection, already has the direction, or is listed once:
      only the first listing is renamed. */
  lemma UpdateDualExactIff(repo: string, st: State, oldUid: string, direction: Direction)
    requires WellKeyed(repo, st) && DualExact(st) && oldUid in st.surfaces
    ensures DualExact(AfterUpdate(st, oldUid, direction)) <==>
      || !st.surfaces[oldUid].channelKind.RequiresDualProjection()
      || st.surfaces[oldUid].direction == direction
      || multiset(st.dual)[oldUid] == 1
  {
    var old', after := st.surfaces[oldUid], AfterUpdate(st, oldUid, direction);
    if old'.direction != direction {
      TurnedUid(repo, st, oldUid, direction);
      var turned := Turned(old', direction);
      var newUid := turned.surfaceUid;
      ReplaceFirstMembers(st.dual, oldUid, newUid);
      assert oldUid in st.dual <==> multiset(st.dual)[oldUid] >= 1;
      if newUid in st.surfaces {
        SameUidSamePlace(st.surfaces[newUid], turned);
      }
      hide BuildUid;
      assert after.surfaces.Keys == st.surfaces.Keys - {oldUid} + {newUid};
      assert oldUid in after.dual <==> multiset(st.dual)[oldUid] >= 2;
      forall k | k != oldUid
        ensures k in after.dual <==> k in after.surfaces && after.surfaces[k].channelKind.RequiresDualProjection()
      {
        assert k == newUid || (k in after.surfaces <==> k in st.surfaces);
      }
    }
  }

  datatype Op = Emit(callsite: Callsite) | Update(uid: string, direction: Direction) | Clear

  function Step(repo: string, table: seq<BindingEntry>, st: State, op: Op): State {
    match op
    case Emit(c) => AfterEmit(repo, table, st, c)
    case Update(uid, direction) => AfterUpdate(st, uid, direction)
    case Clear => EMPTY
  }

  /** A run of operations from some state. */
  function Run(repo: string, table: seq<BindingEntry>, st: State, ops: seq<Op>): State {
    if ops == [] then st else Step(repo, table, Run(repo, table, st, Front(ops)), Last(ops))
  }

  lemma StepWellKeyed(repo: string, table: seq<BindingEntry>, st: State, op: Op)
    requires WellKeyed(repo, st)
    ensures WellKeyed(repo, Step(repo, table, st, op))
  {
    hide WellKeyed, AfterEmit, AfterUpdate;
    match op
    case Emit(c) => EmitWellKeyed(repo, table, st, c);
    case Update(uid, direction) => UpdateWellKeyed(repo, st, uid, direction);
    case Clear => NothingIsWellKeyed(repo);
  }

  lemma NothingIsWellKeyed(repo: string)
    ensures WellKeyed(repo, EMPTY)
  {
  }

  /** Every run keeps surfaces under their own uid and channels attached. */
  lemma {:induction false} RunWellKeyed(repo: string, table: seq<BindingEntry>, st: State, ops: seq<Op>)
    requires WellKeyed(repo, st)
    ensures WellKeyed(repo, Run(repo, table, st, ops))
  {
    hide WellKeyed, Step;
    if ops != [] {
      RunWellKeyed(repo, table, st, Front(ops));
      StepWellKeyed(repo, table, Run(repo, table, st, Front(ops)), Last(ops));
    }
  }

  /** The update finds its surface gone, of a kind without dual projection, already
      turned, or listed once. */
  ghost predicate UpdateHarmless(st: State, op: Op) {
    op.Update? && op.uid in st.surfaces ==>
      || !st.surfaces[op.uid].channelKind.RequiresDualProjection()
      || st.surfaces[op.uid].direction == op.direction
      || multiset(st.dual)[op.uid] == 1
  }

  ghost predicate UpdatesHarmless(repo: string, table: seq<BindingEntry>, st: State, ops: seq<Op>) {
    forall n :: 0 <= n < |ops| ==> UpdateHarmless(Run(repo, table, st, ops[..n]), ops[n])
  }

  lemma StepDualExact(repo: string, table: seq<BindingEntry>, st: State, op: Op)
    requires WellKeyed(repo, st) && DualExact(st) && UpdateHarmless(st, op)
    ensures DualExact(Step(repo, table, st, op))
  {
    hide WellKeyed, AfterEmit;
    match op
    case Emit(c) => EmitDualExact(repo, table, st, c);
    case Update(uid, direction) =>
      if uid in st.surfaces {
        hide AfterUpdate, DualExact;
        UpdateDualExactIff(repo, st, uid, direction);
      }
    case Clear =>
  }

  /** A run of harmless updates keeps the dual-projection list exact. */
  lemma {:induction false} RunDualExact(repo: string, table: seq<BindingEntry>, st: State, ops: seq<Op>)
    requires WellKeyed(repo, st) && DualExact(st) && UpdatesHarmless(repo, table, st, ops)
    ensures DualExact(Run(repo, table, st, ops))
  {
    hide WellKeyed, DualExact, Step, UpdateHarmless;
    if ops != [] {
      var front := Front(ops);
      forall n | 0 <= n < |front| ensures UpdateHarmless(Run(repo, table, st, front[..n]), front[n]) {
        assert front[..n] == ops[..n] && front[n] == ops[n];
      }
      RunDualExact(repo, table, st, front);
      RunWellKeyed(repo, table, st, front);
      assert UpdateHarmless(Run(repo, table, st, ops[..|ops| - 1]), ops[|ops| - 1]);
      StepDualExact(repo, table, Run(repo, table, st, front), Last(ops));
    }
  }

  /** The update names a place whose kind needs no dual projection. */
  ghost predicate UpdatesPlain(repo: string, op: Op) {
    op.Update? ==> exists p :: op.uid == PlaceUid(repo, p) && !p.kind.RequiresDualProjection()
  }

  /** Runs that update only such surfaces, sockets for instance, keep the list exact. */
  lemma PlainRunDualExact(repo: string, table: seq<BindingEntry>, st: State, ops: seq<Op>)
    requires WellKeyed(repo, st) && DualExact(st)
    requires forall n :: 0 <= n < |ops| ==> UpdatesPlain(repo, ops[n])
    ensures DualExact(Run(repo, table, st, ops))
  {
    hide DualExact, Run;
    forall n | 0 <= n < |ops| ensures UpdateHarmless(Run(repo, table, st, ops[..n]), ops[n]) {
      RunWellKeyed(repo, table, st, ops[..n]);
      PlainIsHarmless(repo, Run(repo, table, st, ops[..n]), ops[n]);
    }
    RunDualExact(repo, table, st, ops);
  }

  lemma PlainIsHarmless(repo: string, st: State, op: Op)
    requires WellKeyed(repo, st) && UpdatesPlain(repo, op)
    ensures UpdateHarmless(st, op)
  {
    hide WellKeyed, PlaceUid;
    if op.Update? && op.uid in st.surfaces {
      var p :| op.uid == PlaceUid(repo, p) && !p.kind.RequiresDualProjection();
      StoredPlace(repo, st, p);
    }
  }

  // ---- A run that leaves a stale listing -----------------------------------

  const SHM_BINDING :=
    BindingEntry(C, "posix_shm", "shm_open", BidirectionalRole, SharedMemory, Fixed, Some(InterProcess), Some(0), None)

  const SHM_CALL :=
    Callsite(C, "shm_open", Location(3, 2, 3, 30), "a.c", "r:a.c#f:SYMBOL:FUNCTION", Some("/x"),
             None, None, None, None, None)

  lemma ShmFacts(repo: string)
    ensures EmitFacts(repo, [SHM_BINDING], SHM_CALL) == Some(FactsFor(repo, SHM_BINDING, SHM_CALL))
  {
    hide FactsFor, SelectBinding;
    SelectionStep([SHM_BINDING], SHM_CALL);
  }

  /** The surface of the call is stored, and listed this often. */
  ghost predicate ShmListed(repo: string, st: State, times: nat) {
    var surface := BuildSurface(repo, SHM_BINDING, SHM_CALL);
    && st.surfaces == (if times == 0 then map[] else map[surface.surfaceUid := surface])
    && st.dual == seq(times, _ => surface.surfaceUid)
  }

  lemma ShmEmitted(repo: string, st: State, times: nat)
    requires ShmListed(repo, st, times)
    ensures ShmListed(repo, Step(repo, [SHM_BINDING], st, Emit(SHM_CALL)), times + 1)
  {
    ShmFacts(repo);
    hide EmitFacts, BuildSurface, BuildChannel;
  }

  lemma ShmTurned(repo: string, st: State, uid: string)
    requires WellKeyed(repo, st) && ShmListed(repo, st, 2)
    requires uid == BuildUid(repo, "a.c", 3, 2, SharedMemory, Bidirectional)
    ensures !DualExact(AfterUpdate(st, uid, Provider))
  {
    hide WellKeyed, AfterUpdate, BuildUid, ScopeAndLocality;
    assert st.dual == [uid, uid];
    UpdateDualExactIff(repo, st, uid, Provider);
  }

  /** One shared-memory call emitted twice and then turned by hand: only the first
      of its two listings is renamed. */
  lemma RepeatedEmitThenTurn(repo: string)
    ensures var uid := BuildUid(repo, "a.c", 3, 2, SharedMemory, Bidirectional);
      !DualExact(Run(repo, [SHM_BINDING], EMPTY, [Emit(SHM_CALL), Emit(SHM_CALL), Update(uid, Provider)]))
  {
    var table, uid := [SHM_BINDING], BuildUid(repo, "a.c", 3, 2, SharedMemory, Bidirectional);
    NothingIsWellKeyed(repo);
    assert ShmListed(repo, EMPTY, 0);
    var once := Step(repo, table, EMPTY, Emit(SHM_CALL));
    var twice := Step(repo, table, once, Emit(SHM_CALL));
    assert Step(repo, table, twice, Update(uid, Provider)) == AfterUpdate(twice, uid, Provider);
    hide *;
    ShmEmitted(repo, EMPTY, 0);
    ShmEmitted(repo, once, 1);
    StepWellKeyed(repo, table, EMPTY, Emit(SHM_CALL));
    StepWellKeyed(repo, table, once, Emit(SHM_CALL));
    ShmTurned(repo, twice, uid);
    RunOfThree(repo, table, EMPTY, Emit(SHM_CALL), Emit(SHM_CALL), Update(uid, Provider));
  }

  lemma RunOfThree(repo: string, table: seq<BindingEntry>, st: State, a: Op, b: Op, c: Op)
    ensures Run(repo, table, st, [a, b, c]) == Step(repo, table, Step(repo, table, Step(repo, table, st, a), b), c)
  {
    hide Step;
    assert Front([a, b, c]) == [a, b] && Front([a, b]) == [a] && Front([a]) == [];
    assert Run(repo, table, st, [a]) == Step(repo, table, st, a);
    assert Run(repo, table, st, [a, b]) == Step(repo, table, Step(repo, table, st, a), b);
  }

  // ---- The emitter object --------------------------------------------------

  class BoundaryInteractionEmitter {
    const repoUid: string
    const bindingTable: seq<BindingEntry>
    var surfaces: map<string, BoundarySurface>
    var channels: map<string, Channel>
    var dualProjectionSurfaces: seq<string>

    ghost function View(): State
      reads this
    {
      State(surfaces, channels, dualProjectionSurfaces)
    }

    ghost predicate Valid()
      reads this
    {
      WellKeyed(repoUid, View())
    }

    constructor (repoUid: string, bindingTable: seq<BindingEntry>)
      ensures this.repoUid == repoUid && this.bindingTable == bindingTable
      ensures Valid() && View() == EMPTY
    {
      this.repoUid, this.bindingTable := repoUid, bindingTable;
      surfaces, channels, dualProjectionSurfaces := map[], map[], [];
    }

    /** `try_emit` never fails; the facts returned are stored unless their keys
        are taken. */
    method TryEmit(callsite: Callsite) returns (r: Result<Option<EmittedFacts>, EmitError>)
      requires Valid()
      modifies this
      ensures Valid()
      ensures View() == AfterEmit(repoUid, bindingTable, old(View()), callsite)
      ensures r == Ok(EmitFacts(repoUid, bindingTable, callsite))
      ensures r.value.Some? ==> r.value.value.surface.surfaceUid in surfaces
    {
      EmitWellKeyed(repoUid, bindingTable, View(), callsite);
      hide WellKeyed, MatchesContext, BuildSurface, BuildChannel;
      var candidates := FindByFunction(bindingTable, callsite.language, callsite.functionName);
      if candidates == [] {
        return Ok(None);
      }
      candidates := FilterFamily(candidates, callsite.apiFamily);
      if candidates == [] {
        return Ok(None);
      }
      var binding := FirstMatch(candidates, callsite);
      if binding.None? {
        return Ok(None);
      }
      var surface := BuildSurface(repoUid, binding.value, callsite);
      var channel := BuildChannel(binding.value, callsite, surface.surfaceUid);
      var requiresDualProjection := binding.value.channelKind.RequiresDualProjection();
      var facts := EmittedFacts(surface, channel, requiresDualProjection);
      Store(facts);
      r := Ok(Some(facts));
    }

    /** List a surface that needs dual projection; insert what is not there yet. */
    method Store(facts: EmittedFacts)
      modifies this
      ensures View() == Stored(old(View()), facts)
      ensures facts.surface.surfaceUid in surfaces
    {
      if facts.requiresDualProjection {
        dualProjectionSurfaces := dualProjectionSurfaces + [facts.surface.surfaceUid];
      }
      surfaces := OrInsert(surfaces, facts.surface.surfaceUid, facts.surface);
      channels := OrInsert(channels, facts.channel.channelUid, facts.channel);
    }

    /** Point every channel of one surface at another uid, one channel at a time. */
    method RepointChannels(oldUid: string, newUid: string)
      modifies this`channels
      ensures channels == Repointed(old(channels), oldUid, newUid)
    {
      var channelsToUpdate := set k | k in channels && channels[k].surfaceUid == oldUid;
      ghost var before := channels;
      while channelsToUpdate != {}
        invariant channels.Keys == before.Keys && channelsToUpdate <= before.Keys
        invariant forall k :: k in channelsToUpdate ==> channels[k] == before[k] && before[k].surfaceUid == oldUid
        invariant forall k :: k in before && k !in channelsToUpdate ==>
          channels[k] == Repointed(before, oldUid, newUid)[k]
        decreases channelsToUpdate
      {
        var k :| k in channelsToUpdate;
        channelsToUpdate := channelsToUpdate - {k};
        channels := channels[k := channels[k].(surfaceUid := newUid)];
      }
    }

    /** `update_surface_direction`. */
    method UpdateSurfaceDirection(oldUid: string, newDirection: Direction) returns (r: Result<string, EmitError>)
      requires Valid()
      modifies this
      ensures Valid()
      ensures View() == AfterUpdate(old(View()), oldUid, newDirection)
      ensures r == UpdateResult(old(View()), oldUid, newDirection)
    {
      UpdateWellKeyed(repoUid, View(), oldUid, newDirection);
      hide WellKeyed, Repointed, BuildUid;
      if oldUid !in surfaces {
        return Err(InvalidState(NOT_FOUND + oldUid));
      }
      var surface := surfaces[oldUid];
      surfaces := surfaces - {oldUid};
      if surface.direction == newDirection {
        surfaces := surfaces[oldUid := surface];
        assert surfaces == old(surfaces);
        return Ok(oldUid);
      }
      var newUid := Rekey(oldUid, surface, newDirection);
      r := Ok(newUid);
    }

    /** The second half: a surface taken out of the map goes back under its new uid,
        and what named the old uid follows. */
    method Rekey(oldUid: string, taken: BoundarySurface, newDirection: Direction) returns (newUid: string)
      modifies this
      ensures newUid == Turned(taken, newDirection).surfaceUid
      ensures surfaces == old(surfaces)[newUid := Turned(taken, newDirection)]
      ensures channels == Repointed(old(channels), oldUid, newUid)
      ensures dualProjectionSurfaces == ReplaceFirst(old(dualProjectionSurfaces), oldUid, newUid)
    {
      hide Repointed, BuildUid;
      var surface := taken.(direction := newDirection);
      newUid := BuildUid(surface.repoUid, surface.sourceFile, surface.lineStart, surface.colStart,
                         surface.channelKind, newDirection);
      surface := surface.(surfaceUid := newUid);
      RepointChannels(oldUid, newUid);
      if oldUid in dualProjectionSurfaces {
        dualProjectionSurfaces := ReplaceFirst(dualProjectionSurfaces, oldUid, newUid);
      } else {
        ReplaceMissing(dualProjectionSurfaces, oldUid, newUid);
      }
      surfaces := surfaces[newUid := surface];
    }

    method Clear()
      modifies this
      ensures Valid() && View() == EMPTY
    {
      surfaces, channels, dualProjectionSurfaces := map[], map[], [];
    }
  }

  lemma {:induction false} ReplaceMissing(s: seq<string>, x: string, y: string)
    requires x !in s
    ensures ReplaceFirst(s, x, y) == s
  {
    if s != [] {
      ReplaceMissing(s[1..], x, y);
    }
  }
}
