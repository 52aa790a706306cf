/** `socket_lineage.rs`: function-local tracking of socket variables and the role
    each one turns out to play. */
module SocketLineage {
  import opened Ordering
  import opened Surface

  datatype RoleEvidence = RoleEvidence(hasBind: bool, hasListen: bool, hasConnect: bool, hasAccept: bool) {
    function ResolveDirection(isTcp: bool): Direction {
      if !isTcp then Bidirectional
      else if hasConnect then Consumer
      else if hasListen then Provider
      else if hasAccept then Provider
      else Bidirectional
    }
  }

  const NO_EVIDENCE := RoleEvidence(false, false, false, false)

  datatype TrackedKind = Tcp | Udp

  datatype Lineage = Lineage(identifier: string, kind: TrackedKind, originUid: string, evidence: RoleEvidence) {
    function Resolved(): Direction {
      evidence.ResolveDirection(kind == Tcp)
    }
  }

  type Entries = map<string, Lineage>

  // ---- Traces --------------------------------------------------------------

  datatype Call = BindCall | ListenCall | ConnectCall | AcceptCall

  datatype FdEvent =
    | Register(identifier: string, kind: TrackedKind, uid: string)
    | Record(identifier: string, call: Call)

  function Noted(e: RoleEvidence, call: Call): RoleEvidence {
    match call
    case BindCall => e.(hasBind := true)
    case ListenCall => e.(hasListen := true)
    case ConnectCall => e.(hasConnect := true)
    case AcceptCall => e.(hasAccept := true)
  }

  function AfterEvent(entries: Entries, e: FdEvent): Entries {
    match e
    case Register(id, kind, uid) => entries[id := Lineage(id, kind, uid, NO_EVIDENCE)]
    case Record(id, call) =>
      if id in entries then entries[id := entries[id].(evidence := Noted(entries[id].evidence, call))] else entries
  }

  function Tracked(trace: seq<FdEvent>): Entries {
    if trace == [] then map[] else AfterEvent(Tracked(trace[..|trace| - 1]), trace[|trace| - 1])
  }

  /** The last registration of the identifier is at position `p`. */
  ghost predicate LastRegisteredAt(trace: seq<FdEvent>, id: string, p: nat) {
    && p < |trace| && trace[p].Register? && trace[p].identifier == id
    && forall q :: p < q < |trace| && trace[q].Register? ==> trace[q].identifier != id
  }

  /** The call was recorded for the identifier after position `p`. */
  ghost predicate SeenSince(trace: seq<FdEvent>, id: string, p: nat, call: Call) {
    exists q :: p < q < |trace| && trace[q] == Record(id, call)
  }

  lemma SeenSinceStep(trace: seq<FdEvent>, e: FdEvent, id: string, p: nat, call: Call)
    requires p < |trace|
    ensures SeenSince(trace + [e], id, p, call) <==> SeenSince(trace, id, p, call) || e == Record(id, call)
  {
    var all := trace + [e];
    if SeenSince(trace, id, p, call) {
      var q :| p < q < |trace| && trace[q] == Record(id, call);
      assert all[q] == Record(id, call);
    }
    if e == Record(id, call) {
      assert all[|trace|] == e;
    }
  }

  /** What an entry says after any trace: it belongs to the latest registration,
      and its evidence is what was recorded since. */
  ghost predicate EntryMeans(trace: seq<FdEvent>, id: string, entries: Entries) {
    && (id in entries <==> exists p: nat :: LastRegisteredAt(trace, id, p))
    && (forall p: nat :: LastRegisteredAt(trace, id, p) ==>
      && id in entries
      && entries[id].identifier == id
      && entries[id].kind == trace[p].kind
      && entries[id].originUid == trace[p].uid
      && entries[id].evidence == RoleEvidence(
        SeenSince(trace, id, p, BindCall), SeenSince(trace, id, p, ListenCall),
        SeenSince(trace, id, p, ConnectCall), SeenSince(trace, id, p, AcceptCall)))
  }

  lemma {:induction false} TrackedMeaning(trace: seq<FdEvent>, id: string)
    ensures EntryMeans(trace, id, Tracked(trace))
  {
    if trace != [] {
      var front, e := trace[..|trace| - 1], trace[|trace| - 1];
      assert trace == front + [e];
      TrackedMeaning(front, id);
      EntryMeansStep(front, e, id, Tracked(front));
    }
  }

  lemma EntryMeansStep(front: seq<FdEvent>, e: FdEvent, id: string, entries: Entries)
    requires EntryMeans(front, id, entries)
    ensures EntryMeans(front + [e], id, AfterEvent(entries, e))
  {
    var trace, n := front + [e], |front|;
    if e.Register? && e.identifier == id {
      assert LastRegisteredAt(trace, id, n);
      forall p: nat | LastRegisteredAt(trace, id, p) ensures p == n {
      }
      assert forall call :: !SeenSince(trace, id, n, call);
    } else {
      forall p: nat ensures LastRegisteredAt(trace, id, p) <==> LastRegisteredAt(front, id, p) {
        LastRegisteredStep(front, e, id, p);
      }
      forall p: nat, call | LastRegisteredAt(front, id, p)
        ensures SeenSince(trace, id, p, call) <==> SeenSince(front, id, p, call) || e == Record(id, call)
      {
        SeenSinceStep(front, e, id, p, call);
      }
      hide LastRegisteredAt, SeenSince;
    }
  }

  lemma LastRegisteredStep(front: seq<FdEvent>, e: FdEvent, id: string, p: nat)
    requires !(e.Register? && e.identifier == id)
    ensures LastRegisteredAt(front + [e], id, p) <==> LastRegisteredAt(front, id, p)
  {
    var trace := front + [e];
    assert forall q :: 0 <= q < |front| ==> trace[q] == front[q];
    assert trace[|front|] == e;
  }

  // ---- Refinements ---------------------------------------------------------

  /** Identifiers whose resolved direction is no longer the emitted default. */
  ghost function Refined(entries: Entries): set<string> {
    set id | id in entries && entries[id].Resolved() != Bidirectional
  }

  /** After any trace the refined identifiers are exactly the latest-registered
      TCP sockets seen connecting, listening or accepting; connecting wins. */
  lemma RefinedMeaning(trace: seq<FdEvent>, id: string)
    ensures id in Refined(Tracked(trace)) <==>
      exists p: nat :: LastRegisteredAt(trace, id, p) && trace[p].kind == Tcp &&
        (|| SeenSince(trace, id, p, ConnectCall)
         || SeenSince(trace, id, p, ListenCall)
         || SeenSince(trace, id, p, AcceptCall))
    ensures forall p: nat :: LastRegisteredAt(trace, id, p) && id in Refined(Tracked(trace)) ==>
      && Tracked(trace)[id].originUid == trace[p].uid
      && Tracked(trace)[id].Resolved() == if SeenSince(trace, id, p, ConnectCall) then Consumer else Provider
  {
    TrackedMeaning(trace, id);
  }

  /** One refinement: the surface to turn and its new direction. */
  type Turn = (string, Direction)

  /** The pairs handed over for these identifiers, in this order. */
  ghost predicate PairsFor(entries: Entries, drained: seq<string>, refinements: seq<Turn>) {
    && |refinements| == |drained|
    && forall i :: 0 <= i < |drained| ==>
      && drained[i] in entries
      && refinements[i] == (entries[drained[i]].originUid, entries[drained[i]].Resolved())
  }

  class FdRegistry {
    var entries: Entries

    constructor ()
      ensures entries == map[]
    {
      entries := map[];
    }

    method RegisterSocket(identifier: string, kind: TrackedKind, originUid: string)
      modifies this
      ensures entries == AfterEvent(old(entries), Register(identifier, kind, originUid))
    {
      entries := entries[identifier := Lineage(identifier, kind, originUid, NO_EVIDENCE)];
    }

    /** `record_bind`, `record_listen`, `record_connect`, `record_accept`. */
    method RecordCall(identifier: string, call: Call)
      modifies this
      ensures entries == AfterEvent(old(entries), Record(identifier, call))
    {
      if identifier in entries {
        var lineage := entries[identifier];
        entries := entries[identifier := lineage.(evidence := Noted(lineage.evidence, call))];
      }
    }

    method IsTracked(identifier: string) returns (tracked: bool)
      ensures tracked <==> identifier in entries
    {
      tracked := identifier in entries;
    }

    /** `drain_for_refinement`: one pair for each refined identifier, in an
        unspecified order that `drained` records. */
    method DrainForRefinement() returns (refinements: seq<Turn>, ghost drained: seq<string>)
      modifies this
      ensures entries == map[]
      ensures Distinct(drained) && Elements(drained) == Refined(old(entries))
      ensures PairsFor(old(entries), drained, refinements)
    {
      ghost var all := entries;
      refinements, drained := [], [];
      while entries != map[]
        invariant forall id :: id in entries ==> id in all && entries[id] == all[id]
        invariant Distinct(drained) && Elements(drained) == Refined(all) - entries.Keys
        invariant PairsFor(all, drained, refinements)
        decreases entries.Keys
      {
        var id := DrainNext(entries);
        var direction := entries[id].Resolved();
        if direction != Bidirectional {
          refinements := refinements + [(entries[id].originUid, direction)];
          PushElement(drained, id);
          drained := drained + [id];
        }
        entries := entries - {id};
      }
    }
  }

  /** The hash map hands out its keys in an order of its own. */
  method DrainNext(entries: Entries) returns (id: string)
    requires entries != map[]
    ensures id in entries
  {
    if entries.Keys == {} {
      NoKeysNoEntries(entries);
    }
    id :| id in entries.Keys;
  }

  lemma NoKeysNoEntries(entries: Entries)
    requires entries.Keys == {}
    ensures entries == map[]
  {
    assert forall id :: id !in entries.Keys ==> id !in entries;
  }
}
