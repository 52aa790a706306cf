/** Turning drained socket roles into direction updates: what a sequence of
    updates does, what it may overwrite, and when its order matters. */
module Refinement {
  import opened Ordering
  import opened Surface
  import opened Emitter
  import opened SocketLineage
  import opened Commutation

  /** The caller's loop over the drained pairs. */
  ghost function ApplyAll(st: State, pairs: seq<Turn>): State
    decreases |pairs|
  {
    if pairs == [] then st else ApplyAll(AfterUpdate(st, pairs[0].0, pairs[0].1), pairs[1..])
  }

  lemma {:induction false} ApplyWellKeyed(repo: string, st: State, pairs: seq<Turn>)
    requires WellKeyed(repo, st)
    ensures WellKeyed(repo, ApplyAll(st, pairs))
    decreases |pairs|
  {
    hide WellKeyed, AfterUpdate;
    if pairs != [] {
      UpdateWellKeyed(repo, st, pairs[0].0, pairs[0].1);
      ApplyWellKeyed(repo, AfterUpdate(st, pairs[0].0, pairs[0].1), pairs[1..]);
    }
  }

  // ---- Order ---------------------------------------------------------------

  /** Both pairs name printed places, and their updates agree. */
  ghost predicate Compatible(repo: string, a: Turn, b: Turn) {
    exists p, q :: a.0 == PlaceUid(repo, p) && b.0 == PlaceUid(repo, q) && Agree(p, a.1, q, b.1)
  }

  ghost predicate AllCompatible(repo: string, pairs: seq<Turn>) {
    forall a, b :: a in pairs && b in pairs ==> Compatible(repo, a, b)
  }

  lemma CompatibleCommute(repo: string, st: State, a: Turn, b: Turn)
    requires WellKeyed(repo, st) && Compatible(repo, a, b)
    ensures AfterUpdate(AfterUpdate(st, a.0, a.1), b.0, b.1) == AfterUpdate(AfterUpdate(st, b.0, b.1), a.0, a.1)
  {
    var p, q :| a.0 == PlaceUid(repo, p) && b.0 == PlaceUid(repo, q) && Agree(p, a.1, q, b.1);
    hide AfterUpdate, WellKeyed, PlaceUid;
    UpdatesCommute(repo, st, p, a.1, q, b.1);
  }

  /** A pair may be applied first instead of later. */
  lemma {:induction false} ApplyEarlier(repo: string, st: State, before: seq<Turn>, p: Turn, after: seq<Turn>)
    requires WellKeyed(repo, st) && AllCompatible(repo, before + [p] + after)
    ensures ApplyAll(st, before + [p] + after) == ApplyAll(AfterUpdate(st, p.0, p.1), before + after)
    decreases |before|
  {
    hide AfterUpdate, WellKeyed, Compatible;
    var all := before + [p] + after;
    if before == [] {
      assert all[0] == p && all[1..] == before + after;
    } else {
      var q, rest := before[0], before[1..];
      assert all[0] == q && all[1..] == rest + [p] + after;
      assert all[|before|] == p;
      UpdateWellKeyed(repo, st, q.0, q.1);
      assert AllCompatible(repo, all[1..]);
      ApplyEarlier(repo, AfterUpdate(st, q.0, q.1), rest, p, after);
      CompatibleCommute(repo, st, q, p);
      assert (before + after)[0] == q && (before + after)[1..] == rest + after;
    }
  }

  /** Compatible pairs give one state, whatever their order. */
  lemma {:induction false} ApplyForgetsOrder(repo: string, st: State, pairs: seq<Turn>, shuffled: seq<Turn>)
    requires WellKeyed(repo, st) && AllCompatible(repo, pairs) && Permutation(pairs, shuffled)
    ensures ApplyAll(st, pairs) == ApplyAll(st, shuffled)
    decreases |pairs|
  {
    hide AfterUpdate, WellKeyed, Compatible;
    PermutationFacts(pairs, shuffled);
    if pairs != [] {
      var j := PermutationHead(pairs, shuffled);
      var p, before, after := pairs[0], shuffled[..j], shuffled[j + 1..];
      assert shuffled == before + [p] + after;
      ApplyEarlier(repo, st, before, p, after);
      UpdateWellKeyed(repo, st, p.0, p.1);
      assert AllCompatible(repo, pairs[1..]);
      ApplyForgetsOrder(repo, AfterUpdate(st, p.0, p.1), pairs[1..], before + after);
    }
  }

  // ---- Effect --------------------------------------------------------------

  /** Every pair names a stored surface, no two at one spot. */
  ghost predicate Refinable(st: State, pairs: seq<Turn>) {
    && (forall i :: 0 <= i < |pairs| ==> pairs[i].0 in st.surfaces)
    && (forall i, j :: 0 <= i < j < |pairs| ==>
      !PlaceOf(st.surfaces[pairs[i].0]).SameSpot(PlaceOf(st.surfaces[pairs[j].0])))
  }

  /** The uid the surface has once it faces the pair's direction. */
  ghost function NewUid(st: State, p: Turn): string
    requires p.0 in st.surfaces
  {
    Toward(st.surfaces[p.0], p.1).surfaceUid
  }

  ghost function Origins(pairs: seq<Turn>): set<string> {
    set p | p in pairs :: p.0
  }

  ghost function NewUids(st: State, pairs: seq<Turn>): set<string> {
    set p | p in pairs && p.0 in st.surfaces :: NewUid(st, p)
  }

  /** One update: the surface leaves its uid and arrives, turned, at the new one.
      Whatever was stored there is overwritten; nothing else changes. */
  lemma UpdateMoves(repo: string, st: State, p: Turn)
    requires WellKeyed(repo, st) && p.0 in st.surfaces
    ensures var next := AfterUpdate(st, p.0, p.1);
      && next.surfaces.Keys == st.surfaces.Keys - {p.0} + {NewUid(st, p)}
      && next.surfaces[NewUid(st, p)] == Toward(st.surfaces[p.0], p.1)
      && forall k :: k in st.surfaces && k != p.0 && k != NewUid(st, p) ==> next.surfaces[k] == st.surfaces[k]
  {
    hide Turned, Repointed, ReplaceFirst, UidOf;
  }

  /** Surfaces at different spots keep out of each other's way. */
  lemma PairsApart(repo: string, st: State, a: Turn, b: Turn)
    requires WellKeyed(repo, st) && a.0 in st.surfaces && b.0 in st.surfaces
    requires !PlaceOf(st.surfaces[a.0]).SameSpot(PlaceOf(st.surfaces[b.0]))
    ensures a.0 != b.0 && NewUid(st, a) != b.0 && a.0 != NewUid(st, b) && NewUid(st, a) != NewUid(st, b)
    ensures var next := AfterUpdate(st, a.0, a.1);
      b.0 in next.surfaces && next.surfaces[b.0] == st.surfaces[b.0]
  {
    var p, q := PlaceOf(st.surfaces[a.0]), PlaceOf(st.surfaces[b.0]);
    assert a.0 == PlaceUid(repo, p) && b.0 == PlaceUid(repo, q);
    TurnedPlace(repo, st, p, a.1);
    TurnedPlace(repo, st, q, b.1);
    hide AfterUpdate, WellKeyed, PlaceUid, Turned, PlaceOf;
    SpotsApart(repo, p, a.1, q, b.1);
    UpdateAway(repo, st, p, a.1, q);
  }

  /** The later pairs' surfaces are as they were, away from what `p` moves. */
  ghost predicate KeptFrom(st: State, next: State, p: Turn, rest: seq<Turn>)
    requires p.0 in st.surfaces
  {
    forall q :: q in rest ==>
      && q.0 in st.surfaces && q.0 in next.surfaces && next.surfaces[q.0] == st.surfaces[q.0]
      && q.0 != NewUid(st, p) && NewUid(st, q) != NewUid(st, p)
      && q.0 != p.0 && NewUid(st, q) != p.0
  }

  /** The first update leaves the others as they were. */
  lemma RefinableAfter(repo: string, st: State, pairs: seq<Turn>)
    requires WellKeyed(repo, st) && Refinable(st, pairs) && pairs != []
    ensures pairs[0].0 in st.surfaces
    ensures var next := AfterUpdate(st, pairs[0].0, pairs[0].1);
      WellKeyed(repo, next) && Refinable(next, pairs[1..]) && KeptFrom(st, next, pairs[0], pairs[1..])
  {
    var next, rest := AfterUpdate(st, pairs[0].0, pairs[0].1), pairs[1..];
    UpdateWellKeyed(repo, st, pairs[0].0, pairs[0].1);
    hide AfterUpdate, WellKeyed, NewUid, PlaceOf;
    forall i | 0 <= i < |rest|
      ensures rest[i].0 in st.surfaces && rest[i].0 in next.surfaces
      ensures next.surfaces[rest[i].0] == st.surfaces[rest[i].0]
      ensures rest[i].0 != NewUid(st, pairs[0]) && NewUid(st, rest[i]) != NewUid(st, pairs[0])
      ensures rest[i].0 != pairs[0].0 && NewUid(st, rest[i]) != pairs[0].0
    {
      PairsApart(repo, st, pairs[0], pairs[i + 1]);
    }
    forall i, j | 0 <= i < j < |rest|
      ensures !PlaceOf(next.surfaces[rest[i].0]).SameSpot(PlaceOf(next.surfaces[rest[j].0]))
    {
      assert rest[i] == pairs[i + 1] && rest[j] == pairs[j + 1];
    }
  }

  lemma UidsSplit(st: State, next: State, p: Turn, rest: seq<Turn>)
    requires p.0 in st.surfaces && KeptFrom(st, next, p, rest)
    ensures Origins([p] + rest) == {p.0} + Origins(rest) && p.0 !in Origins(rest) + NewUids(next, rest)
    ensures NewUids(st, [p] + rest) == {NewUid(st, p)} + NewUids(next, rest)
    ensures NewUid(st, p) !in Origins(rest) + NewUids(next, rest)
  {
    hide Toward;
    assert forall q :: q in [p] + rest <==> q == p || q in rest;
  }

  /** What the final state holds: each surface sits, turned, under its new uid; the
      origins are gone unless nothing was asked of them; and every other surface
      whose uid is not needed is as it was. */
  ghost predicate Moved(st: State, pairs: seq<Turn>, final: State) {
    && final.surfaces.Keys == st.surfaces.Keys - Origins(pairs) + NewUids(st, pairs)
    && (forall p :: p in pairs && p.0 in st.surfaces && NewUid(st, p) in final.surfaces ==>
      final.surfaces[NewUid(st, p)] == Toward(st.surfaces[p.0], p.1))
    && (forall k :: k in st.surfaces && k in final.surfaces && k !in Origins(pairs) && k !in NewUids(st, pairs) ==>
      final.surfaces[k] == st.surfaces[k])
  }

  lemma {:induction false} ApplyMeaning(repo: string, st: State, pairs: seq<Turn>)
    requires WellKeyed(repo, st) && Refinable(st, pairs)
    ensures Moved(st, pairs, ApplyAll(st, pairs))
    decreases |pairs|
  {
    hide AfterUpdate, WellKeyed, NewUid, Toward, Refinable, KeptFrom;
    if pairs == [] {
      assert Origins(pairs) == {} && NewUids(st, pairs) == {};
    } else {
      hide Moved;
      var p, rest := pairs[0], pairs[1..];
      var next := AfterUpdate(st, p.0, p.1);
      RefinableAfter(repo, st, pairs);
      ApplyMeaning(repo, next, rest);
      MovedStep(repo, st, p, rest, ApplyAll(next, rest));
      assert pairs == [p] + rest;
    }
  }

  lemma KeysStep(keys: set<string>, o: string, n: string, origins: set<string>, new': set<string>)
    requires o in keys && n !in origins
    ensures keys - {o} + {n} - origins + new' == keys - ({o} + origins) + ({n} + new')
  {
  }

  lemma MovedStep(repo: string, st: State, p: Turn, rest: seq<Turn>, final: State)
    requires WellKeyed(repo, st) && p.0 in st.surfaces
    requires var next := AfterUpdate(st, p.0, p.1); KeptFrom(st, next, p, rest) && Moved(next, rest, final)
    ensures Moved(st, [p] + rest, final)
  {
    var next, all, n := AfterUpdate(st, p.0, p.1), [p] + rest, NewUid(st, p);
    UpdateMoves(repo, st, p);
    UidsSplit(st, next, p, rest);
    KeysStep(st.surfaces.Keys, p.0, n, Origins(rest), NewUids(next, rest));
    hide AfterUpdate, WellKeyed, Toward, Origins, NewUids;
    assert final.surfaces[n] == next.surfaces[n];
    forall q | q in all && q.0 in st.surfaces && NewUid(st, q) in final.surfaces
      ensures final.surfaces[NewUid(st, q)] == Toward(st.surfaces[q.0], q.1)
    {
      LaterArrives(st, next, p, rest, final, q);
    }
  }

  lemma LaterArrives(st: State, next: State, p: Turn, rest: seq<Turn>, final: State, q: Turn)
    requires p.0 in st.surfaces && KeptFrom(st, next, p, rest) && Moved(next, rest, final) && q in [p] + rest
    requires q.0 in st.surfaces && NewUid(st, q) in final.surfaces
    requires NewUid(st, p) in final.surfaces && final.surfaces[NewUid(st, p)] == Toward(st.surfaces[p.0], p.1)
    ensures final.surfaces[NewUid(st, q)] == Toward(st.surfaces[q.0], q.1)
  {
    hide Toward, Origins, NewUids;
    assert q == p || q in rest;
  }

  /** Every update of the sequence finds its surface as it was at the start. */
  lemma {:induction false} ApplySucceeds(repo: string, st: State, pairs: seq<Turn>, i: nat)
    requires WellKeyed(repo, st) && Refinable(st, pairs) && i < |pairs|
    ensures pairs[i].0 in ApplyAll(st, pairs[..i]).surfaces
    ensures ApplyAll(st, pairs[..i]).surfaces[pairs[i].0] == st.surfaces[pairs[i].0]
    decreases |pairs|
  {
    hide AfterUpdate, WellKeyed, NewUid, PlaceOf;
    if i > 0 {
      assert pairs[..i][0] == pairs[0] && pairs[..i][1..] == pairs[1..][..i - 1];
      RefinableAfter(repo, st, pairs);
      ApplySucceeds(repo, AfterUpdate(st, pairs[0].0, pairs[0].1), pairs[1..], i - 1);
      assert pairs[i] == pairs[1..][i - 1];
    } else {
      assert pairs[..0] == [];
    }
  }

  // ---- What is overwritten -------------------------------------------------

  lemma {:induction false} SizesAgree(repo: string, st: State, pairs: seq<Turn>)
    requires WellKeyed(repo, st) && Refinable(st, pairs)
    ensures |Origins(pairs)| == |pairs| == |NewUids(st, pairs)|
    decreases |pairs|
  {
    hide AfterUpdate, WellKeyed, NewUid, Refinable, KeptFrom;
    if pairs == [] {
      assert Origins(pairs) == {} && NewUids(st, pairs) == {};
    } else {
      hide Origins, NewUids;
      var p, rest := pairs[0], pairs[1..];
      var next := AfterUpdate(st, p.0, p.1);
      RefinableAfter(repo, st, pairs);
      SizesAgree(repo, next, rest);
      UidsSplit(st, next, p, rest);
      assert pairs == [p] + rest;
    }
  }

  lemma OriginsStored(st: State, pairs: seq<Turn>)
    requires Refinable(st, pairs)
    ensures Origins(pairs) <= st.surfaces.Keys
  {
  }

  lemma SizeOfMove(keys: set<string>, origins: set<string>, new': set<string>)
    requires origins <= keys && |origins| == |new'|
    ensures |keys - origins + new'| == |keys| <==> new' !! (keys - origins)
  {
    var kept := keys - origins;
    assert keys == kept + origins && kept !! origins;
    assert kept + new' == kept + (new' - kept) && new' == (new' - kept) + (new' * kept);
    if new' * kept != {} {
      assert |new' * kept| > 0;
    }
  }

  /** No surface is lost exactly when no turned uid is taken by a surface that is
      not itself being turned. */
  lemma NothingLostIff(repo: string, st: State, pairs: seq<Turn>)
    requires WellKeyed(repo, st) && Refinable(st, pairs)
    ensures |ApplyAll(st, pairs).surfaces| == |st.surfaces| <==>
      NewUids(st, pairs) !! (st.surfaces.Keys - Origins(pairs))
  {
    ApplyMeaning(repo, st, pairs);
    SizesAgree(repo, st, pairs);
    OriginsStored(st, pairs);
    hide ApplyAll, WellKeyed, Refinable, NewUids, Origins;
    SizeOfMove(st.surfaces.Keys, Origins(pairs), NewUids(st, pairs));
    KeysSize(ApplyAll(st, pairs).surfaces);
    KeysSize(st.surfaces);
  }

  lemma KeysSize<V>(m: map<string, V>)
    ensures |m| == |m.Keys|
  {
  }

  /** A surface that is no origin but sits at a turned uid is overwritten. */
  lemma OccupiedIsOverwritten(repo: string, st: State, pairs: seq<Turn>, p: Turn)
    requires WellKeyed(repo, st) && Refinable(st, pairs) && p in pairs && p.0 in st.surfaces
    requires NewUid(st, p) in st.surfaces && NewUid(st, p) !in Origins(pairs)
    ensures NewUid(st, p) in ApplyAll(st, pairs).surfaces
    ensures ApplyAll(st, pairs).surfaces[NewUid(st, p)] == Toward(st.surfaces[p.0], p.1)
    ensures |ApplyAll(st, pairs).surfaces| < |st.surfaces|
  {
    ApplyMeaning(repo, st, pairs);
    SizesAgree(repo, st, pairs);
    OriginsStored(st, pairs);
    hide ApplyAll, WellKeyed, Refinable, NewUid, Toward;
    var n := NewUid(st, p);
    assert n in NewUids(st, pairs);
    SizeAfterOverwrite(st.surfaces.Keys, Origins(pairs), NewUids(st, pairs), n);
    KeysSize(ApplyAll(st, pairs).surfaces);
    KeysSize(st.surfaces);
  }

  lemma SizeAfterOverwrite(keys: set<string>, origins: set<string>, new': set<string>, n: string)
    requires origins <= keys && |origins| == |new'| && n in new' && n in keys && n !in origins
    ensures |keys - origins + new'| < |keys|
  {
    var kept := keys - origins;
    assert keys == kept + origins && kept !! origins;
    assert kept + new' == kept + (new' - kept);
    assert new' == (new' - kept) + (new' * kept) && n in new' * kept;
    assert |new' * kept| > 0;
  }

  /** Two surfaces of one call position, one already facing the way the other is
      turned: the update leaves a single surface. */
  lemma OverwriteExample(s: BoundarySurface, t: BoundarySurface)
    requires s.channelKind == TcpSocket && s.direction == Bidirectional && s.surfaceUid == UidOf(s)
    requires t == Turned(s, Provider).(symbolStableKey := t.symbolStableKey) && t.symbolStableKey != s.symbolStableKey
    ensures var st := State(map[s.surfaceUid := s, t.surfaceUid := t], map[], []);
      && WellKeyed(s.repoUid, st)
      && ApplyAll(st, [(s.surfaceUid, Provider)]).surfaces == map[t.surfaceUid := Turned(s, Provider)]
  {
    hide PlaceUid;
    assert PlaceOf(s).Facing(Provider) == PlaceOf(t);
    if s.surfaceUid == t.surfaceUid {
      PlaceUidInjective(s.repoUid, PlaceOf(s), PlaceOf(t));
    }
    var pairs: seq<Turn> := [(s.surfaceUid, Provider)];
    assert pairs[1..] == [];
    hide Repointed, ReplaceFirst;
  }
}
