/** Which emitter operations commute: what happens at different places of the
    source does not interfere. */
module Commutation {
  import opened Wrappers
  import opened Ordering
  import opened Surface
  import opened BindingTable
  import opened Emitter

  // ---- Updates -------------------------------------------------------------

  lemma TurnedPlace(repo: string, st: State, p: Place, d: Direction)
    requires WellKeyed(repo, st) && PlaceUid(repo, p) in st.surfaces
    ensures var turned := Turned(st.surfaces[PlaceUid(repo, p)], d);
      PlaceOf(turned) == p.Facing(d) && turned.surfaceUid == PlaceUid(repo, p.Facing(d)) && turned.repoUid == repo
  {
    StoredPlace(repo, st, p);
    hide PlaceUid;
  }

  /** An update at one spot leaves the surface of another spot as it was. */
  lemma UpdateAway(repo: string, st: State, p: Place, d: Direction, q: Place)
    requires WellKeyed(repo, st) && !p.SameSpot(q)
    ensures var next, uid := AfterUpdate(st, PlaceUid(repo, p), d), PlaceUid(repo, q);
      && (uid in next.surfaces <==> uid in st.surfaces)
      && (uid in st.surfaces ==> next.surfaces[uid] == st.surfaces[uid])
  {
    hide WellKeyed, PlaceUid, Turned, Repointed, ReplaceFirst;
    if PlaceUid(repo, p) in st.surfaces {
      TurnedPlace(repo, st, p, d);
    }
    if PlaceUid(repo, p) == PlaceUid(repo, q) {
      PlaceUidInjective(repo, p, q);
    }
    if PlaceUid(repo, p.Facing(d)) == PlaceUid(repo, q) {
      PlaceUidInjective(repo, p.Facing(d), q);
    }
  }

  /** Turning a surface away from its direction removes its old uid. */
  lemma UpdateRemoves(repo: string, st: State, p: Place, d: Direction)
    requires WellKeyed(repo, st) && d != p.direction
    ensures PlaceUid(repo, p) !in AfterUpdate(st, PlaceUid(repo, p), d).surfaces
  {
    hide WellKeyed, PlaceUid, Turned, Repointed, ReplaceFirst;
    if PlaceUid(repo, p) in st.surfaces {
      TurnedPlace(repo, st, p, d);
      StoredPlace(repo, st, p);
      if PlaceUid(repo, p.Facing(d)) == PlaceUid(repo, p) {
        PlaceUidInjective(repo, p.Facing(d), p);
      }
    }
  }

  /** Asking for the direction a place prints changes nothing. */
  lemma UpdateInPlace(repo: string, st: State, p: Place)
    requires WellKeyed(repo, st)
    ensures AfterUpdate(st, PlaceUid(repo, p), p.direction) == st
  {
    hide WellKeyed, PlaceUid;
    if PlaceUid(repo, p) in st.surfaces {
      StoredPlace(repo, st, p);
    }
  }

  lemma {:induction false} ReplacementsCommute(s: seq<string>, x: string, x': string, y: string, y': string)
    requires x != y && x' != y && y' != x
    ensures ReplaceFirst(ReplaceFirst(s, x, x'), y, y') == ReplaceFirst(ReplaceFirst(s, y, y'), x, x')
  {
    if s != [] {
      var tail := s[1..];
      if s[0] == x {
        assert ReplaceFirst(s, y, y') == [x] + ReplaceFirst(tail, y, y');
      } else if s[0] == y {
        assert ReplaceFirst(s, x, x') == [y] + ReplaceFirst(tail, x, x');
      } else {
        ReplacementsCommute(tail, x, x', y, y');
      }
    }
  }

  lemma TurningCommutes<V>(m: map<string, V>, a: string, a': string, x: V, b: string, b': string, y: V)
    requires a != b && a' != b && b' != a && a' != b'
    ensures ((m - {a})[a' := x] - {b})[b' := y] == ((m - {b})[b' := y] - {a})[a' := x]
  {
  }

  lemma RepointingCommutes(channels: map<string, Channel>, a: string, a': string, b: string, b': string)
    requires a != b && a' != b && b' != a
    ensures Repointed(Repointed(channels, a, a'), b, b') == Repointed(Repointed(channels, b, b'), a, a')
  {
  }

  /** Two updates agree: at one place when they ask for the same or one asks for
      what is printed, at two places when those are different spots. */
  predicate Agree(p: Place, d: Direction, q: Place, e: Direction) {
    if p == q then d == e || d == p.direction || e == p.direction else !p.SameSpot(q)
  }

  /** Agreeing updates commute on every well-keyed state, stored or not. */
  lemma UpdatesCommute(repo: string, st: State, p: Place, d: Direction, q: Place, e: Direction)
    requires WellKeyed(repo, st) && Agree(p, d, q, e)
    ensures AfterUpdate(AfterUpdate(st, PlaceUid(repo, p), d), PlaceUid(repo, q), e) ==
      AfterUpdate(AfterUpdate(st, PlaceUid(repo, q), e), PlaceUid(repo, p), d)
  {
    UpdateWellKeyed(repo, st, PlaceUid(repo, p), d);
    UpdateWellKeyed(repo, st, PlaceUid(repo, q), e);
    hide AfterUpdate, WellKeyed, PlaceUid;
    if p == q {
      if d == p.direction {
        UpdateInPlace(repo, st, p);
        UpdateInPlace(repo, AfterUpdate(st, PlaceUid(repo, q), e), p);
      } else if e == p.direction {
        UpdateInPlace(repo, st, p);
        UpdateInPlace(repo, AfterUpdate(st, PlaceUid(repo, p), d), p);
      }
    } else {
      ApartUpdatesCommute(repo, st, p, d, q, e);
    }
  }

  lemma ApartUpdatesCommute(repo: string, st: State, p: Place, d: Direction, q: Place, e: Direction)
    requires WellKeyed(repo, st) && !p.SameSpot(q)
    ensures AfterUpdate(AfterUpdate(st, PlaceUid(repo, p), d), PlaceUid(repo, q), e) ==
      AfterUpdate(AfterUpdate(st, PlaceUid(repo, q), e), PlaceUid(repo, p), d)
  {
    var u, v := PlaceUid(repo, p), PlaceUid(repo, q);
    UpdateAway(repo, st, p, d, q);
    UpdateAway(repo, st, q, e, p);
    SpotsApart(repo, p, d, q, e);
    if u in st.surfaces && v in st.surfaces {
      TurnedPlace(repo, st, p, d);
      TurnedPlace(repo, st, q, e);
      hide WellKeyed, PlaceUid, Turned, Repointed, ReplaceFirst;
      var u', v' := PlaceUid(repo, p.Facing(d)), PlaceUid(repo, q.Facing(e));
      ReplacementsCommute(st.dual, u, u', v, v');
      TurningCommutes(st.surfaces, u, u', Turned(st.surfaces[u], d), v, v', Turned(st.surfaces[v], e));
      RepointingCommutes(st.channels, u, u', v, v');
    }
  }

  lemma SpotsApart(repo: string, p: Place, d: Direction, q: Place, e: Direction)
    requires !p.SameSpot(q)
    ensures PlaceUid(repo, p) != PlaceUid(repo, q) && PlaceUid(repo, p.Facing(d)) != PlaceUid(repo, q)
    ensures PlaceUid(repo, p) != PlaceUid(repo, q.Facing(e))
    ensures PlaceUid(repo, p.Facing(d)) != PlaceUid(repo, q.Facing(e))
  {
    hide PlaceUid;
    forall x, y | x in {p, p.Facing(d)} && y in {q, q.Facing(e)} ensures PlaceUid(repo, x) != PlaceUid(repo, y) {
      if PlaceUid(repo, x) == PlaceUid(repo, y) {
        PlaceUidInjective(repo, x, y);
      }
    }
  }

  // ---- Emissions -----------------------------------------------------------

  /** Where something sits in the source: file, line, column. */
  type Site = (string, nat, nat)

  function SiteOf(c: Callsite): Site {
    (c.sourceFile, ToU32(c.location.lineStart), ToU32(c.location.colStart))
  }

  function PlaceSite(p: Place): Site {
    (p.file, p.line, p.col)
  }

  /** What an emission stores is keyed by the place of its call. */
  lemma EmittedPlace(repo: string, table: seq<BindingEntry>, c: Callsite)
    requires EmitFacts(repo, table, c).Some?
    ensures var facts := EmitFacts(repo, table, c).value;
      && PlaceSite(PlaceOf(facts.surface)) == SiteOf(c)
      && facts.surface.surfaceUid == PlaceUid(repo, PlaceOf(facts.surface))
      && facts.channel.surfaceUid == facts.surface.surfaceUid
      && facts.channel.channelUid == BuildChannelUid(facts.surface.surfaceUid, facts.channel.channelIdentity)
  {
    hide SelectBinding, ScopeAndLocality, BuildChannelUid, BuildUid;
  }

  lemma InsertsCommute<V>(m: map<string, V>, a: string, x: V, b: string, y: V)
    requires a != b
    ensures OrInsert(OrInsert(m, a, x), b, y) == OrInsert(OrInsert(m, b, y), a, x)
  {
  }

  /** The same surfaces and channels, and the same listings in some order. */
  ghost predicate Same(a: State, b: State) {
    a.surfaces == b.surfaces && a.channels == b.channels && Permutation(a.dual, b.dual)
  }

  lemma EmitsCommute(repo: string, table: seq<BindingEntry>, st: State, c: Callsite, d: Callsite)
    requires SiteOf(c) != SiteOf(d)
    ensures Same(AfterEmit(repo, table, AfterEmit(repo, table, st, c), d),
                 AfterEmit(repo, table, AfterEmit(repo, table, st, d), c))
  {
    if EmitFacts(repo, table, c).Some? && EmitFacts(repo, table, d).Some? {
      EmittedPlace(repo, table, c);
      EmittedPlace(repo, table, d);
      var f, g := EmitFacts(repo, table, c).value, EmitFacts(repo, table, d).value;
      hide EmitFacts, PlaceUid, BuildChannelUid, SiteOf;
      if f.surface.surfaceUid == g.surface.surfaceUid {
        PlaceUidInjective(repo, PlaceOf(f.surface), PlaceOf(g.surface));
      }
      if f.channel.channelUid == g.channel.channelUid {
        ChannelUidNamesSurface(f.surface.surfaceUid, f.channel.channelIdentity,
                               g.surface.surfaceUid, g.channel.channelIdentity);
      }
      InsertsCommute(st.surfaces, f.surface.surfaceUid, f.surface, g.surface.surfaceUid, g.surface);
      InsertsCommute(st.channels, f.channel.channelUid, f.channel, g.channel.channelUid, g.channel);
    }
  }

  lemma {:induction false} ReplaceInFront(s: seq<string>, tail: string, x: string, y: string)
    requires tail != x
    ensures ReplaceFirst(s + [tail], x, y) == ReplaceFirst(s, x, y) + [tail]
  {
    if s != [] {
      assert (s + [tail])[1..] == s[1..] + [tail];
      if s[0] != x {
        ReplaceInFront(s[1..], tail, x, y);
      }
    }
  }

  lemma InsertThenTurn<V>(m: map<string, V>, k: string, v: V, o: string, n: string, t: V)
    requires k != o && k != n
    ensures OrInsert((m - {o})[n := t], k, v) == (OrInsert(m, k, v) - {o})[n := t]
  {
  }

  lemma InsertThenRepoint(channels: map<string, Channel>, k: string, v: Channel, o: string, n: string)
    requires v.surfaceUid != o
    ensures OrInsert(Repointed(channels, o, n), k, v) == Repointed(OrInsert(channels, k, v), o, n)
  {
  }

  lemma StoreThenUpdate(st: State, f: EmittedFacts, o: string, d: Direction)
    requires f.channel.surfaceUid == f.surface.surfaceUid != o
    requires o in st.surfaces ==> Turned(st.surfaces[o], d).surfaceUid != f.surface.surfaceUid
    ensures Stored(AfterUpdate(st, o, d), f) == AfterUpdate(Stored(st, f), o, d)
  {
    hide Turned, Repointed, ReplaceFirst;
    if o in st.surfaces {
      var turned := Turned(st.surfaces[o], d);
      var n := turned.surfaceUid;
      InsertThenTurn(st.surfaces, f.surface.surfaceUid, f.surface, o, n, turned);
      InsertThenRepoint(st.channels, f.channel.channelUid, f.channel, o, n);
      ReplaceInFront(st.dual, f.surface.surfaceUid, o, n);
    }
  }

  lemma EmitUpdateCommute(repo: string, table: seq<BindingEntry>, st: State, c: Callsite, p: Place, d: Direction)
    requires WellKeyed(repo, st) && SiteOf(c) != PlaceSite(p)
    ensures AfterEmit(repo, table, AfterUpdate(st, PlaceUid(repo, p), d), c) ==
      AfterUpdate(AfterEmit(repo, table, st, c), PlaceUid(repo, p), d)
  {
    if EmitFacts(repo, table, c).Some? {
      EmittedPlace(repo, table, c);
      var f, o := EmitFacts(repo, table, c).value, PlaceUid(repo, p);
      hide EmitFacts, PlaceUid, BuildChannelUid, SiteOf, WellKeyed, AfterUpdate, Stored, Turned;
      SpotsApart(repo, p, d, PlaceOf(f.surface), d);
      if o in st.surfaces {
        TurnedPlace(repo, st, p, d);
      }
      StoreThenUpdate(st, f, o, d);
    }
  }

  // ---- Whole runs ----------------------------------------------------------

  /** The operation touches only what sits at this site. */
  ghost predicate At(repo: string, op: Op, site: Site) {
    match op
    case Emit(c) => SiteOf(c) == site
    case Update(uid, _) => exists p :: uid == PlaceUid(repo, p) && PlaceSite(p) == site
    case Clear => false
  }

  lemma StepsCommute(repo: string, table: seq<BindingEntry>, st: State, a: Op, s: Site, b: Op, t: Site)
    requires WellKeyed(repo, st) && At(repo, a, s) && At(repo, b, t) && s != t
    ensures Same(Step(repo, table, Step(repo, table, st, a), b), Step(repo, table, Step(repo, table, st, b), a))
  {
    hide AfterEmit, AfterUpdate, WellKeyed, PlaceUid;
    match (a, b)
    case (Emit(c), Emit(d)) => EmitsCommute(repo, table, st, c, d);
    case (Emit(c), Update(uid, d)) =>
      var p :| uid == PlaceUid(repo, p) && PlaceSite(p) == t;
      EmitUpdateCommute(repo, table, st, c, p, d);
    case (Update(uid, d), Emit(c)) =>
      var p :| uid == PlaceUid(repo, p) && PlaceSite(p) == s;
      EmitUpdateCommute(repo, table, st, c, p, d);
    case (Update(uid, d), Update(vid, e)) =>
      var p :| uid == PlaceUid(repo, p) && PlaceSite(p) == s;
      var q :| vid == PlaceUid(repo, q) && PlaceSite(q) == t;
      UpdatesCommute(repo, st, p, d, q, e);
  }

  lemma {:induction false} ReplaceFirstListings(s: seq<string>, x: string, y: string)
    ensures multiset(ReplaceFirst(s, x, y)) == if x in s then multiset(s) - multiset{x} + multiset{y} else multiset(s)
  {
    if s != [] {
      assert s == [s[0]] + s[1..];
      if s[0] != x {
        ReplaceFirstListings(s[1..], x, y);
      }
    }
  }

  /** States that are the same stay the same under one operation. */
  lemma StepKeepsSame(repo: string, table: seq<BindingEntry>, a: State, b: State, op: Op)
    requires Same(a, b)
    ensures Same(Step(repo, table, a, op), Step(repo, table, b, op))
  {
    hide EmitFacts, Repointed, Turned;
    PermutationFacts(a.dual, b.dual);
    if op.Update? && op.uid in a.surfaces {
      var n := Turned(a.surfaces[op.uid], op.direction).surfaceUid;
      ReplaceFirstListings(a.dual, op.uid, n);
      ReplaceFirstListings(b.dual, op.uid, n);
    }
  }

  lemma {:induction false} RunKeepsSame(repo: string, table: seq<BindingEntry>, a: State, b: State, ops: seq<Op>)
    requires Same(a, b)
    ensures Same(Run(repo, table, a, ops), Run(repo, table, b, ops))
  {
    hide Step, Same;
    if ops != [] {
      RunKeepsSame(repo, table, a, b, Front(ops));
      StepKeepsSame(repo, table, Run(repo, table, a, Front(ops)), Run(repo, table, b, Front(ops)), Last(ops));
    }
  }

  ghost predicate AtOneOf(repo: string, op: Op, sites: set<Site>) {
    exists s :: s in sites && At(repo, op, s)
  }

  /** Every operation touches only what sits at one of these sites. */
  ghost predicate Within(repo: string, ops: seq<Op>, sites: set<Site>) {
    forall op :: op in ops ==> AtOneOf(repo, op, sites)
  }

  lemma SameChains(a: State, b: State, c: State)
    requires Same(a, b) && Same(b, c)
    ensures Same(a, c)
  {
  }

  lemma {:induction false} StepPastRun(repo: string, table: seq<BindingEntry>, st: State, a: Op, s: Site,
                                       ops: seq<Op>, sites: set<Site>)
    requires WellKeyed(repo, st) && At(repo, a, s) && Within(repo, ops, sites) && s !in sites
    ensures Same(Run(repo, table, Step(repo, table, st, a), ops), Step(repo, table, Run(repo, table, st, ops), a))
  {
    hide Step, WellKeyed, At, Same;
    if ops == [] {
      SameItself(Step(repo, table, st, a));
    } else {
      var front, b := Front(ops), Last(ops);
      assert b in ops && forall op :: op in front ==> op in ops;
      var t :| t in sites && At(repo, b, t);
      StepPastRun(repo, table, st, a, s, front, sites);
      var before := Run(repo, table, st, front);
      RunWellKeyed(repo, table, st, front);
      StepKeepsSame(repo, table, Run(repo, table, Step(repo, table, st, a), front), Step(repo, table, before, a), b);
      StepsCommute(repo, table, before, a, s, b, t);
      SameChains(Run(repo, table, Step(repo, table, st, a), ops),
                 Step(repo, table, Step(repo, table, before, a), b), Step(repo, table, Run(repo, table, st, ops), a));
    }
  }

  lemma SameItself(a: State)
    ensures Same(a, a)
  {
  }

  /** Runs at different sites commute. */
  lemma {:induction false} RunsCommute(repo: string, table: seq<BindingEntry>, st: State,
                                       first: seq<Op>, sites: set<Site>, second: seq<Op>, others: set<Site>)
    requires WellKeyed(repo, st) && Within(repo, first, sites) && Within(repo, second, others) && sites !! others
    ensures Same(Run(repo, table, Run(repo, table, st, first), second),
                 Run(repo, table, Run(repo, table, st, second), first))
    decreases |first|
  {
    hide Step, WellKeyed, At, Same;
    if first == [] {
      SameItself(Run(repo, table, st, second));
    } else {
      var front, a := Front(first), Last(first);
      assert a in first && forall op :: op in front ==> op in first;
      var s :| s in sites && At(repo, a, s);
      RunsCommute(repo, table, st, front, sites, second, others);
      var before := Run(repo, table, st, front);
      RunWellKeyed(repo, table, st, front);
      StepPastRun(repo, table, before, a, s, second, others);
      StepKeepsSame(repo, table, Run(repo, table, before, second),
                    Run(repo, table, Run(repo, table, st, second), front), a);
      SameChains(Run(repo, table, Run(repo, table, st, first), second),
                 Step(repo, table, Run(repo, table, before, second), a),
                 Run(repo, table, Run(repo, table, st, second), first));
    }
  }
}
