/** What linking does, read off the surfaces: which routes and methods fit, which
    consumers are linked and to what, and how many are left out for each reason. */
module LinkMeaning {
  import opened Wrappers
  import opened Text
  import opened Ordering
  import opened HttpLink

  // ---- Routes --------------------------------------------------------------

  /** `{…}`, `:…` or `*`: stands for any one segment. */
  ghost predicate Wild(seg: string) {
    || (|seg| >= 2 && seg[0] == '{' && seg[|seg| - 1] == '}')
    || (seg != "" && seg[0] == ':')
    || seg == "*"
  }

  /** The segments of a route without its trailing slashes. */
  ghost predicate RouteSegments(route: string, segs: seq<string>, slashes: nat) {
    && route == Join(segs, '/') + Slashes(slashes)
    && segs != [] && Free(segs, '/') && (segs == [""] || Last(segs) != "")
  }

  lemma {:induction false} JoinEnds(segs: seq<string>)
    requires segs != [] && Free(segs, '/') && (segs == [""] || Last(segs) != "")
    ensures Join(segs, '/') == "" || Last(Join(segs, '/')) != '/'
  {
    if |segs| == 1 {
      assert segs[0] != "" ==> segs[0][|segs[0]| - 1] in segs[0];
    } else {
      assert Last(segs[1..]) == Last(segs);
      JoinEnds(segs[1..]);
      JoinNonempty(segs[1..]);
    }
  }

  lemma {:induction false} JoinNonempty(segs: seq<string>)
    requires segs != [] && Last(segs) != ""
    ensures Join(segs, '/') != ""
  {
    if |segs| > 1 {
      assert Last(segs[1..]) == Last(segs);
    }
  }

  lemma TrimmedSegments(route: string, segs: seq<string>, slashes: nat)
    requires RouteSegments(route, segs, slashes)
    ensures Split(TrimEnd(route, '/'), '/') == segs
  {
    hide Split, Join, Free;
    JoinEnds(segs);
    TrimmedSlashes(Join(segs, '/'), slashes);
    SplitOfJoin(segs, '/');
  }

  lemma WildIff(seg: string)
    ensures IsWildcardSegment(seg) <==> Wild(seg)
  {
  }

  /** Two routes match if and only if they have equally many segments and each is the
      same on both sides or wild on one; trailing slashes never count. */
  lemma RouteMeaning(a: string, b: string, segs: seq<string>, others: seq<string>, m: nat, n: nat)
    requires RouteSegments(a, segs, m) && RouteSegments(b, others, n)
    ensures RouteMatches(a, b) <==>
      |segs| == |others|
      && forall i :: 0 <= i < |segs| ==> segs[i] == others[i] || Wild(segs[i]) || Wild(others[i])
  {
    TrimmedSegments(a, segs, m);
    TrimmedSegments(b, others, n);
    forall seg ensures IsWildcardSegment(seg) <==> Wild(seg) {
      WildIff(seg);
    }
    hide RouteSegments, IsWildcardSegment, Wild;
  }

  /** Every route has segments. */
  lemma {:induction false} EveryRoute(route: string) returns (segs: seq<string>, slashes: nat)
    ensures RouteSegments(route, segs, slashes)
  {
    if route != "" && Last(route) == '/' {
      segs, slashes := EveryRoute(Front(route));
      FrontLast(route);
      assert Slashes(slashes) + "/" == Slashes(slashes + 1);
      assert route == Join(segs, '/') + Slashes(slashes) + "/" == Join(segs, '/') + Slashes(slashes + 1);
      slashes := slashes + 1;
    } else {
      segs, slashes := Split(route, '/'), 0;
      assert Join(segs, '/') + Slashes(0) == Join(segs, '/');
      SplitIsFree(route, '/');
      JoinOfSplit(route, '/');
      if segs != [""] && Last(segs) == "" {
        LastSlash(segs);
      }
    }
  }

  lemma {:induction false} LastSlash(segs: seq<string>)
    requires |segs| >= 2 && Last(segs) == ""
    ensures Join(segs, '/') != "" && Last(Join(segs, '/')) == '/'
  {
    if |segs| == 2 {
      assert Join(segs[1..], '/') == "";
    } else {
      assert Last(segs[1..]) == Last(segs);
      LastSlash(segs[1..]);
    }
  }

  /** Literal routes match if and only if they are the same up to trailing slashes. */
  lemma LiteralRoutes(a: string, b: string, segs: seq<string>, others: seq<string>, m: nat, n: nat)
    requires RouteSegments(a, segs, m) && RouteSegments(b, others, n)
    requires forall seg :: seg in segs + others ==> !Wild(seg)
    ensures RouteMatches(a, b) <==> Join(segs, '/') == Join(others, '/')
  {
    RouteMeaning(a, b, segs, others, m, n);
    SplitOfJoin(segs, '/');
    SplitOfJoin(others, '/');
    hide *;
    if RouteMatches(a, b) {
      forall i | 0 <= i < |segs| ensures segs[i] == others[i] {
        assert (segs + others)[i] == segs[i] && (segs + others)[|segs| + i] == others[i];
        assert !Wild(segs[i]) && !Wild(others[i]);
      }
      assert segs == others;
    }
  }

  /** Methods agree letter by letter, an ASCII capital and its small letter being alike. */
  lemma MethodMeaning(a: string, b: string)
    ensures EqIgnoreAsciiCase(a, b) <==>
      |a| == |b| && forall i :: 0 <= i < |a| ==>
        || a[i] == b[i]
        || ('A' <= a[i] <= 'Z' && b[i] as int == a[i] as int + 32)
        || ('A' <= b[i] <= 'Z' && a[i] as int == b[i] as int + 32)
  {
    assert forall c: char, d: char :: AsciiLower(c) == AsciiLower(d) <==>
      || c == d || ('A' <= c <= 'Z' && d as int == c as int + 32) || ('A' <= d <= 'Z' && c as int == d as int + 32);
  }

  // ---- The whole surface set -----------------------------------------------

  /** Where the consumers, and the providers that fit one of them, stand. */
  ghost function ProvidersFor(surfaces: seq<Row>, consumer: Row): set<nat> {
    set j: nat | j < |surfaces| && surfaces[j].direction == "provider" && consumer.route.Some?
                 && surfaces[j].route.Some?
                 && EqIgnoreAsciiCase(surfaces[j].httpMethod, consumer.httpMethod)
                 && RouteMatches(consumer.route.value, surfaces[j].route.value)
  }

  ghost function Consumers(surfaces: seq<Row>): set<nat> {
    set i: nat | i < |surfaces| && surfaces[i].direction == "consumer"
  }

  /** The rows stand at these positions. */
  ghost predicate StandAt(rows: seq<Row>, surfaces: seq<Row>, at: set<nat>) {
    && |rows| == |at|
    && forall p :: p in rows ==> exists j :: j in at && j < |surfaces| && surfaces[j] == p
  }

  lemma StandStep(rows: seq<Row>, front: seq<Row>, at: set<nat>, last: Row)
    requires StandAt(rows, front, at) && |front| !in at
    ensures StandAt(rows, front + [last], at) && StandAt(rows + [last], front + [last], at + {|front|})
  {
    var surfaces := front + [last];
    forall p | p in rows ensures exists j :: j in at && j < |surfaces| && surfaces[j] == p {
      var j :| j in at && j < |front| && front[j] == p;
      assert surfaces[j] == p;
    }
    assert surfaces[|front|] == last;
  }

  lemma {:induction false} FittingFound(surfaces: seq<Row>, consumer: Row)
    requires consumer.route.Some?
    ensures StandAt(Fitting(consumer, consumer.route.value, WithDirection(surfaces, "provider")), surfaces,
                    ProvidersFor(surfaces, consumer))
  {
    if surfaces == [] {
      NothingFits(consumer);
    } else {
      var front, last := Front(surfaces), Last(surfaces);
      assert |front| < |surfaces|;
      hide *;
      FittingFound(front, consumer);
      FrontLast(surfaces);
      ProvidersStep(front, last, consumer);
      FittingStep(front, last, consumer, consumer.route.value);
      var rows, at := Fitting(consumer, consumer.route.value, WithDirection(front, "provider")),
                      ProvidersFor(front, consumer);
      StandStep(rows, front, at, last);
      assert rows + [] == rows && at + {} == at;
    }
  }

  lemma NothingFits(consumer: Row)
    requires consumer.route.Some?
    ensures StandAt(Fitting(consumer, consumer.route.value, WithDirection([], "provider")), [],
                    ProvidersFor([], consumer))
  {
    assert ProvidersFor([], consumer) == {};
  }

  lemma FittingStep(front: seq<Row>, last: Row, consumer: Row, route: string)
    ensures Fitting(consumer, route, WithDirection(front + [last], "provider")) ==
      Fitting(consumer, route, WithDirection(front, "provider")) +
      if last.direction == "provider" && Fits(consumer, route, last) then [last] else []
  {
    var before := WithDirection(front, "provider");
    assert Front(front + [last]) == front && Last(front + [last]) == last;
    FittingOfConcat(consumer, route, before, [last]);
    FittingOfOne(consumer, route, last);
    hide Fits, Fitting;
    assert before + [] == before && Fitting(consumer, route, before) + [] == Fitting(consumer, route, before);
  }

  lemma FittingOfOne(consumer: Row, route: string, p: Row)
    ensures Fitting(consumer, route, [p]) == if Fits(consumer, route, p) then [p] else []
  {
    hide Fits;
    assert Front([p]) == [];
  }

  lemma ProvidersStep(front: seq<Row>, last: Row, consumer: Row)
    requires consumer.route.Some?
    ensures |front| !in ProvidersFor(front, consumer)
    ensures ProvidersFor(front + [last], consumer) == ProvidersFor(front, consumer) +
      if last.direction == "provider" && Fits(consumer, consumer.route.value, last) then {|front|} else {}
  {
    hide EqIgnoreAsciiCase, RouteMatches;
    var surfaces := front + [last];
    forall j: nat | j < |front| ensures j in ProvidersFor(surfaces, consumer) <==> j in ProvidersFor(front, consumer) {
      assert surfaces[j] == front[j];
    }
    assert surfaces[|front|] == last;
  }

  /** What becomes of a consumer: without a route it is dynamic, and otherwise the number
      of provider rows that fit decides. */
  lemma StatusMeaning(surfaces: seq<Row>, consumer: Row)
    ensures var status, fitting := StatusOf(consumer, WithDirection(surfaces, "provider")),
                                   ProvidersFor(surfaces, consumer);
      && (status == LeftDynamic <==> consumer.route == None)
      && (status == LeftUnmatched <==> consumer.route != None && fitting == {})
      && (status == LeftAmbiguous <==> |fitting| >= 2)
      && (forall j :: fitting == {j} ==> status == Linked(surfaces[j]))
      && (status.Linked? ==> exists j :: fitting == {j})
  {
    if consumer.route.Some? {
      FittingFound(surfaces, consumer);
      var fitting := Fitting(consumer, consumer.route.value, WithDirection(surfaces, "provider"));
      var at := ProvidersFor(surfaces, consumer);
      hide Fitting, WithDirection, ProvidersFor;
      if |fitting| == 1 {
        assert fitting[0] in fitting;
        var j :| j in at && surfaces[j] == fitting[0];
        SingletonSet(at, j);
      }
    } else {
      assert ProvidersFor(surfaces, consumer) == {};
    }
  }

  /** The consumers that end up with a status. */
  ghost function SettledAs(surfaces: seq<Row>, providers: seq<Row>, status: Status): set<nat> {
    set i | i in Consumers(surfaces) && StatusOf(surfaces[i], providers) == status
  }

  lemma SettledStep(front: seq<Row>, last: Row, providers: seq<Row>, status: Status)
    ensures |SettledAs(front + [last], providers, status)| == |SettledAs(front, providers, status)| +
      if last.direction == "consumer" && StatusOf(last, providers) == status then 1 else 0
  {
    hide StatusOf;
    var surfaces, before := front + [last], SettledAs(front, providers, status);
    assert surfaces[|front|] == last;
    forall i: nat | i < |front| ensures i in SettledAs(surfaces, providers, status) <==> i in before {
      assert surfaces[i] == front[i];
    }
    if last.direction == "consumer" && StatusOf(last, providers) == status {
      assert SettledAs(surfaces, providers, status) == before + {|front|};
    } else {
      assert SettledAs(surfaces, providers, status) == before;
    }
  }

  lemma {:induction false} CountedAt(surfaces: seq<Row>, providers: seq<Row>, status: Status)
    ensures CountStatus(WithDirection(surfaces, "consumer"), providers, status) ==
      |SettledAs(surfaces, providers, status)|
  {
    hide StatusOf;
    if surfaces == [] {
      assert SettledAs(surfaces, providers, status) == {};
    } else {
      var front, last := Front(surfaces), Last(surfaces);
      CountedAt(front, providers, status);
      FrontLast(surfaces);
      SettledStep(front, last, providers, status);
      hide SettledAs;
      var consumers := WithDirection(front, "consumer");
      assert Front(consumers + [last]) == consumers && consumers + [] == consumers;
    }
  }

  lemma {:induction false} LinkedFrom(surfaces: seq<Row>, providers: seq<Row>, link: Link)
    ensures link in LinksOf(WithDirection(surfaces, "consumer"), providers) <==>
      exists i: nat :: i in Consumers(surfaces) && link in LinkFor(surfaces[i], providers)
  {
    hide LinkFor;
    if surfaces != [] {
      var front, n := Front(surfaces), |surfaces| - 1;
      LinkedFrom(front, providers, link);
      var consumers := WithDirection(front, "consumer");
      assert Front(consumers + [surfaces[n]]) == consumers && consumers + [] == consumers;
      if i: nat :| i in Consumers(front) && link in LinkFor(front[i], providers) {
        assert i in Consumers(surfaces) && link in LinkFor(surfaces[i], providers);
      }
      if i: nat :| i in Consumers(surfaces) && link in LinkFor(surfaces[i], providers) {
        assert i < n ==> i in Consumers(front) && link in LinkFor(front[i], providers);
      }
    }
  }

  /** Consumer `i` and the one provider that fits it, with both routes. */
  ghost predicate Joins(surfaces: seq<Row>, link: Link, i: nat, j: nat) {
    && i in Consumers(surfaces) && ProvidersFor(surfaces, surfaces[i]) == {j} && j < |surfaces|
    && link.consumer == surfaces[i] && link.provider == surfaces[j]
    && surfaces[i].route == Some(link.consumerRoute) && surfaces[j].route == Some(link.providerRoute)
  }

  lemma LinkForMeaning(surfaces: seq<Row>, i: nat, link: Link)
    requires i in Consumers(surfaces)
    ensures link in LinkFor(surfaces[i], WithDirection(surfaces, "provider")) <==>
      exists j: nat :: Joins(surfaces, link, i, j)
  {
    var fitting := ProvidersFor(surfaces, surfaces[i]);
    StatusMeaning(surfaces, surfaces[i]);
    if j :| fitting == {j} {
      assert j in fitting;
      hide StatusOf, ProvidersFor;
      assert link in LinkFor(surfaces[i], WithDirection(surfaces, "provider")) <==> Joins(surfaces, link, i, j);
      forall k: nat | Joins(surfaces, link, i, k) ensures k == j {
        assert k in fitting;
      }
    }
  }

  /** The links of the answer: each joins a consumer with the one provider that fits it
      and shows both routes. */
  lemma LinksMeaning(surfaces: seq<Row>, links: seq<Link>, counts: UnlinkedCounts, link: Link)
    requires Tallied(WithDirection(surfaces, "consumer"), WithDirection(surfaces, "provider"), links, counts)
    ensures link in links <==> exists i: nat, j: nat :: Joins(surfaces, link, i, j)
  {
    var providers := WithDirection(surfaces, "provider");
    LinkedFrom(surfaces, providers, link);
    forall i: nat | i in Consumers(surfaces)
      ensures link in LinkFor(surfaces[i], providers) <==> exists j: nat :: Joins(surfaces, link, i, j)
    {
      LinkForMeaning(surfaces, i, link);
    }
    hide LinkFor, LinksOf, ProvidersFor, CountStatus;
  }

  /** Its counts: the consumers without a route, with no fitting provider and with more
      than one. */
  lemma CountsMeaning(surfaces: seq<Row>, links: seq<Link>, counts: UnlinkedCounts)
    requires Tallied(WithDirection(surfaces, "consumer"), WithDirection(surfaces, "provider"), links, counts)
    ensures counts.dynamicRoute == |set i | i in Consumers(surfaces) && surfaces[i].route == None|
    ensures counts.unmatched ==
      |set i | i in Consumers(surfaces) && surfaces[i].route != None && ProvidersFor(surfaces, surfaces[i]) == {}|
    ensures counts.ambiguous == |set i | i in Consumers(surfaces) && |ProvidersFor(surfaces, surfaces[i])| >= 2|
  {
    var providers := WithDirection(surfaces, "provider");
    CountedAt(surfaces, providers, LeftDynamic);
    CountedAt(surfaces, providers, LeftUnmatched);
    CountedAt(surfaces, providers, LeftAmbiguous);
    forall i | i in Consumers(surfaces)
      ensures StatusOf(surfaces[i], providers) == LeftDynamic <==> surfaces[i].route == None
      ensures StatusOf(surfaces[i], providers) == LeftUnmatched <==>
        surfaces[i].route != None && ProvidersFor(surfaces, surfaces[i]) == {}
      ensures StatusOf(surfaces[i], providers) == LeftAmbiguous <==> |ProvidersFor(surfaces, surfaces[i])| >= 2
    {
      StatusMeaning(surfaces, surfaces[i]);
    }
    hide StatusOf, ProvidersFor, LinksOf, CountStatus;
    assert SettledAs(surfaces, providers, LeftDynamic)
        == (set i | i in Consumers(surfaces) && surfaces[i].route == None);
    assert SettledAs(surfaces, providers, LeftUnmatched)
        == (set i | i in Consumers(surfaces) && surfaces[i].route != None && ProvidersFor(surfaces, surfaces[i]) == {});
    assert SettledAs(surfaces, providers, LeftAmbiguous)
        == (set i | i in Consumers(surfaces) && |ProvidersFor(surfaces, surfaces[i])| >= 2);
  }
}
