/** `http_link.rs`: linking an HTTP consumer to the one provider whose route and
    method match it, and counting why the others stay unlinked. */
module HttpLink {
  import opened Wrappers
  import opened Text
  import opened Ordering

  datatype Row = Row(
    surfaceUid: string,
    direction: string,
    httpMethod: string,
    route: Option<string>,
    sourceFile: string,
    symbolStableKey: string)

  datatype Link = Link(provider: Row, consumer: Row, providerRoute: string, consumerRoute: string)

  datatype UnlinkedCounts = UnlinkedCounts(ambiguous: nat, unmatched: nat, dynamicRoute: nat)

  // ---- Matching ------------------------------------------------------------

  predicate IsWildcardSegment(seg: string) {
    || (seg != "" && seg[0] == '{' && Last(seg) == '}')
    || (seg != "" && seg[0] == ':')
    || seg == "*"
  }

  function TrimEnd(s: string, c: char): string {
    if s != "" && Last(s) == c then TrimEnd(Front(s), c) else s
  }

  predicate SegmentMatches(a: string, b: string) {
    a == b || IsWildcardSegment(a) || IsWildcardSegment(b)
  }

  predicate RouteMatches(consumerRoute: string, providerRoute: string) {
    var c, p := Split(TrimEnd(consumerRoute, '/'), '/'), Split(TrimEnd(providerRoute, '/'), '/');
    |c| == |p| && forall i :: 0 <= i < |c| ==> SegmentMatches(c[i], p[i])
  }

  function AsciiLower(c: char): char {
    if 'A' <= c <= 'Z' then (c as int + 32) as char else c
  }

  predicate EqIgnoreAsciiCase(a: string, b: string) {
    |a| == |b| && forall i :: 0 <= i < |a| ==> AsciiLower(a[i]) == AsciiLower(b[i])
  }

  predicate Fits(consumer: Row, consumerRoute: string, provider: Row) {
    && provider.route.Some?
    && EqIgnoreAsciiCase(provider.httpMethod, consumer.httpMethod)
    && RouteMatches(consumerRoute, provider.route.value)
  }

  /** The providers that fit, in order. */
  ghost function Fitting(consumer: Row, consumerRoute: string, providers: seq<Row>): seq<Row> {
    if providers == [] then []
    else
      Fitting(consumer, consumerRoute, Front(providers)) +
        if Fits(consumer, consumerRoute, Last(providers)) then [Last(providers)] else []
  }

  datatype MatchOutcome = Unique(provider: Row) | Ambiguous | NoMatch

  ghost function OutcomeOf(fitting: seq<Row>): MatchOutcome {
    if |fitting| == 0 then NoMatch else if |fitting| == 1 then Unique(fitting[0]) else Ambiguous
  }

  method MatchConsumer(consumer: Row, consumerRoute: string, providers: seq<Row>) returns (outcome: MatchOutcome)
    ensures outcome == OutcomeOf(Fitting(consumer, consumerRoute, providers))
    ensures outcome.Unique? ==> outcome.provider.route.Some?
  {
    var matched: seq<Row> := [];
    for n := 0 to |providers|
      invariant matched == Fitting(consumer, consumerRoute, providers[..n])
      invariant forall m :: m in matched ==> m.route.Some?
    {
      var provider := providers[n];
      assert Front(providers[..n + 1]) == providers[..n];
      if provider.route.None? {
        continue;
      }
      var sameMethod := EqIgnoreAsciiCase(provider.httpMethod, consumer.httpMethod);
      if sameMethod && RouteMatches(consumerRoute, provider.route.value) {
        matched := matched + [provider];
      }
    }
    assert providers[..|providers|] == providers;
    outcome := if |matched| == 0 then NoMatch else if |matched| == 1 then Unique(matched[0]) else Ambiguous;
  }

  // ---- What becomes of one consumer ----------------------------------------

  datatype Status = Linked(provider: Row) | LeftAmbiguous | LeftUnmatched | LeftDynamic

  ghost function StatusOf(consumer: Row, providers: seq<Row>): Status {
    match consumer.route
    case None => LeftDynamic
    case Some(route) =>
      match OutcomeOf(Fitting(consumer, route, providers))
      case Unique(p) => Linked(p)
      case Ambiguous => LeftAmbiguous
      case NoMatch => LeftUnmatched
  }

  /** The positions of the providers that fit. */
  ghost function FittingAt(consumer: Row, consumerRoute: string, providers: seq<Row>): set<nat> {
    set i: nat | i < |providers| && Fits(consumer, consumerRoute, providers[i])
  }

  lemma {:induction false} FittingCount(consumer: Row, consumerRoute: string, providers: seq<Row>)
    ensures |Fitting(consumer, consumerRoute, providers)| == |FittingAt(consumer, consumerRoute, providers)|
  {
    hide Fits;
    if providers != [] {
      var front, last := Front(providers), |providers| - 1;
      FittingCount(consumer, consumerRoute, front);
      assert providers == front + [providers[last]];
      var before := FittingAt(consumer, consumerRoute, front);
      assert last !in before;
      assert FittingAt(consumer, consumerRoute, providers) ==
        before + if Fits(consumer, consumerRoute, providers[last]) then {last} else {};
    }
  }

  lemma {:induction false} FittingMembers(consumer: Row, consumerRoute: string, providers: seq<Row>)
    ensures forall p ::
      p in Fitting(consumer, consumerRoute, providers) <==> p in providers && Fits(consumer, consumerRoute, p)
  {
    hide Fits;
    if providers != [] {
      FittingMembers(consumer, consumerRoute, Front(providers));
      assert providers == Front(providers) + [Last(providers)];
    }
  }

  /** A consumer is linked exactly when it has a route and one provider row alone
      fits it; the row it is linked to is that one. */
  lemma LinkedIff(consumer: Row, providers: seq<Row>)
    ensures StatusOf(consumer, providers).Linked? <==>
      consumer.route.Some? && exists i :: FittingAt(consumer, consumer.route.value, providers) == {i}
    ensures forall i :: consumer.route.Some? && FittingAt(consumer, consumer.route.value, providers) == {i} ==>
      StatusOf(consumer, providers) == Linked(providers[i])
  {
    if consumer.route.Some? {
      var route := consumer.route.value;
      var at, fitting := FittingAt(consumer, route, providers), Fitting(consumer, route, providers);
      FittingCount(consumer, route, providers);
      FittingMembers(consumer, route, providers);
      if |at| == 1 {
        var i :| i in at;
        SingletonSet(at, i);
        assert fitting[0] in fitting;
        var k :| 0 <= k < |providers| && providers[k] == fitting[0];
        assert k in at;
      }
    }
  }

  lemma SingletonSet<T>(s: set<T>, x: T)
    requires x in s && |s| == 1
    ensures s == {x}
  {
    assert |s - {x}| == 0;
  }

  lemma {:induction false} FittingOfConcat(consumer: Row, route: string, a: seq<Row>, b: seq<Row>)
    ensures Fitting(consumer, route, a + b) == Fitting(consumer, route, a) + Fitting(consumer, route, b)
  {
    if b == [] {
      assert a + b == a;
    } else {
      assert Front(a + b) == a + Front(b);
      FittingOfConcat(consumer, route, a, Front(b));
    }
  }

  /** One more provider row, anywhere: a fitting one moves the consumer from
      unmatched to linked or from linked to ambiguous, any other changes nothing. */
  lemma AddedProvider(consumer: Row, before: seq<Row>, p: Row, after: seq<Row>)
    ensures var was, now := StatusOf(consumer, before + after), StatusOf(consumer, before + [p] + after);
      if consumer.route.Some? && Fits(consumer, consumer.route.value, p)
      then now == if was == LeftUnmatched then Linked(p) else LeftAmbiguous
      else now == was
  {
    if consumer.route.Some? {
      var route := consumer.route.value;
      FittingOfConcat(consumer, route, before, after);
      FittingOfConcat(consumer, route, before + [p], after);
      FittingOfConcat(consumer, route, before, [p]);
      assert Front([p]) == [];
    }
  }

  /** The order of providers is immaterial. */
  lemma StatusForgetsOrder(consumer: Row, providers: seq<Row>, shuffled: seq<Row>)
    requires Permutation(providers, shuffled)
    ensures StatusOf(consumer, providers) == StatusOf(consumer, shuffled)
  {
    if consumer.route.Some? {
      FittingForgetsOrder(consumer, consumer.route.value, providers, shuffled);
      var a, b := Fitting(consumer, consumer.route.value, providers), Fitting(consumer, consumer.route.value, shuffled);
      PermutationFacts(a, b);
      if |a| == 1 {
        assert a[0] in b;
      }
    }
  }

  lemma {:induction false} FittingForgetsOrder(consumer: Row, route: string, providers: seq<Row>, shuffled: seq<Row>)
    requires Permutation(providers, shuffled)
    ensures Permutation(Fitting(consumer, route, providers), Fitting(consumer, route, shuffled))
    decreases |providers|
  {
    PermutationFacts(providers, shuffled);
    if providers != [] {
      var j := PermutationHead(providers, shuffled);
      var p, low, high := providers[0], shuffled[..j], shuffled[j + 1..];
      FittingForgetsOrder(consumer, route, providers[1..], low + high);
      assert providers == [p] + providers[1..] && shuffled == low + ([p] + high);
      FittingOfConcat(consumer, route, [p], providers[1..]);
      FittingOfConcat(consumer, route, [p], high);
      FittingOfConcat(consumer, route, low, [p] + high);
      FittingOfConcat(consumer, route, low, high);
    }
  }

  // ---- Routes --------------------------------------------------------------

  function Slashes(n: nat): (s: string)
    ensures |s| == n
  {
    seq(n, _ => '/')
  }

  lemma {:induction false} TrimmedSlashes(s: string, n: nat)
    ensures TrimEnd(s + Slashes(n), '/') == TrimEnd(s, '/')
  {
    if n == 0 {
      assert s + Slashes(0) == s;
    } else {
      assert Front(s + Slashes(n)) == s + Slashes(n - 1);
      TrimmedSlashes(s, n - 1);
    }
  }

  /** Matching is reflexive and symmetric, and any number of trailing slashes on
      either side is immaterial. */
  lemma RouteMatchingLaws(a: string, b: string, m: nat, n: nat)
    ensures RouteMatches(a, a)
    ensures RouteMatches(a + Slashes(m), b + Slashes(n)) <==> RouteMatches(b, a)
  {
    TrimmedSlashes(a, m);
    TrimmedSlashes(b, n);
  }

  /** The body of the linking loop: a consumer without a route is left alone. */
  method SettleConsumer(consumer: Row, providers: seq<Row>) returns (status: Status)
    ensures status == StatusOf(consumer, providers)
    ensures status.Linked? ==> consumer.route.Some? && status.provider.route.Some?
  {
    hide Fitting;
    if consumer.route.None? {
      return LeftDynamic;
    }
    var outcome := MatchConsumer(consumer, consumer.route.value, providers);
    match outcome {
      case Unique(p) => status := Linked(p);
      case Ambiguous => status := LeftAmbiguous;
      case NoMatch => status := LeftUnmatched;
    }
  }

  // ---- The whole surface set -----------------------------------------------

  function WithDirection(surfaces: seq<Row>, direction: string): seq<Row> {
    if surfaces == [] then []
    else
      WithDirection(Front(surfaces), direction) +
        if Last(surfaces).direction == direction then [Last(surfaces)] else []
  }

  /** The links of the consumers in order, at most one each. */
  ghost function LinksOf(consumers: seq<Row>, providers: seq<Row>): seq<Link> {
    if consumers == [] then [] else LinksOf(Front(consumers), providers) + LinkFor(Last(consumers), providers)
  }

  ghost function LinkFor(c: Row, providers: seq<Row>): seq<Link> {
    match StatusOf(c, providers)
    case Linked(p) => if p.route.Some? then [Link(p, c, p.route.value, c.route.value)] else []
    case _ => []
  }

  /** How many of the consumers end up with a status. */
  ghost function CountStatus(consumers: seq<Row>, providers: seq<Row>, status: Status): nat {
    if consumers == [] then 0
    else
      CountStatus(Front(consumers), providers, status) +
        if StatusOf(Last(consumers), providers) == status then 1 else 0
  }

  /** The running result after some of the consumers. */
  ghost predicate Tallied(consumers: seq<Row>, providers: seq<Row>, links: seq<Link>, counts: UnlinkedCounts) {
    && links == LinksOf(consumers, providers)
    && counts.ambiguous == CountStatus(consumers, providers, LeftAmbiguous)
    && counts.unmatched == CountStatus(consumers, providers, LeftUnmatched)
    && counts.dynamicRoute == CountStatus(consumers, providers, LeftDynamic)
    && |links| + counts.ambiguous + counts.unmatched + counts.dynamicRoute == |consumers|
  }

  function Counted(counts: UnlinkedCounts, status: Status): UnlinkedCounts {
    match status
    case Linked(_) => counts
    case LeftAmbiguous => counts.(ambiguous := counts.ambiguous + 1)
    case LeftUnmatched => counts.(unmatched := counts.unmatched + 1)
    case LeftDynamic => counts.(dynamicRoute := counts.dynamicRoute + 1)
  }

  lemma TalliedStep(consumers: seq<Row>, c: Row, providers: seq<Row>, links: seq<Link>, counts: UnlinkedCounts)
    requires Tallied(consumers, providers, links, counts)
    requires StatusOf(c, providers).Linked? ==> StatusOf(c, providers).provider.route.Some?
    ensures Tallied(consumers + [c], providers, links + LinkFor(c, providers), Counted(counts, StatusOf(c, providers)))
  {
    hide StatusOf;
    assert Front(consumers + [c]) == consumers && Last(consumers + [c]) == c;
  }

  /** `find_http_links`: every consumer is linked or counted under one reason. */
  method FindHttpLinks(surfaces: seq<Row>) returns (links: seq<Link>, counts: UnlinkedCounts)
    ensures Tallied(WithDirection(surfaces, "consumer"), WithDirection(surfaces, "provider"), links, counts)
  {
    var providers := WithDirection(surfaces, "provider");
    var consumers := WithDirection(surfaces, "consumer");
    links, counts := [], UnlinkedCounts(0, 0, 0);
    for n := 0 to |consumers|
      invariant Tallied(consumers[..n], providers, links, counts)
    {
      hide StatusOf, Tallied;
      var consumer := consumers[n];
      var status := SettleConsumer(consumer, providers);
      TalliedStep(consumers[..n], consumer, providers, links, counts);
      assert consumers[..n + 1] == consumers[..n] + [consumer];
      if status.Linked? {
        links := links + [Link(status.provider, consumer, status.provider.route.value, consumer.route.value)];
      }
      counts := Counted(counts, status);
    }
    assert consumers[..|consumers|] == consumers;
  }

  /** Over the whole set, one more provider never lowers the ambiguous count, never
      raises the unmatched count and leaves the dynamic count alone. */
  lemma {:induction false} AddedProviderCounts(consumers: seq<Row>, before: seq<Row>, p: Row, after: seq<Row>)
    ensures var was, now := before + after, before + [p] + after;
      && CountStatus(consumers, now, LeftAmbiguous) >= CountStatus(consumers, was, LeftAmbiguous)
      && CountStatus(consumers, now, LeftUnmatched) <= CountStatus(consumers, was, LeftUnmatched)
      && CountStatus(consumers, now, LeftDynamic) == CountStatus(consumers, was, LeftDynamic)
  {
    if consumers != [] {
      AddedProviderCounts(Front(consumers), before, p, after);
      AddedProvider(Last(consumers), before, p, after);
    }
  }
}
