/** `make_stable_key` of the C extractor: symbol keys with duplicate numbering. */
module StableKeys {
  import opened Text
  import opened Ordering

  /** The symbol subtypes a C file yields, as serialised. */
  datatype NodeSubtype =
    | Function | Class | Method | Interface | Struct | TypeAlias | Variable | Constant | Enum | EnumMember
    | Property | Constructor | Destructor | Getter | Setter | Source | TestFile | Config | Migration | Schema
    | Package | Namespace | Directory | Route | RpcMethod | GraphqlResolver | WebsocketHandler | TestSuite | TestCase
    | Connection | FilePath | DirectoryPath | Logical | Cache | Bucket | Container
  {
    function AsStr(): string {
      match this
      case Function => "FUNCTION"
      case Class => "CLASS"
      case Method => "METHOD"
      case Interface => "INTERFACE"
      case Struct => "STRUCT"
      case TypeAlias => "TYPE_ALIAS"
      case Variable => "VARIABLE"
      case Constant => "CONSTANT"
      case Enum => "ENUM"
      case EnumMember => "ENUM_MEMBER"
      case Property => "PROPERTY"
      case Constructor => "CONSTRUCTOR"
      case Destructor => "DESTRUCTOR"
      case Getter => "GETTER"
      case Setter => "SETTER"
      case Source => "SOURCE"
      case TestFile => "TEST_FILE"
      case Config => "CONFIG"
      case Migration => "MIGRATION"
      case Schema => "SCHEMA"
      case Package => "PACKAGE"
      case Namespace => "NAMESPACE"
      case Directory => "DIRECTORY"
      case Route => "ROUTE"
      case RpcMethod => "RPC_METHOD"
      case GraphqlResolver => "GRAPHQL_RESOLVER"
      case WebsocketHandler => "WEBSOCKET_HANDLER"
      case TestSuite => "TEST_SUITE"
      case TestCase => "TEST_CASE"
      case Connection => "CONNECTION"
      case FilePath => "FILE_PATH"
      case DirectoryPath => "DIRECTORY_PATH"
      case Logical => "LOGICAL"
      case Cache => "CACHE"
      case Bucket => "BUCKET"
      case Container => "CONTAINER"
    }
  }

  datatype Request = Request(name: string, subtype: NodeSubtype)

  function BaseKey(repo: string, file: string, r: Request): string {
    repo + ":" + file + "#" + r.name + ":SYMBOL" + ":" + r.subtype.AsStr()
  }

  function Numbered(base: string, count: nat): string {
    if count == 1 then base else base + ":" + ("dup" + Decimal(count))
  }

  function CountOf(counts: map<string, nat>, base: string): nat {
    if base in counts then counts[base] else 0
  }

  function AfterRequest(repo: string, file: string, counts: map<string, nat>, r: Request): map<string, nat> {
    var base := BaseKey(repo, file, r);
    counts[base := CountOf(counts, base) + 1]
  }

  function KeyFor(repo: string, file: string, counts: map<string, nat>, r: Request): string {
    var base := BaseKey(repo, file, r);
    Numbered(base, CountOf(counts, base) + 1)
  }

  /** The counters after a run of requests. */
  function CountsAfter(repo: string, file: string, requests: seq<Request>): map<string, nat> {
    if requests == [] then map[]
    else AfterRequest(repo, file, CountsAfter(repo, file, requests[..|requests| - 1]), requests[|requests| - 1])
  }

  /** The key returned for request `i` of a run. */
  function KeyAt(repo: string, file: string, requests: seq<Request>, i: nat): string
    requires i < |requests|
  {
    KeyFor(repo, file, CountsAfter(repo, file, requests[..i]), requests[i])
  }

  /** `keys` are the keys returned for the first `|keys|` requests. */
  ghost predicate KeysOf(repo: string, file: string, requests: seq<Request>, keys: seq<string>) {
    && |keys| <= |requests|
    && forall i :: 0 <= i < |keys| ==> keys[i] == KeyAt(repo, file, requests, i)
  }

  class ExtractionCtx {
    const repoUid: string
    const filePath: string
    var stableKeyCounts: map<string, nat>

    constructor (repoUid: string, filePath: string)
      ensures this.repoUid == repoUid && this.filePath == filePath && stableKeyCounts == map[]
    {
      this.repoUid, this.filePath, stableKeyCounts := repoUid, filePath, map[];
    }

    method MakeStableKey(name: string, subtype: NodeSubtype) returns (key: string)
      modifies this
      ensures key == KeyFor(repoUid, filePath, old(stableKeyCounts), Request(name, subtype))
      ensures stableKeyCounts == AfterRequest(repoUid, filePath, old(stableKeyCounts), Request(name, subtype))
    {
      var baseKey := BaseKey(repoUid, filePath, Request(name, subtype));
      var count := CountOf(stableKeyCounts, baseKey) + 1;
      stableKeyCounts := stableKeyCounts[baseKey := count];
      key := if count == 1 then baseKey else baseKey + ":" + ("dup" + Decimal(count));
    }

    /** A run of requests on one context never returns a key twice. */
    method MakeAll(requests: seq<Request>) returns (keys: seq<string>)
      requires stableKeyCounts == map[]
      modifies this
      ensures |keys| == |requests| && Distinct(keys)
    {
      keys := [];
      for n := 0 to |requests|
        invariant stableKeyCounts == CountsAfter(repoUid, filePath, requests[..n])
        invariant KeysOf(repoUid, filePath, requests, keys) && |keys| == n
      {
        hide KeyFor, AfterRequest, KeysOf, CountsAfter;
        var key := MakeStableKey(requests[n].name, requests[n].subtype);
        RunStep(repoUid, filePath, requests, n);
        KeysStep(repoUid, filePath, requests, keys, key);
        keys := keys + [key];
      }
      AllKeysDistinct(repoUid, filePath, requests, keys);
    }
  }

  // ---- No key repeats ------------------------------------------------------

  /** A serialised subtype starts with a capital and has no colon. */
  ghost predicate Capitalised(s: NodeSubtype) {
    ':' !in s.AsStr() && s.AsStr() != "" && 'A' <= s.AsStr()[0] <= 'Z'
  }

  lemma SubtypeShape(s: NodeSubtype)
    ensures Capitalised(s)
  {
    hide *;
    match s {
      case Function | Class | Method | Interface | Struct | TypeAlias => SymbolSubtypes(s);
      case Variable | Constant | Enum | EnumMember | Property | Constructor => MemberSubtypes(s);
      case Destructor | Getter | Setter | Source | TestFile | Config => AccessorSubtypes(s);
      case Migration | Schema | Package | Namespace | Directory | Route => ScopeSubtypes(s);
      case RpcMethod | GraphqlResolver | WebsocketHandler | TestSuite | TestCase | Connection => EndpointSubtypes(s);
      case FilePath | DirectoryPath | Logical | Cache | Bucket | Container => StorageSubtypes(s);
    }
  }

  lemma SymbolSubtypes(s: NodeSubtype)
    requires s in {Function, Class, Method, Interface, Struct, TypeAlias}
    ensures Capitalised(s)
  {
  }

  lemma MemberSubtypes(s: NodeSubtype)
    requires s in {Variable, Constant, Enum, EnumMember, Property, Constructor}
    ensures Capitalised(s)
  {
  }

  lemma AccessorSubtypes(s: NodeSubtype)
    requires s in {Destructor, Getter, Setter, Source, TestFile, Config}
    ensures Capitalised(s)
  {
  }

  lemma ScopeSubtypes(s: NodeSubtype)
    requires s in {Migration, Schema, Package, Namespace, Directory, Route}
    ensures Capitalised(s)
  {
  }

  lemma EndpointSubtypes(s: NodeSubtype)
    requires s in {RpcMethod, GraphqlResolver, WebsocketHandler, TestSuite, TestCase, Connection}
    ensures Capitalised(s)
  {
  }

  lemma StorageSubtypes(s: NodeSubtype)
    requires s in {FilePath, DirectoryPath, Logical, Cache, Bucket, Container}
    ensures Capitalised(s)
  {
  }

  lemma DupShape(count: nat)
    ensures ':' !in "dup" + Decimal(count) && ("dup" + Decimal(count))[0] == 'd'
  {
    assert forall i :: 0 <= i < |Decimal(count)| ==> Decimal(count)[i] != ':';
  }

  /** A plain key never equals a numbered one: what follows the last colon is a
      subtype in the one and a `dup` number in the other. */
  lemma PlainIsNotNumbered(repo: string, file: string, r: Request, q: Request, count: nat)
    ensures BaseKey(repo, file, r) != BaseKey(repo, file, q) + ":" + ("dup" + Decimal(count))
  {
    SubtypeShape(r.subtype);
    DupShape(count);
    var left := repo + ":" + file + "#" + r.name + ":SYMBOL";
    if BaseKey(repo, file, r) == BaseKey(repo, file, q) + ":" + ("dup" + Decimal(count)) {
      LastSeparator(left, r.subtype.AsStr(), BaseKey(repo, file, q), "dup" + Decimal(count), ':');
    }
  }

  /** A printed key determines its base key and number. */
  lemma NumberedInjective(repo: string, file: string, r: Request, m: nat, q: Request, n: nat)
    requires Numbered(BaseKey(repo, file, r), m) == Numbered(BaseKey(repo, file, q), n)
    ensures BaseKey(repo, file, r) == BaseKey(repo, file, q) && m == n
  {
    var a, b := BaseKey(repo, file, r), BaseKey(repo, file, q);
    PlainIsNotNumbered(repo, file, r, q, n);
    PlainIsNotNumbered(repo, file, q, r, m);
    if m != 1 && n != 1 {
      DupShape(m);
      DupShape(n);
      LastSeparator(a, "dup" + Decimal(m), b, "dup" + Decimal(n), ':');
      assert Decimal(m) == ("dup" + Decimal(m))[3..] && Decimal(n) == ("dup" + Decimal(n))[3..];
      DecimalInjective(m, n);
    }
  }

  /** Counters only grow, and strictly for the base key asked for. */
  lemma {:induction false} CountsGrow(repo: string, file: string, requests: seq<Request>, i: nat, j: nat, base: string)
    requires i <= j <= |requests|
    ensures CountOf(CountsAfter(repo, file, requests[..i]), base) <=
      CountOf(CountsAfter(repo, file, requests[..j]), base)
    ensures i < j && BaseKey(repo, file, requests[i]) == base ==>
      CountOf(CountsAfter(repo, file, requests[..i]), base) < CountOf(CountsAfter(repo, file, requests[..j]), base)
    decreases j - i
  {
    if i < j {
      hide AfterRequest, CountOf, BaseKey;
      assert requests[..j][..j - 1] == requests[..j - 1];
      CountsGrow(repo, file, requests, i, j - 1, base);
      CountStep(repo, file, CountsAfter(repo, file, requests[..j - 1]), requests[j - 1], base);
    }
  }

  lemma CountStep(repo: string, file: string, counts: map<string, nat>, r: Request, base: string)
    ensures CountOf(AfterRequest(repo, file, counts, r), base) ==
      CountOf(counts, base) + if BaseKey(repo, file, r) == base then 1 else 0
  {
    hide BaseKey;
  }

  /** Over any run on one context, the returned keys are pairwise distinct. */
  lemma KeysNeverRepeat(repo: string, file: string, requests: seq<Request>, i: nat, j: nat)
    requires i < j < |requests|
    ensures KeyAt(repo, file, requests, i) != KeyAt(repo, file, requests, j)
  {
    var a, b := BaseKey(repo, file, requests[i]), BaseKey(repo, file, requests[j]);
    var m := CountOf(CountsAfter(repo, file, requests[..i]), a) + 1;
    var n := CountOf(CountsAfter(repo, file, requests[..j]), b) + 1;
    if KeyAt(repo, file, requests, i) == KeyAt(repo, file, requests, j) {
      NumberedInjective(repo, file, requests[i], m, requests[j], n);
      CountsGrow(repo, file, requests, i, j, a);
    }
  }

  lemma RunStep(repo: string, file: string, requests: seq<Request>, n: nat)
    requires n < |requests|
    ensures CountsAfter(repo, file, requests[..n + 1]) ==
      AfterRequest(repo, file, CountsAfter(repo, file, requests[..n]), requests[n])
  {
    hide AfterRequest;
    assert requests[..n + 1][..n] == requests[..n];
  }

  lemma KeysStep(repo: string, file: string, requests: seq<Request>, keys: seq<string>, key: string)
    requires KeysOf(repo, file, requests, keys) && |keys| < |requests|
    requires key == KeyFor(repo, file, CountsAfter(repo, file, requests[..|keys|]), requests[|keys|])
    ensures KeysOf(repo, file, requests, keys + [key])
  {
    hide KeyFor, CountsAfter;
  }

  lemma AllKeysDistinct(repo: string, file: string, requests: seq<Request>, keys: seq<string>)
    requires KeysOf(repo, file, requests, keys)
    ensures Distinct(keys)
  {
    hide KeyAt;
    forall i, j | 0 <= i < j < |keys| ensures keys[i] != keys[j] {
      KeysNeverRepeat(repo, file, requests, i, j);
    }
  }

  // ---- Which key each request gets -----------------------------------------

  /** A subtype is recovered from its name's length, first and fourth-last character. */
  function SubtypeNamed(length: nat, first: char, fourth: char): NodeSubtype {
    match length
    case 4 => Enum
    case 5 =>
      if first == 'C' && fourth == 'L' then Class else if first == 'R' then Route else Cache
    case 6 =>
      if first == 'M' then Method else if first == 'S' && fourth == 'R' then Struct else
      if first == 'G' then Getter else if first == 'S' && fourth == 'T' then Setter else
      if first == 'S' && fourth == 'U' then Source else if first == 'C' then Config else
      if first == 'S' && fourth == 'H' then Schema else Bucket
    case 7 =>
      if first == 'P' then Package else Logical
    case 8 =>
      if first == 'F' then Function else if first == 'V' then Variable else
      if first == 'C' then Constant else Property
    case 9 =>
      if first == 'I' then Interface else if first == 'T' && fourth == 'F' then TestFile else
      if first == 'M' then Migration else if first == 'N' then Namespace else
      if first == 'D' then Directory else if first == 'T' && fourth == 'C' then TestCase else
      if first == 'F' then FilePath else Container
    case 10 =>
      if first == 'T' && fourth == 'L' then TypeAlias else if first == 'D' then Destructor else
      if first == 'R' then RpcMethod else if first == 'T' && fourth == 'U' then TestSuite else Connection
    case 11 =>
      if first == 'E' then EnumMember else Constructor
    case 14 => DirectoryPath
    case 16 => GraphqlResolver
    case _ => WebsocketHandler
  }

  ghost predicate NamedBack(s: NodeSubtype) {
    |s.AsStr()| >= 4 && SubtypeNamed(|s.AsStr()|, s.AsStr()[0], s.AsStr()[|s.AsStr()| - 4]) == s
  }

  lemma SubtypeRoundTrip(s: NodeSubtype)
    ensures NamedBack(s)
  {
    hide *;
    match s {
      case Function | Class | Method | Interface | Struct | TypeAlias | Variable | Constant | Enum | EnumMember
      | Property | Constructor => SymbolsNamedBack(s);
      case Destructor | Getter | Setter | Source | TestFile | Config | Migration | Schema | Package | Namespace
      | Directory | Route => ScopesNamedBack(s);
      case RpcMethod | GraphqlResolver | WebsocketHandler | TestSuite | TestCase | Connection | FilePath
      | DirectoryPath | Logical | Cache | Bucket | Container => EndpointsNamedBack(s);
    }
  }

  lemma SymbolsNamedBack(s: NodeSubtype)
    requires s in {Function, Class, Method, Interface, Struct, TypeAlias, Variable, Constant, Enum, EnumMember,
                   Property, Constructor}
    ensures NamedBack(s)
  {
  }

  lemma ScopesNamedBack(s: NodeSubtype)
    requires s in {Destructor, Getter, Setter, Source, TestFile, Config, Migration, Schema, Package, Namespace,
                   Directory, Route}
    ensures NamedBack(s)
  {
  }

  lemma EndpointsNamedBack(s: NodeSubtype)
    requires s in {RpcMethod, GraphqlResolver, WebsocketHandler, TestSuite, TestCase, Connection, FilePath,
                   DirectoryPath, Logical, Cache, Bucket, Container}
    ensures NamedBack(s)
  {
  }

  /** In one file, different names or subtypes have different base keys, whatever
      characters the names hold. */
  lemma BaseKeyInjective(repo: string, file: string, r: Request, q: Request)
    requires BaseKey(repo, file, r) == BaseKey(repo, file, q)
    ensures r == q
  {
    SubtypeShape(r.subtype);
    SubtypeShape(q.subtype);
    SubtypeRoundTrip(r.subtype);
    SubtypeRoundTrip(q.subtype);
    hide SubtypeNamed, NodeSubtype.AsStr;
    var prefix := repo + ":" + file + "#";
    LastSeparator(prefix + r.name + ":SYMBOL", r.subtype.AsStr(), prefix + q.name + ":SYMBOL", q.subtype.AsStr(), ':');
    var left := prefix + r.name + ":SYMBOL";
    assert r.name == left[|prefix|..|left| - 7] && q.name == left[|prefix|..|left| - 7];
  }

  /** The counter of a base key is the number of requests made for it. */
  lemma {:induction false} CountsMeaning(repo: string, file: string, requests: seq<Request>, r: Request)
    ensures CountOf(CountsAfter(repo, file, requests), BaseKey(repo, file, r)) == multiset(requests)[r]
  {
    hide BaseKey, CountOf, AfterRequest;
    if requests == [] {
      NothingCounted(BaseKey(repo, file, r));
    } else {
      var front, last := requests[..|requests| - 1], requests[|requests| - 1];
      assert requests == front + [last];
      CountsMeaning(repo, file, front, r);
      CountStep(repo, file, CountsAfter(repo, file, front), last, BaseKey(repo, file, r));
      if BaseKey(repo, file, last) == BaseKey(repo, file, r) {
        BaseKeyInjective(repo, file, last, r);
      }
      PushCounts(front, last, r);
    }
  }

  lemma NothingCounted(base: string)
    ensures CountOf(map[], base) == 0
  {
  }

  /** The first request for a name and subtype gets the plain key; the n-th gets it with
      `:dup` and n. */
  lemma KeyMeaning(repo: string, file: string, requests: seq<Request>, i: nat)
    requires i < |requests|
    ensures var r, before := requests[i], multiset(requests[..i])[requests[i]];
      KeyAt(repo, file, requests, i) ==
      repo + ":" + file + "#" + r.name + ":SYMBOL:" + r.subtype.AsStr() +
      if before == 0 then "" else ":dup" + Decimal(before + 1)
  {
    var r, before := requests[i], multiset(requests[..i])[requests[i]];
    CountsMeaning(repo, file, requests[..i], r);
    hide NodeSubtype.AsStr, Decimal, CountsAfter, CountOf;
    KeyPrinted(repo + ":" + file + "#" + r.name, r.subtype.AsStr(), Decimal(before + 1));
  }

  lemma KeyPrinted(left: string, name: string, number: string)
    ensures left + ":SYMBOL" + ":" + name == left + ":SYMBOL:" + name + ""
    ensures left + ":SYMBOL" + ":" + name + ":" + ("dup" + number) == left + ":SYMBOL:" + name + (":dup" + number)
  {
  }
}
