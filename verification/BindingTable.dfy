/** `table.rs`: validation of a parsed binding table, and lookup. */
module BindingTable {
  import opened Wrappers
  import opened Text
  import opened Surface

  datatype Language = C | Cpp | Rust | Python | TypeScript

  datatype ScopeHeuristic = Fixed | ArgFamily | Sockaddr | Path

  datatype BoundaryScope = IntraProcess | InterProcess | InterDevice | UnknownScope

  datatype DetectionRole = Setup | ProviderRole | ConsumerRole | BidirectionalRole | Send | Receive {
    function Direction(): Direction {
      match this
      case Setup => Bidirectional
      case ProviderRole => Provider
      case ConsumerRole => Consumer
      case BidirectionalRole => Bidirectional
      case Send => Provider
      case Receive => Consumer
    }
  }

  datatype BindingEntry = BindingEntry(
    language: Language,
    apiFamily: string,
    functionName: string,
    role: DetectionRole,
    channelKind: ChannelKind,
    scopeHeuristic: ScopeHeuristic,
    fixedScope: Option<BoundaryScope>,
    argIndex: Option<nat>,
    notes: Option<string>)

  type DedupKey = (Language, string, ChannelKind)

  function KeyOf(e: BindingEntry): DedupKey {
    (e.language, e.functionName, e.channelKind)
  }

  datatype TableError =
    | EmptyField(index: nat, field: string)
    | MissingFixedScope(missingAt: nat)
    | NotesTooLong(longAt: nat, max: nat)
    | Duplicate(language: Language, functionName: string, first: nat, second: nat)

  const MAX_NOTES_LEN: nat := 200

  /** The code points `str::trim` strips (Unicode White_Space). */
  predicate IsWhitespace(c: char) {
    var n := c as int;
    || 0x09 <= n <= 0x0D || n == 0x20 || n == 0x85 || n == 0xA0 || n == 0x1680
    || 0x2000 <= n <= 0x200A || n == 0x2028 || n == 0x2029 || n == 0x202F || n == 0x205F || n == 0x3000
  }

  predicate IsBlank(s: string) {
    forall i :: 0 <= i < |s| ==> IsWhitespace(s[i])
  }

  /** What is wrong with one entry on its own, first check first. */
  function FieldError(e: BindingEntry, index: nat): Option<TableError> {
    if IsBlank(e.apiFamily) then Some(EmptyField(index, "api_family"))
    else if IsBlank(e.functionName) then Some(EmptyField(index, "function"))
    else if e.scopeHeuristic == Fixed && e.fixedScope.None? then Some(MissingFixedScope(index))
    else if e.notes.Some? && ByteLen(e.notes.value) > MAX_NOTES_LEN then Some(NotesTooLong(index, MAX_NOTES_LEN))
    else None
  }

  /** The first position holding a key. */
  function PositionOf(entries: seq<BindingEntry>, key: DedupKey): (i: nat)
    requires exists e :: e in entries && KeyOf(e) == key
    ensures i < |entries| && KeyOf(entries[i]) == key
    ensures forall j :: 0 <= j < i ==> KeyOf(entries[j]) != key
  {
    if KeyOf(entries[0]) == key then 0 else 1 + PositionOf(entries[1..], key)
  }

  /** The error entry `index` raises, given that all earlier entries passed. */
  ghost function ErrorAt(raw: seq<BindingEntry>, index: nat): Option<TableError>
    requires index < |raw|
  {
    var e := raw[index];
    if FieldError(e, index).Some? then FieldError(e, index)
    else if exists d :: d in raw[..index] && KeyOf(d) == KeyOf(e) then
      Some(Duplicate(e.language, e.functionName, PositionOf(raw[..index], KeyOf(e)), index))
    else None
  }

  ghost predicate Accepted(raw: seq<BindingEntry>) {
    forall i :: 0 <= i < |raw| ==> ErrorAt(raw, i).None?
  }

  /** `BindingTable::load_str` on parsed entries: all of them are kept when none
      is at fault, otherwise the first faulty entry is reported. */
  method LoadEntries(raw: seq<BindingEntry>) returns (r: Result<seq<BindingEntry>, TableError>)
    ensures r.Ok? <==> Accepted(raw)
    ensures r.Ok? ==> r.value == raw
    ensures r.Err? ==> exists i ::
      && 0 <= i < |raw| && ErrorAt(raw, i) == Some(r.error)
      && forall j :: 0 <= j < i ==> ErrorAt(raw, j).None?
  {
    var entries: seq<BindingEntry> := [];
    var seen: set<DedupKey> := {};
    for index := 0 to |raw|
      invariant entries == raw[..index]
      invariant seen == set e | e in raw[..index] :: KeyOf(e)
      invariant forall j :: 0 <= j < index ==> ErrorAt(raw, j).None?
    {
      var e := raw[index];
      assert raw[..index + 1] == raw[..index] + [e];
      var fieldError := FieldError(e, index);
      if fieldError.Some? {
        assert ErrorAt(raw, index) == fieldError;
        return Err(fieldError.value);
      }
      if KeyOf(e) in seen {
        var first := PositionOf(entries, KeyOf(e));
        assert ErrorAt(raw, index) == Some(Duplicate(e.language, e.functionName, first, index));
        return Err(Duplicate(e.language, e.functionName, first, index));
      }
      seen := seen + {KeyOf(e)};
      entries := entries + [e];
    }
    r := Ok(entries);
  }

  ghost predicate UniqueKeys(entries: seq<BindingEntry>) {
    forall i, j :: 0 <= i < j < |entries| ==> KeyOf(entries[i]) != KeyOf(entries[j])
  }

  /** Acceptance is field validity of every entry plus unique keys, whatever the order. */
  lemma AcceptedMeaning(raw: seq<BindingEntry>)
    ensures Accepted(raw) <==>
      UniqueKeys(raw) && forall i :: 0 <= i < |raw| ==> FieldError(raw[i], i).None?
  {
    forall i | 0 <= i < |raw|
      ensures (exists d :: d in raw[..i] && KeyOf(d) == KeyOf(raw[i])) <==>
        exists j :: 0 <= j < i && KeyOf(raw[j]) == KeyOf(raw[i])
    {
      if j :| 0 <= j < i && KeyOf(raw[j]) == KeyOf(raw[i]) {
        assert raw[..i][j] == raw[j] && raw[j] in raw[..i];
      }
    }
    if Accepted(raw) {
      forall i, j | 0 <= i < j < |raw| ensures KeyOf(raw[i]) != KeyOf(raw[j]) {
        assert ErrorAt(raw, j).None?;
      }
      forall i | 0 <= i < |raw| ensures FieldError(raw[i], i).None? {
        assert ErrorAt(raw, i).None?;
      }
    }
  }

  /** Nothing but Unicode white space. */
  ghost predicate AllSpace(s: string) {
    forall c :: c in s ==>
      c as int in [9, 10, 11, 12, 13, 32, 0x85, 0xA0, 0x1680, 0x2028, 0x2029, 0x202F, 0x205F, 0x3000]
      || 0x2000 <= c as int <= 0x200A
  }

  lemma AllSpaceIsBlank(s: string)
    ensures AllSpace(s) <==> IsBlank(s)
  {
    forall i | 0 <= i < |s| && AllSpace(s) ensures IsWhitespace(s[i]) {
      assert s[i] in s;
    }
  }

  /** What is wrong with entry `i`, given that those before it passed: the first of the
      faults it has, a repetition being one of language, function and kind together. */
  lemma FaultMeaning(raw: seq<BindingEntry>, i: nat)
    requires i < |raw|
    ensures var e, fault := raw[i], ErrorAt(raw, i);
      if AllSpace(e.apiFamily) then fault == Some(EmptyField(i, "api_family"))
      else if AllSpace(e.functionName) then fault == Some(EmptyField(i, "function"))
      else if e.scopeHeuristic == Fixed && e.fixedScope == None then fault == Some(MissingFixedScope(i))
      else if e.notes.Some? && ByteLen(e.notes.value) > 200 then fault == Some(NotesTooLong(i, 200))
      else if exists j :: 0 <= j < i && Repeats(raw[j], e) then
        exists first: nat :: fault == Some(Duplicate(e.language, e.functionName, first, i))
                        && first < i && Repeats(raw[first], e) && forall j :: 0 <= j < first ==> !Repeats(raw[j], e)
      else fault == None
  {
    AllSpaceIsBlank(raw[i].apiFamily);
    AllSpaceIsBlank(raw[i].functionName);
    hide AllSpace, IsBlank, ByteLen;
    RepeatIff(raw, i);
    hide KeyOf, Repeats;
  }

  lemma RepeatIff(raw: seq<BindingEntry>, i: nat)
    requires i < |raw|
    ensures forall d :: KeyOf(d) == KeyOf(raw[i]) <==> Repeats(d, raw[i])
    ensures (exists d :: d in raw[..i] && KeyOf(d) == KeyOf(raw[i])) <==>
      exists j :: 0 <= j < i && Repeats(raw[j], raw[i])
  {
    if j :| 0 <= j < i && Repeats(raw[j], raw[i]) {
      assert raw[..i][j] == raw[j] && raw[j] in raw[..i] && KeyOf(raw[j]) == KeyOf(raw[i]);
    }
    if d :| d in raw[..i] && KeyOf(d) == KeyOf(raw[i]) {
      var j :| 0 <= j < i && raw[j] == d;
      assert Repeats(raw[j], raw[i]);
    }
  }

  ghost predicate Repeats(d: BindingEntry, e: BindingEntry) {
    d.language == e.language && d.functionName == e.functionName && d.channelKind == e.channelKind
  }

  /** Entries of one function that differ in kind never clash: the three socket kinds
      of `socket` load together. */
  lemma KindsNeverClash(raw: seq<BindingEntry>)
    requires forall i :: 0 <= i < |raw| ==> FieldError(raw[i], i).None?
    requires forall i, j :: 0 <= i < j < |raw| ==> raw[i].channelKind != raw[j].channelKind
    ensures Accepted(raw)
  {
    AcceptedMeaning(raw);
  }

  /** `find_by_function`: candidates in table order. */
  function FindByFunction(entries: seq<BindingEntry>, language: Language, functionName: string): seq<BindingEntry> {
    if entries == [] then []
    else
      (if IsFor(entries[0], language, functionName) then [entries[0]] else [])
        + FindByFunction(entries[1..], language, functionName)
  }

  predicate IsFor(e: BindingEntry, language: Language, functionName: string) {
    e.language == language && e.functionName == functionName
  }

  function Shifted(at: seq<nat>): (later: seq<nat>)
    ensures |later| == |at| && forall i :: 0 <= i < |at| ==> later[i] == at[i] + 1
  {
    seq(|at|, i requires 0 <= i < |at| => at[i] + 1)
  }

  lemma ShiftedMembers(at: seq<nat>)
    ensures forall p: nat :: p in Shifted(at) <==> p >= 1 && p - 1 in at
  {
    forall p: nat | p >= 1 && p - 1 in at ensures p in Shifted(at) {
      var i :| 0 <= i < |at| && at[i] == p - 1;
      assert Shifted(at)[i] == p;
    }
  }

  /** `at` lists, ascending, the positions of the entries for one function. */
  ghost predicate Positions(entries: seq<BindingEntry>, language: Language, functionName: string, at: seq<nat>) {
    && (forall i, j :: 0 <= i < j < |at| ==> at[i] < at[j])
    && (forall p: nat :: p in at <==> p < |entries| && IsFor(entries[p], language, functionName))
  }

  /** `found` holds the entries at those positions. */
  ghost predicate Lists(found: seq<BindingEntry>, entries: seq<BindingEntry>, at: seq<nat>) {
    |at| == |found| && forall i :: 0 <= i < |at| ==> at[i] < |entries| && found[i] == entries[at[i]]
  }

  lemma ListsShift(found: seq<BindingEntry>, entries: seq<BindingEntry>, later: seq<nat>)
    requires entries != [] && Lists(found, entries[1..], later)
    ensures Lists(found, entries, Shifted(later)) && Lists([entries[0]] + found, entries, [0] + Shifted(later))
  {
  }

  /** The candidates are the entries of that language and function, each once and
      in declaration order. */
  lemma {:induction false} FindByFunctionOrder(entries: seq<BindingEntry>, language: Language, functionName: string)
      returns (at: seq<nat>)
    ensures Positions(entries, language, functionName, at)
    ensures Lists(FindByFunction(entries, language, functionName), entries, at)
  {
    if entries == [] {
      at := [];
    } else {
      FindByFunctionStep(entries, language, functionName);
      hide FindByFunction, Positions, IsFor, Lists;
      var later := FindByFunctionOrder(entries[1..], language, functionName);
      PositionsStep(entries, language, functionName, later);
      ListsShift(FindByFunction(entries[1..], language, functionName), entries, later);
      at := if IsFor(entries[0], language, functionName) then [0] + Shifted(later) else Shifted(later);
    }
  }

  lemma FindByFunctionStep(entries: seq<BindingEntry>, language: Language, functionName: string)
    requires entries != []
    ensures FindByFunction(entries, language, functionName) ==
      var found := FindByFunction(entries[1..], language, functionName);
      if IsFor(entries[0], language, functionName) then [entries[0]] + found else found
  {
  }

  lemma PositionsStep(entries: seq<BindingEntry>, language: Language, functionName: string, later: seq<nat>)
    requires entries != [] && Positions(entries[1..], language, functionName, later)
    ensures Positions(entries, language, functionName,
                      if IsFor(entries[0], language, functionName) then [0] + Shifted(later) else Shifted(later))
  {
    hide IsFor;
    ShiftedMembers(later);
    var at := if IsFor(entries[0], language, functionName) then [0] + Shifted(later) else Shifted(later);
    forall p: nat ensures p in at <==> p < |entries| && IsFor(entries[p], language, functionName) {
      if p > 0 {
        assert p < |entries| ==> entries[1..][p - 1] == entries[p];
        assert p in at <==> p - 1 in later;
      }
    }
  }

  lemma {:induction false} FindByFunctionMembers(entries: seq<BindingEntry>, language: Language, functionName: string)
    ensures forall e :: e in FindByFunction(entries, language, functionName) <==>
      e in entries && e.language == language && e.functionName == functionName
  {
    if entries != [] {
      FindByFunctionMembers(entries[1..], language, functionName);
    }
  }
}
