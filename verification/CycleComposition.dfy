/** `cycle_composition.rs`: test-only, production or unprovable module cycles,
    with the per-module memo shared across one classification. */
module CycleComposition {
  import opened Wrappers
  import opened Ordering

  datatype ModuleComposition = OnlyTests | SomeProduction | NoFiles

  datatype CycleTestComposition = TestOnly | Production | Unknown(reason: string)

  /** A tracked file: path and stored `is_test` fact. */
  type TrackedFile = (string, bool)

  /** Ownership by containment. Unlike `path_in_module`, the empty module owns
      only the empty path and paths that start with a slash. */
  predicate Owns(qualified: string, path: string) {
    path == qualified || qualified + "/" <= path
  }

  ghost function ModuleOf(qualified: string, files: set<TrackedFile>): ModuleComposition {
    if exists f :: f in files && Owns(qualified, f.0) && !f.1 then SomeProduction
    else if exists f :: f in files && Owns(qualified, f.0) then OnlyTests
    else NoFiles
  }

  const NO_MEMBERS := "cycle has no members"
  const NO_PATH := "a cycle member has no qualified module path"

  function NoFilesReason(qualified: string): string {
    "member module `" + qualified + "` owns no tracked file (is_test unknown)"
  }

  ghost function ReasonOf(member: Option<string>, files: set<TrackedFile>): Option<string> {
    match member
    case None => Some(NO_PATH)
    case Some(q) => if ModuleOf(q, files) == NoFiles then Some(NoFilesReason(q)) else None
  }

  /** The reason given by the first unprovable member. */
  ghost function FirstReason(members: seq<Option<string>>, files: set<TrackedFile>): Option<string> {
    if members == [] then None
    else
      var earlier := FirstReason(Front(members), files);
      if earlier.Some? then earlier else ReasonOf(Last(members), files)
  }

  ghost predicate HasProduction(members: seq<Option<string>>, files: set<TrackedFile>) {
    exists q :: Some(q) in members && ModuleOf(q, files) == SomeProduction
  }

  /** The classification of one cycle from scratch, without a memo. */
  ghost function CycleOf(members: seq<Option<string>>, files: set<TrackedFile>): CycleTestComposition {
    if members == [] then Unknown(NO_MEMBERS)
    else if HasProduction(members, files) then Production
    else
      match FirstReason(members, files)
      case Some(reason) => Unknown(reason)
      case None => TestOnly
  }

  method ClassifyModule(qualified: string, files: seq<TrackedFile>) returns (c: ModuleComposition)
    ensures c == ModuleOf(qualified, Elements(files))
  {
    var ownedAny := false;
    for n := 0 to |files|
      invariant ownedAny <==> exists k :: 0 <= k < n && Owns(qualified, files[k].0)
      invariant forall k :: 0 <= k < n && Owns(qualified, files[k].0) ==> files[k].1
    {
      if Owns(qualified, files[n].0) {
        ownedAny := true;
        if !files[n].1 {
          assert files[n] in Elements(files);
          return SomeProduction;
        }
      }
    }
    if ownedAny {
      var k :| 0 <= k < |files| && Owns(qualified, files[k].0);
      assert files[k] in Elements(files);
    }
    c := if ownedAny then OnlyTests else NoFiles;
  }

  ghost predicate MemoOk(memo: map<string, ModuleComposition>, files: set<TrackedFile>) {
    forall q :: q in memo ==> memo[q] == ModuleOf(q, files)
  }

  /** `classify_one`: the memo comes in and goes out extended. */
  method ClassifyOne(members: seq<Option<string>>, files: seq<TrackedFile>, memo: map<string, ModuleComposition>)
      returns (c: CycleTestComposition, memo': map<string, ModuleComposition>)
    requires MemoOk(memo, Elements(files))
    ensures c == CycleOf(members, Elements(files))
    ensures MemoOk(memo', Elements(files)) && memo.Keys <= memo'.Keys
  {
    memo' := memo;
    if members == [] {
      return Unknown(NO_MEMBERS), memo';
    }
    var anyProduction := false;
    var unknownReason: Option<string> := None;
    for n := 0 to |members|
      invariant MemoOk(memo', Elements(files)) && memo.Keys <= memo'.Keys
      invariant anyProduction <==> HasProduction(members[..n], Elements(files))
      invariant unknownReason == FirstReason(members[..n], Elements(files))
    {
      assert members[..n + 1] == members[..n] + [members[n]];
      assert Front(members[..n + 1]) == members[..n];
      match members[n]
      case None =>
        if unknownReason.None? {
          unknownReason := Some(NO_PATH);
        }
      case Some(q) =>
        if q !in memo' {
          var comp := ClassifyModule(q, files);
          memo' := memo'[q := comp];
        }
        match memo'[q] {
          case SomeProduction => anyProduction := true;
          case NoFiles =>
            if unknownReason.None? {
              unknownReason := Some(NoFilesReason(q));
            }
          case OnlyTests =>
        }
        assert Some(q) in members[..n + 1];
    }
    assert members[..|members|] == members;
    if anyProduction {
      c := Production;
    } else {
      c := match unknownReason case Some(reason) => Unknown(reason) case None => TestOnly;
    }
  }

  /** `classify_cycles`: one memo for the whole set, yet each cycle gets what it
      would get alone. */
  method ClassifyCycles(cycles: seq<seq<Option<string>>>, files: seq<TrackedFile>)
      returns (comps: seq<CycleTestComposition>)
    ensures |comps| == |cycles|
    ensures forall i :: 0 <= i < |cycles| ==> comps[i] == CycleOf(cycles[i], Elements(files))
  {
    var memo: map<string, ModuleComposition> := map[];
    comps := [];
    for i := 0 to |cycles|
      invariant |comps| == i && MemoOk(memo, Elements(files))
      invariant forall k :: 0 <= k < i ==> comps[k] == CycleOf(cycles[k], Elements(files))
    {
      var c;
      c, memo := ClassifyOne(cycles[i], files, memo);
      comps := comps + [c];
    }
  }

  // ---- What the classification means ---------------------------------------

  lemma {:induction false} ReasonIffUnprovable(members: seq<Option<string>>, files: set<TrackedFile>)
    ensures FirstReason(members, files).Some? <==>
      exists m :: m in members && ReasonOf(m, files).Some?
  {
    if members != [] {
      ReasonIffUnprovable(Front(members), files);
      assert members == Front(members) + [Last(members)];
    }
  }

  /** Production needs a production file under some member; test-only needs every
      member to own files and all of them to be tests. */
  lemma CycleMeaning(members: seq<Option<string>>, files: set<TrackedFile>)
    ensures CycleOf(members, files) == Production <==>
      exists q, f :: Some(q) in members && f in files && Owns(q, f.0) && !f.1
    ensures CycleOf(members, files) == TestOnly <==>
      && members != []
      && (forall m :: m in members ==> m.Some? && exists f :: f in files && Owns(m.value, f.0))
      && (forall m, f :: m in members && m.Some? && f in files && Owns(m.value, f.0) ==> f.1)
  {
    ReasonIffUnprovable(members, files);
    if HasProduction(members, files) {
      var q :| Some(q) in members && ModuleOf(q, files) == SomeProduction;
      var f :| f in files && Owns(q, f.0) && !f.1;
    }
    if q, f :| Some(q) in members && f in files && Owns(q, f.0) && !f.1 {
      assert ModuleOf(q, files) == SomeProduction;
    }
    if members != [] && !HasProduction(members, files) {
      forall m, f | m in members && m.Some? && f in files && Owns(m.value, f.0) ensures f.1 {
        assert Some(m.value) in members;
      }
      forall m | m in members ensures ReasonOf(m, files).None? <==>
        m.Some? && exists f :: f in files && Owns(m.value, f.0)
      {
      }
    }
  }

  /** A module owns just its own path and what continues it after a slash. */
  lemma OwnsMeaning(qualified: string, path: string)
    ensures Owns(qualified, path) <==> exists rest :: path == qualified + rest && (rest == "" || rest[0] == '/')
  {
    if Owns(qualified, path) {
      assert path == qualified + path[|qualified|..];
    }
    forall rest | path == qualified + rest && (rest == "" || rest[0] == '/') ensures Owns(qualified, path) {
      assert rest != "" ==> path[..|qualified| + 1] == qualified + "/";
    }
  }

  /** Without a module path, or with one that owns no file. */
  ghost predicate Unprovable(member: Option<string>, files: set<TrackedFile>) {
    member.None? || forall f :: f in files ==> !Owns(member.value, f.0)
  }

  /** The reason speaks of the first member that cannot be proven. */
  lemma ReasonMeaning(members: seq<Option<string>>, files: set<TrackedFile>, i: nat)
    requires CycleOf(members, files) != Production
    requires i < |members| && Unprovable(members[i], files)
    requires forall j :: 0 <= j < i ==> !Unprovable(members[j], files)
    ensures CycleOf(members, files) == Unknown(
      if members[i].None? then "a cycle member has no qualified module path"
      else "member module `" + members[i].value + "` owns no tracked file (is_test unknown)")
  {
    FirstReasonAt(members, files, i);
  }

  lemma {:induction false} FirstReasonAt(members: seq<Option<string>>, files: set<TrackedFile>, i: nat)
    requires i < |members| && Unprovable(members[i], files)
    requires forall j :: 0 <= j < i ==> !Unprovable(members[j], files)
    ensures FirstReason(members, files) == ReasonOf(members[i], files) != None
  {
    if i < |members| - 1 {
      FirstReasonAt(Front(members), files, i);
    } else {
      ReasonIffUnprovable(Front(members), files);
    }
  }

  /** Reordering members or files changes at most the wording of a reason. */
  lemma KindForgetsOrder(members: seq<Option<string>>, shuffled: seq<Option<string>>, files: set<TrackedFile>)
    requires Permutation(members, shuffled)
    ensures CycleOf(members, files) == Production <==> CycleOf(shuffled, files) == Production
    ensures CycleOf(members, files) == TestOnly <==> CycleOf(shuffled, files) == TestOnly
    ensures CycleOf(members, files).Unknown? <==> CycleOf(shuffled, files).Unknown?
  {
    PermutationFacts(members, shuffled);
    ReasonIffUnprovable(members, files);
    ReasonIffUnprovable(shuffled, files);
  }

  // ---- The headline partition ----------------------------------------------

  datatype CyclePartition = CyclePartition(productionCount: nat, testOnlyCount: nat, unknownCount: nat)

  ghost function TestOnlyAt(comps: seq<CycleTestComposition>): set<nat> {
    set i: nat | i < |comps| && comps[i] == TestOnly
  }

  ghost function UnknownAt(comps: seq<CycleTestComposition>): set<nat> {
    set i: nat | i < |comps| && comps[i].Unknown?
  }

  lemma CountStep(comps: seq<CycleTestComposition>, n: nat)
    requires n < |comps|
    ensures |TestOnlyAt(comps[..n + 1])| == |TestOnlyAt(comps[..n])| + if comps[n] == TestOnly then 1 else 0
    ensures |UnknownAt(comps[..n + 1])| == |UnknownAt(comps[..n])| + if comps[n].Unknown? then 1 else 0
  {
    assert TestOnlyAt(comps[..n + 1]) == TestOnlyAt(comps[..n]) + if comps[n] == TestOnly then {n} else {};
    assert UnknownAt(comps[..n + 1]) == UnknownAt(comps[..n]) + if comps[n].Unknown? then {n} else {};
  }

  /** `partition_counts`: only test-only cycles leave the headline figure, and the
      unprovable ones are disclosed inside it. */
  method PartitionCounts(comps: seq<CycleTestComposition>) returns (p: CyclePartition)
    ensures p.productionCount + p.testOnlyCount == |comps|
    ensures p.testOnlyCount == |TestOnlyAt(comps)|
    ensures p.unknownCount == |UnknownAt(comps)|
    ensures p.unknownCount <= p.productionCount
  {
    var production, testOnly, unknown := 0, 0, 0;
    for n := 0 to |comps|
      invariant production + testOnly == n && unknown <= production
      invariant testOnly == |TestOnlyAt(comps[..n])|
      invariant unknown == |UnknownAt(comps[..n])|
    {
      hide TestOnlyAt, UnknownAt;
      CountStep(comps, n);
      match comps[n] {
        case TestOnly => testOnly := testOnly + 1;
        case Production => production := production + 1;
        case Unknown(_) => production, unknown := production + 1, unknown + 1;
      }
    }
    assert comps[..|comps|] == comps;
    p := CyclePartition(production, testOnly, unknown);
  }
}
