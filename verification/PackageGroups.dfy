/** `package_groups.rs`: folding leaf directories into named package groups. */
module PackageGroups {
  import opened Wrappers
  import opened Text
  import opened Ordering
  import opened PackageNames

  datatype DirGroup = DirGroup(path: string, fileCount: nat, testFileCount: nat)

  datatype ManifestKind = RustCrate | TsPackage

  datatype ManifestRoot = ManifestRoot(path: string, kind: ManifestKind)

  datatype PackageGroup = PackageGroup(name: string, fileCount: nat, testFileCount: nat)

  // ---- Merge keys ----------------------------------------------------------

  predicate NoNestedRoots(roots: seq<ManifestRoot>) {
    forall r :: r in roots ==> r.path == "."
  }

  /** A root "." covers everything, but only when it stands alone. */
  predicate Covers(root: string, path: string, noNested: bool) {
    if root == "." then noNested else path == root || root + "/" <= path
  }

  /** `filter(..).max_by_key(len)`: the last of the longest covering roots. */
  function NearestManifestRoot(path: string, roots: seq<ManifestRoot>, noNested: bool): (r: Option<ManifestRoot>)
    ensures r.None? ==> forall m :: m in roots ==> !Covers(m.path, path, noNested)
    ensures r.Some? ==> r.value in roots && Covers(r.value.path, path, noNested)
    ensures r.Some? ==>
      forall m :: m in roots && Covers(m.path, path, noNested) ==> ByteLen(m.path) <= ByteLen(r.value.path)
  {
    if roots == [] then None
    else
      var m, best := Last(roots), NearestManifestRoot(path, Front(roots), noNested);
      assert forall x :: x in roots <==> x in Front(roots) || x == m;
      if !Covers(m.path, path, noNested) then best
      else if best.Some? && ByteLen(best.value.path) > ByteLen(m.path) then best
      else Some(m)
  }

  function ClassifyDirectory(path: string): string {
    if "src/test/" <= path then path[9..]
    else if "src/main/" <= path then path[9..]
    else path
  }

  /** `classify`: the merge key and whether a manifest root gave it. */
  function Classify(path: string, roots: seq<ManifestRoot>): (string, bool) {
    match NearestManifestRoot(path, roots, NoNestedRoots(roots))
    case Some(root) => (root.path, true)
    case None => (ClassifyDirectory(path), false)
  }

  /** Covering roots of one path nest, so the longest is unique as a path. */
  lemma CoveringRootsNest(path: string, a: string, b: string, noNested: bool)
    requires Covers(a, path, noNested) && Covers(b, path, noNested) && ByteLen(a) == ByteLen(b)
    requires a != "." && b != "."
    ensures a == b
  {
    assert a <= path && b <= path;
    if |a| <= |b| {
      assert a == path[..|a|] && b == path[..|b|];
      assert a <= b;
      PrefixByteLen(a, b);
    } else {
      assert a == path[..|a|] && b == path[..|b|];
      assert b <= a;
      PrefixByteLen(b, a);
    }
  }

  /** The key does not depend on the order of the manifest roots. */
  lemma ClassifyForgetsOrder(path: string, roots: seq<ManifestRoot>, shuffled: seq<ManifestRoot>)
    requires Elements(roots) == Elements(shuffled)
    ensures Classify(path, roots) == Classify(path, shuffled)
  {
    assert forall r :: r in roots <==> r in Elements(roots);
    assert forall r :: r in shuffled <==> r in Elements(shuffled);
    assert NoNestedRoots(roots) == NoNestedRoots(shuffled);
    var noNested := NoNestedRoots(roots);
    var a, b := NearestManifestRoot(path, roots, noNested), NearestManifestRoot(path, shuffled, noNested);
    if a.Some? && b.Some? && a.value.path != "." && b.value.path != "." {
      CoveringRootsNest(path, a.value.path, b.value.path, noNested);
    }
  }

  // ---- The fold ------------------------------------------------------------

  /** What is summed per group. */
  type Measure = DirGroup -> nat

  function FilesOf(d: DirGroup): nat { d.fileCount }

  function TestsOf(d: DirGroup): nat { d.testFileCount }

  /** A directory counts towards a key when it merges into it. */
  ghost function Merged(roots: seq<ManifestRoot>, key: string, m: Measure): Measure {
    (d: DirGroup) => if Classify(d.path, roots).0 == key then m(d) else 0
  }

  /** The total over the directories that merge into one key. */
  ghost function KeyTotal(dirs: seq<DirGroup>, roots: seq<ManifestRoot>, key: string, m: Measure): nat {
    SumBy(dirs, Merged(roots, key, m))
  }

  ghost predicate ManifestRooted(dirs: set<DirGroup>, roots: seq<ManifestRoot>, key: string) {
    exists d :: d in dirs && Classify(d.path, roots) == (key, true)
  }

  ghost function Keys(dirs: set<DirGroup>, roots: seq<ManifestRoot>): set<string> {
    set d | d in dirs :: Classify(d.path, roots).0
  }

  /** One accumulator entry: files, tests, manifest-rooted. */
  type Entry = (nat, nat, bool)

  ghost function EntryFor(dirs: seq<DirGroup>, roots: seq<ManifestRoot>, k: string): Entry {
    (KeyTotal(dirs, roots, k, FilesOf), KeyTotal(dirs, roots, k, TestsOf), ManifestRooted(Elements(dirs), roots, k))
  }

  ghost predicate Accumulated(dirs: seq<DirGroup>, roots: seq<ManifestRoot>, acc: map<string, Entry>) {
    && acc.Keys == Keys(Elements(dirs), roots)
    && forall k :: k in acc ==> acc[k] == EntryFor(dirs, roots, k)
  }

  lemma {:induction false} NoKeyNoTotal(dirs: seq<DirGroup>, roots: seq<ManifestRoot>, key: string, m: Measure)
    requires key !in Keys(Elements(dirs), roots)
    ensures KeyTotal(dirs, roots, key, m) == 0
  {
    if dirs != [] {
      assert dirs == Front(dirs) + [Last(dirs)];
      assert Last(dirs) in Elements(dirs);
      assert forall d :: d in Front(dirs) ==> d in Elements(dirs);
      NoKeyNoTotal(Front(dirs), roots, key, m);
    }
  }

  function Added(entry: Entry, d: DirGroup, isManifest: bool): Entry {
    (entry.0 + d.fileCount, entry.1 + d.testFileCount, entry.2 || isManifest)
  }

  lemma MergedAt(roots: seq<ManifestRoot>, key: string, m: Measure, d: DirGroup)
    ensures Merged(roots, key, m)(d) == if Classify(d.path, roots).0 == key then m(d) else 0
  {
  }

  lemma EntryStep(dirs: seq<DirGroup>, roots: seq<ManifestRoot>, d: DirGroup, k: string)
    ensures EntryFor(dirs + [d], roots, k) ==
      if Classify(d.path, roots).0 == k then Added(EntryFor(dirs, roots, k), d, Classify(d.path, roots).1)
      else EntryFor(dirs, roots, k)
  {
    hide Classify;
    var all := dirs + [d];
    assert all[..|all| - 1] == dirs && all[|all| - 1] == d;
    PushElement(dirs, d);
    MergedAt(roots, k, FilesOf, d);
    MergedAt(roots, k, TestsOf, d);
    if ManifestRooted(Elements(dirs), roots, k) {
      var x :| x in Elements(dirs) && Classify(x.path, roots) == (k, true);
      assert x in Elements(all);
    }
    if Classify(d.path, roots) == (k, true) {
      assert d in Elements(all);
    }
  }

  lemma KeysStep(dirs: seq<DirGroup>, roots: seq<ManifestRoot>, d: DirGroup)
    ensures Keys(Elements(dirs + [d]), roots) == Keys(Elements(dirs), roots) + {Classify(d.path, roots).0}
  {
    hide Classify;
    PushElement(dirs, d);
  }

  lemma FreshEntry(dirs: seq<DirGroup>, roots: seq<ManifestRoot>, key: string)
    requires key !in Keys(Elements(dirs), roots)
    ensures EntryFor(dirs, roots, key) == (0, 0, false)
  {
    hide Classify;
    NoKeyNoTotal(dirs, roots, key, FilesOf);
    NoKeyNoTotal(dirs, roots, key, TestsOf);
  }

  lemma AccumulateStep(dirs: seq<DirGroup>, roots: seq<ManifestRoot>, acc: map<string, Entry>, d: DirGroup)
    requires Accumulated(dirs, roots, acc)
    ensures var (key, isManifest) := Classify(d.path, roots);
      Accumulated(dirs + [d], roots, acc[key := Added(if key in acc then acc[key] else (0, 0, false), d, isManifest)])
  {
    hide Classify, EntryFor, Keys, Elements;
    KeysStep(dirs, roots, d);
    var key := Classify(d.path, roots).0;
    if key !in acc {
      FreshEntry(dirs, roots, key);
    }
    forall k ensures EntryFor(dirs + [d], roots, k) ==
      if Classify(d.path, roots).0 == k then Added(EntryFor(dirs, roots, k), d, Classify(d.path, roots).1)
      else EntryFor(dirs, roots, k)
    {
      EntryStep(dirs, roots, d, k);
    }
  }

  /** The keyed fold; `keys` is the `BTreeMap`'s ascending key order. */
  method Accumulate(dirs: seq<DirGroup>, roots: seq<ManifestRoot>) returns (keys: seq<string>, acc: map<string, Entry>)
    ensures Accumulated(dirs, roots, acc)
    ensures keys == Enumeration(LexLe, Keys(Elements(dirs), roots))
  {
    StringOrder();
    keys, acc := [], map[];
    NothingAccumulated(roots);
    assert dirs[..0] == [];
    for n := 0 to |dirs|
      invariant Accumulated(dirs[..n], roots, acc)
      invariant Ascending(LexLe, keys) && Elements(keys) == acc.Keys
    {
      hide Accumulated, Ascending, LexLe, TotalOrder, Elements, Classify;
      var d := dirs[n];
      AccumulateStep(dirs[..n], roots, acc, d);
      assert dirs[..n + 1] == dirs[..n] + [d];
      var (key, isManifest) := Classify(d.path, roots);
      InsertUniqueAscending(LexLe, key, keys);
      keys := InsertUnique(LexLe, key, keys);
      acc := acc[key := Added(if key in acc then acc[key] else (0, 0, false), d, isManifest)];
    }
    assert dirs[..|dirs|] == dirs;
    AscendingEnumeration(keys, acc.Keys);
  }

  lemma AscendingEnumeration(keys: seq<string>, s: set<string>)
    requires Ascending(LexLe, keys) && Elements(keys) == s
    ensures keys == Enumeration(LexLe, s)
  {
    StringOrder();
    EnumerationAscends(LexLe, s);
    AscendingIsUnique(LexLe, keys, Enumeration(LexLe, s));
  }

  lemma NothingAccumulated(roots: seq<ManifestRoot>)
    ensures Accumulated([], roots, map[])
  {
  }

  // ---- Names in place ------------------------------------------------------

  /** A group under its key and current display name. */
  datatype Named = Named(key: string, name: string, total: nat, test: nat)

  /** Positions that carry one display name, ascending. */
  function IndicesOf(named: seq<Named>, name: string): (idxs: seq<nat>)
    ensures forall i :: i in idxs <==> 0 <= i < |named| && named[i].name == name
    ensures Distinct(idxs)
  {
    if named == [] then []
    else
      var before, last := IndicesOf(Front(named), name), |named| - 1;
      assert last !in before;
      if Last(named).name == name then before + [last] else before
  }

  function KeysAt(named: seq<Named>, idxs: seq<nat>): (keys: seq<string>)
    requires forall p :: 0 <= p < |idxs| ==> idxs[p] < |named|
    ensures |keys| == |idxs| && forall p :: 0 <= p < |idxs| ==> keys[p] == named[idxs[p]].key
  {
    seq(|idxs|, p requires 0 <= p < |idxs| => named[idxs[p]].key)
  }

  lemma IndicesInRange(named: seq<Named>, name: string)
    ensures forall p :: 0 <= p < |IndicesOf(named, name)| ==>
      IndicesOf(named, name)[p] < |named| && named[IndicesOf(named, name)[p]].name == name
  {
    var idxs := IndicesOf(named, name);
    forall p | 0 <= p < |idxs| ensures idxs[p] < |named| && named[idxs[p]].name == name {
      assert idxs[p] in idxs;
    }
  }

  /** The keys that render like entry `i`. */
  ghost function Colliding(named: seq<Named>, i: nat): seq<string>
    requires i < |named|
  {
    IndicesInRange(named, named[i].name);
    KeysAt(named, IndicesOf(named, named[i].name))
  }

  ghost function NewName(named: seq<Named>, i: nat): string
    requires i < |named|
  {
    var keys := Colliding(named, i);
    if |keys| < 2 then named[i].name
    else Distinguishing(keys, IndexOf(IndicesOf(named, named[i].name), i))
  }

  ghost function Disambiguated(named: seq<Named>): seq<Named> {
    seq(|named|, i requires 0 <= i < |named| => named[i].(name := NewName(named, i)))
  }

  /** The grouping of a list by display name; `displays` is the ascending key order. */
  ghost predicate Grouped(named: seq<Named>, displays: seq<string>, byDisplay: map<string, seq<nat>>) {
    && Ascending(LexLe, displays) && Elements(displays) == byDisplay.Keys
    && (forall i :: 0 <= i < |named| ==> named[i].name in byDisplay)
    && (forall name :: name in byDisplay ==> byDisplay[name] == IndicesOf(named, name))
  }

  lemma GroupedStep(named: seq<Named>, e: Named, displays: seq<string>, byDisplay: map<string, seq<nat>>)
    requires Grouped(named, displays, byDisplay)
    ensures Grouped(named + [e], InsertUnique(LexLe, e.name, displays),
                    byDisplay[e.name := (if e.name in byDisplay then byDisplay[e.name] else []) + [|named|]])
  {
    StringOrder();
    InsertUniqueAscending(LexLe, e.name, displays);
    hide TotalOrder, Ascending, LexLe, Elements, IndicesOf;
    NextIndices(named, e);
    if e.name !in byDisplay {
      NoIndices(named, e.name);
    }
    var grown := byDisplay[e.name := (if e.name in byDisplay then byDisplay[e.name] else []) + [|named|]];
    var all := named + [e];
    forall i | 0 <= i < |all| ensures all[i].name in grown {
      assert i < |named| ==> all[i] == named[i];
    }
    forall name | name in grown ensures grown[name] == IndicesOf(all, name) {
    }
  }

  lemma NoIndices(named: seq<Named>, name: string)
    requires forall i :: 0 <= i < |named| ==> named[i].name != name
    ensures IndicesOf(named, name) == []
  {
    IndicesInRange(named, name);
    assert |IndicesOf(named, name)| == 0;
  }

  lemma NextIndices(named: seq<Named>, e: Named)
    ensures forall name :: IndicesOf(named + [e], name) ==
                      if e.name == name then IndicesOf(named, name) + [|named|] else IndicesOf(named, name)
  {
    assert Front(named + [e]) == named && Last(named + [e]) == e;
  }

  method GroupByDisplay(named: array<Named>) returns (displays: seq<string>, byDisplay: map<string, seq<nat>>)
    ensures Grouped(named[..], displays, byDisplay)
  {
    displays, byDisplay := [], map[];
    for i := 0 to named.Length
      invariant Grouped(named[..i], displays, byDisplay)
    {
      hide Grouped;
      var name := named[i].name;
      assert named[..i + 1] == named[..i] + [named[i]];
      GroupedStep(named[..i], named[i], displays, byDisplay);
      displays := InsertUnique(LexLe, name, displays);
      byDisplay := byDisplay[name := (if name in byDisplay then byDisplay[name] else []) + [i]];
    }
    assert named[..named.Length] == named[..];
  }

  /** The sets whose display names are done are renamed, the others untouched. */
  ghost predicate RenamedUpTo(was: seq<Named>, now: seq<Named>, done: set<string>) {
    && |now| == |was|
    && forall i :: 0 <= i < |was| ==>
      now[i] == if was[i].name in done then was[i].(name := NewName(was, i)) else was[i]
  }

  /** `disambiguate`: names are rewritten in place, one colliding set at a time. */
  method Disambiguate(named: array<Named>)
    modifies named
    ensures named[..] == Disambiguated(old(named[..]))
  {
    ghost var was := named[..];
    var displays, byDisplay := GroupByDisplay(named);
    for n := 0 to |displays|
      invariant RenamedUpTo(was, named[..], Elements(displays[..n]))
    {
      hide RenamedUpTo, NewName;
      var name := displays[n];
      var idxs := byDisplay[name];
      PushElement(displays[..n], name);
      assert displays[..n + 1] == displays[..n] + [name];
      assert name !in Elements(displays[..n]);
      RenameSet(named, was, Elements(displays[..n]), name, idxs);
    }
    assert displays[..|displays|] == displays;
    AllRenamed(was, named[..], Elements(displays));
  }

  lemma AllRenamed(was: seq<Named>, now: seq<Named>, done: set<string>)
    requires RenamedUpTo(was, now, done) && forall i :: 0 <= i < |was| ==> was[i].name in done
    ensures now == Disambiguated(was)
  {
    hide NewName;
  }

  /** One colliding set. A set of one keeps its name. */
  method RenameSet(named: array<Named>, ghost was: seq<Named>, ghost done: set<string>, ghost name: string,
                   idxs: seq<nat>)
    requires RenamedUpTo(was, named[..], done) && name !in done && idxs == IndicesOf(was, name)
    modifies named
    ensures RenamedUpTo(was, named[..], done + {name})
  {
    IndicesInRange(was, name);
    if |idxs| < 2 {
      SingleKeepsName(was, named[..], done, name);
      return;
    }
    KeysUnchanged(was, named[..], done, idxs);
    var keys := KeysAt(named[..], idxs);
    ghost var before := named[..];
    for pos := 0 to |idxs|
      invariant named.Length == |was| && SetRenamed(was, before, named[..], idxs, keys, pos)
    {
      hide Distinguishing, RenamedUpTo;
      assert idxs[pos] in idxs && idxs[pos] !in idxs[..pos];
      assert named[idxs[pos]] == before[idxs[pos]];
      var renamed := ShortestDistinguishingSuffix(keys[pos], keys, pos);
      SetRenamedStep(was, before, named[..], idxs, keys, pos);
      named[idxs[pos]] := named[idxs[pos]].(name := renamed);
    }
    SetRenamedDone(was, before, named[..], done, name);
  }

  /** The first `pos` members of the set carry their new names. */
  ghost predicate SetRenamed(was: seq<Named>, before: seq<Named>, now: seq<Named>, idxs: seq<nat>, keys: seq<string>,
                             pos: nat)
    requires pos <= |idxs| == |keys| && |before| == |was| == |now|
    requires Distinct(idxs)
  {
    forall i :: 0 <= i < |was| ==>
      now[i] == if i in idxs[..pos] then before[i].(name := Distinguishing(keys, IndexOf(idxs, i))) else before[i]
  }

  lemma SetRenamedStep(was: seq<Named>, before: seq<Named>, now: seq<Named>, idxs: seq<nat>, keys: seq<string>,
                       pos: nat)
    requires pos < |idxs| == |keys| && |before| == |was| == |now| && Distinct(idxs) && idxs[pos] < |was|
    requires SetRenamed(was, before, now, idxs, keys, pos)
    ensures now[idxs[pos]] == before[idxs[pos]]
    ensures var renamed := now[idxs[pos]].(name := Distinguishing(keys, pos));
      SetRenamed(was, before, now[idxs[pos] := renamed], idxs, keys, pos + 1)
  {
    hide Distinguishing;
    assert idxs[..pos + 1] == idxs[..pos] + [idxs[pos]];
    assert IndexOf(idxs, idxs[pos]) == pos;
  }

  lemma SetRenamedDone(was: seq<Named>, before: seq<Named>, now: seq<Named>, done: set<string>, name: string)
    requires RenamedUpTo(was, before, done) && name !in done && |now| == |was|
    requires var idxs := IndicesOf(was, name);
      && |idxs| >= 2 && (forall p :: 0 <= p < |idxs| ==> idxs[p] < |was|)
      && SetRenamed(was, before, now, idxs, KeysAt(was, idxs), |idxs|)
    ensures RenamedUpTo(was, now, done + {name})
  {
    hide Distinguishing;
    var idxs := IndicesOf(was, name);
    assert idxs[..|idxs|] == idxs;
    forall i | 0 <= i < |was| && was[i].name == name ensures now[i] == was[i].(name := NewName(was, i)) {
      assert i in idxs && before[i] == was[i];
    }
  }

  lemma SingleKeepsName(was: seq<Named>, now: seq<Named>, done: set<string>, name: string)
    requires RenamedUpTo(was, now, done) && |IndicesOf(was, name)| < 2
    ensures RenamedUpTo(was, now, done + {name})
  {
  }

  lemma KeysUnchanged(was: seq<Named>, now: seq<Named>, done: set<string>, idxs: seq<nat>)
    requires RenamedUpTo(was, now, done) && forall p :: 0 <= p < |idxs| ==> idxs[p] < |was|
    ensures KeysAt(now, idxs) == KeysAt(was, idxs)
  {
    hide NewName;
  }

  ghost predicate DistinctKeys(named: seq<Named>) {
    forall i, j :: 0 <= i < j < |named| ==> named[i].key != named[j].key
  }

  /** Entries that rendered alike end up with different names. */
  lemma CollidingNamesApart(named: seq<Named>, i: nat, j: nat)
    requires DistinctKeys(named) && i < |named| && j < |named| && i != j && named[i].name == named[j].name
    ensures NewName(named, i) != NewName(named, j)
  {
    var idxs := IndicesOf(named, named[i].name);
    var keys := Colliding(named, i);
    assert i in idxs && j in idxs;
    var p, q := IndexOf(idxs, i), IndexOf(idxs, j);
    assert p != q;
    assert Distinct(keys) by {
      forall a, b | 0 <= a < b < |keys| ensures keys[a] != keys[b] {
        assert idxs[a] in idxs && idxs[b] in idxs;
      }
    }
    DistinguishingIsInjective(keys, p, q);
  }

  // ---- The roll-up ---------------------------------------------------------

  /** File count descending, then name ascending. */
  predicate GroupLe(a: PackageGroup, b: PackageGroup) {
    a.fileCount > b.fileCount || (a.fileCount == b.fileCount && LexLe(a.name, b.name))
  }

  lemma GroupOrder()
    ensures TotalPreorder(GroupLe)
  {
    StringOrder();
    forall a: PackageGroup, b: PackageGroup ensures GroupLe(a, b) || GroupLe(b, a) {
      LexLeTotal(a.name, b.name);
    }
    forall a: PackageGroup, b: PackageGroup, c: PackageGroup | GroupLe(a, b) && GroupLe(b, c) ensures GroupLe(a, c) {
      if a.fileCount == b.fileCount == c.fileCount {
        LexLeTransitive(a.name, b.name, c.name);
      }
    }
  }

  /** Non-manifest keys, in key order. */
  function NonManifest(keys: seq<string>, acc: map<string, Entry>): seq<string> {
    if keys == [] then []
    else
      NonManifest(Front(keys), acc) + if Last(keys) in acc && !acc[Last(keys)].2 then [Last(keys)] else []
  }

  function NamedFor(key: string, entry: Entry, common: seq<string>): Named {
    Named(key, if entry.2 then LastSegment(key) else DisplayName(key, common), entry.0, entry.1)
  }

  function InitialNames(keys: seq<string>, acc: map<string, Entry>, common: seq<string>): (named: seq<Named>)
    requires forall k :: k in keys ==> k in acc
    ensures |named| == |keys| && forall i :: 0 <= i < |keys| ==> named[i] == NamedFor(keys[i], acc[keys[i]], common)
  {
    seq(|keys|, i requires 0 <= i < |keys| => NamedFor(keys[i], acc[keys[i]], common))
  }

  function GroupsOf(named: seq<Named>): (groups: seq<PackageGroup>)
    ensures |groups| == |named|
  {
    seq(|named|, i requires 0 <= i < |named| => PackageGroup(named[i].name, named[i].total, named[i].test))
  }

  /** The accumulator of all directories. */
  ghost function AccOf(dirs: seq<DirGroup>, roots: seq<ManifestRoot>): map<string, Entry> {
    map k | k in Keys(Elements(dirs), roots) :: EntryFor(dirs, roots, k)
  }

  ghost function NamedOf(acc: map<string, Entry>): (named: seq<Named>)
    ensures DistinctKeys(named)
  {
    StringOrder();
    EnumerationAscends(LexLe, acc.Keys);
    var keys := Enumeration(LexLe, acc.Keys);
    assert forall k :: k in keys ==> k in Elements(keys);
    InitialNames(keys, acc, CommonPrefix(NonManifest(keys, acc)))
  }

  /** What `rollup_package_groups` returns. */
  ghost function Rollup(dirs: seq<DirGroup>, roots: seq<ManifestRoot>): seq<PackageGroup> {
    Sort(GroupLe, GroupsOf(Disambiguated(NamedOf(AccOf(dirs, roots)))))
  }

  method RollupPackageGroups(dirs: seq<DirGroup>, roots: seq<ManifestRoot>) returns (groups: seq<PackageGroup>)
    ensures groups == Rollup(dirs, roots)
    ensures SortedBy(GroupLe, groups)
  {
    hide Rollup, NamedOf, AccOf, Disambiguated, Sort, GroupLe, TotalPreorder;
    hide CommonPrefix, Enumeration, LexLe, Classify;
    var keys, acc := Accumulate(dirs, roots);
    AccumulatorIs(dirs, roots, acc);
    assert forall k :: k in keys ==> k in Elements(keys);
    RollupSorted(dirs, roots);
    if keys == [] {
      NothingToRoll(dirs, roots);
      return [];
    }
    var common := CommonSegmentPrefix(NonManifest(keys, acc));
    var initial := InitialNames(keys, acc, common);
    NamesAre(acc, keys, initial);
    var named := new Named[|initial|](i requires 0 <= i < |initial| => initial[i]);
    assert named[..] == initial;
    Disambiguate(named);
    RollupIs(dirs, roots);
    groups := Sort(GroupLe, GroupsOf(named[..]));
  }

  lemma AccumulatorIs(dirs: seq<DirGroup>, roots: seq<ManifestRoot>, acc: map<string, Entry>)
    requires Accumulated(dirs, roots, acc)
    ensures acc == AccOf(dirs, roots) && acc.Keys == Keys(Elements(dirs), roots)
  {
    hide EntryFor, Keys;
  }

  lemma NamesAre(acc: map<string, Entry>, keys: seq<string>, named: seq<Named>)
    requires keys == Enumeration(LexLe, acc.Keys) && (forall k :: k in keys ==> k in acc)
    requires named == InitialNames(keys, acc, CommonPrefix(NonManifest(keys, acc)))
    ensures named == NamedOf(acc)
  {
  }

  lemma RollupIs(dirs: seq<DirGroup>, roots: seq<ManifestRoot>)
    ensures Rollup(dirs, roots) == Sort(GroupLe, GroupsOf(Disambiguated(NamedOf(AccOf(dirs, roots)))))
  {
  }

  /** Groups come out by size, then by name. */
  lemma RollupSorted(dirs: seq<DirGroup>, roots: seq<ManifestRoot>)
    ensures SortedBy(GroupLe, Rollup(dirs, roots))
  {
    GroupOrder();
    SortSorts(GroupLe, GroupsOf(Disambiguated(NamedOf(AccOf(dirs, roots)))));
  }

  lemma NothingToRoll(dirs: seq<DirGroup>, roots: seq<ManifestRoot>)
    requires Enumeration(LexLe, Keys(Elements(dirs), roots)) == []
    ensures Rollup(dirs, roots) == []
  {
    assert AccOf(dirs, roots).Keys == Keys(Elements(dirs), roots);
    var named := NamedOf(AccOf(dirs, roots));
    assert |GroupsOf(Disambiguated(named))| == 0;
  }

  // ---- Determinism ---------------------------------------------------------

  /** One key's entry does not depend on the order of directories or of roots. */
  lemma EntryForgetsOrder(dirs: seq<DirGroup>, shuffled: seq<DirGroup>, roots: seq<ManifestRoot>,
                          others: seq<ManifestRoot>, k: string)
    requires Permutation(dirs, shuffled) && Elements(roots) == Elements(others)
    ensures EntryFor(dirs, roots, k) == EntryFor(shuffled, others, k)
  {
    PermutationFacts(dirs, shuffled);
    forall path ensures Classify(path, roots) == Classify(path, others) {
      ClassifyForgetsOrder(path, roots, others);
    }
    assert Elements(dirs) == Elements(shuffled);
    MeasureForgetsOrder(dirs, shuffled, roots, others, k, FilesOf);
    MeasureForgetsOrder(dirs, shuffled, roots, others, k, TestsOf);
  }

  lemma MeasureForgetsOrder(dirs: seq<DirGroup>, shuffled: seq<DirGroup>, roots: seq<ManifestRoot>,
                            others: seq<ManifestRoot>, k: string, m: Measure)
    requires Permutation(dirs, shuffled)
    requires forall path :: Classify(path, roots) == Classify(path, others)
    ensures KeyTotal(dirs, roots, k, m) == KeyTotal(shuffled, others, k, m)
  {
    hide Classify;
    SumByPermutation(dirs, shuffled, Merged(roots, k, m));
    forall d | d in shuffled ensures Merged(roots, k, m)(d) == Merged(others, k, m)(d) {
      MergedAt(roots, k, m, d);
      MergedAt(others, k, m, d);
    }
    SumBySame(shuffled, Merged(roots, k, m), Merged(others, k, m));
  }

  /** The roll-up is the same for every order of directories and of roots. */
  lemma RollupForgetsOrder(dirs: seq<DirGroup>, shuffled: seq<DirGroup>, roots: seq<ManifestRoot>,
                           others: seq<ManifestRoot>)
    requires Permutation(dirs, shuffled) && Permutation(roots, others)
    ensures Rollup(dirs, roots) == Rollup(shuffled, others)
  {
    PermutationFacts(dirs, shuffled);
    PermutationFacts(roots, others);
    assert Elements(roots) == Elements(others) && Elements(dirs) == Elements(shuffled);
    forall path ensures Classify(path, roots) == Classify(path, others) {
      ClassifyForgetsOrder(path, roots, others);
    }
    forall k ensures EntryFor(dirs, roots, k) == EntryFor(shuffled, others, k) {
      EntryForgetsOrder(dirs, shuffled, roots, others, k);
    }
    hide Classify, EntryFor;
    assert Keys(Elements(dirs), roots) == Keys(Elements(dirs), others);
    assert AccOf(dirs, roots) == AccOf(shuffled, others);
  }

  // ---- Conservation --------------------------------------------------------

  function GroupFiles(g: PackageGroup): nat { g.fileCount }

  function GroupTests(g: PackageGroup): nat { g.testFileCount }

  /** Summed over distinct keys that include all merge keys, the key totals add up
      to the total over the directories. */
  ghost function TotalOverKeys(keys: seq<string>, dirs: seq<DirGroup>, roots: seq<ManifestRoot>, m: Measure): nat {
    if keys == [] then 0
    else TotalOverKeys(Front(keys), dirs, roots, m) + KeyTotal(dirs, roots, Last(keys), m)
  }

  lemma {:induction false} TotalOverKeysStep(keys: seq<string>, dirs: seq<DirGroup>, roots: seq<ManifestRoot>,
                                             m: Measure)
    requires Distinct(keys) && dirs != []
    ensures TotalOverKeys(keys, dirs, roots, m) == TotalOverKeys(keys, Front(dirs), roots, m) +
      if Classify(Last(dirs).path, roots).0 in keys then m(Last(dirs)) else 0
  {
    hide Classify;
    if keys != [] {
      assert keys == Front(keys) + [Last(keys)];
      PopElement(Front(keys), Last(keys));
      TotalOverKeysStep(Front(keys), dirs, roots, m);
      MergedAt(roots, Last(keys), m, Last(dirs));
    }
  }

  lemma {:induction false} KeyTotalsAddUp(keys: seq<string>, dirs: seq<DirGroup>, roots: seq<ManifestRoot>, m: Measure)
    requires Distinct(keys) && Keys(Elements(dirs), roots) <= Elements(keys)
    ensures TotalOverKeys(keys, dirs, roots, m) == SumBy(dirs, m)
  {
    hide Classify;
    if dirs == [] {
      NoDirsNoTotal(keys, roots, m);
    } else {
      var front, d := Front(dirs), Last(dirs);
      assert dirs == front + [d];
      KeysStep(front, roots, d);
      assert Classify(d.path, roots).0 in Elements(keys);
      TotalOverKeysStep(keys, dirs, roots, m);
      KeyTotalsAddUp(keys, front, roots, m);
    }
  }

  lemma {:induction false} NoDirsNoTotal(keys: seq<string>, roots: seq<ManifestRoot>, m: Measure)
    ensures TotalOverKeys(keys, [], roots, m) == 0
  {
    if keys != [] {
      NoDirsNoTotal(Front(keys), roots, m);
    }
  }

  /** Renaming and regrouping keep each entry's counts. */
  lemma {:induction false} CountsKept(dirs: seq<DirGroup>, roots: seq<ManifestRoot>, keys: seq<string>,
                                      groups: seq<PackageGroup>)
    requires |groups| == |keys|
    requires forall i :: 0 <= i < |keys| ==>
      && groups[i].fileCount == KeyTotal(dirs, roots, keys[i], FilesOf)
      && groups[i].testFileCount == KeyTotal(dirs, roots, keys[i], TestsOf)
    ensures SumBy(groups, GroupFiles) == TotalOverKeys(keys, dirs, roots, FilesOf)
    ensures SumBy(groups, GroupTests) == TotalOverKeys(keys, dirs, roots, TestsOf)
  {
    if keys != [] {
      CountsKept(dirs, roots, Front(keys), Front(groups));
    }
  }

  lemma GroupCounts(acc: map<string, Entry>)
    ensures var keys, groups := Enumeration(LexLe, acc.Keys), GroupsOf(Disambiguated(NamedOf(acc)));
      && |groups| == |keys|
      && forall i :: 0 <= i < |keys| ==>
        && keys[i] in acc
        && groups[i].fileCount == acc[keys[i]].0 && groups[i].testFileCount == acc[keys[i]].1
  {
    var keys := Enumeration(LexLe, acc.Keys);
    assert forall k :: k in keys ==> k in Elements(keys);
    hide NewName, DisplayName, CommonPrefix, LexLe, NonManifest;
  }

  /** No file and no test file is lost, invented or counted twice. */
  lemma RollupConserves(dirs: seq<DirGroup>, roots: seq<ManifestRoot>)
    ensures SumBy(Rollup(dirs, roots), GroupFiles) == SumBy(dirs, FilesOf)
    ensures SumBy(Rollup(dirs, roots), GroupTests) == SumBy(dirs, TestsOf)
  {
    var groups := GroupsOf(Disambiguated(NamedOf(AccOf(dirs, roots))));
    hide *;
    RollupIs(dirs, roots);
    SortIsPermutation(groups);
    SumByPermutation(groups, Sort(GroupLe, groups), GroupFiles);
    SumByPermutation(groups, Sort(GroupLe, groups), GroupTests);
    GroupsConserve(dirs, roots);
  }

  lemma SortIsPermutation(groups: seq<PackageGroup>)
    ensures Permutation(groups, Sort(GroupLe, groups)) && Permutation(Sort(GroupLe, groups), groups)
  {
    hide Sort, GroupLe;
  }

  lemma GroupsConserve(dirs: seq<DirGroup>, roots: seq<ManifestRoot>)
    ensures var groups := GroupsOf(Disambiguated(NamedOf(AccOf(dirs, roots))));
      SumBy(groups, GroupFiles) == SumBy(dirs, FilesOf) && SumBy(groups, GroupTests) == SumBy(dirs, TestsOf)
  {
    var acc := AccOf(dirs, roots);
    AccFacts(dirs, roots);
    hide *;
    var keys, groups := Enumeration(LexLe, acc.Keys), GroupsOf(Disambiguated(NamedOf(acc)));
    GroupCounts(acc);
    CountsKept(dirs, roots, keys, groups);
    StringOrder();
    EnumerationAscends(LexLe, acc.Keys);
    AscendsDistinct(keys);
    MeasureConserved(dirs, roots, keys, FilesOf);
    MeasureConserved(dirs, roots, keys, TestsOf);
  }

  lemma AccFacts(dirs: seq<DirGroup>, roots: seq<ManifestRoot>)
    ensures var acc := AccOf(dirs, roots);
      && acc.Keys == Keys(Elements(dirs), roots)
      && forall k :: k in acc ==>
        acc[k].0 == KeyTotal(dirs, roots, k, FilesOf) && acc[k].1 == KeyTotal(dirs, roots, k, TestsOf)
  {
    hide Classify, KeyTotal;
  }

  lemma AscendsDistinct(keys: seq<string>)
    requires Ascending(LexLe, keys)
    ensures Distinct(keys)
  {
  }

  lemma MeasureConserved(dirs: seq<DirGroup>, roots: seq<ManifestRoot>, keys: seq<string>, m: Measure)
    requires Distinct(keys) && Elements(keys) == Keys(Elements(dirs), roots)
    ensures TotalOverKeys(keys, dirs, roots, m) == SumBy(dirs, m)
  {
    hide *;
    KeyTotalsAddUp(keys, dirs, roots, m);
  }
}
