/** What a roll-up shows, read off the directories: which groups there are, what each
    counts, and under which name it appears. */
module PackageMeaning {
  import opened Wrappers
  import opened Text
  import opened Ordering
  import opened PackageNames
  import opened PackageGroups
  import opened PackageUniqueness

  // ---- The merge key of a directory ----------------------------------------

  /** The root is the path itself or the path continues it after a slash; a root "."
      holds everything, unless some root is nested. */
  ghost predicate RootHolds(root: string, path: string, roots: seq<ManifestRoot>) {
    if root == "." then forall r :: r in roots ==> r.path == "."
    else exists rest :: path == root + rest && (rest == "" || rest[0] == '/')
  }

  lemma CoversMeaning(root: string, path: string, roots: seq<ManifestRoot>)
    ensures Covers(root, path, NoNestedRoots(roots)) <==> RootHolds(root, path, roots)
  {
    if root != "." {
      if Covers(root, path, NoNestedRoots(roots)) {
        assert path == root + path[|root|..];
      }
      forall rest | path == root + rest && (rest == "" || rest[0] == '/')
        ensures Covers(root, path, NoNestedRoots(roots))
      {
        assert rest != "" ==> path[..|root| + 1] == root + "/";
      }
    }
  }

  /** Which directories merge. One that some root holds merges into the longest such
      root, so nested paths merge into their root; any other keeps its path, without a
      leading `src/main/` or `src/test/`. */
  lemma ClassifyMeaning(path: string, roots: seq<ManifestRoot>)
    ensures var (key, rooted) := Classify(path, roots);
      && (rooted <==> exists r :: r in roots && RootHolds(r.path, path, roots))
      && (rooted ==>
        && (exists r :: r in roots && r.path == key) && RootHolds(key, path, roots)
        && forall r :: r in roots && RootHolds(r.path, path, roots) ==> |r.path| <= |key|)
      && (!rooted ==>
        if exists rest :: path == "src/main/" + rest || path == "src/test/" + rest
        then path == "src/main/" + key || path == "src/test/" + key
        else key == path)
  {
    forall r | r in roots ensures Covers(r.path, path, NoNestedRoots(roots)) <==> RootHolds(r.path, path, roots) {
      CoversMeaning(r.path, path, roots);
    }
    hide RootHolds, Covers;
    var nearest := NearestManifestRoot(path, roots, NoNestedRoots(roots));
    if nearest.Some? {
      forall r | r in roots && RootHolds(r.path, path, roots) ensures |r.path| <= |nearest.value.path| {
        LongerRoot(path, roots, r.path, nearest.value.path);
      }
    } else {
      StrippedMeaning(path);
    }
  }

  lemma LongerRoot(path: string, roots: seq<ManifestRoot>, a: string, b: string)
    requires Covers(a, path, NoNestedRoots(roots)) && Covers(b, path, NoNestedRoots(roots))
    requires (exists r :: r in roots && r.path == a) && (exists r :: r in roots && r.path == b)
    requires ByteLen(a) <= ByteLen(b)
    ensures |a| <= |b|
  {
    if a != "." && b != "." && |b| < |a| {
      assert b <= a by {
        assert a == path[..|a|] && b == path[..|b|];
      }
      PrefixByteLen(b, a);
    }
  }

  lemma StrippedMeaning(path: string)
    ensures if exists rest :: path == "src/main/" + rest || path == "src/test/" + rest
            then path == "src/main/" + ClassifyDirectory(path) || path == "src/test/" + ClassifyDirectory(path)
            else ClassifyDirectory(path) == path
  {
    assert "src/main/" <= path ==> path == "src/main/" + path[9..];
    assert "src/test/" <= path ==> path == "src/test/" + path[9..];
    assert "src/main/"[4] != "src/test/"[4];
  }

  // ---- Names before collisions ---------------------------------------------

  /** A key no manifest root gave. */
  ghost predicate DirectoryKey(dirs: seq<DirGroup>, roots: seq<ManifestRoot>, k: string) {
    && (exists d :: d in dirs && Classify(d.path, roots).0 == k)
    && !exists d :: d in dirs && Classify(d.path, roots) == (k, true)
  }

  ghost predicate Shared(dirs: seq<DirGroup>, roots: seq<ManifestRoot>, q: seq<string>) {
    forall k :: DirectoryKey(dirs, roots, k) ==> q <= Segments(k)
  }

  /** The longest run of segments that leads every directory key; any, without such keys. */
  ghost predicate LongestShared(dirs: seq<DirGroup>, roots: seq<ManifestRoot>, common: seq<string>) {
    (exists k :: DirectoryKey(dirs, roots, k)) ==> forall q :: Shared(dirs, roots, q) <==> q <= common
  }

  /** A rooted key shows its last segment; a directory key what follows the shared
      run, or its last segment when nothing does. */
  ghost function Label(key: string, directory: bool, common: seq<string>): seq<string> {
    if directory && common < Segments(key) then Segments(key)[|common|..] else [Last(Segments(key))]
  }

  lemma DirectoryKeys(dirs: seq<DirGroup>, roots: seq<ManifestRoot>, k: string)
    ensures k in AccOf(dirs, roots) <==> exists d :: d in dirs && Classify(d.path, roots).0 == k
    ensures DirectoryKey(dirs, roots, k) <==> k in AccOf(dirs, roots) && !AccOf(dirs, roots)[k].2
  {
    hide Classify, KeyTotal;
    if ManifestRooted(Elements(dirs), roots, k) {
      var d :| d in Elements(dirs) && Classify(d.path, roots) == (k, true);
      assert d in dirs;
    }
    forall d | d in dirs && Classify(d.path, roots) == (k, true) ensures ManifestRooted(Elements(dirs), roots, k) {
      assert d in Elements(dirs);
    }
  }

  /** A run of segments with that property is the one the roll-up collapses. */
  lemma SharedIsCommon(dirs: seq<DirGroup>, roots: seq<ManifestRoot>, common: seq<string>)
    requires LongestShared(dirs, roots, common) && exists k :: DirectoryKey(dirs, roots, k)
    ensures CommonOf(AccOf(dirs, roots)) == common
  {
    var acc := AccOf(dirs, roots);
    forall k ensures DirectoryKey(dirs, roots, k) <==> k in acc && !acc[k].2 {
      DirectoryKeys(dirs, roots, k);
    }
    hide AccOf, DirectoryKey, CommonOf;
    CommonMeaning(acc, common);
    CommonMeaning(acc, CommonOf(acc));
    assert Shared(dirs, roots, common) && Shared(dirs, roots, CommonOf(acc));
  }

  lemma LabelShown(key: string, entry: Entry, common: seq<string>)
    requires !entry.2 ==> common <= Segments(key)
    ensures NamedFor(key, entry, common).name == Join(Label(key, !entry.2, common), '/')
    ensures Label(key, !entry.2, common) != [] && Free(Label(key, !entry.2, common), '/')
  {
    SplitIsFree(key, '/');
  }

  // ---- Names after collisions ----------------------------------------------

  /** The last `n` segments, or all. */
  ghost function Tail(key: string, n: nat): seq<string> {
    if n <= |Segments(key)| then Segments(key)[|Segments(key)| - n..] else Segments(key)
  }

  /** No other key labelled like key `i` ends in the same `n` segments. */
  ghost predicate ToldApart(keys: seq<string>, labels: seq<seq<string>>, i: nat, n: nat)
    requires i < |keys| == |labels|
  {
    forall j :: 0 <= j < |keys| && j != i && labels[j] == labels[i] ==> Tail(keys[j], n) != Tail(keys[i], n)
  }

  /** A label no other key has is the name. A shared one is replaced by the fewest
      last segments that tell the key apart, or by the whole key. */
  ghost predicate NamedAs(keys: seq<string>, labels: seq<seq<string>>, i: nat, name: string)
    requires i < |keys| == |labels|
  {
    if forall j :: 0 <= j < |keys| && j != i ==> labels[j] != labels[i] then name == Join(labels[i], '/')
    else exists n :: PickedLength(keys, labels, i, n) && name == Join(Tail(keys[i], n), '/')
  }

  ghost predicate PickedLength(keys: seq<string>, labels: seq<seq<string>>, i: nat, n: nat)
    requires i < |keys| == |labels|
  {
    && 1 <= n <= |Segments(keys[i])|
    && (n < |Segments(keys[i])| ==> ToldApart(keys, labels, i, n))
    && forall m :: 1 <= m < n ==> !ToldApart(keys, labels, i, m)
  }

  /** The names stand for these labels. */
  ghost predicate Labelled(named: seq<Named>, keys: seq<string>, labels: seq<seq<string>>) {
    && |keys| == |labels| == |named|
    && forall i :: 0 <= i < |named| ==>
      && named[i].key == keys[i] && named[i].name == Join(labels[i], '/')
      && labels[i] != [] && Free(labels[i], '/')
  }

  lemma JoinInjective(a: seq<string>, b: seq<string>)
    requires a != [] && b != [] && Free(a, '/') && Free(b, '/')
    ensures Join(a, '/') == Join(b, '/') <==> a == b
  {
    SplitOfJoin(a, '/');
    SplitOfJoin(b, '/');
  }

  lemma TailIsSuffix(key: string, n: nat)
    requires n >= 1
    ensures SuffixOf(key, n) == Join(Tail(key, n), '/') && Tail(key, n) != [] && Free(Tail(key, n), '/')
  {
    SplitIsFree(key, '/');
    JoinOfSplit(key, '/');
  }

  lemma LabelsDecide(named: seq<Named>, keys: seq<string>, labels: seq<seq<string>>, i: nat, j: nat)
    requires Labelled(named, keys, labels) && i < |named| && j < |named|
    ensures named[i].name == named[j].name <==> labels[i] == labels[j]
  {
    JoinInjective(labels[i], labels[j]);
  }

  /** The colliding entries are those with the label. */
  lemma CollidesIff(named: seq<Named>, i: nat)
    requires i < |named|
    ensures Collides(named, i) <==> exists j :: 0 <= j < |named| && j != i && named[j].name == named[i].name
  {
    var idxs := IndicesOf(named, named[i].name);
    assert i in idxs;
    if Collides(named, i) {
      var j := Twin(named, i);
    }
    forall j | 0 <= j < |named| && j != i && named[j].name == named[i].name ensures Collides(named, i) {
      assert j in idxs;
    }
  }

  lemma ApartMeaning(named: seq<Named>, keys: seq<string>, labels: seq<seq<string>>, i: nat, n: nat)
    requires Labelled(named, keys, labels) && i < |named| && n >= 1
    ensures var idxs := IndicesOf(named, named[i].name);
      && i in idxs && IndexOf(idxs, i) < |Colliding(named, i)|
      && (UniqueAt(Colliding(named, i), IndexOf(idxs, i), n) <==> ToldApart(keys, labels, i, n))
  {
    var idxs, colliding := IndicesOf(named, named[i].name), Colliding(named, i);
    PicksKey(named, i);
    var pos := IndexOf(idxs, i);
    IndicesInRange(named, named[i].name);
    forall j: nat | j < |named|
      ensures labels[j] == labels[i] <==> j in idxs
      ensures Tail(keys[j], n) == Tail(keys[i], n) <==> SuffixOf(named[j].key, n) == SuffixOf(named[i].key, n)
    {
      LabelsDecide(named, keys, labels, i, j);
      TailIsSuffix(keys[i], n);
      TailIsSuffix(keys[j], n);
      JoinInjective(Tail(keys[i], n), Tail(keys[j], n));
    }
    hide IndicesOf, Tail, SuffixOf, Labelled;
    forall j | 0 <= j < |keys| && j != i && labels[j] == labels[i] && UniqueAt(colliding, pos, n)
      ensures Tail(keys[j], n) != Tail(keys[i], n)
    {
      assert colliding[IndexOf(idxs, j)] == named[j].key;
    }
    forall p | 0 <= p < |colliding| && p != pos && ToldApart(keys, labels, i, n)
      ensures SuffixOf(colliding[p], n) != SuffixOf(colliding[pos], n)
    {
      assert idxs[p] in idxs && idxs[p] != i;
    }
  }

  /** The final name of an entry is what the labels and keys say. */
  lemma NewNameMeaning(named: seq<Named>, keys: seq<string>, labels: seq<seq<string>>, i: nat)
    requires Labelled(named, keys, labels) && i < |named|
    ensures NamedAs(keys, labels, i, NewName(named, i))
  {
    hide NewName, Collides, Colliding, Segments, Join, Tail, SuffixOf, UniqueAt, ToldApart;
    CollidesIff(named, i);
    forall j: nat | j < |named| ensures named[i].name == named[j].name <==> labels[i] == labels[j] {
      LabelsDecide(named, keys, labels, i, j);
    }
    if Collides(named, i) {
      var n := NewNameIsPicked(named, i);
      forall m: nat | m >= 1
        ensures var idxs := IndicesOf(named, named[i].name);
          && i in idxs && IndexOf(idxs, i) < |Colliding(named, i)|
          && (UniqueAt(Colliding(named, i), IndexOf(idxs, i), m) <==> ToldApart(keys, labels, i, m))
      {
        ApartMeaning(named, keys, labels, i, m);
      }
      PicksKey(named, i);
      hide IndicesOf;
      TailIsSuffix(keys[i], n);
      assert PickedLength(keys, labels, i, n);
    } else {
      AloneKeepsName(named, i);
    }
  }

  // ---- The whole roll-up ---------------------------------------------------

  lemma NamedKeys(acc: map<string, Entry>)
    ensures var keys := Enumeration(LexLe, acc.Keys);
      && |NamedOf(acc)| == |keys| && Distinct(keys) && Elements(keys) == acc.Keys && SortedBy(LexLe, keys)
      && forall i :: 0 <= i < |keys| ==> keys[i] in acc && NamedOf(acc)[i].key == keys[i]
  {
    var keys := Enumeration(LexLe, acc.Keys);
    StringOrder();
    EnumerationAscends(LexLe, acc.Keys);
    assert forall k :: k in keys ==> k in Elements(keys);
    hide CommonPrefix, NonManifest, LexLe, DisplayName, LastSegment;
  }

  lemma RootedLabel(key: string, a: seq<string>, b: seq<string>)
    ensures Label(key, false, a) == Label(key, false, b)
  {
  }

  lemma NamedIsLabelled(dirs: seq<DirGroup>, roots: seq<ManifestRoot>, common: seq<string>)
      returns (keys: seq<string>, labels: seq<seq<string>>)
    requires LongestShared(dirs, roots, common)
    ensures Labelled(NamedOf(AccOf(dirs, roots)), keys, labels) && |labels| == |keys|
    ensures forall i :: 0 <= i < |keys| ==> labels[i] == Label(keys[i], DirectoryKey(dirs, roots, keys[i]), common)
    ensures keys == Enumeration(LexLe, AccOf(dirs, roots).Keys)
  {
    var acc := AccOf(dirs, roots);
    var named := NamedOf(acc);
    keys := Enumeration(LexLe, acc.Keys);
    hide *;
    NamedKeys(acc);
    labels := seq(|keys|, i requires 0 <= i < |keys| => Label(keys[i], DirectoryKey(dirs, roots, keys[i]), common));
    forall i | 0 <= i < |named|
      ensures named[i].key == keys[i] && named[i].name == Join(labels[i], '/')
      ensures labels[i] != [] && Free(labels[i], '/')
    {
      NamedAt(acc, i);
      DirectoryKeys(dirs, roots, keys[i]);
      if !acc[keys[i]].2 {
        SharedIsCommon(dirs, roots, common);
      }
      RootedLabel(keys[i], common, CommonOf(acc));
      LabelShown(keys[i], acc[keys[i]], CommonOf(acc));
    }
    AreLabelled(named, keys, labels);
  }

  lemma AreLabelled(named: seq<Named>, keys: seq<string>, labels: seq<seq<string>>)
    requires |keys| == |labels| == |named|
    requires forall i :: 0 <= i < |named| ==> named[i].key == keys[i] && named[i].name == Join(labels[i], '/')
    requires forall i :: 0 <= i < |named| ==> labels[i] != [] && Free(labels[i], '/')
    ensures Labelled(named, keys, labels)
  {
    hide Join, Free;
  }

  ghost function FilesInto(dirs: seq<DirGroup>, roots: seq<ManifestRoot>, k: string): nat {
    SumBy(dirs, (d: DirGroup) => if Classify(d.path, roots).0 == k then d.fileCount else 0)
  }

  ghost function TestsInto(dirs: seq<DirGroup>, roots: seq<ManifestRoot>, k: string): nat {
    SumBy(dirs, (d: DirGroup) => if Classify(d.path, roots).0 == k then d.testFileCount else 0)
  }

  lemma TotalsMeaning(dirs: seq<DirGroup>, roots: seq<ManifestRoot>, k: string)
    ensures KeyTotal(dirs, roots, k, FilesOf) == FilesInto(dirs, roots, k)
    ensures KeyTotal(dirs, roots, k, TestsOf) == TestsInto(dirs, roots, k)
  {
    hide Classify;
    SumBySame(dirs, Merged(roots, k, FilesOf),
              (d: DirGroup) => if Classify(d.path, roots).0 == k then d.fileCount else 0);
    SumBySame(dirs, Merged(roots, k, TestsOf),
              (d: DirGroup) => if Classify(d.path, roots).0 == k then d.testFileCount else 0);
  }

  /** What comes back. There is one group for each merge key of a directory. It counts
      the files and the test files of the directories that merge into the key. It is
      named after the key's label, which drops the run of segments shared by all
      directory keys, manifest keys aside; keys that share a label are told apart by
      their last segments. */
  lemma RollupMeaning(dirs: seq<DirGroup>, roots: seq<ManifestRoot>, common: seq<string>)
      returns (keys: seq<string>, labels: seq<seq<string>>, groups: seq<PackageGroup>)
    requires LongestShared(dirs, roots, common)
    ensures Distinct(keys) && forall k :: k in keys <==> exists d :: d in dirs && Classify(d.path, roots).0 == k
    ensures |groups| == |labels| == |keys| && Permutation(groups, Rollup(dirs, roots))
    ensures SortedBy(LexLe, keys)
    ensures forall g :: TiedWith(GroupLe, g, Rollup(dirs, roots)) == TiedWith(GroupLe, g, groups)
    ensures forall i :: 0 <= i < |keys| ==>
      && labels[i] == Label(keys[i], DirectoryKey(dirs, roots, keys[i]), common)
      && NamedAs(keys, labels, i, groups[i].name)
      && groups[i].fileCount == FilesInto(dirs, roots, keys[i])
      && groups[i].testFileCount == TestsInto(dirs, roots, keys[i])
  {
    var acc := AccOf(dirs, roots);
    var named := NamedOf(acc);
    groups := GroupsOf(Disambiguated(named));
    hide *;
    keys, labels := NamedIsLabelled(dirs, roots, common);
    NamedKeys(acc);
    GroupCounts(acc);
    AccFacts(dirs, roots);
    RollupIs(dirs, roots);
    SortIsPermutation(groups);
    GroupOrder();
    forall g ensures TiedWith(GroupLe, g, Rollup(dirs, roots)) == TiedWith(GroupLe, g, groups) {
      SortIsStable(GroupLe, groups, g);
    }
    forall k ensures k in keys <==> exists d :: d in dirs && Classify(d.path, roots).0 == k {
      DirectoryKeys(dirs, roots, k);
      InElements(keys, k);
    }
    forall i | 0 <= i < |keys|
      ensures NamedAs(keys, labels, i, groups[i].name)
      ensures groups[i].fileCount == FilesInto(dirs, roots, keys[i])
      ensures groups[i].testFileCount == TestsInto(dirs, roots, keys[i])
    {
      GroupName(named, i);
      NewNameMeaning(named, keys, labels, i);
      TotalsMeaning(dirs, roots, keys[i]);
    }
  }

  lemma GroupName(named: seq<Named>, i: nat)
    requires i < |named|
    ensures GroupsOf(Disambiguated(named))[i].name == NewName(named, i)
  {
    hide NewName;
  }

  /** Bigger groups come first, and groups of one size by name. */
  lemma RollupOrder(dirs: seq<DirGroup>, roots: seq<ManifestRoot>)
    ensures var groups := Rollup(dirs, roots);
      forall i, j :: 0 <= i < j < |groups| ==>
        || groups[i].fileCount > groups[j].fileCount
        || (groups[i].fileCount == groups[j].fileCount && LexLe(groups[i].name, groups[j].name))
  {
    hide Rollup;
    RollupSorted(dirs, roots);
    var groups := Rollup(dirs, roots);
    forall i, j | 0 <= i < j < |groups|
      ensures groups[i].fileCount > groups[j].fileCount ||
              (groups[i].fileCount == groups[j].fileCount && LexLe(groups[i].name, groups[j].name))
    {
      assert GroupLe(groups[i], groups[j]);
    }
  }
}
