/** When the names of a whole roll-up are unique: what the second-order
    collisions left by `disambiguate` can look like. */
module PackageUniqueness {
  import opened Wrappers
  import opened Text
  import opened Ordering
  import opened PackageNames
  import opened PackageGroups

  predicate Slashed(name: string) {
    '/' in name
  }

  /** The entry shares its rendered name with another one. */
  ghost predicate Collides(named: seq<Named>, i: nat)
    requires i < |named|
  {
    |Colliding(named, i)| >= 2
  }

  /** `disambiguate` picks this suffix for a colliding entry: the keys alone decide. */
  ghost predicate Picks(named: seq<Named>, i: nat, k: nat)
    requires i < |named|
  {
    var idxs := IndicesOf(named, named[i].name);
    i in idxs && Keeps(Colliding(named, i), IndexOf(idxs, i), k)
  }

  lemma PicksKey(named: seq<Named>, i: nat)
    requires i < |named|
    ensures var idxs := IndicesOf(named, named[i].name);
      i in idxs && IndexOf(idxs, i) < |Colliding(named, i)| && Colliding(named, i)[IndexOf(idxs, i)] == named[i].key
  {
  }

  /** The new name of a colliding entry is the suffix of its key that it picks. */
  lemma NewNameIsPicked(named: seq<Named>, i: nat) returns (k: nat)
    requires i < |named| && Collides(named, i)
    ensures Picks(named, i, k) && 1 <= k <= |Segments(named[i].key)|
    ensures NewName(named, i) == SuffixOf(named[i].key, k)
  {
    PicksKey(named, i);
    hide IndicesOf, Segments, SuffixOf;
    k := KeptFrom(Colliding(named, i), IndexOf(IndicesOf(named, named[i].name), i), 1);
  }

  lemma PickIsUnique(named: seq<Named>, i: nat, k: nat, l: nat)
    requires i < |named| && Picks(named, i, k) && Picks(named, i, l)
    ensures k == l
  {
    hide UniqueAt, IndicesOf;
  }

  lemma SegmentHasNoSlash(key: string, n: nat)
    requires n < |Segments(key)|
    ensures !Slashed(Segments(key)[n])
  {
    SplitIsFree(key, '/');
  }

  lemma SuffixEndsAlike(key: string, k: nat)
    requires 1 <= k <= |Segments(key)|
    ensures LastSegment(SuffixOf(key, k)) == LastSegment(key)
  {
    SplitIsFree(key, '/');
    var tail := Segments(key)[|Segments(key)| - k..];
    SplitOfJoin(tail, '/');
    hide Split, Join, Free;
    assert Segments(SuffixOf(key, k)) == tail;
    assert Last(tail) == Last(Segments(key));
  }

  /** What a rendered name looks like: slash-free ones are the key's last segment,
      and a slashed one determines the key. */
  ghost predicate Rendered(named: seq<Named>) {
    && DistinctKeys(named)
    && (forall i :: 0 <= i < |named| && !Slashed(named[i].name) ==> named[i].name == LastSegment(named[i].key))
    && (forall i, j :: 0 <= i < j < |named| && named[i].name == named[j].name ==> !Slashed(named[i].name))
  }

  lemma LastSegmentHasNoSlash(key: string)
    ensures !Slashed(LastSegment(key))
  {
    SegmentHasNoSlash(key, |Segments(key)| - 1);
  }

  lemma DisplayShape(key: string, common: seq<string>)
    requires common <= Segments(key)
    ensures !Slashed(DisplayName(key, common)) ==> DisplayName(key, common) == LastSegment(key)
    ensures Slashed(DisplayName(key, common)) ==> Segments(key) == common + Segments(DisplayName(key, common))
  {
    var segs := Segments(key);
    SplitIsFree(key, '/');
    if |segs| > |common| {
      SplitOfJoin(segs[|common|..], '/');
      assert segs == common + segs[|common|..];
      if !Slashed(DisplayName(key, common)) {
        SplitOfFree(DisplayName(key, common), '/');
      }
    } else {
      assert common == segs;
      LastSegmentHasNoSlash(key);
    }
  }

  lemma {:induction false} NonManifestOnly(keys: seq<string>, acc: map<string, Entry>)
    ensures forall k :: k in NonManifest(keys, acc) <==> k in keys && k in acc && !acc[k].2
  {
    if keys != [] {
      FrontLast(keys);
      assert forall k :: k in keys <==> k in Front(keys) || k == Last(keys);
      NonManifestOnly(Front(keys), acc);
    }
  }

  /** What the directory-keyed groups collapse. */
  ghost function CommonOf(acc: map<string, Entry>): seq<string> {
    CommonPrefix(NonManifest(Enumeration(LexLe, acc.Keys), acc))
  }

  /** Each entry of the roll-up renders its key, and the collapsed prefix leads every
      directory key. */
  lemma NamedAt(acc: map<string, Entry>, i: nat)
    requires i < |NamedOf(acc)|
    ensures var e := NamedOf(acc)[i];
      && e.key in acc && e == NamedFor(e.key, acc[e.key], CommonOf(acc))
      && (!acc[e.key].2 ==> CommonOf(acc) <= Segments(e.key))
  {
    var keys := Enumeration(LexLe, acc.Keys);
    StringOrder();
    EnumerationAscends(LexLe, acc.Keys);
    assert forall k :: k in keys ==> k in Elements(keys);
    assert keys[i] in keys;
    assert NamedOf(acc)[i] == NamedFor(keys[i], acc[keys[i]], CommonOf(acc));
    hide *;
    NamedKey(keys[i], acc[keys[i]], CommonOf(acc));
    if !acc[keys[i]].2 {
      CommonLeads(acc, keys[i]);
    }
  }

  lemma NamedKey(key: string, entry: Entry, common: seq<string>)
    ensures NamedFor(key, entry, common).key == key
    ensures !entry.2 ==> NamedFor(key, entry, common).name == DisplayName(key, common)
  {
  }

  /** What is collapsed: the segments that lead every directory key, and no manifest
      key has a say in it. */
  lemma CommonMeaning(acc: map<string, Entry>, q: seq<string>)
    requires exists k :: k in acc && !acc[k].2
    ensures q <= CommonOf(acc) <==> forall k :: k in acc && !acc[k].2 ==> q <= Segments(k)
  {
    var keys := Enumeration(LexLe, acc.Keys);
    assert forall k :: k in keys <==> k in Elements(keys);
    hide Enumeration, LexLe, Segments;
    NonManifestOnly(keys, acc);
    var k :| k in acc && !acc[k].2;
    assert k in NonManifest(keys, acc);
    CommonPrefixMeaning(NonManifest(keys, acc), q);
  }

  lemma CommonLeads(acc: map<string, Entry>, key: string)
    requires key in acc && !acc[key].2
    ensures CommonOf(acc) <= Segments(key)
  {
    hide CommonOf, Segments;
    CommonMeaning(acc, CommonOf(acc));
  }

  /** Every name the roll-up renders has that shape. */
  lemma RollupRenders(acc: map<string, Entry>)
    ensures Rendered(NamedOf(acc))
  {
    var named, common := NamedOf(acc), CommonOf(acc);
    hide NamedOf, CommonOf, DisplayName, LastSegment, Segments;
    forall i | 0 <= i < |named| && !Slashed(named[i].name) ensures named[i].name == LastSegment(named[i].key) {
      NamedAt(acc, i);
      if !acc[named[i].key].2 {
        DisplayShape(named[i].key, common);
      }
    }
    forall i, j | 0 <= i < j < |named| && named[i].name == named[j].name ensures !Slashed(named[i].name) {
      NamedAt(acc, i);
      NamedAt(acc, j);
      if Slashed(named[i].name) {
        SlashedNameHasOneKey(named[i], named[j], acc, common);
      }
    }
  }

  lemma SlashedNameHasOneKey(a: Named, b: Named, acc: map<string, Entry>, common: seq<string>)
    requires a.key in acc && a == NamedFor(a.key, acc[a.key], common)
    requires b.key in acc && b == NamedFor(b.key, acc[b.key], common)
    requires !acc[a.key].2 ==> common <= Segments(a.key)
    requires !acc[b.key].2 ==> common <= Segments(b.key)
    requires a.name == b.name && Slashed(a.name)
    ensures a.key == b.key
  {
    LastSegmentHasNoSlash(a.key);
    LastSegmentHasNoSlash(b.key);
    hide LastSegment, Slashed;
    DisplayShape(a.key, common);
    DisplayShape(b.key, common);
    JoinOfSplit(a.key, '/');
    JoinOfSplit(b.key, '/');
  }

  /** A slash-free rendered name is still the last segment of the final name. */
  lemma FinalNameEndsRendered(named: seq<Named>, i: nat)
    requires Rendered(named) && i < |named| && !Slashed(named[i].name)
    ensures LastSegment(NewName(named, i)) == named[i].name
  {
    hide IndicesOf, NewName;
    if Collides(named, i) {
      var k := NewNameIsPicked(named, i);
      SuffixEndsAlike(named[i].key, k);
    } else {
      AloneKeepsName(named, i);
      SplitOfFree(named[i].name, '/');
    }
  }

  lemma AloneKeepsName(named: seq<Named>, i: nat)
    requires i < |named| && !Collides(named, i)
    ensures NewName(named, i) == named[i].name
  {
  }

  lemma Twin(named: seq<Named>, i: nat) returns (j: nat)
    requires i < |named| && Collides(named, i)
    ensures j < |named| && j != i && named[j].name == named[i].name
  {
    var idxs := IndicesOf(named, named[i].name);
    IndicesInRange(named, named[i].name);
    j := if idxs[0] == i then idxs[1] else idxs[0];
  }

  lemma SlashedIsAlone(named: seq<Named>, i: nat)
    requires Rendered(named) && i < |named| && Slashed(named[i].name)
    ensures !Collides(named, i)
  {
    hide Collides;
    if Collides(named, i) {
      var _ := Twin(named, i);
    }
  }

  /** Two entries with one final name: one is alone under a slashed name, the other
      collides and picks exactly that name. */
  lemma SharedFinalName(named: seq<Named>, i: nat, j: nat)
    requires Rendered(named) && i < |named| && j < |named| && i != j
    requires NewName(named, i) == NewName(named, j)
    requires Slashed(named[j].name) || !Slashed(named[i].name)
    ensures Slashed(named[j].name) && Collides(named, i) && NewName(named, i) == named[j].name
  {
    if named[i].name == named[j].name {
      CollidingNamesApart(named, i, j);
    }
    hide NewName, Colliding, LastSegment;
    if !Slashed(named[j].name) {
      FinalNameEndsRendered(named, i);
      FinalNameEndsRendered(named, j);
    } else {
      SlashedIsAlone(named, j);
      AloneKeepsName(named, j);
      if !Collides(named, i) {
        AloneKeepsName(named, i);
      }
    }
  }

  ghost predicate FinalNamesDistinct(named: seq<Named>) {
    forall i, j :: 0 <= i < j < |named| ==> NewName(named, i) != NewName(named, j)
  }

  /** No colliding key picks a suffix that is another group's slashed name. */
  ghost predicate NoSlashedNamePicked(named: seq<Named>) {
    forall i, j, k | 0 <= i < |named| && 0 <= j < |named| && Collides(named, i) && Picks(named, i, k) ::
      Slashed(named[j].name) ==>
      SuffixOf(named[i].key, k) != named[j].name
  }

  lemma DistinctMeansNonePicked(named: seq<Named>)
    requires Rendered(named) && FinalNamesDistinct(named)
    ensures NoSlashedNamePicked(named)
  {
    hide Rendered, NewName, Picks, Collides, Slashed, SuffixOf;
    forall i, j, k |
      0 <= i < |named| && 0 <= j < |named| && Collides(named, i) && Slashed(named[j].name) && Picks(named, i, k)
      ensures SuffixOf(named[i].key, k) != named[j].name
    {
      var l := NewNameIsPicked(named, i);
      PickIsUnique(named, i, k, l);
      SlashedIsAlone(named, j);
      AloneKeepsName(named, j);
      assert NewName(named, i) != NewName(named, j);
    }
  }

  lemma NonePickedMeansDistinct(named: seq<Named>)
    requires Rendered(named) && NoSlashedNamePicked(named)
    ensures FinalNamesDistinct(named)
  {
    hide Rendered, NewName, Picks, Collides, Slashed, SuffixOf;
    forall i, j | 0 <= i < j < |named| ensures NewName(named, i) != NewName(named, j) {
      if NewName(named, i) == NewName(named, j) {
        var a, b := if Slashed(named[j].name) then i else j, if Slashed(named[j].name) then j else i;
        SharedFinalName(named, a, b);
        var k := NewNameIsPicked(named, a);
      }
    }
  }

  // ---- The condition on merge keys -----------------------------------------

  function LastSegments(key: string, k: nat): seq<string>
    requires k <= |Segments(key)|
  {
    Segments(key)[|Segments(key)| - k..]
  }

  /** The key consists of the collapsed prefix and these segments. */
  ghost predicate Spells(acc: map<string, Entry>, d: string, tail: seq<string>) {
    d in acc && !acc[d].2 && Segments(d) == CommonOf(acc) + tail
  }

  /** The last `k` segments, two or more, are what the colliding key keeps. */
  ghost predicate KeepsLong(named: seq<Named>, i: nat, k: nat)
    requires i < |named|
  {
    Collides(named, i) && Picks(named, i, k) && 2 <= k <= |Segments(named[i].key)|
  }

  /** No directory key consists of the collapsed prefix followed by the segments,
      two or more, that a colliding key keeps. */
  ghost predicate NoKeySpellsSuffix(acc: map<string, Entry>) {
    forall i: nat, k: nat, d | i < |NamedOf(acc)| && KeepsLong(NamedOf(acc), i, k) ::
      !Spells(acc, d, LastSegments(NamedOf(acc)[i].key, k))
  }

  lemma {:induction false} JoinedIsSlashed(pieces: seq<string>)
    ensures |pieces| >= 2 ==> Slashed(Join(pieces, '/'))
  {
  }

  /** A directory key that spells a kept suffix renders as that suffix. */
  lemma SpelledKeyRenders(acc: map<string, Entry>, i: nat, k: nat, d: string) returns (j: nat)
    requires i < |NamedOf(acc)| && 2 <= k <= |Segments(NamedOf(acc)[i].key)|
    requires Spells(acc, d, LastSegments(NamedOf(acc)[i].key, k))
    ensures j < |NamedOf(acc)| && Slashed(NamedOf(acc)[j].name)
    ensures NamedOf(acc)[j].name == SuffixOf(NamedOf(acc)[i].key, k)
  {
    hide *;
    var key := NamedOf(acc)[i].key;
    var tail := LastSegments(key, k);
    SuffixIsJoined(key, k);
    SpellsParts(acc, d, tail);
    j := PositionOfKey(acc, d);
    NamedAt(acc, j);
    NamedKey(d, acc[d], CommonOf(acc));
    DisplayOfSpelled(d, CommonOf(acc), tail);
  }

  lemma SuffixIsJoined(key: string, k: nat)
    requires k <= |Segments(key)|
    ensures |LastSegments(key, k)| == k && SuffixOf(key, k) == Join(LastSegments(key, k), '/')
  {
  }

  lemma SpellsParts(acc: map<string, Entry>, d: string, tail: seq<string>)
    requires Spells(acc, d, tail)
    ensures d in acc && !acc[d].2 && Segments(d) == CommonOf(acc) + tail
  {
  }

  lemma DisplayOfSpelled(d: string, common: seq<string>, tail: seq<string>)
    requires Segments(d) == common + tail && |tail| >= 2
    ensures DisplayName(d, common) == Join(tail, '/') && Slashed(Join(tail, '/'))
  {
    hide Segments, Slashed;
    assert Segments(d)[|common|..] == tail;
    JoinedIsSlashed(tail);
  }

  /** A slashed name that a colliding key picks is spelled by its own key. */
  lemma PickedNameIsSpelled(acc: map<string, Entry>, i: nat, j: nat, k: nat)
    requires i < |NamedOf(acc)| && j < |NamedOf(acc)| && Slashed(NamedOf(acc)[j].name)
    requires 1 <= k <= |Segments(NamedOf(acc)[i].key)| && SuffixOf(NamedOf(acc)[i].key, k) == NamedOf(acc)[j].name
    ensures k >= 2 && Spells(acc, NamedOf(acc)[j].key, LastSegments(NamedOf(acc)[i].key, k))
  {
    var key, e := NamedOf(acc)[i].key, NamedOf(acc)[j];
    NamedAt(acc, j);
    hide NamedOf, CommonOf;
    LastSegmentHasNoSlash(e.key);
    SplitIsFree(key, '/');
    SplitOfJoin(LastSegments(key, k), '/');
    OneSegmentSuffix(key);
    DisplayShape(e.key, CommonOf(acc));
  }

  lemma OneSegmentSuffix(key: string)
    ensures !Slashed(SuffixOf(key, 1))
  {
    LastSegmentHasNoSlash(key);
    assert Segments(key)[|Segments(key)| - 1..] == [LastSegment(key)];
  }

  lemma SpelledIffPicked(acc: map<string, Entry>)
    ensures NoSlashedNamePicked(NamedOf(acc)) <==> NoKeySpellsSuffix(acc)
  {
    var named := NamedOf(acc);
    hide NamedOf, Collides, Picks, Slashed, SuffixOf, Segments, LastSegments, Spells;
    if NoSlashedNamePicked(named) {
      forall i: nat, k: nat, d | i < |named| && KeepsLong(named, i, k)
        ensures !Spells(acc, d, LastSegments(named[i].key, k))
      {
        if Spells(acc, d, LastSegments(named[i].key, k)) {
          var j := SpelledKeyRenders(acc, i, k, d);
        }
      }
    }
    if NoKeySpellsSuffix(acc) {
      forall i, j, k |
        0 <= i < |named| && 0 <= j < |named| && Collides(named, i) && Slashed(named[j].name) && Picks(named, i, k)
        ensures SuffixOf(named[i].key, k) != named[j].name
      {
        PicksInRange(named, i, k);
        if SuffixOf(named[i].key, k) == named[j].name {
          PickedNameIsSpelled(acc, i, j, k);
        }
      }
    }
  }

  lemma PicksInRange(named: seq<Named>, i: nat, k: nat)
    requires i < |named| && Picks(named, i, k)
    ensures 1 <= k <= |Segments(named[i].key)|
  {
    PicksKey(named, i);
    hide IndicesOf, Segments;
  }

  // ---- The returned groups -------------------------------------------------

  /** No two groups render the same name. */
  ghost predicate NamesDistinct(groups: seq<PackageGroup>) {
    forall i, j :: 0 <= i < j < |groups| ==> groups[i].name != groups[j].name
  }

  lemma GroupNames(named: seq<Named>)
    ensures NamesDistinct(GroupsOf(Disambiguated(named))) <==> FinalNamesDistinct(named)
  {
    hide NewName;
    assert forall i :: 0 <= i < |named| ==> GroupsOf(Disambiguated(named))[i].name == NewName(named, i);
  }

  lemma RollupNames(dirs: seq<DirGroup>, roots: seq<ManifestRoot>)
    ensures NamesDistinct(Rollup(dirs, roots)) <==> FinalNamesDistinct(NamedOf(AccOf(dirs, roots)))
  {
    var named := NamedOf(AccOf(dirs, roots));
    var groups := GroupsOf(Disambiguated(named));
    hide *;
    RollupIs(dirs, roots);
    GroupNames(named);
    SortIsPermutation(groups);
    if NamesDistinct(groups) {
      NamesSurviveSort(groups, Sort(GroupLe, groups));
    }
    if NamesDistinct(Sort(GroupLe, groups)) {
      NamesSurviveSort(Sort(GroupLe, groups), groups);
    }
  }

  /** The returned groups all have different names exactly when no directory key
      spells a kept suffix. */
  lemma RollupNamesDistinctIff(dirs: seq<DirGroup>, roots: seq<ManifestRoot>)
    ensures NamesDistinct(Rollup(dirs, roots)) <==> NoKeySpellsSuffix(AccOf(dirs, roots))
  {
    var acc := AccOf(dirs, roots);
    RollupNames(dirs, roots);
    RollupRenders(acc);
    SpelledIffPicked(acc);
    hide *;
    if FinalNamesDistinct(NamedOf(acc)) {
      DistinctMeansNonePicked(NamedOf(acc));
    }
    if NoSlashedNamePicked(NamedOf(acc)) {
      NonePickedMeansDistinct(NamedOf(acc));
    }
  }

  /** In particular, a roll-up all of whose directories lie under manifest roots has
      no two groups of one name. */
  lemma ManifestGroupsDistinct(dirs: seq<DirGroup>, roots: seq<ManifestRoot>)
    requires forall d :: d in dirs ==> Classify(d.path, roots).1
    ensures NamesDistinct(Rollup(dirs, roots))
  {
    AllManifest(dirs, roots);
    hide Rollup, AccOf, Classify, NamedOf, CommonOf, Collides, Picks;
    RollupNamesDistinctIff(dirs, roots);
  }

  lemma AllManifest(dirs: seq<DirGroup>, roots: seq<ManifestRoot>)
    requires forall d :: d in dirs ==> Classify(d.path, roots).1
    ensures forall k :: k in AccOf(dirs, roots) ==> AccOf(dirs, roots)[k].2
  {
    hide Classify, KeyTotal;
    forall k | k in AccOf(dirs, roots) ensures AccOf(dirs, roots)[k].2 {
      var d :| d in Elements(dirs) && Classify(d.path, roots).0 == k;
      assert Classify(d.path, roots) == (k, true);
    }
  }

  lemma NamesSurviveSort(groups: seq<PackageGroup>, sorted: seq<PackageGroup>)
    requires Permutation(groups, sorted) && NamesDistinct(groups)
    ensures NamesDistinct(sorted)
  {
    DistinctPermutation(groups, sorted);
    PermutationFacts(groups, sorted);
    forall i, j | 0 <= i < j < |sorted| ensures sorted[i].name != sorted[j].name {
      assert sorted[i] in groups && sorted[j] in groups;
    }
  }

  // ---- A roll-up with two groups of one name -------------------------------

  const ROOTS := [ManifestRoot("p/a/x", RustCrate), ManifestRoot("p/b/x", RustCrate)]

  lemma TwoRoots(path: string, a: ManifestRoot, b: ManifestRoot)
    requires a.path != "." && !(Covers(a.path, path, false) && Covers(b.path, path, false))
    ensures Classify(path, [a, b]) ==
      if Covers(b.path, path, false) then (b.path, true)
      else if Covers(a.path, path, false) then (a.path, true)
      else (ClassifyDirectory(path), false)
  {
    hide Covers, ClassifyDirectory;
    assert [a, b][0].path != "." && !NoNestedRoots([a, b]);
    assert Front([a, b]) == [a] && Front([a]) == [];
    assert NearestManifestRoot(path, [], false).None?;
    assert NearestManifestRoot(path, [a], false) == if Covers(a.path, path, false) then Some(a) else None;
  }

  /** No root covers a short path. */
  lemma ShortPath(path: string)
    requires |path| < 5
    ensures Classify(path, ROOTS) == (path, false)
  {
    TwoRoots(path, ROOTS[0], ROOTS[1]);
    assert ROOTS == [ROOTS[0], ROOTS[1]];
  }

  lemma RootPaths()
    ensures Classify("p/a/x", ROOTS) == ("p/a/x", true) && Classify("p/b/x", ROOTS) == ("p/b/x", true)
  {
    assert "p/a/x"[2] != "p/b/x"[2];
    assert !Covers("p/a/x", "p/b/x", false) && !Covers("p/b/x", "p/a/x", false);
    TwoRoots("p/a/x", ROOTS[0], ROOTS[1]);
    TwoRoots("p/b/x", ROOTS[0], ROOTS[1]);
    assert ROOTS == [ROOTS[0], ROOTS[1]];
  }

  lemma ExampleKeys(acc: map<string, Entry>, i: nat)
    requires acc.Keys == {"a/x", "b", "p/a/x", "p/b/x"}
    requires !acc["a/x"].2 && !acc["b"].2 && acc["p/a/x"].2 && acc["p/b/x"].2
    requires i < |NamedOf(acc)|
    ensures var named := NamedOf(acc);
      && named[i].key in acc
      && (named[i].key == "a/x" ==> named[i].name == "a/x")
      && (named[i].key == "p/a/x" || named[i].key == "p/b/x" ==> named[i].name == "x")
      && (named[i].name == "x" ==> named[i].key == "p/a/x" || named[i].key == "p/b/x")
  {
    hide *;
    ExampleSegments();
    ExamplePathsApart();
    NamedAt(acc, i);
    CommonLeads(acc, "a/x");
    CommonLeads(acc, "b");
    NoSharedPrefix(CommonOf(acc));
    var key := NamedOf(acc)[i].key;
    ExampleNames(acc[key], key);
  }

  lemma NoSharedPrefix(common: seq<string>)
    requires common <= ["a", "x"] && common <= ["b"]
    ensures common == []
  {
    assert "a"[0] != "b"[0];
    SharedPrefixIsLongest(["a", "x"], ["b"], common);
  }

  lemma ExampleNames(entry: Entry, key: string)
    ensures key == "a/x" && !entry.2 ==> NamedFor(key, entry, []).name == "a/x"
    ensures key == "b" && !entry.2 ==> NamedFor(key, entry, []).name == "b" != "x"
    ensures (key == "p/a/x" || key == "p/b/x") && entry.2 ==> NamedFor(key, entry, []).name == "x"
    ensures "a/x" != "x"
  {
    ExampleSegments();
    JoinOfSplit(key, '/');
    assert Segments(key)[0..] == Segments(key);
    assert |"a/x"| == 3 && |"x"| == 1 && "b"[0] != "x"[0];
  }

  lemma ExampleSegments()
    ensures Segments("a/x") == ["a", "x"] && Segments("b") == ["b"]
    ensures Segments("p/a/x") == ["p", "a", "x"] && Segments("p/b/x") == ["p", "b", "x"]
  {
    SplitOfFree("b", '/');
    TwoPieces("a");
    TwoPieces("b");
    ThreePieces("a");
    ThreePieces("b");
    hide *;
    assert "p/" + "a" + "/x" == "p/a/x" && "p/" + "b" + "/x" == "p/b/x" && "a" + "/x" == "a/x";
  }

  lemma TwoPieces(d: string)
    requires '/' !in d
    ensures Segments(d + "/x") == [d, "x"]
  {
    SplitOfFree("x", '/');
    SplitPrefix(d, "x", '/');
    assert d + "/x" == d + ['/'] + "x" && [d] + ["x"] == [d, "x"];
  }

  lemma ThreePieces(d: string)
    requires '/' !in d
    ensures Segments("p/" + d + "/x") == ["p", d, "x"]
  {
    TwoPieces(d);
    SplitPrefix("p", d + "/x", '/');
    assert "p/" + d + "/x" == "p" + ['/'] + (d + "/x") && ["p"] + [d, "x"] == ["p", d, "x"];
  }

  /** The suffix two of the crates are told apart by. */
  lemma ExamplePick(named: seq<Named>, i: nat)
    requires DistinctKeys(named) && i < |named| && named[i].key == "p/a/x"
    requires forall j :: 0 <= j < |named| ==>
      (named[j].name == "x" <==> named[j].key == "p/a/x" || named[j].key == "p/b/x")
    requires exists j :: 0 <= j < |named| && named[j].key == "p/b/x"
    ensures NewName(named, i) == "a/x"
  {
    var keys, pos := Colliding(named, i), IndexOf(IndicesOf(named, "x"), i);
    var j :| 0 <= j < |named| && named[j].key == "p/b/x";
    CollidingPair(named, i, j);
    ExampleKept(keys, pos);
    hide IndicesOf, Colliding, Distinguishing;
  }

  lemma CollidingPair(named: seq<Named>, i: nat, j: nat)
    requires DistinctKeys(named) && i < |named| && j < |named| && named[i].key == "p/a/x" && named[j].key == "p/b/x"
    requires forall k :: 0 <= k < |named| ==>
      (named[k].name == "x" <==> named[k].key == "p/a/x" || named[k].key == "p/b/x")
    ensures var idxs, keys := IndicesOf(named, "x"), Colliding(named, i);
      && named[i].name == "x" && i in idxs && |keys| == |idxs| >= 2 && keys[IndexOf(idxs, i)] == "p/a/x"
      && (forall q :: 0 <= q < |keys| && q != IndexOf(idxs, i) ==> keys[q] == "p/b/x")
  {
    var idxs, keys := IndicesOf(named, "x"), Colliding(named, i);
    PicksKey(named, i);
    PicksKey(named, j);
    ExamplePathsApart();
    IndicesInRange(named, "x");
    hide IndicesOf;
    assert IndexOf(idxs, i) != IndexOf(idxs, j);
    forall q | 0 <= q < |keys| && q != IndexOf(idxs, i) ensures keys[q] == "p/b/x" {
      assert idxs[q] != idxs[IndexOf(idxs, i)];
    }
  }

  lemma ExampleKept(keys: seq<string>, pos: nat)
    requires |keys| >= 2 && pos < |keys| && keys[pos] == "p/a/x"
    requires forall q :: 0 <= q < |keys| && q != pos ==> keys[q] == "p/b/x"
    ensures Distinguishing(keys, pos) == "a/x"
  {
    ExampleSuffixes();
    ExampleSegments();
    hide Segments, SuffixOf;
    var other := if pos == 0 then 1 else 0;
    assert keys[other] == "p/b/x";
    assert !UniqueAt(keys, pos, 1) && UniqueAt(keys, pos, 2);
    assert DistinguishingFrom(keys, pos, 2) == SuffixOf(keys[pos], 2);
  }

  lemma ExampleSuffixes()
    ensures SuffixOf("p/a/x", 1) == SuffixOf("p/b/x", 1) && SuffixOf("p/a/x", 2) == "a/x" != SuffixOf("p/b/x", 2)
  {
    ExampleSegments();
    assert ["p", "a", "x"][2..] == ["x"] == ["p", "b", "x"][2..];
    assert ["p", "a", "x"][1..] == ["a", "x"] && ["p", "b", "x"][1..] == ["b", "x"];
    JoinOfSplit("a/x", '/');
    assert Join(["b", "x"], '/')[0] == 'b';
  }

  lemma PositionOfKey(acc: map<string, Entry>, k: string) returns (i: nat)
    requires k in acc
    ensures i < |NamedOf(acc)| && NamedOf(acc)[i].key == k
  {
    var keys := Enumeration(LexLe, acc.Keys);
    StringOrder();
    EnumerationAscends(LexLe, acc.Keys);
    assert forall x :: x in keys <==> x in Elements(keys);
    hide CommonPrefix, NonManifest, LexLe, DisplayName;
    i :| 0 <= i < |keys| && keys[i] == k;
  }

  const DIRS := [DirGroup("a/x", 1, 0), DirGroup("b", 1, 0), DirGroup("p/a/x", 1, 0), DirGroup("p/b/x", 1, 0)]

  /** Two crates of one directory name beside a plain directory: the crate's
      extended name is the directory's own, and the roll-up shows it twice. */
  lemma RollupNamesCanCollide()
    ensures !NamesDistinct(Rollup(DIRS, ROOTS))
  {
    var acc := AccOf(DIRS, ROOTS);
    ExampleEntries();
    RollupNames(DIRS, ROOTS);
    hide *;
    var named := NamedOf(acc);
    RollupRenders(acc);
    forall i | 0 <= i < |named|
      ensures named[i].name == "x" <==> named[i].key == "p/a/x" || named[i].key == "p/b/x"
    {
      ExampleKeys(acc, i);
    }
    var d := PositionOfKey(acc, "a/x");
    var a := PositionOfKey(acc, "p/a/x");
    var b := PositionOfKey(acc, "p/b/x");
    ExampleKeys(acc, d);
    PlainStays(named, d);
    ExamplePathsApart();
    assert named[b].key == "p/b/x";
    ExamplePick(named, a);
    SameFinalName(named, a, d);
  }

  lemma PlainStays(named: seq<Named>, d: nat)
    requires Rendered(named) && d < |named| && named[d].name == "a/x"
    ensures NewName(named, d) == "a/x" && DistinctKeys(named)
  {
    assert "a/x"[1] == '/';
    SlashedIsAlone(named, d);
    AloneKeepsName(named, d);
  }

  lemma SameFinalName(named: seq<Named>, i: nat, j: nat)
    requires i < |named| && j < |named| && i != j && NewName(named, i) == NewName(named, j)
    ensures !FinalNamesDistinct(named)
  {
    hide NewName;
  }

  lemma ExampleEntries()
    ensures var acc := AccOf(DIRS, ROOTS);
      && acc.Keys == {"a/x", "b", "p/a/x", "p/b/x"}
      && !acc["a/x"].2 && !acc["b"].2 && acc["p/a/x"].2 && acc["p/b/x"].2
  {
    hide Classify, AccOf, ROOTS;
    ShortPath("a/x");
    ShortPath("b");
    RootPaths();
    ExamplePathsApart();
    FourEntries(DIRS, ROOTS, "a/x", "b", "p/a/x", "p/b/x");
  }

  lemma FourEntries(dirs: seq<DirGroup>, roots: seq<ManifestRoot>, a: string, b: string, c: string, d: string)
    requires dirs == [DirGroup(a, 1, 0), DirGroup(b, 1, 0), DirGroup(c, 1, 0), DirGroup(d, 1, 0)]
    requires a != c && a != d && b != c && b != d
    requires Classify(a, roots) == (a, false) && Classify(b, roots) == (b, false)
    requires Classify(c, roots) == (c, true) && Classify(d, roots) == (d, true)
    ensures var acc := AccOf(dirs, roots);
      && acc.Keys == {a, b, c, d}
      && !acc[a].2 && !acc[b].2 && acc[c].2 && acc[d].2
  {
    hide Classify, KeyTotal;
    var all := Elements(dirs);
    assert all == {dirs[0], dirs[1], dirs[2], dirs[3]};
    assert Keys(all, roots) == {a, b, c, d};
  }

  lemma ExamplePathsApart()
    ensures "a/x" != "b" && "a/x" != "p/a/x" && "a/x" != "p/b/x"
    ensures "b" != "p/a/x" && "b" != "p/b/x" && "p/a/x" != "p/b/x"
  {
    assert |"a/x"| == 3 && |"b"| == 1 && |"p/a/x"| == 5 && |"p/b/x"| == 5;
    assert "p/a/x"[2] != "p/b/x"[2];
  }
}
