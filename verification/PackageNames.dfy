/** The naming half of `package_groups.rs`: common prefix, display names, and
    telling colliding names apart. */
module PackageNames {
  import opened Text
  import opened Ordering

  function Segments(key: string): (segs: seq<string>)
    ensures |segs| > 0
  {
    Split(key, '/')
  }

  /** `key.rsplit('/').next()`. */
  function LastSegment(key: string): string {
    Last(Segments(key))
  }

  // ---- Common prefix -------------------------------------------------------

  /** The longest run of leading segments two keys share. */
  function SharedPrefix(a: seq<string>, b: seq<string>): (p: seq<string>)
    ensures p <= a && p <= b
  {
    if a == [] || b == [] || a[0] != b[0] then [] else [a[0]] + SharedPrefix(a[1..], b[1..])
  }

  lemma {:induction false} SharedPrefixIsLongest(a: seq<string>, b: seq<string>, q: seq<string>)
    requires q <= a && q <= b
    ensures q <= SharedPrefix(a, b)
  {
    if q != [] {
      assert a[0] == q[0] == b[0];
      SharedPrefixIsLongest(a[1..], b[1..], q[1..]);
    }
  }

  ghost function CommonPrefix(keys: seq<string>): seq<string> {
    if keys == [] then []
    else if |keys| == 1 then Segments(keys[0])
    else SharedPrefix(CommonPrefix(Front(keys)), Segments(Last(keys)))
  }

  /** The segments shared by all keys, and no longer run is. */
  lemma {:induction false} CommonPrefixMeaning(keys: seq<string>, q: seq<string>)
    requires keys != []
    ensures (forall k :: k in keys ==> q <= Segments(k)) <==> q <= CommonPrefix(keys)
  {
    if |keys| == 1 {
      assert keys[0] in keys;
    } else {
      assert keys == Front(keys) + [Last(keys)];
      assert forall k :: k in keys <==> k in Front(keys) || k == Last(keys);
      CommonPrefixMeaning(Front(keys), q);
      if q <= CommonPrefix(Front(keys)) && q <= Segments(Last(keys)) {
        SharedPrefixIsLongest(CommonPrefix(Front(keys)), Segments(Last(keys)), q);
      }
    }
  }

  /** `common_segment_prefix`. */
  method CommonSegmentPrefix(keys: seq<string>) returns (prefix: seq<string>)
    ensures prefix == CommonPrefix(keys)
  {
    if keys == [] {
      return [];
    }
    var first := Segments(keys[0]);
    var prefixLen := |first|;
    assert keys[..1] == [keys[0]] && first[..|first|] == first;
    for n := 1 to |keys|
      invariant 0 <= prefixLen <= |first| && first[..prefixLen] == CommonPrefix(keys[..n])
    {
      hide CommonPrefix, Split;
      var segs := Segments(keys[n]);
      var i := 0;
      while i < prefixLen && i < |segs| && segs[i] == first[i]
        invariant 0 <= i <= prefixLen && i <= |segs|
        invariant first[..i] == segs[..i]
      {
        i := i + 1;
      }
      PrefixStep(keys, n, first, prefixLen, i);
      prefixLen := i;
      if prefixLen == 0 {
        NothingShared(keys, n + 1);
        return [];
      }
    }
    assert keys[..|keys|] == keys;
    prefix := first[..prefixLen];
  }

  /** One more key shortens the common prefix to the run it matches. */
  lemma PrefixStep(keys: seq<string>, n: nat, first: seq<string>, prefixLen: nat, i: nat)
    requires 1 <= n < |keys| && i <= prefixLen <= |first| && first[..prefixLen] == CommonPrefix(keys[..n])
    requires var segs := Segments(keys[n]);
      && i <= |segs| && first[..i] == segs[..i]
      && (i == prefixLen || i == |segs| || segs[i] != first[i])
    ensures first[..i] == CommonPrefix(keys[..n + 1])
  {
    hide Split;
    MatchedRun(first[..prefixLen], Segments(keys[n]), i);
    assert first[..prefixLen][..i] == first[..i];
    assert Front(keys[..n + 1]) == keys[..n] && Last(keys[..n + 1]) == keys[n];
  }

  lemma {:induction false} MatchedRun(a: seq<string>, b: seq<string>, i: nat)
    requires i <= |a| && i <= |b| && a[..i] == b[..i]
    requires i == |a| || i == |b| || a[i] != b[i]
    ensures SharedPrefix(a, b) == a[..i]
  {
    if i > 0 {
      assert a[0] == a[..i][0] && b[0] == b[..i][0];
      assert a[1..][..i - 1] == a[..i][1..] && b[1..][..i - 1] == b[..i][1..];
      MatchedRun(a[1..], b[1..], i - 1);
      assert a[..i] == [a[0]] + a[1..][..i - 1];
    }
  }

  lemma {:induction false} NothingShared(keys: seq<string>, n: nat)
    requires 0 < n <= |keys| && CommonPrefix(keys[..n]) == []
    ensures CommonPrefix(keys) == []
    decreases |keys| - n
  {
    if n < |keys| {
      assert Front(keys[..n + 1]) == keys[..n];
      NothingShared(keys, n + 1);
    } else {
      assert keys[..n] == keys;
    }
  }

  /** `display_name`: the tail after the collapsed prefix, or the prefix's own last
      segment for the key that is the prefix. */
  function DisplayName(key: string, common: seq<string>): string {
    var segs := Segments(key);
    if |segs| > |common| then Join(segs[|common|..], '/')
    else if common != [] then Last(common) else key
  }

  // ---- Telling colliding names apart ---------------------------------------

  /** The last `k` segments of a key, or the whole key if it has fewer. */
  function SuffixOf(key: string, k: nat): string {
    var segs := Segments(key);
    if k <= |segs| then Join(segs[|segs| - k..], '/') else key
  }

  /** No other key has the same suffix of `k` segments. */
  predicate UniqueAt(keys: seq<string>, pos: nat, k: nat)
    requires pos < |keys|
  {
    forall j :: 0 <= j < |keys| && j != pos ==> SuffixOf(keys[j], k) != SuffixOf(keys[pos], k)
  }

  ghost function DistinguishingFrom(keys: seq<string>, pos: nat, k: nat): string
    requires pos < |keys|
    decreases |Segments(keys[pos])| - k
  {
    if k >= |Segments(keys[pos])| then keys[pos]
    else if UniqueAt(keys, pos, k) then SuffixOf(keys[pos], k)
    else DistinguishingFrom(keys, pos, k + 1)
  }

  /** The shortest suffix of one colliding key that tells it from the others. */
  ghost function Distinguishing(keys: seq<string>, pos: nat): string
    requires pos < |keys|
  {
    DistinguishingFrom(keys, pos, 1)
  }

  /** `shortest_distinguishing_suffix`. */
  method ShortestDistinguishingSuffix(key: string, others: seq<string>, selfPos: nat) returns (name: string)
    requires selfPos < |others| && others[selfPos] == key
    ensures name == Distinguishing(others, selfPos)
  {
    var segs := Segments(key);
    var k := 1;
    while k < |segs|
      invariant 1 <= k <= |segs|
      invariant DistinguishingFrom(others, selfPos, k) == Distinguishing(others, selfPos)
    {
      if UniqueAt(others, selfPos, k) {
        return SuffixOf(key, k);
      }
      k := k + 1;
    }
    name := key;
  }

  lemma WholeSuffix(key: string)
    ensures SuffixOf(key, |Segments(key)|) == key
  {
    JoinOfSplit(key, '/');
    assert Segments(key)[0..] == Segments(key);
  }

  /** `k` is how many segments the chosen name keeps. */
  ghost predicate Keeps(keys: seq<string>, pos: nat, k: nat)
    requires pos < |keys|
  {
    && 1 <= k <= |Segments(keys[pos])|
    && (k < |Segments(keys[pos])| ==> UniqueAt(keys, pos, k))
    && forall j :: 1 <= j < k ==> !UniqueAt(keys, pos, j)
  }

  lemma {:induction false} KeptFrom(keys: seq<string>, pos: nat, from: nat) returns (k: nat)
    requires pos < |keys| && 1 <= from <= |Segments(keys[pos])|
    requires forall j :: 1 <= j < from ==> !UniqueAt(keys, pos, j)
    ensures Keeps(keys, pos, k) && DistinguishingFrom(keys, pos, from) == SuffixOf(keys[pos], k)
    decreases |Segments(keys[pos])| - from
  {
    hide Segments, SuffixOf, UniqueAt;
    if from == |Segments(keys[pos])| {
      k := from;
      WholeSuffix(keys[pos]);
    } else if UniqueAt(keys, pos, from) {
      k := from;
    } else {
      k := KeptFrom(keys, pos, from + 1);
    }
  }

  /** The chosen name is the shortest segment suffix no other colliding key shares
      at equal length, or the whole key. */
  lemma DistinguishingMeaning(keys: seq<string>, pos: nat)
    requires pos < |keys|
    ensures exists k :: Keeps(keys, pos, k) && Distinguishing(keys, pos) == SuffixOf(keys[pos], k)
    ensures
      || (exists k :: 1 <= k < |Segments(keys[pos])| && UniqueAt(keys, pos, k))
      || Distinguishing(keys, pos) == keys[pos]
  {
    var k := KeptFrom(keys, pos, 1);
    WholeSuffix(keys[pos]);
  }

  lemma SuffixSegments(key: string, k: nat)
    requires 1 <= k <= |Segments(key)|
    ensures |Segments(SuffixOf(key, k))| == k
  {
    var tail := Segments(key)[|Segments(key)| - k..];
    SplitIsFree(key, '/');
    SplitOfJoin(tail, '/');
  }

  /** Names given to one colliding set are pairwise distinct, across suffixes of
      different lengths and whole-key fallbacks alike. */
  lemma DistinguishingIsInjective(keys: seq<string>, i: nat, j: nat)
    requires Distinct(keys) && i < |keys| && j < |keys| && i != j
    ensures Distinguishing(keys, i) != Distinguishing(keys, j)
  {
    var k := KeptFrom(keys, i, 1);
    var l := KeptFrom(keys, j, 1);
    SuffixSegments(keys[i], k);
    SuffixSegments(keys[j], l);
    WholeSuffix(keys[i]);
    WholeSuffix(keys[j]);
    assert keys[i] != keys[j];
  }
}
