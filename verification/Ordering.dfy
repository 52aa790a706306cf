/** Sorting and sorted-set insertion over an arbitrary order, with the fact the
    determinism results rest on: a sorted sequence is determined by its
    elements. */
module Ordering {

  function Last<T>(s: seq<T>): T
    requires |s| > 0
  {
    s[|s| - 1]
  }

  function Front<T>(s: seq<T>): seq<T>
    requires |s| > 0
  {
    s[..|s| - 1]
  }

  lemma FrontLast<T>(s: seq<T>)
    requires s != []
    ensures Front(s) + [Last(s)] == s && Last(s) in s
  {
  }

  function IndexOf<T(==)>(s: seq<T>, x: T): (i: nat)
    requires x in s
    ensures i < |s| && s[i] == x && x !in s[..i]
  {
    if s[0] == x then 0 else 1 + IndexOf(s[1..], x)
  }

  ghost predicate TotalPreorder<T(!new)>(le: (T, T) -> bool) {
    && (forall x, y :: le(x, y) || le(y, x))
    && (forall x, y, z :: le(x, y) && le(y, z) ==> le(x, z))
  }

  ghost predicate TotalOrder<T(!new)>(le: (T, T) -> bool) {
    && TotalPreorder(le)
    && (forall x, y :: le(x, y) && le(y, x) ==> x == y)
  }

  ghost predicate SortedBy<T>(le: (T, T) -> bool, s: seq<T>) {
    forall i, j :: 0 <= i < j < |s| ==> le(s[i], s[j])
  }

  ghost predicate Distinct<T>(s: seq<T>) {
    forall i, j :: 0 <= i < j < |s| ==> s[i] != s[j]
  }

  ghost function Elements<T>(s: seq<T>): set<T> {
    set x | x in s
  }

  lemma InElements<T>(s: seq<T>, x: T)
    ensures x in s <==> x in Elements(s)
  {
  }

  lemma PushElement<T>(s: seq<T>, x: T)
    ensures Elements(s + [x]) == Elements(s) + {x}
    ensures Distinct(s) && x !in Elements(s) ==> Distinct(s + [x])
  {
    assert forall y :: y in s + [x] <==> y in s || y == x;
  }

  lemma PopElement<T>(s: seq<T>, x: T)
    requires Distinct(s + [x])
    ensures Elements(s) == Elements(s + [x]) - {x}
    ensures Distinct(s) && x !in s
  {
    var all := s + [x];
    assert forall y :: y in all <==> y in s || y == x;
    forall i | 0 <= i < |s| ensures s[i] != x {
      assert all[i] == s[i] && all[|s|] == x;
    }
    forall i, j | 0 <= i < j < |s| ensures s[i] != s[j] {
      assert all[i] == s[i] && all[j] == s[j];
    }
  }

  ghost predicate Permutation<T>(s: seq<T>, t: seq<T>) {
    multiset(s) == multiset(t)
  }

  lemma PermutationFacts<T>(s: seq<T>, t: seq<T>)
    requires Permutation(s, t)
    ensures |s| == |t|
    ensures forall x :: x in s <==> x in t
  {
    assert |multiset(s)| == |s| && |multiset(t)| == |t|;
    assert forall x :: x in s <==> x in multiset(s);
    assert forall x :: x in t <==> x in multiset(t);
  }

  lemma PushCounts<T>(s: seq<T>, x: T, y: T)
    ensures multiset(s + [x])[y] == multiset(s)[y] + if x == y then 1 else 0
  {
  }

  lemma OccursOnce<T>(s: seq<T>, i: nat)
    requires Distinct(s) && i < |s|
    ensures multiset(s)[s[i]] == 1
  {
    var low, high := s[..i], s[i + 1..];
    assert s == low + [s[i]] + high;
    assert s[i] !in low && s[i] !in high;
  }

  lemma OccursTwice<T>(s: seq<T>, i: nat, j: nat)
    requires i < j < |s| && s[i] == s[j]
    ensures multiset(s)[s[i]] >= 2
  {
    var low, rest := s[..j], s[j + 1..];
    assert s == low + [s[j]] + rest;
    assert low[i] in low;
  }

  /** Distinctness survives reordering. */
  lemma DistinctPermutation<T>(s: seq<T>, t: seq<T>)
    requires Permutation(s, t) && Distinct(s)
    ensures Distinct(t)
  {
    forall i, j | 0 <= i < j < |t| ensures t[i] != t[j] {
      if t[i] == t[j] {
        OccursTwice(t, i, j);
        assert t[i] in multiset(s);
        var k :| 0 <= k < |s| && s[k] == t[i];
        OccursOnce(s, k);
      }
    }
  }

  lemma TakeOut<T>(s: seq<T>, j: nat)
    requires j < |s|
    ensures multiset(s[..j] + s[j + 1..]) == multiset(s) - multiset{s[j]} && s[j] in multiset(s)
  {
    assert s == s[..j] + [s[j]] + s[j + 1..];
  }

  /** A permutation moves the head somewhere; taking it out on both sides
      leaves a permutation. */
  lemma PermutationHead<T>(s: seq<T>, t: seq<T>) returns (j: nat)
    requires |s| > 0 && Permutation(s, t)
    ensures j < |t| && t[j] == s[0]
    ensures Permutation(s[1..], t[..j] + t[j + 1..])
  {
    TakeOut(s, 0);
    assert s[..0] + s[1..] == s[1..];
    assert s[0] in multiset(t);
    j :| 0 <= j < |t| && t[j] == s[0];
    TakeOut(t, j);
  }

  /** The converse: equal heads put back on both sides. */
  lemma RestoreHead<T>(s: seq<T>, t: seq<T>, j: nat)
    requires s != [] && j < |t| && t[j] == s[0] && Permutation(s[1..], t[..j] + t[j + 1..])
    ensures Permutation(s, t)
  {
    assert s == [s[0]] + s[1..];
    assert t == t[..j] + [t[j]] + t[j + 1..];
  }

  lemma RemoveElement<T>(s: seq<T>, j: nat)
    requires Distinct(s) && j < |s|
    ensures Distinct(s[..j] + s[j + 1..])
    ensures Elements(s[..j] + s[j + 1..]) == Elements(s) - {s[j]}
  {
    assert s == s[..j] + [s[j]] + s[j + 1..];
    assert forall x :: x in s <==> x in s[..j] || x == s[j] || x in s[j + 1..];
  }

  // ---- Stable insertion sort ----------------------------------------------

  function Insert<T>(le: (T, T) -> bool, x: T, s: seq<T>): (r: seq<T>)
    ensures multiset(r) == multiset(s) + multiset{x}
  {
    if s == [] || le(x, s[0]) then [x] + s
    else
      assert s == [s[0]] + s[1..];
      [s[0]] + Insert(le, x, s[1..])
  }

  function Sort<T>(le: (T, T) -> bool, s: seq<T>): (r: seq<T>)
    ensures Permutation(s, r)
  {
    if s == [] then []
    else
      assert s == [s[0]] + s[1..];
      Insert(le, s[0], Sort(le, s[1..]))
  }

  lemma {:induction false} InsertSorted<T(!new)>(le: (T, T) -> bool, x: T, s: seq<T>)
    requires TotalPreorder(le) && SortedBy(le, s)
    ensures SortedBy(le, Insert(le, x, s))
  {
    if s != [] && !le(x, s[0]) {
      InsertSorted(le, x, s[1..]);
      var rest := Insert(le, x, s[1..]);
      forall y | y in rest ensures le(s[0], y) {
        assert y in multiset(rest);
        assert y == x || y in s[1..];
      }
    }
  }

  lemma {:induction false} SortSorts<T(!new)>(le: (T, T) -> bool, s: seq<T>)
    requires TotalPreorder(le)
    ensures SortedBy(le, Sort(le, s))
  {
    if s != [] {
      SortSorts(le, s[1..]);
      InsertSorted(le, s[0], Sort(le, s[1..]));
    }
  }

  /** The elements that tie with `y`, in order. */
  ghost function TiedWith<T(!new)>(le: (T, T) -> bool, y: T, s: seq<T>): seq<T> {
    if s == [] then []
    else (if le(y, s[0]) && le(s[0], y) then [s[0]] else []) + TiedWith(le, y, s[1..])
  }

  lemma TiedPush<T(!new)>(le: (T, T) -> bool, y: T, x: T, s: seq<T>)
    ensures TiedWith(le, y, [x] + s) == (if le(y, x) && le(x, y) then [x] else []) + TiedWith(le, y, s)
  {
    assert ([x] + s)[1..] == s;
  }

  lemma TiesMeet<T(!new)>(le: (T, T) -> bool, x: T, y: T, z: T)
    requires TotalPreorder(le) && le(y, x) && le(x, y) && le(y, z) && le(z, y)
    ensures le(x, z)
  {
  }

  lemma {:induction false} InsertKeepsTies<T(!new)>(le: (T, T) -> bool, x: T, y: T, s: seq<T>)
    requires TotalPreorder(le)
    ensures TiedWith(le, y, Insert(le, x, s)) ==
      (if le(y, x) && le(x, y) then [x] else []) + TiedWith(le, y, s)
  {
    hide TotalPreorder, TiedWith;
    if s == [] || le(x, s[0]) {
      TiedPush(le, y, x, s);
    } else {
      var first, rest := s[0], s[1..];
      InsertKeepsTies(le, x, y, rest);
      TiedPush(le, y, first, Insert(le, x, rest));
      TiedPush(le, y, first, rest);
      assert s == [first] + rest;
      if le(y, x) && le(x, y) && le(y, first) && le(first, y) {
        TiesMeet(le, x, y, first);
      }
    }
  }

  /** Sorting is stable: what ties keeps its order. */
  lemma {:induction false} SortIsStable<T(!new)>(le: (T, T) -> bool, s: seq<T>, y: T)
    requires TotalPreorder(le)
    ensures TiedWith(le, y, Sort(le, s)) == TiedWith(le, y, s)
  {
    if s != [] {
      SortIsStable(le, s[1..], y);
      InsertKeepsTies(le, s[0], y, Sort(le, s[1..]));
    }
  }

  lemma HeadIsLeast<T(!new)>(le: (T, T) -> bool, s: seq<T>, x: T)
    requires TotalPreorder(le) && SortedBy(le, s) && x in s
    ensures le(s[0], x)
  {
    var i :| 0 <= i < |s| && s[i] == x;
    assert le(s[0], s[0]);
  }

  lemma TailMultiset<T>(s: seq<T>)
    requires |s| > 0
    ensures multiset(s[1..]) == multiset(s) - multiset{s[0]}
  {
    assert s == [s[0]] + s[1..];
  }

  /** Two sorted arrangements of the same elements are the same sequence. */
  lemma {:induction false} SortedIsUnique<T(!new)>(le: (T, T) -> bool, s: seq<T>, t: seq<T>)
    requires TotalOrder(le) && SortedBy(le, s) && SortedBy(le, t) && Permutation(s, t)
    ensures s == t
    decreases |s|
  {
    PermutationFacts(s, t);
    if s != [] {
      assert s[0] in t && t[0] in s;
      HeadIsLeast(le, s, t[0]);
      HeadIsLeast(le, t, s[0]);
      TailMultiset(s);
      TailMultiset(t);
      SortedIsUnique(le, s[1..], t[1..]);
      assert s == [s[0]] + s[1..] && t == [t[0]] + t[1..];
    }
  }

  /** Sorting forgets the input order. */
  lemma SortForgetsOrder<T(!new)>(le: (T, T) -> bool, s: seq<T>, t: seq<T>)
    requires TotalOrder(le) && Permutation(s, t)
    ensures Sort(le, s) == Sort(le, t)
  {
    SortSorts(le, s);
    SortSorts(le, t);
    SortedIsUnique(le, Sort(le, s), Sort(le, t));
  }

  // ---- Ordered sets (`BTreeSet`, `BTreeMap` keys) --------------------------

  /** Insertion into an ordered set held as its ascending iteration sequence. */
  function InsertUnique<T(==, !new)>(le: (T, T) -> bool, x: T, s: seq<T>): (r: seq<T>)
    ensures Elements(r) == Elements(s) + {x}
  {
    if s == [] then [x]
    else if x == s[0] then s
    else if le(x, s[0]) then [x] + s
    else
      var rest := InsertUnique(le, x, s[1..]);
      assert forall y :: y in s <==> y == s[0] || y in s[1..];
      assert forall y :: y in rest <==> y in Elements(rest);
      [s[0]] + rest
  }

  ghost predicate Ascending<T>(le: (T, T) -> bool, s: seq<T>) {
    SortedBy(le, s) && Distinct(s)
  }

  lemma {:induction false} InsertUniqueAscending<T(!new)>(le: (T, T) -> bool, x: T, s: seq<T>)
    requires TotalOrder(le) && Ascending(le, s)
    ensures Ascending(le, InsertUnique(le, x, s))
  {
    if s != [] && x != s[0] && !le(x, s[0]) {
      InsertUniqueAscending(le, x, s[1..]);
      var rest := InsertUnique(le, x, s[1..]);
      forall y | y in rest ensures le(s[0], y) && s[0] != y {
        assert y in Elements(rest);
        assert y == x || y in s[1..];
      }
    }
  }

  lemma TailElements<T>(s: seq<T>)
    requires |s| > 0 && Distinct(s)
    ensures Elements(s[1..]) == Elements(s) - {s[0]}
  {
    assert forall y :: y in s <==> y == s[0] || y in s[1..];
  }

  /** The ascending enumeration of a set is unique. */
  lemma {:induction false} AscendingIsUnique<T(!new)>(le: (T, T) -> bool, s: seq<T>, t: seq<T>)
    requires TotalOrder(le) && Ascending(le, s) && Ascending(le, t)
    requires Elements(s) == Elements(t)
    ensures s == t
    decreases |s|
  {
    assert s != [] ==> s[0] in Elements(t);
    assert t != [] ==> t[0] in Elements(s);
    if s != [] && t != [] {
      HeadIsLeast(le, s, t[0]);
      HeadIsLeast(le, t, s[0]);
      TailElements(s);
      TailElements(t);
      AscendingIsUnique(le, s[1..], t[1..]);
      assert s == [s[0]] + s[1..] && t == [t[0]] + t[1..];
    }
  }

  /** The ascending enumeration of a set. */
  ghost function Enumeration<T(!new)>(le: (T, T) -> bool, s: set<T>): (r: seq<T>)
    ensures Elements(r) == s
    decreases |s|
  {
    if s == {} then []
    else
      var x :| x in s;
      InsertUnique(le, x, Enumeration(le, s - {x}))
  }

  lemma {:induction false} EnumerationAscends<T(!new)>(le: (T, T) -> bool, s: set<T>)
    requires TotalOrder(le)
    ensures Ascending(le, Enumeration(le, s))
    decreases |s|
  {
    if s != {} {
      var x :| x in s && Enumeration(le, s) == InsertUnique(le, x, Enumeration(le, s - {x}));
      EnumerationAscends(le, s - {x});
      InsertUniqueAscending(le, x, Enumeration(le, s - {x}));
    }
  }

  lemma DistinctSize<T>(s: seq<T>)
    requires Distinct(s)
    ensures |Elements(s)| == |s|
    decreases |s|
  {
    if s == [] {
      assert Elements(s) == {};
    } else {
      TailElements(s);
      DistinctSize(s[1..]);
      assert s[0] in Elements(s);
    }
  }

  lemma SubsetSize<T>(a: set<T>, b: set<T>)
    requires a <= b
    ensures |a| <= |b|
  {
    assert b == a + (b - a);
  }

  /** Distinct sequences of the same elements are permutations of each other. */
  lemma SameElements<T>(s: seq<T>, t: seq<T>)
    requires Distinct(s) && Distinct(t) && Elements(s) == Elements(t)
    ensures Permutation(s, t)
  {
    forall x ensures multiset(s)[x] == multiset(t)[x] {
      assert x in s <==> x in Elements(t);
      if x in s {
        var i :| 0 <= i < |s| && s[i] == x;
        var j :| 0 <= j < |t| && t[j] == x;
        OccursOnce(s, i);
        OccursOnce(t, j);
      } else {
        assert x !in multiset(s) && x !in multiset(t);
      }
    }
  }

  // ---- Sums ----------------------------------------------------------------

  ghost function SumBy<T>(s: seq<T>, f: T -> nat): nat {
    if s == [] then 0 else SumBy(s[..|s| - 1], f) + f(s[|s| - 1])
  }

  lemma {:induction false} SumByConcat<T>(s: seq<T>, t: seq<T>, f: T -> nat)
    ensures SumBy(s + t, f) == SumBy(s, f) + SumBy(t, f)
  {
    if t == [] {
      assert s + t == s;
    } else {
      assert (s + t)[..|s + t| - 1] == s + t[..|t| - 1];
      SumByConcat(s, t[..|t| - 1], f);
    }
  }

  lemma {:induction false} SumBySame<T>(s: seq<T>, f: T -> nat, g: T -> nat)
    requires forall x :: x in s ==> f(x) == g(x)
    ensures SumBy(s, f) == SumBy(s, g)
  {
    if s != [] {
      assert forall x :: x in s[..|s| - 1] ==> x in s;
      SumBySame(s[..|s| - 1], f, g);
    }
  }

  /** Sums forget the order of their terms. */
  lemma {:induction false} SumByPermutation<T>(s: seq<T>, t: seq<T>, f: T -> nat)
    requires Permutation(s, t)
    ensures SumBy(s, f) == SumBy(t, f)
    decreases |s|
  {
    PermutationFacts(s, t);
    if s != [] {
      var j := PermutationHead(s, t);
      SumByPermutation(s[1..], t[..j] + t[j + 1..], f);
      assert s == [s[0]] + s[1..] && t == t[..j] + ([t[j]] + t[j + 1..]);
      SumByConcat([s[0]], s[1..], f);
      SumByConcat([t[j]], t[j + 1..], f);
      SumByConcat(t[..j], [t[j]] + t[j + 1..], f);
      SumByConcat(t[..j], t[j + 1..], f);
      assert [s[0]][..0] == [] && [t[j]][..0] == [];
    }
  }
}
