/** Strings as the modelled code handles them: ordering, splitting on a
    separator, joining, decimal printing and the UTF-8 length that decides
    "longest" in the deepest-directory searches. */
module Text {
  import opened Ordering

  /** Rust's ordering on `str`: lexicographic on UTF-8 bytes, which is
      lexicographic on code points. */
  predicate LexLe(a: string, b: string) {
    a == [] || (b != [] && (a[0] < b[0] || (a[0] == b[0] && LexLe(a[1..], b[1..]))))
  }

  lemma {:induction false} LexLeReflexive(a: string)
    ensures LexLe(a, a)
  {
    if a != [] {
      LexLeReflexive(a[1..]);
    }
  }

  lemma {:induction false} LexLeTotal(a: string, b: string)
    ensures LexLe(a, b) || LexLe(b, a)
  {
    if a != [] && b != [] {
      LexLeTotal(a[1..], b[1..]);
    }
  }

  lemma {:induction false} LexLeAntisymmetric(a: string, b: string)
    requires LexLe(a, b) && LexLe(b, a)
    ensures a == b
  {
    if a != [] && b != [] {
      LexLeAntisymmetric(a[1..], b[1..]);
      assert a == [a[0]] + a[1..] && b == [b[0]] + b[1..];
    }
  }

  lemma {:induction false} LexLeTransitive(a: string, b: string, c: string)
    requires LexLe(a, b) && LexLe(b, c)
    ensures LexLe(a, c)
  {
    if a != [] && a[0] == b[0] && b[0] == c[0] {
      LexLeTransitive(a[1..], b[1..], c[1..]);
    }
  }

  /** The first position where two strings differ, both being long enough. */
  ghost predicate DiffersAt(a: string, b: string, k: nat) {
    k < |a| && k < |b| && a[..k] == b[..k] && a[k] != b[k]
  }

  lemma DiffersStep(a: string, b: string, k: nat)
    requires a != [] && b != [] && a[0] == b[0] && DiffersAt(a[1..], b[1..], k)
    ensures DiffersAt(a, b, k + 1)
  {
    assert a[..k + 1] == [a[0]] + a[1..][..k] && b[..k + 1] == [b[0]] + b[1..][..k];
  }

  lemma SameBefore(a: string, b: string, k: nat, l: nat)
    requires DiffersAt(a, b, l) && k < l
    ensures a[k] == b[k]
  {
    assert a[..l][k] == a[k] && b[..l][k] == b[k];
  }

  lemma DiffersOnce(a: string, b: string, k: nat, l: nat)
    requires DiffersAt(a, b, k) && DiffersAt(a, b, l)
    ensures k == l
  {
    if k < l {
      SameBefore(a, b, k, l);
    } else if l < k {
      SameBefore(a, b, l, k);
    }
  }

  /** A prefix comes first; otherwise the first difference decides. */
  lemma {:induction false} LexLeMeaning(a: string, b: string)
    ensures a <= b ==> LexLe(a, b)
    ensures b <= a && LexLe(a, b) ==> a == b
    ensures forall k: nat :: DiffersAt(a, b, k) ==> (LexLe(a, b) <==> a[k] < b[k])
    ensures a <= b || b <= a || exists k: nat :: DiffersAt(a, b, k)
  {
    if a != [] && b != [] && a[0] == b[0] {
      LexLeMeaning(a[1..], b[1..]);
      assert a == [a[0]] + a[1..] && b == [b[0]] + b[1..];
      if k: nat :| DiffersAt(a[1..], b[1..], k) {
        DiffersStep(a, b, k);
        forall l: nat | DiffersAt(a, b, l) ensures l == k + 1 {
          DiffersOnce(a, b, k + 1, l);
        }
      }
    } else if a != [] && b != [] {
      assert DiffersAt(a, b, 0);
      forall l: nat | DiffersAt(a, b, l) ensures l == 0 {
        DiffersOnce(a, b, 0, l);
      }
    }
  }

  lemma StringOrder()
    ensures TotalOrder(LexLe)
  {
    forall x: string, y: string ensures LexLe(x, y) || LexLe(y, x) {
      LexLeTotal(x, y);
    }
    forall x: string, y: string, z: string | LexLe(x, y) && LexLe(y, z) ensures LexLe(x, z) {
      LexLeTransitive(x, y, z);
    }
    forall x: string, y: string | LexLe(x, y) && LexLe(y, x) ensures x == y {
      LexLeAntisymmetric(x, y);
    }
  }

  /** `(String, String)` as Rust orders it. */
  predicate PairLe(a: (string, string), b: (string, string)) {
    if a.0 == b.0 then LexLe(a.1, b.1) else LexLe(a.0, b.0)
  }

  lemma PairOrder()
    ensures TotalOrder(PairLe)
  {
    StringOrder();
    assert forall x: string, y: string :: LexLe(x, y) || LexLe(y, x);
    forall x: (string, string), y: (string, string), z: (string, string) | PairLe(x, y) && PairLe(y, z)
      ensures PairLe(x, z)
    {
      if x.0 != y.0 && y.0 != z.0 {
        LexLeTransitive(x.0, y.0, z.0);
        if x.0 == z.0 {
          LexLeAntisymmetric(x.0, y.0);
        }
      } else if x.0 == y.0 == z.0 {
        LexLeTransitive(x.1, y.1, z.1);
      }
    }
    forall x: (string, string), y: (string, string) | PairLe(x, y) && PairLe(y, x) ensures x == y {
      if x.0 != y.0 {
        LexLeAntisymmetric(x.0, y.0);
      } else {
        LexLeAntisymmetric(x.1, y.1);
      }
    }
  }

  /** `str::len()`: the number of UTF-8 bytes. */
  function ByteLen(s: string): (n: nat)
    ensures n >= |s|
  {
    if s == [] then 0 else CharLen(s[0]) + ByteLen(s[1..])
  }

  function CharLen(c: char): (n: nat)
    ensures 1 <= n <= 4
  {
    var code := c as int;
    if code < 0x80 then 1 else if code < 0x800 then 2 else if code < 0x1_0000 then 3 else 4
  }

  lemma {:induction false} ByteLenConcat(a: string, b: string)
    ensures ByteLen(a + b) == ByteLen(a) + ByteLen(b)
  {
    if a == [] {
      assert a + b == b;
    } else {
      assert (a + b)[1..] == a[1..] + b;
      ByteLenConcat(a[1..], b);
    }
  }

  /** On strings where one is a prefix of the other, byte length orders them. */
  lemma PrefixByteLen(a: string, b: string)
    requires a <= b
    ensures ByteLen(a) <= ByteLen(b)
    ensures ByteLen(a) == ByteLen(b) <==> a == b
  {
    assert b == a + b[|a|..];
    ByteLenConcat(a, b[|a|..]);
  }

  /** `str::split(sep)`: never empty; "" splits into one empty piece. */
  function Split(s: string, sep: char): (pieces: seq<string>)
    ensures |pieces| > 0
  {
    if s == [] then [[]]
    else
      var rest := Split(s[1..], sep);
      if s[0] == sep then [[]] + rest else [[s[0]] + rest[0]] + rest[1..]
  }

  /** `[..].join(sep)`. */
  function Join(pieces: seq<string>, sep: char): string {
    if |pieces| == 0 then []
    else if |pieces| == 1 then pieces[0]
    else pieces[0] + [sep] + Join(pieces[1..], sep)
  }

  ghost predicate Free(pieces: seq<string>, sep: char) {
    forall i :: 0 <= i < |pieces| ==> sep !in pieces[i]
  }

  lemma {:induction false} SplitIsFree(s: string, sep: char)
    ensures Free(Split(s, sep), sep)
  {
    if s != [] {
      SplitIsFree(s[1..], sep);
    }
  }

  lemma {:induction false} JoinOfSplit(s: string, sep: char)
    ensures Join(Split(s, sep), sep) == s
  {
    if s != [] {
      JoinOfSplit(s[1..], sep);
      var rest := Split(s[1..], sep);
      var all := Split(s, sep);
      if s[0] == sep {
        assert all[1..] == rest;
      } else if |rest| > 1 {
        assert all[1..] == rest[1..];
        assert all[0] + [sep] + Join(all[1..], sep) == [s[0]] + (rest[0] + [sep] + Join(rest[1..], sep));
      }
      assert s == [s[0]] + s[1..];
    }
  }

  /** Splitting text that starts with a separator-free piece takes off that piece. */
  lemma {:induction false} SplitPrefix(p: string, s: string, sep: char)
    requires sep !in p
    ensures Split(p + [sep] + s, sep) == [p] + Split(s, sep)
  {
    var whole := p + [sep] + s;
    if p == [] {
      assert whole[1..] == s;
    } else {
      assert whole[1..] == p[1..] + [sep] + s;
      SplitPrefix(p[1..], s, sep);
      assert [p[0]] + p[1..] == p;
    }
  }

  lemma {:induction false} SplitOfFree(p: string, sep: char)
    requires sep !in p
    ensures Split(p, sep) == [p]
  {
    if p != [] {
      SplitOfFree(p[1..], sep);
      assert [p[0]] + p[1..] == p;
    }
  }

  lemma {:induction false} SplitOfJoin(pieces: seq<string>, sep: char)
    requires |pieces| > 0 && Free(pieces, sep)
    ensures Split(Join(pieces, sep), sep) == pieces
  {
    if |pieces| == 1 {
      SplitOfFree(pieces[0], sep);
    } else {
      SplitOfJoin(pieces[1..], sep);
      SplitPrefix(pieces[0], Join(pieces[1..], sep), sep);
    }
  }

  /** The text after the last separator is determined by the whole. */
  lemma LastSeparator(a: string, b: string, c: string, d: string, sep: char)
    requires a + [sep] + b == c + [sep] + d
    requires sep !in b && sep !in d
    ensures a == c && b == d
  {
    var s := a + [sep] + b;
    var t := c + [sep] + d;
    assert s[|a|] == sep && t[|c|] == sep;
    assert forall k :: |a| < k < |s| ==> s[k] == b[k - |a| - 1];
    assert forall k :: |c| < k < |t| ==> t[k] == d[k - |c| - 1];
    assert |a| == |c|;
    assert a == s[..|a|] && c == t[..|c|];
    assert b == s[|a| + 1..] && d == t[|c| + 1..];
  }

  function Digit(d: nat): (c: char)
    requires d < 10
    ensures '0' <= c <= '9'
  {
    ('0' as int + d) as char
  }

  /** Decimal printing of an unsigned integer. */
  function Decimal(n: nat): (s: string)
    ensures |s| > 0
    ensures forall i :: 0 <= i < |s| ==> '0' <= s[i] <= '9'
  {
    if n < 10 then [Digit(n)] else Decimal(n / 10) + [Digit(n % 10)]
  }

  lemma {:induction false} DecimalInjective(m: nat, n: nat)
    requires Decimal(m) == Decimal(n)
    ensures m == n
  {
    var s, t := Decimal(m), Decimal(n);
    assert s[|s| - 1] == Digit(m % 10) && t[|t| - 1] == Digit(n % 10);
    assert m % 10 == n % 10;
    if m >= 10 && n >= 10 {
      assert s[..|s| - 1] == Decimal(m / 10) && t[..|t| - 1] == Decimal(n / 10);
      DecimalInjective(m / 10, n / 10);
    }
  }

  /** The number a numeral stands for. */
  ghost function NumeralValue(s: string): int {
    if s == "" then 0 else 10 * NumeralValue(Front(s)) + (Last(s) as int - '0' as int)
  }

  /** The numeral stands for the number and has no leading zero. */
  lemma {:induction false} DecimalMeaning(n: nat)
    ensures NumeralValue(Decimal(n)) == n && (Decimal(n)[0] == '0' ==> n == 0)
  {
    if n < 10 {
      assert Front(Decimal(n)) == "";
    } else {
      DecimalMeaning(n / 10);
      assert Front(Decimal(n)) == Decimal(n / 10);
    }
  }
}
