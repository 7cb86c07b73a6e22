/**
  The descending version sort of the catalog.  The source sorts with
  `b.version.localeCompare(a.version, undefined, {numeric: true, sensitivity: "base"})`,
  an ICU collation.  This module replaces it by a stated simplification with
  the same intent: each string is turned into a collation key in which a run
  of digits counts as one number and any other character counts by its
  case-folded code, and keys are compared lexicographically.  So `21.1.67`
  comes after `21.1.9`, and `Beta` ties with `beta`.
 */
module Collation {
  import opened Strings

  /** ASCII case folding, the part of `sensitivity: "base"` this model keeps. */
  function FoldCase(c: char): char {
    if 'A' <= c <= 'Z' then (c as int - 'A' as int + 'a' as int) as char else c
  }

  /**
    Two key entries per token: a digit run becomes `[code of '0', its value]`,
    any other character `[its folded code, 0]`.  Punctuation such as `.` and `-`
    therefore orders before numbers, and letters after them.
   */
  function CollationKey(s: string): (k: seq<int>)
    ensures |k| % 2 == 0
    decreases |s|
  {
    if s == [] then []
    else if IsDigit(s[0]) then
      var d := LeadingDigits(s);
      [('0' as int), DecimalValue(d)] + CollationKey(s[|d|..])
    else [FoldCase(s[0]) as int, 0] + CollationKey(s[1..])
  }

  /** Two strings that differ at most in the case of their letters. */
  predicate SameUpToCase(s: string, t: string) {
    |s| == |t| && forall i | 0 <= i < |s| :: FoldCase(s[i]) == FoldCase(t[i])
  }

  /** Case folding never turns a letter into a digit. */
  lemma FoldCaseKeepsDigits(c: char, d: char)
    requires FoldCase(c) == FoldCase(d)
    ensures IsDigit(c) <==> IsDigit(d)
    ensures IsDigit(c) ==> c == d
  {
  }

  lemma {:induction false} LeadingDigitsUpToCase(s: string, t: string)
    requires SameUpToCase(s, t)
    ensures LeadingDigits(s) == LeadingDigits(t)
    decreases |s|
  {
    if |s| > 0 {
      FoldCaseKeepsDigits(s[0], t[0]);
      if IsDigit(s[0]) {
        assert SameUpToCase(s[1..], t[1..]) by {
          forall i | 0 <= i < |s| - 1 ensures FoldCase(s[1..][i]) == FoldCase(t[1..][i]) {
            assert s[1..][i] == s[i + 1] && t[1..][i] == t[i + 1];
          }
        }
        LeadingDigitsUpToCase(s[1..], t[1..]);
      }
    }
  }

  /**
    The comparison ignores case (`sensitivity: "base"`): strings that differ
    only in the case of their letters have the same key.
   */
  lemma {:induction false} CollationKeyIgnoresCase(s: string, t: string)
    requires SameUpToCase(s, t)
    ensures CollationKey(s) == CollationKey(t)
    decreases |s|
  {
    if |s| > 0 {
      FoldCaseKeepsDigits(s[0], t[0]);
      var k := if IsDigit(s[0]) then |LeadingDigits(s)| else 1;
      if IsDigit(s[0]) {
        LeadingDigitsUpToCase(s, t);
      }
      assert SameUpToCase(s[k..], t[k..]) by {
        forall i | 0 <= i < |s| - k ensures FoldCase(s[k..][i]) == FoldCase(t[k..][i]) {
          assert s[k..][i] == s[i + k] && t[k..][i] == t[i + k];
        }
      }
      CollationKeyIgnoresCase(s[k..], t[k..]);
    }
  }

  /** Lexicographic order on keys; a proper prefix orders first. */
  predicate LexLeq(a: seq<int>, b: seq<int>)
    decreases |a|
  {
    a == [] || (b != [] && (a[0] < b[0] || (a[0] == b[0] && LexLeq(a[1..], b[1..]))))
  }

  lemma {:induction false} LexLeqTotal(a: seq<int>, b: seq<int>)
    ensures LexLeq(a, b) || LexLeq(b, a)
    decreases |a|
  {
    if a != [] && b != [] && a[0] == b[0] {
      LexLeqTotal(a[1..], b[1..]);
    }
  }

  lemma {:induction false} LexLeqTransitive(a: seq<int>, b: seq<int>, c: seq<int>)
    requires LexLeq(a, b) && LexLeq(b, c)
    ensures LexLeq(a, c)
    decreases |a|
  {
    if a != [] && a[0] == b[0] && b[0] == c[0] {
      LexLeqTransitive(a[1..], b[1..], c[1..]);
    }
  }

  lemma {:induction false} LexLeqAntisymmetric(a: seq<int>, b: seq<int>)
    requires LexLeq(a, b) && LexLeq(b, a)
    ensures a == b
    decreases |a|
  {
    if a != [] {
      LexLeqAntisymmetric(a[1..], b[1..]);
      assert a == [a[0]] + a[1..] && b == [b[0]] + b[1..];
    }
  }

  /** `a` sorts no later than `b` in the descending order: `b`'s key is at most `a`'s. */
  predicate SortsFirst<T>(key: T -> seq<int>, a: T, b: T) {
    LexLeq(key(b), key(a))
  }

  /** Sorted descending by key, for every pair of positions. */
  predicate SortedDescending<T>(xs: seq<T>, key: T -> seq<int>) {
    forall i, j | 0 <= i < j < |xs| :: SortsFirst(key, xs[i], xs[j])
  }

  /** Place `x` before the first element whose key is not above `x`'s. */
  function Insert<T>(x: T, xs: seq<T>, key: T -> seq<int>): (r: seq<T>)
    ensures |r| == |xs| + 1
    decreases |xs|
  {
    if xs == [] || SortsFirst(key, x, xs[0]) then [x] + xs
    else [xs[0]] + Insert(x, xs[1..], key)
  }

  /** The descending sort: insert the elements one after another. */
  function SortDescending<T>(xs: seq<T>, key: T -> seq<int>): (r: seq<T>)
    ensures |r| == |xs|
    decreases |xs|
  {
    if xs == [] then [] else Insert(xs[0], SortDescending(xs[1..], key), key)
  }

  lemma {:induction false} InsertCorrect<T>(x: T, xs: seq<T>, key: T -> seq<int>)
    requires SortedDescending(xs, key)
    ensures SortedDescending(Insert(x, xs, key), key)
    ensures multiset(Insert(x, xs, key)) == multiset(xs) + multiset{x}
    decreases |xs|
  {
    var r := Insert(x, xs, key);
    if xs == [] {
    } else if SortsFirst(key, x, xs[0]) {
      forall j | 0 < j < |r| ensures SortsFirst(key, x, r[j]) {
        if j > 1 {
          LexLeqTransitive(key(r[j]), key(xs[0]), key(x));
        }
      }
      assert xs == [xs[0]] + xs[1..];
    } else {
      var tail := xs[1..];
      InsertCorrect(x, tail, key);
      LexLeqTotal(key(x), key(xs[0]));
      var ins := Insert(x, tail, key);
      assert multiset(ins) == multiset(tail) + multiset{x};
      forall j | 0 <= j < |ins| ensures SortsFirst(key, xs[0], ins[j]) {
        assert ins[j] in multiset(ins);
        assert ins[j] == x || ins[j] in tail;
      }
      assert xs == [xs[0]] + tail;
    }
  }

  /** The sort yields a descending sequence that is a permutation of its input. */
  lemma {:induction false} SortDescendingCorrect<T>(xs: seq<T>, key: T -> seq<int>)
    ensures SortedDescending(SortDescending(xs, key), key)
    ensures multiset(SortDescending(xs, key)) == multiset(xs)
    decreases |xs|
  {
    if xs != [] {
      SortDescendingCorrect(xs[1..], key);
      InsertCorrect(xs[0], SortDescending(xs[1..], key), key);
      assert xs == [xs[0]] + xs[1..];
    }
  }

  /** The head of a descending permutation of `ys` has the greatest key of `ys`. */
  lemma SortedHeadIsGreatest<T>(sorted: seq<T>, ys: seq<T>, key: T -> seq<int>)
    requires SortedDescending(sorted, key) && multiset(sorted) == multiset(ys) && |sorted| > 0
    ensures forall y | y in ys :: LexLeq(key(y), key(sorted[0]))
  {
    forall y | y in ys ensures LexLeq(key(y), key(sorted[0])) {
      assert y in multiset(sorted);
      var j :| 0 <= j < |sorted| && sorted[j] == y;
      if j == 0 {
        LexLeqTotal(key(y), key(y));
      } else {
        assert SortsFirst(key, sorted[0], sorted[j]);
      }
    }
  }

  /** Apply `f` to every element. */
  function Map<T, U>(f: T -> U, xs: seq<T>): (ys: seq<U>)
    ensures |ys| == |xs| && forall i | 0 <= i < |xs| :: ys[i] == f(xs[i])
  {
    seq(|xs|, i requires 0 <= i < |xs| => f(xs[i]))
  }

  /** A key-preserving map commutes with insertion. */
  lemma {:induction false} InsertMap<T, U>(x: T, xs: seq<T>, g: T -> U, kt: T -> seq<int>, ku: U -> seq<int>)
    requires forall y :: ku(g(y)) == kt(y)
    ensures Insert(g(x), Map(g, xs), ku) == Map(g, Insert(x, xs, kt))
    decreases |xs|
  {
    var ys := Map(g, xs);
    if xs == [] {
      assert ys == [];
    } else {
      assert ys[0] == g(xs[0]) && ys[1..] == Map(g, xs[1..]);
      assert SortsFirst(ku, g(x), ys[0]) == SortsFirst(kt, x, xs[0]);
      if SortsFirst(kt, x, xs[0]) {
        assert Map(g, [x] + xs) == [g(x)] + ys;
      } else {
        InsertMap(x, xs[1..], g, kt, ku);
        assert Map(g, [xs[0]] + Insert(x, xs[1..], kt)) == [ys[0]] + Map(g, Insert(x, xs[1..], kt));
      }
    }
  }

  /** Sorting depends only on the keys: mapping with a key-preserving `g` commutes with the sort. */
  lemma {:induction false} SortMap<T, U>(xs: seq<T>, g: T -> U, kt: T -> seq<int>, ku: U -> seq<int>)
    requires forall y :: ku(g(y)) == kt(y)
    ensures SortDescending(Map(g, xs), ku) == Map(g, SortDescending(xs, kt))
    decreases |xs|
  {
    if xs != [] {
      assert Map(g, xs)[1..] == Map(g, xs[1..]);
      SortMap(xs[1..], g, kt, ku);
      InsertMap(xs[0], SortDescending(xs[1..], kt), g, kt, ku);
    }
  }
}
