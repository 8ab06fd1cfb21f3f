/** Python's `sorted` with a key: a stable sort.

    Keys are sequences of integers compared lexicographically, a shorter
    prefix first. This is Python's order on strings (code point by code
    point) and, with a one-element key, the order on numbers. */
module StableSort {

  /** Lexicographic order on keys. */
  predicate LexLe(a: seq<int>, b: seq<int>)
    decreases |a|
  {
    |a| == 0 || (|b| > 0 && (a[0] < b[0] || (a[0] == b[0] && LexLe(a[1..], b[1..]))))
  }

  lemma {:induction false} LexReflexive(a: seq<int>)
    ensures LexLe(a, a)
    decreases |a|
  {
    if |a| > 0 {
      LexReflexive(a[1..]);
    }
  }

  lemma {:induction false} LexTotal(a: seq<int>, b: seq<int>)
    ensures LexLe(a, b) || LexLe(b, a)
    decreases |a|
  {
    if |a| > 0 && |b| > 0 && a[0] == b[0] {
      LexTotal(a[1..], b[1..]);
    }
  }

  lemma {:induction false} LexTransitive(a: seq<int>, b: seq<int>, c: seq<int>)
    requires LexLe(a, b) && LexLe(b, c)
    ensures LexLe(a, c)
    decreases |a|
  {
    if |a| > 0 && a[0] == b[0] && b[0] == c[0] {
      LexTransitive(a[1..], b[1..], c[1..]);
    }
  }

  /** Keys never decrease along `xs`. */
  ghost predicate Sorted<T>(xs: seq<T>, key: T -> seq<int>)
  {
    forall i, j :: 0 <= i < j < |xs| ==> LexLe(key(xs[i]), key(xs[j]))
  }

  /** The elements of `xs` whose key is `k`, in order. */
  function WithKey<T>(xs: seq<T>, key: T -> seq<int>, k: seq<int>): seq<T>
  {
    if |xs| == 0 then []
    else WithKey(xs[..|xs| - 1], key, k) + (if key(xs[|xs| - 1]) == k then [xs[|xs| - 1]] else [])
  }

  /** Inserts `x` after every element whose key is not above its own,
      scanning from the back. */
  function InsertLast<T>(s: seq<T>, x: T, key: T -> seq<int>): (r: seq<T>)
    ensures |r| == |s| + 1
  {
    if |s| == 0 then [x]
    else if LexLe(key(s[|s| - 1]), key(x)) then s + [x]
    else InsertLast(s[..|s| - 1], x, key) + [s[|s| - 1]]
  }

  /** Sorts by inserting each element, in input order, into the sorted
      prefix. */
  function SortBy<T>(xs: seq<T>, key: T -> seq<int>): (r: seq<T>)
    ensures |r| == |xs|
  {
    if |xs| == 0 then [] else InsertLast(SortBy(xs[..|xs| - 1], key), xs[|xs| - 1], key)
  }

  lemma {:induction false} InsertLastPermutes<T>(s: seq<T>, x: T, key: T -> seq<int>)
    ensures multiset(InsertLast(s, x, key)) == multiset(s) + multiset{x}
    decreases |s|
  {
    if |s| > 0 && !LexLe(key(s[|s| - 1]), key(x)) {
      InsertLastPermutes(s[..|s| - 1], x, key);
      assert s == s[..|s| - 1] + [s[|s| - 1]];
    }
  }

  lemma {:induction false} InsertLastSorted<T>(s: seq<T>, x: T, key: T -> seq<int>)
    requires Sorted(s, key)
    ensures Sorted(InsertLast(s, x, key), key)
    decreases |s|
  {
    if |s| > 0 {
      var n := |s| - 1;
      var last := s[n];
      var r := InsertLast(s, x, key);
      if LexLe(key(last), key(x)) {
        forall i, j | 0 <= i < j < |r| ensures LexLe(key(r[i]), key(r[j])) {
          if j == n + 1 && i < n {
            LexTransitive(key(s[i]), key(last), key(x));
          }
        }
      } else {
        var front := InsertLast(s[..n], x, key);
        InsertLastSorted(s[..n], x, key);
        InsertLastPermutes(s[..n], x, key);
        LexTotal(key(last), key(x));
        forall i | 0 <= i < |front| ensures LexLe(key(front[i]), key(last)) {
          assert front[i] in multiset(s[..n]) + multiset{x};
          if front[i] != x {
            assert front[i] in s[..n];
            var j :| 0 <= j < n && s[..n][j] == front[i];
          }
        }
        assert r == front + [last];
      }
    }
  }

  lemma {:induction false} InsertLastStable<T>(s: seq<T>, x: T, key: T -> seq<int>, k: seq<int>)
    ensures WithKey(InsertLast(s, x, key), key, k) == WithKey(s, key, k) + (if key(x) == k then [x] else [])
    decreases |s|
  {
    var r := InsertLast(s, x, key);
    if |s| == 0 {
      assert r[..0] == [];
    } else {
      var n := |s| - 1;
      var last := s[n];
      if LexLe(key(last), key(x)) {
        assert r[..|r| - 1] == s;
      } else {
        var front := InsertLast(s[..n], x, key);
        InsertLastStable(s[..n], x, key, k);
        assert r[..|r| - 1] == front && r[|r| - 1] == last;
        LexReflexive(key(x));
        assert key(last) != key(x);
      }
    }
  }

  lemma {:induction false} SortByPermutes<T>(xs: seq<T>, key: T -> seq<int>)
    ensures multiset(SortBy(xs, key)) == multiset(xs)
    decreases |xs|
  {
    if |xs| > 0 {
      var n := |xs| - 1;
      SortByPermutes(xs[..n], key);
      InsertLastPermutes(SortBy(xs[..n], key), xs[n], key);
      assert xs == xs[..n] + [xs[n]];
    }
  }

  lemma {:induction false} SortBySorted<T>(xs: seq<T>, key: T -> seq<int>)
    ensures Sorted(SortBy(xs, key), key)
    decreases |xs|
  {
    if |xs| > 0 {
      var n := |xs| - 1;
      SortBySorted(xs[..n], key);
      InsertLastSorted(SortBy(xs[..n], key), xs[n], key);
    }
  }

  lemma {:induction false} SortByStable<T>(xs: seq<T>, key: T -> seq<int>, k: seq<int>)
    ensures WithKey(SortBy(xs, key), key, k) == WithKey(xs, key, k)
    decreases |xs|
  {
    if |xs| > 0 {
      var n := |xs| - 1;
      SortByStable(xs[..n], key, k);
      InsertLastStable(SortBy(xs[..n], key), xs[n], key, k);
    }
  }

  /** `SortBy` is a stable sort: a permutation of the input, ordered by key,
      in which the elements sharing a key keep their input order. */
  lemma SortByIsStableSort<T>(xs: seq<T>, key: T -> seq<int>)
    ensures multiset(SortBy(xs, key)) == multiset(xs)
    ensures Sorted(SortBy(xs, key), key)
    ensures forall k :: WithKey(SortBy(xs, key), key, k) == WithKey(xs, key, k)
  {
    SortByPermutes(xs, key);
    SortBySorted(xs, key);
    forall k ensures WithKey(SortBy(xs, key), key, k) == WithKey(xs, key, k) {
      SortByStable(xs, key, k);
    }
  }
}
