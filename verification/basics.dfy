/** Small sequence vocabulary shared by the clustering, canonicalisation and
    browsing models: an optional value, flattening a list of lists and the
    subsequence relation. */
module Basics {

  /** A value that may be missing: a Python `None` or an absent dictionary key. */
  datatype Option<+T> = None | Some(value: T)

  /** Concatenates a list of lists in order (the "flattened" clusters). */
  function Flatten<T>(xss: seq<seq<T>>): seq<T>
  {
    if |xss| == 0 then [] else xss[0] + Flatten(xss[1..])
  }

  /** Everything in any inner list is in the flattened list. */
  lemma {:induction false} FlattenHasMembers<T>(xss: seq<seq<T>>, k: nat, x: T)
    requires k < |xss| && x in xss[k]
    ensures x in Flatten(xss)
    decreases k
  {
    if k > 0 {
      FlattenHasMembers(xss[1..], k - 1, x);
    }
  }

  /** Everything in the flattened list comes from some inner list. */
  lemma {:induction false} FlattenMemberFrom<T>(xss: seq<seq<T>>, x: T)
    requires x in Flatten(xss)
    ensures exists k :: 0 <= k < |xss| && x in xss[k]
    decreases |xss|
  {
    if x !in xss[0] {
      FlattenMemberFrom(xss[1..], x);
      var k :| 0 <= k < |xss[1..]| && x in xss[1..][k];
      assert x in xss[k + 1];
    }
  }

  /** Flattening distributes over concatenation of the outer list. */
  lemma {:induction false} FlattenAppend<T>(xss: seq<seq<T>>, yss: seq<seq<T>>)
    ensures Flatten(xss + yss) == Flatten(xss) + Flatten(yss)
    decreases |xss|
  {
    if |xss| == 0 {
      assert xss + yss == yss;
    } else {
      assert (xss + yss)[1..] == xss[1..] + yss;
      FlattenAppend(xss[1..], yss);
    }
  }

  /** `a` is obtained from `b` by deleting elements, keeping the order of the rest. */
  predicate IsSubseq<T(==)>(a: seq<T>, b: seq<T>)
    decreases |b|
  {
    if |a| == 0 then true
    else if |b| == 0 then false
    else if a[0] == b[0] then IsSubseq(a[1..], b[1..])
    else IsSubseq(a, b[1..])
  }

  /** Prepending an element to the larger list keeps a subsequence. */
  lemma IsSubseqPrepend<T>(a: seq<T>, x: T, b: seq<T>)
    requires IsSubseq(a, b)
    ensures IsSubseq(a, [x] + b)
    decreases |a| + |b| + 1, 1
  {
    assert ([x] + b)[1..] == b;
    if |a| > 0 && a[0] == x {
      IsSubseqDropHead(a, b);
    }
  }

  /** Dropping the first element of a subsequence keeps a subsequence. */
  lemma IsSubseqDropHead<T>(a: seq<T>, b: seq<T>)
    requires |a| > 0 && IsSubseq(a, b)
    ensures IsSubseq(a[1..], b)
    decreases |a| + |b|, 0
  {
    assert b == [b[0]] + b[1..];
    if a[0] == b[0] {
      IsSubseqPrepend(a[1..], b[0], b[1..]);
    } else {
      IsSubseqDropHead(a, b[1..]);
      IsSubseqPrepend(a[1..], b[0], b[1..]);
    }
  }

  /** Every list is a subsequence of itself. */
  lemma {:induction false} IsSubseqReflexive<T>(xs: seq<T>)
    ensures IsSubseq(xs, xs)
    decreases |xs|
  {
    if |xs| > 0 {
      IsSubseqReflexive(xs[1..]);
    }
  }
}
