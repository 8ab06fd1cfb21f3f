/** The story-clustering algorithms, generic in the article type.

    Two shapes appear in the repository:
    - greedy first match (`Greedy`): each article joins the first existing
      cluster, in creation order, whose representative it `joins`, or else
      opens a new singleton cluster; `joins(x, rep)` is the comparator applied
      as (new article, representative);
    - seed scan (`SeedScan`): each article not yet processed becomes a seed and
      claims every later unprocessed article it `claims`; `claims(seed, x)` is
      the comparator applied as (seed, other article).

    `SeedPartition` is the reference both are proved equal to: the first
    article, followed by everything it claims, is the first cluster, and the
    rest is clustered recursively. */
module Clustering {
  import opened Basics

  /** Every cluster has a first member, its representative. */
  predicate NonEmpty<T>(clusters: seq<seq<T>>)
  {
    forall k :: 0 <= k < |clusters| ==> |clusters[k]| > 0
  }

  /** The two comparator conventions agree once the arguments are swapped. */
  ghost predicate Swapped<T(!new)>(joins: (T, T) -> bool, claims: (T, T) -> bool)
  {
    forall x, rep :: joins(x, rep) == claims(rep, x)
  }

  // ---------------------------------------------------------------------
  // Greedy first match
  // ---------------------------------------------------------------------

  /** One step of the greedy loop: append `x` to the first cluster whose
      representative it joins, or open a new cluster at the end. */
  function Place<T>(clusters: seq<seq<T>>, x: T, joins: (T, T) -> bool): (r: seq<seq<T>>)
    requires NonEmpty(clusters)
    ensures NonEmpty(r)
    decreases |clusters|
  {
    if |clusters| == 0 then [[x]]
    else if joins(x, clusters[0][0]) then [clusters[0] + [x]] + clusters[1..]
    else [clusters[0]] + Place(clusters[1..], x, joins)
  }

  /** With no representative it joins, `x` opens a new cluster at the end. */
  lemma {:induction false} PlaceOpensCluster<T>(clusters: seq<seq<T>>, x: T, joins: (T, T) -> bool)
    requires NonEmpty(clusters)
    requires forall k :: 0 <= k < |clusters| ==> !joins(x, clusters[k][0])
    ensures Place(clusters, x, joins) == clusters + [[x]]
    decreases |clusters|
  {
    if |clusters| > 0 {
      PlaceOpensCluster(clusters[1..], x, joins);
      assert clusters == [clusters[0]] + clusters[1..];
    }
  }

  /** First match: `x` is appended to cluster `k` when `k` is the first
      cluster, in creation order, whose representative it joins; no other
      cluster changes. */
  lemma {:induction false} PlaceJoinsFirstMatch<T>(clusters: seq<seq<T>>, x: T, joins: (T, T) -> bool, k: nat)
    requires NonEmpty(clusters)
    requires k < |clusters| && joins(x, clusters[k][0])
    requires forall j :: 0 <= j < k ==> !joins(x, clusters[j][0])
    ensures Place(clusters, x, joins) == clusters[k := clusters[k] + [x]]
    decreases k
  {
    if k > 0 {
      var tail := clusters[1..];
      assert !joins(x, clusters[0][0]);
      assert forall j :: 0 <= j < k - 1 ==> tail[j] == clusters[j + 1];
      PlaceJoinsFirstMatch(tail, x, joins, k - 1);
      assert [clusters[0]] + tail[k - 1 := tail[k - 1] + [x]] == clusters[k := clusters[k] + [x]];
    }
  }

  /** Placing an article never moves an earlier one: every existing cluster
      is kept, at most one of them grows by `x`, and at most one is added. */
  lemma {:induction false} PlaceKeepsPlacements<T>(clusters: seq<seq<T>>, x: T, joins: (T, T) -> bool)
    requires NonEmpty(clusters)
    ensures |clusters| <= |Place(clusters, x, joins)| <= |clusters| + 1
    ensures forall k :: 0 <= k < |clusters| ==>
              Place(clusters, x, joins)[k] == clusters[k] || Place(clusters, x, joins)[k] == clusters[k] + [x]
    ensures forall k, k' :: 0 <= k < |clusters| && 0 <= k' < |clusters| && k != k' && Place(clusters, x, joins)[k] != clusters[k]
              ==> Place(clusters, x, joins)[k'] == clusters[k']
    ensures |Place(clusters, x, joins)| == |clusters| + 1 ==> Place(clusters, x, joins) == clusters + [[x]]
    decreases |clusters|
  {
    if |clusters| > 0 && !joins(x, clusters[0][0]) {
      PlaceKeepsPlacements(clusters[1..], x, joins);
    }
  }

  /** The greedy loop over the remaining articles `ys`, starting from the
      clusters built so far. */
  function GreedyFrom<T>(clusters: seq<seq<T>>, ys: seq<T>, joins: (T, T) -> bool): (r: seq<seq<T>>)
    requires NonEmpty(clusters)
    ensures NonEmpty(r)
    decreases |ys|
  {
    if |ys| == 0 then clusters
    else GreedyFrom(Place(clusters, ys[0], joins), ys[1..], joins)
  }

  /** Greedy first-match clustering of a whole batch. */
  function Greedy<T>(xs: seq<T>, joins: (T, T) -> bool): seq<seq<T>>
  {
    GreedyFrom([], xs, joins)
  }

  // ---------------------------------------------------------------------
  // Reference partition
  // ---------------------------------------------------------------------

  /** The articles of `ys` that `seed` claims, in order. */
  function Claimed<T>(seed: T, ys: seq<T>, claims: (T, T) -> bool): (r: seq<T>)
    ensures |r| <= |ys|
  {
    if |ys| == 0 then []
    else (if claims(seed, ys[0]) then [ys[0]] else []) + Claimed(seed, ys[1..], claims)
  }

  /** The articles of `ys` that `seed` does not claim, in order. */
  function Unclaimed<T>(seed: T, ys: seq<T>, claims: (T, T) -> bool): (r: seq<T>)
    ensures |r| <= |ys|
  {
    if |ys| == 0 then []
    else (if claims(seed, ys[0]) then [] else [ys[0]]) + Unclaimed(seed, ys[1..], claims)
  }

  /** The first article and all it claims form the first cluster; the
      unclaimed rest is clustered the same way. */
  function SeedPartition<T>(xs: seq<T>, claims: (T, T) -> bool): seq<seq<T>>
    decreases |xs|
  {
    if |xs| == 0 then []
    else [[xs[0]] + Claimed(xs[0], xs[1..], claims)]
         + SeedPartition(Unclaimed(xs[0], xs[1..], claims), claims)
  }

  lemma {:induction false} ClaimedSplit<T>(seed: T, ys: seq<T>, claims: (T, T) -> bool)
    ensures multiset(Claimed(seed, ys, claims)) + multiset(Unclaimed(seed, ys, claims)) == multiset(ys)
    decreases |ys|
  {
    if |ys| > 0 {
      ClaimedSplit(seed, ys[1..], claims);
      assert ys == [ys[0]] + ys[1..];
    }
  }

  /** Claimed articles are exactly the claimed members of `ys`; unclaimed
      ones exactly the others. */
  lemma {:induction false} ClaimedMembers<T>(seed: T, ys: seq<T>, claims: (T, T) -> bool, y: T)
    ensures y in Claimed(seed, ys, claims) <==> y in ys && claims(seed, y)
    ensures y in Unclaimed(seed, ys, claims) <==> y in ys && !claims(seed, y)
    decreases |ys|
  {
    if |ys| > 0 {
      ClaimedMembers(seed, ys[1..], claims, y);
      assert ys == [ys[0]] + ys[1..];
    }
  }

  lemma {:induction false} ClaimedAppend<T>(seed: T, a: seq<T>, b: seq<T>, claims: (T, T) -> bool)
    ensures Claimed(seed, a + b, claims) == Claimed(seed, a, claims) + Claimed(seed, b, claims)
    ensures Unclaimed(seed, a + b, claims) == Unclaimed(seed, a, claims) + Unclaimed(seed, b, claims)
    decreases |a|
  {
    if |a| == 0 {
      assert a + b == b;
    } else {
      var ab := a + b;
      assert ab[0] == a[0] && ab[1..] == a[1..] + b;
      ClaimedAppend(seed, a[1..], b, claims);
      var h := if claims(seed, a[0]) then [a[0]] else [];
      var u := if claims(seed, a[0]) then [] else [a[0]];
      assert Claimed(seed, ab, claims) == h + (Claimed(seed, a[1..], claims) + Claimed(seed, b, claims));
      assert Unclaimed(seed, ab, claims) == u + (Unclaimed(seed, a[1..], claims) + Unclaimed(seed, b, claims));
    }
  }

  // ---------------------------------------------------------------------
  // Greedy first match is the reference partition
  // ---------------------------------------------------------------------

  /** Placing an article in front of clusters `c0` then `cs` tries `c0`'s
      representative first. */
  lemma PlaceFront<T>(c0: seq<T>, cs: seq<seq<T>>, y: T, joins: (T, T) -> bool)
    requires |c0| > 0 && NonEmpty(cs)
    ensures NonEmpty([c0] + cs)
    ensures Place([c0] + cs, y, joins)
         == if joins(y, c0[0]) then [c0 + [y]] + cs else [c0] + Place(cs, y, joins)
  {
    var clusters := [c0] + cs;
    assert clusters[0] == c0 && clusters[1..] == cs;
  }

  /** Once a cluster exists, every later article its representative claims
      ends up in it, and the others behave as if the cluster were absent. */
  lemma {:induction false} GreedyFromSplit<T(!new)>(c0: seq<T>, cs: seq<seq<T>>, ys: seq<T>,
                                                    joins: (T, T) -> bool, claims: (T, T) -> bool)
    requires |c0| > 0 && NonEmpty(cs)
    requires Swapped(joins, claims)
    ensures NonEmpty([c0] + cs)
    ensures GreedyFrom([c0] + cs, ys, joins)
         == [c0 + Claimed(c0[0], ys, claims)] + GreedyFrom(cs, Unclaimed(c0[0], ys, claims), joins)
    decreases |ys|
  {
    assert NonEmpty([c0] + cs);
    if |ys| == 0 {
      assert c0 + Claimed(c0[0], ys, claims) == c0;
    } else {
      var y := ys[0];
      PlaceFront(c0, cs, y, joins);
      assert GreedyFrom([c0] + cs, ys, joins) == GreedyFrom(Place([c0] + cs, y, joins), ys[1..], joins);
      if claims(c0[0], y) {
        assert joins(y, c0[0]);
        GreedyFromSplit(c0 + [y], cs, ys[1..], joins, claims);
        assert (c0 + [y])[0] == c0[0];
        assert Claimed(c0[0], ys, claims) == [y] + Claimed(c0[0], ys[1..], claims);
        assert Unclaimed(c0[0], ys, claims) == Unclaimed(c0[0], ys[1..], claims);
        assert c0 + [y] + Claimed(c0[0], ys[1..], claims) == c0 + Claimed(c0[0], ys, claims);
      } else {
        assert !joins(y, c0[0]);
        GreedyFromSplit(c0, Place(cs, y, joins), ys[1..], joins, claims);
        var rest := Unclaimed(c0[0], ys, claims);
        assert rest == [y] + Unclaimed(c0[0], ys[1..], claims);
        assert rest[0] == y && rest[1..] == Unclaimed(c0[0], ys[1..], claims);
        assert GreedyFrom(cs, rest, joins) == GreedyFrom(Place(cs, y, joins), rest[1..], joins);
        assert Claimed(c0[0], ys, claims) == Claimed(c0[0], ys[1..], claims);
      }
    }
  }

  /** Greedy first match with comparator `joins` computes the reference
      partition for the swapped comparator `claims`. */
  lemma {:induction false} GreedyIsSeedPartition<T(!new)>(xs: seq<T>, joins: (T, T) -> bool, claims: (T, T) -> bool)
    requires Swapped(joins, claims)
    ensures Greedy(xs, joins) == SeedPartition(xs, claims)
    decreases |xs|
  {
    if |xs| > 0 {
      var x0 := xs[0];
      assert Place([], x0, joins) == [[x0]];
      assert Greedy(xs, joins) == GreedyFrom([[x0]], xs[1..], joins);
      GreedyFromSplit([x0], [], xs[1..], joins, claims);
      assert [[x0]] == [[x0]] + [];
      GreedyIsSeedPartition(Unclaimed(x0, xs[1..], claims), joins, claims);
    }
  }

  // ---------------------------------------------------------------------
  // Structure of the reference partition
  // ---------------------------------------------------------------------

  /** The clusters together hold every article exactly as often as the
      input does. */
  lemma {:induction false} SeedPartitionKeepsArticles<T>(xs: seq<T>, claims: (T, T) -> bool)
    ensures multiset(Flatten(SeedPartition(xs, claims))) == multiset(xs)
    decreases |xs|
  {
    if |xs| > 0 {
      var x0, tail := xs[0], xs[1..];
      var c0 := [x0] + Claimed(x0, tail, claims);
      var rest := SeedPartition(Unclaimed(x0, tail, claims), claims);
      SeedPartitionKeepsArticles(Unclaimed(x0, tail, claims), claims);
      ClaimedSplit(x0, tail, claims);
      var r := SeedPartition(xs, claims);
      assert r == [c0] + rest;
      assert Flatten(r) == c0 + Flatten(rest);
      assert xs == [x0] + tail;
    }
  }

  /** Every cluster has a representative, there are no more clusters than
      articles, and the first article leads the first cluster. */
  lemma {:induction false} SeedPartitionShape<T>(xs: seq<T>, claims: (T, T) -> bool)
    ensures NonEmpty(SeedPartition(xs, claims))
    ensures |SeedPartition(xs, claims)| <= |xs|
    ensures |xs| > 0 ==> |SeedPartition(xs, claims)| > 0 && SeedPartition(xs, claims)[0][0] == xs[0]
    decreases |xs|
  {
    if |xs| > 0 {
      var x0, tail := xs[0], xs[1..];
      var c0 := [x0] + Claimed(x0, tail, claims);
      var left := Unclaimed(x0, tail, claims);
      var rest := SeedPartition(left, claims);
      SeedPartitionShape(left, claims);
      ClaimedSplit(x0, tail, claims);
      assert |left| <= |tail| by {
        assert |multiset(left)| <= |multiset(tail)|;
      }
      var r := SeedPartition(xs, claims);
      assert r == [c0] + rest;
      assert r[1..] == rest;
    }
  }

  /** The clusters partition the input: each has a representative, together
      they hold every article exactly as often as the input does, there are
      no more clusters than articles, and the first article leads the first
      cluster. */
  lemma SeedPartitionPartitions<T>(xs: seq<T>, claims: (T, T) -> bool)
    ensures NonEmpty(SeedPartition(xs, claims))
    ensures multiset(Flatten(SeedPartition(xs, claims))) == multiset(xs)
    ensures |SeedPartition(xs, claims)| <= |xs|
    ensures |xs| > 0 ==> |SeedPartition(xs, claims)| > 0 && SeedPartition(xs, claims)[0][0] == xs[0]
  {
    SeedPartitionKeepsArticles(xs, claims);
    SeedPartitionShape(xs, claims);
  }

  /** Every clustered article comes from the input. */
  lemma SeedPartitionMember<T>(xs: seq<T>, claims: (T, T) -> bool, k: nat, m: nat)
    requires k < |SeedPartition(xs, claims)| && m < |SeedPartition(xs, claims)[k]|
    ensures SeedPartition(xs, claims)[k][m] in xs
  {
    SeedPartitionPartitions(xs, claims);
    FlattenHasMembers(SeedPartition(xs, claims), k, SeedPartition(xs, claims)[k][m]);
    assert SeedPartition(xs, claims)[k][m] in multiset(xs);
  }

  /** Every non-first member of a cluster is claimed by its representative. */
  lemma {:induction false} SeedPartitionMembersClaimed<T>(xs: seq<T>, claims: (T, T) -> bool)
    ensures forall k, m :: 0 <= k < |SeedPartition(xs, claims)| && 0 < m < |SeedPartition(xs, claims)[k]|
              ==> claims(SeedPartition(xs, claims)[k][0], SeedPartition(xs, claims)[k][m])
    decreases |xs|
  {
    if |xs| > 0 {
      var x0, tail := xs[0], xs[1..];
      var c0 := [x0] + Claimed(x0, tail, claims);
      var left := Unclaimed(x0, tail, claims);
      var rest := SeedPartition(left, claims);
      SeedPartitionMembersClaimed(left, claims);
      var r := SeedPartition(xs, claims);
      assert r == [c0] + rest;
      forall k, m | 0 <= k < |r| && 0 < m < |r[k]|
        ensures claims(r[k][0], r[k][m])
      {
        if k == 0 {
          ClaimedMembers(x0, tail, claims, c0[m]);
          assert c0[m] in Claimed(x0, tail, claims);
        } else {
          assert r[k] == rest[k - 1];
        }
      }
    }
  }

  /** No member of a cluster is claimed by the representative of an earlier
      cluster: it went to the first cluster that would take it. */
  lemma {:induction false} SeedPartitionFirstClaim<T>(xs: seq<T>, claims: (T, T) -> bool)
    ensures NonEmpty(SeedPartition(xs, claims))
    ensures forall k', k, m :: 0 <= k' < k < |SeedPartition(xs, claims)| && 0 <= m < |SeedPartition(xs, claims)[k]|
              ==> !claims(SeedPartition(xs, claims)[k'][0], SeedPartition(xs, claims)[k][m])
    decreases |xs|
  {
    SeedPartitionPartitions(xs, claims);
    if |xs| > 0 {
      var x0, tail := xs[0], xs[1..];
      var c0 := [x0] + Claimed(x0, tail, claims);
      var left := Unclaimed(x0, tail, claims);
      var rest := SeedPartition(left, claims);
      SeedPartitionFirstClaim(left, claims);
      SeedPartitionPartitions(left, claims);
      var r := SeedPartition(xs, claims);
      assert r == [c0] + rest;
      forall k', k, m | 0 <= k' < k < |r| && 0 <= m < |r[k]|
        ensures !claims(r[k'][0], r[k][m])
      {
        assert r[k] == rest[k - 1];
        if k' == 0 {
          var y := r[k][m];
          FlattenHasMembers(rest, k - 1, y);
          assert y in multiset(Flatten(rest));
          assert y in left;
          ClaimedMembers(x0, tail, claims, y);
        } else {
          assert r[k'] == rest[k' - 1];
        }
      }
    }
  }

  // ---------------------------------------------------------------------
  // Structure of greedy first match
  // ---------------------------------------------------------------------

  /** The comparator with its arguments swapped. */
  function Swap<T>(joins: (T, T) -> bool): (T, T) -> bool
  {
    (rep: T, x: T) => joins(x, rep)
  }

  /** Greedy first match partitions the batch: every cluster is led by the
      article that opened it, the clusters hold exactly the input articles,
      there are at most as many clusters as articles, the first article leads
      the first cluster, every later member joins its representative
      (strictly above the threshold in the article models), and no member
      joins the representative of any earlier cluster. */
  lemma GreedyPartitions<T(!new)>(xs: seq<T>, joins: (T, T) -> bool)
    ensures NonEmpty(Greedy(xs, joins))
    ensures multiset(Flatten(Greedy(xs, joins))) == multiset(xs)
    ensures |Flatten(Greedy(xs, joins))| == |xs|
    ensures |Greedy(xs, joins)| <= |xs|
    ensures |xs| == 0 ==> Greedy(xs, joins) == []
    ensures |xs| > 0 ==> |Greedy(xs, joins)| > 0 && Greedy(xs, joins)[0][0] == xs[0]
    ensures forall k, m :: 0 <= k < |Greedy(xs, joins)| && 0 < m < |Greedy(xs, joins)[k]|
              ==> joins(Greedy(xs, joins)[k][m], Greedy(xs, joins)[k][0])
    ensures forall k', k, m :: 0 <= k' < k < |Greedy(xs, joins)| && 0 <= m < |Greedy(xs, joins)[k]|
              ==> !joins(Greedy(xs, joins)[k][m], Greedy(xs, joins)[k'][0])
  {
    var claims := Swap(joins);
    GreedyIsSeedPartition(xs, joins, claims);
    SeedPartitionPartitions(xs, claims);
    SeedPartitionMembersClaimed(xs, claims);
    SeedPartitionFirstClaim(xs, claims);
    assert |Flatten(Greedy(xs, joins))| == |multiset(Flatten(Greedy(xs, joins)))|;
  }

  /** A single article forms a single cluster. */
  lemma GreedySingleton<T>(xs: seq<T>, joins: (T, T) -> bool)
    ensures |xs| == 1 ==> Greedy(xs, joins) == [xs]
  {
    if |xs| == 1 {
      assert xs[1..] == [] && xs == [xs[0]];
      assert Place([], xs[0], joins) == [xs];
      calc {
        Greedy(xs, joins);
        GreedyFrom([], xs, joins);
        GreedyFrom(Place([], xs[0], joins), xs[1..], joins);
        GreedyFrom([xs], [], joins);
      }
    }
  }

  /** Greedy first match only looks at the comparator's verdicts: two
      comparators that agree everywhere give the same clusters. */
  lemma GreedyRespectsVerdicts<T(!new)>(xs: seq<T>, joins: (T, T) -> bool, joins': (T, T) -> bool)
    requires forall x, rep :: joins(x, rep) == joins'(x, rep)
    ensures Greedy(xs, joins) == Greedy(xs, joins')
  {
    GreedyIsSeedPartition(xs, joins, Swap(joins));
    GreedyIsSeedPartition(xs, joins', Swap(joins));
  }

  // ---------------------------------------------------------------------
  // Seed scan over a processed-index set
  // ---------------------------------------------------------------------

  /** The articles at indices `lo .. hi-1` that are not in `processed`, in order. */
  function Unprocessed<T>(xs: seq<T>, lo: nat, hi: nat, processed: set<nat>): seq<T>
    requires hi <= |xs|
    decreases hi
  {
    if hi <= lo then []
    else Unprocessed(xs, lo, hi - 1, processed) + (if hi - 1 in processed then [] else [xs[hi - 1]])
  }

  lemma {:induction false} UnprocessedFrame<T>(xs: seq<T>, lo: nat, hi: nat, p: set<nat>, q: set<nat>)
    requires hi <= |xs|
    requires forall k: nat :: lo <= k < hi ==> (k in p <==> k in q)
    ensures Unprocessed(xs, lo, hi, p) == Unprocessed(xs, lo, hi, q)
    decreases hi
  {
    if lo < hi {
      UnprocessedFrame(xs, lo, hi - 1, p, q);
    }
  }

  lemma {:induction false} UnprocessedCons<T>(xs: seq<T>, lo: nat, hi: nat, p: set<nat>)
    requires lo < hi <= |xs|
    ensures Unprocessed(xs, lo, hi, p)
         == (if lo in p then [] else [xs[lo]]) + Unprocessed(xs, lo + 1, hi, p)
    decreases hi
  {
    if lo + 1 < hi {
      UnprocessedCons(xs, lo, hi - 1, p);
    }
  }

  lemma {:induction false} UnprocessedNone<T>(xs: seq<T>, hi: nat)
    requires hi <= |xs|
    ensures Unprocessed(xs, 0, hi, {}) == xs[..hi]
    decreases hi
  {
    if hi > 0 {
      UnprocessedNone(xs, hi - 1);
      assert xs[..hi] == xs[..hi - 1] + [xs[hi - 1]];
    }
  }

  /** One step of the inner loop of the seed scan at index `j`: `p` is the
      processed set before the seed, `q` the current one. */
  lemma ClaimStep<T>(xs: seq<T>, lo: nat, j: nat, p: set<nat>, q: set<nat>, seed: T, claims: (T, T) -> bool)
    requires lo <= j < |xs|
    requires j in q <==> j in p
    requires Unprocessed(xs, lo, j, q) == Unclaimed(seed, Unprocessed(xs, lo, j, p), claims)
    ensures var take := j !in q && claims(seed, xs[j]);
            && Claimed(seed, Unprocessed(xs, lo, j + 1, p), claims)
               == Claimed(seed, Unprocessed(xs, lo, j, p), claims) + (if take then [xs[j]] else [])
            && Unprocessed(xs, lo, j + 1, if take then q + {j} else q)
               == Unclaimed(seed, Unprocessed(xs, lo, j + 1, p), claims)
  {
    var done := Unprocessed(xs, lo, j, p);
    var left := Unprocessed(xs, lo, j, q);
    if j !in q {
      assert Unprocessed(xs, lo, j + 1, p) == done + [xs[j]];
      ClaimedAppend(seed, done, [xs[j]], claims);
      assert [xs[j]][1..] == [];
      if claims(seed, xs[j]) {
        assert Claimed(seed, [xs[j]], claims) == [xs[j]];
        assert Unclaimed(seed, [xs[j]], claims) == [];
        UnprocessedFrame(xs, lo, j, q, q + {j});
        assert Unprocessed(xs, lo, j + 1, q + {j}) == left;
      } else {
        assert Claimed(seed, [xs[j]], claims) == [];
        assert Unclaimed(seed, [xs[j]], claims) == [xs[j]];
        assert Unprocessed(xs, lo, j + 1, q) == left + [xs[j]];
      }
    } else {
      assert Unprocessed(xs, lo, j + 1, p) == done;
      assert Unprocessed(xs, lo, j + 1, q) == left;
    }
  }

  /** The inner loop of the seed scan: starting from seed `i`, append every
      later unprocessed article the seed claims and mark it processed. The
      cluster is the seed followed by exactly the claimed unprocessed
      articles after it, and afterwards the unprocessed articles after the
      seed are exactly the unclaimed ones. */
  method ClaimLater<T>(xs: seq<T>, i: nat, processed: set<nat>, claims: (T, T) -> bool)
      returns (cluster: seq<T>, processed': set<nat>)
    requires i < |xs|
    ensures cluster == [xs[i]] + Claimed(xs[i], Unprocessed(xs, i + 1, |xs|, processed), claims)
    ensures Unprocessed(xs, i + 1, |xs|, processed')
         == Unclaimed(xs[i], Unprocessed(xs, i + 1, |xs|, processed), claims)
  {
    var seed := xs[i];
    cluster := [seed];
    processed' := processed + {i};
    var j := i + 1;
    while j < |xs|
      invariant i + 1 <= j <= |xs|
      invariant forall k: nat :: j <= k ==> (k in processed' <==> k in processed)
      invariant cluster == [seed] + Claimed(seed, Unprocessed(xs, i + 1, j, processed), claims)
      invariant Unprocessed(xs, i + 1, j, processed')
             == Unclaimed(seed, Unprocessed(xs, i + 1, j, processed), claims)
    {
      ClaimStep(xs, i + 1, j, processed, processed', seed, claims);
      if j !in processed' && claims(seed, xs[j]) {
        cluster := cluster + [xs[j]];
        processed' := processed' + {j};
      }
      j := j + 1;
    }
  }

  /** Seed scan: each article not yet processed starts a cluster and claims
      every later unprocessed article it is similar to. It computes the
      reference partition. */
  method SeedScan<T>(xs: seq<T>, claims: (T, T) -> bool) returns (clusters: seq<seq<T>>)
    ensures clusters == SeedPartition(xs, claims)
  {
    if |xs| == 0 {
      return [];
    }
    clusters := [];
    var processed: set<nat> := {};
    UnprocessedNone(xs, |xs|);
    assert xs[..|xs|] == xs;
    var i := 0;
    while i < |xs|
      invariant 0 <= i <= |xs|
      invariant clusters + SeedPartition(Unprocessed(xs, i, |xs|, processed), claims) == SeedPartition(xs, claims)
    {
      UnprocessedCons(xs, i, |xs|, processed);
      if i !in processed {
        ghost var rest := Unprocessed(xs, i + 1, |xs|, processed);
        var cluster, processed' := ClaimLater(xs, i, processed, claims);
        assert ([xs[i]] + rest)[0] == xs[i] && ([xs[i]] + rest)[1..] == rest;
        assert SeedPartition([xs[i]] + rest, claims)
            == [cluster] + SeedPartition(Unprocessed(xs, i + 1, |xs|, processed'), claims);
        clusters := clusters + [cluster];
        processed := processed';
      } else {
        assert Unprocessed(xs, i, |xs|, processed) == Unprocessed(xs, i + 1, |xs|, processed);
      }
      i := i + 1;
    }
  }
}
