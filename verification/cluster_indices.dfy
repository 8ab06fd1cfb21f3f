/** Input order in the clusters, stated over input positions.

    Greedy first match is run on the positions `0 .. n-1` of a batch, with the
    comparator looking the articles up. The clusters of articles are read off
    those position clusters, every position occurs exactly once, positions
    increase inside a cluster (so every later member comes after the
    representative in the input), and representatives increase from cluster
    to cluster. */
module ClusterIndices {
  import opened Basics
  import opened Clustering

  /** `ys` is `xs` read at the positions `pos`. */
  ghost predicate Picks<T>(xs: seq<T>, pos: seq<int>, ys: seq<T>)
  {
    |pos| == |ys| && forall k :: 0 <= k < |pos| ==> 0 <= pos[k] < |xs| && ys[k] == xs[pos[k]]
  }

  /** Each cluster of `yss` is `xs` read at the matching position cluster. */
  ghost predicate PicksAll<T>(xs: seq<T>, iss: seq<seq<int>>, yss: seq<seq<T>>)
  {
    |iss| == |yss| && forall k :: 0 <= k < |iss| ==> Picks(xs, iss[k], yss[k])
  }

  predicate Increasing(pos: seq<int>)
  {
    forall a, b :: 0 <= a < b < |pos| ==> pos[a] < pos[b]
  }

  /** The positions `0 .. n-1` in order. */
  function Positions(n: nat): (r: seq<int>)
    ensures |r| == n && forall i :: 0 <= i < n ==> r[i] == i
  {
    seq(n, i => i)
  }

  /** The comparator on positions of `xs`. */
  function IndexJoins<T>(xs: seq<T>, joins: (T, T) -> bool): (int, int) -> bool
  {
    (i: int, rep: int) => 0 <= i < |xs| && 0 <= rep < |xs| && joins(xs[i], xs[rep])
  }

  /** Greedy first match run on the positions of `xs`. */
  function GreedyIndices<T>(xs: seq<T>, joins: (T, T) -> bool): seq<seq<int>>
  {
    Greedy(Positions(|xs|), IndexJoins(xs, joins))
  }

  lemma {:induction false} PickedClaimed<T>(xs: seq<T>, pos: seq<int>, ys: seq<T>, s: int,
                                            idx: (int, int) -> bool, claims: (T, T) -> bool)
    requires Picks(xs, pos, ys) && 0 <= s < |xs|
    requires forall i, j :: 0 <= i < |xs| && 0 <= j < |xs| ==> idx(i, j) == claims(xs[i], xs[j])
    ensures Picks(xs, Claimed(s, pos, idx), Claimed(xs[s], ys, claims))
    ensures Picks(xs, Unclaimed(s, pos, idx), Unclaimed(xs[s], ys, claims))
    decreases |pos|
  {
    if |pos| > 0 {
      PickedClaimed(xs, pos[1..], ys[1..], s, idx, claims);
      assert idx(s, pos[0]) == claims(xs[s], ys[0]);
    }
  }

  lemma {:induction false} PickedPartition<T>(xs: seq<T>, pos: seq<int>, ys: seq<T>,
                                              idx: (int, int) -> bool, claims: (T, T) -> bool)
    requires Picks(xs, pos, ys)
    requires forall i, j :: 0 <= i < |xs| && 0 <= j < |xs| ==> idx(i, j) == claims(xs[i], xs[j])
    ensures PicksAll(xs, SeedPartition(pos, idx), SeedPartition(ys, claims))
    decreases |pos|
  {
    if |pos| > 0 {
      var s := pos[0];
      PickedClaimed(xs, pos[1..], ys[1..], s, idx, claims);
      PickedPartition(xs, Unclaimed(s, pos[1..], idx), Unclaimed(ys[0], ys[1..], claims), idx, claims);
      var ri := SeedPartition(pos, idx);
      var ry := SeedPartition(ys, claims);
      assert ri[1..] == SeedPartition(Unclaimed(s, pos[1..], idx), idx);
      assert ry[1..] == SeedPartition(Unclaimed(ys[0], ys[1..], claims), claims);
      assert Picks(xs, ri[0], ry[0]);
      forall k | 1 <= k < |ri|
        ensures Picks(xs, ri[k], ry[k])
      {
        assert ri[k] == ri[1..][k - 1] && ry[k] == ry[1..][k - 1];
      }
    }
  }

  lemma IncreasingCons(x: int, c: seq<int>)
    requires Increasing(c)
    requires forall y :: y in c ==> x < y
    ensures Increasing([x] + c)
  {
    forall a, b | 0 <= a < b < |[x] + c| ensures ([x] + c)[a] < ([x] + c)[b] {
      assert ([x] + c)[b] == c[b - 1];
      assert c[b - 1] in c;
      if a > 0 {
        assert ([x] + c)[a] == c[a - 1];
      }
    }
  }

  lemma {:induction false} ClaimedIncreasing(s: int, pos: seq<int>, idx: (int, int) -> bool)
    requires Increasing(pos)
    ensures Increasing(Claimed(s, pos, idx))
    ensures Increasing(Unclaimed(s, pos, idx))
    decreases |pos|
  {
    if |pos| > 0 {
      var tail := pos[1..];
      assert Increasing(tail);
      ClaimedIncreasing(s, tail, idx);
      var c := Claimed(s, tail, idx);
      var u := Unclaimed(s, tail, idx);
      forall y | y in c || y in u
        ensures pos[0] < y
      {
        ClaimedMembers(s, tail, idx, y);
        var k :| 0 <= k < |tail| && tail[k] == y;
        assert pos[k + 1] == y;
      }
      assert Claimed(s, pos, idx) == (if idx(s, pos[0]) then [pos[0]] else []) + c;
      assert Unclaimed(s, pos, idx) == (if idx(s, pos[0]) then [] else [pos[0]]) + u;
      if idx(s, pos[0]) {
        IncreasingCons(pos[0], c);
      } else {
        IncreasingCons(pos[0], u);
      }
    }
  }

  /** Positions in the reference partition of increasing positions: each
      cluster is increasing and starts at its smallest position. */
  lemma {:induction false} PartitionClustersIncreasing(pos: seq<int>, idx: (int, int) -> bool)
    requires Increasing(pos)
    ensures forall k :: 0 <= k < |SeedPartition(pos, idx)| ==> Increasing(SeedPartition(pos, idx)[k])
    decreases |pos|
  {
    if |pos| > 0 {
      var s, tail := pos[0], pos[1..];
      assert Increasing(tail);
      var left := Unclaimed(s, tail, idx);
      ClaimedIncreasing(s, tail, idx);
      PartitionClustersIncreasing(left, idx);
      var c := Claimed(s, tail, idx);
      forall y | y in c ensures s < y {
        ClaimedMembers(s, tail, idx, y);
        var k :| 0 <= k < |tail| && tail[k] == y;
        assert pos[k + 1] == y;
      }
      IncreasingCons(s, c);
      var rest := SeedPartition(left, idx);
      var r := SeedPartition(pos, idx);
      assert r == [[s] + c] + rest;
      forall k | 1 <= k < |r| ensures Increasing(r[k]) {
        assert r[k] == rest[k - 1];
      }
    }
  }

  /** After the first cluster is taken, every remaining representative lies
      after the first position. */
  lemma LaterRepsAfterFirst(pos: seq<int>, idx: (int, int) -> bool)
    requires Increasing(pos) && |pos| > 0
    ensures NonEmpty(SeedPartition(Unclaimed(pos[0], pos[1..], idx), idx))
    ensures forall k :: 0 <= k < |SeedPartition(Unclaimed(pos[0], pos[1..], idx), idx)|
              ==> pos[0] < SeedPartition(Unclaimed(pos[0], pos[1..], idx), idx)[k][0]
  {
    var s, tail := pos[0], pos[1..];
    var left := Unclaimed(s, tail, idx);
    var rest := SeedPartition(left, idx);
    SeedPartitionPartitions(left, idx);
    forall k | 0 <= k < |rest| ensures s < rest[k][0] {
      var y := rest[k][0];
      SeedPartitionMember(left, idx, k, 0);
      ClaimedMembers(s, tail, idx, y);
      var j :| 0 <= j < |tail| && tail[j] == y;
      assert pos[j + 1] == y;
    }
  }

  /** Representatives of the reference partition of increasing positions
      increase from cluster to cluster. */
  lemma {:induction false} PartitionRepsIncreasing(pos: seq<int>, idx: (int, int) -> bool)
    requires Increasing(pos)
    ensures NonEmpty(SeedPartition(pos, idx))
    ensures forall k, k' :: 0 <= k < k' < |SeedPartition(pos, idx)|
              ==> SeedPartition(pos, idx)[k][0] < SeedPartition(pos, idx)[k'][0]
    decreases |pos|
  {
    SeedPartitionPartitions(pos, idx);
    if |pos| > 0 {
      var s, tail := pos[0], pos[1..];
      var left := Unclaimed(s, tail, idx);
      ClaimedIncreasing(s, tail, idx);
      PartitionRepsIncreasing(left, idx);
      LaterRepsAfterFirst(pos, idx);
      var rest := SeedPartition(left, idx);
      var r := SeedPartition(pos, idx);
      assert r == [[s] + Claimed(s, tail, idx)] + rest;
      assert r[0][0] == s;
      forall k, k' | 0 <= k < k' < |r| ensures r[k][0] < r[k'][0] {
        assert r[k'] == rest[k' - 1];
        if k > 0 {
          assert r[k] == rest[k - 1];
        }
      }
    }
  }

  /** `idx` partitions the positions `0 .. n-1`: each occurs exactly once,
      positions increase inside every cluster, and the clusters are ordered by
      their first position. */
  ghost predicate OrderedPositions(n: nat, idx: seq<seq<int>>)
  {
    && NonEmpty(idx)
    && multiset(Flatten(idx)) == multiset(Positions(n))
    && (forall k :: 0 <= k < |idx| ==> Increasing(idx[k]))
    && (forall k, k' :: 0 <= k < k' < |idx| ==> idx[k][0] < idx[k'][0])
  }

  /** The clusters are `xs` read at an ordered partition of its positions. */
  ghost predicate KeepsInputOrder<T>(xs: seq<T>, clusters: seq<seq<T>>)
  {
    exists idx :: PicksAll(xs, idx, clusters) && OrderedPositions(|xs|, idx)
  }

  /** Greedy first match keeps input order: the clusters are read off a
      partition of the input positions in which every position occurs once,
      positions increase inside each cluster, and representatives' positions
      increase from cluster to cluster. */
  lemma GreedyIndicesOrdered<T(!new)>(xs: seq<T>, joins: (T, T) -> bool)
    ensures PicksAll(xs, GreedyIndices(xs, joins), Greedy(xs, joins))
    ensures NonEmpty(GreedyIndices(xs, joins))
    ensures multiset(Flatten(GreedyIndices(xs, joins))) == multiset(Positions(|xs|))
    ensures forall k :: 0 <= k < |GreedyIndices(xs, joins)| ==> Increasing(GreedyIndices(xs, joins)[k])
    ensures forall k, k' :: 0 <= k < k' < |GreedyIndices(xs, joins)|
              ==> GreedyIndices(xs, joins)[k][0] < GreedyIndices(xs, joins)[k'][0]
  {
    var n := |xs|;
    var allPos := Positions(n);
    var ij := IndexJoins(xs, joins);
    GreedyIsSeedPartition(xs, joins, Swap(joins));
    GreedyIsSeedPartition(allPos, ij, Swap(ij));
    SeedPartitionPartitions(allPos, Swap(ij));
    PartitionClustersIncreasing(allPos, Swap(ij));
    PartitionRepsIncreasing(allPos, Swap(ij));
    assert Picks(xs, allPos, xs);
    PickedPartition(xs, allPos, xs, Swap(ij), Swap(joins));
  }

  /** The greedy clusters keep input order. */
  lemma GreedyKeepsInputOrder<T(!new)>(xs: seq<T>, joins: (T, T) -> bool)
    ensures KeepsInputOrder(xs, Greedy(xs, joins))
  {
    GreedyIndicesOrdered(xs, joins);
    assert OrderedPositions(|xs|, GreedyIndices(xs, joins));
  }
}
