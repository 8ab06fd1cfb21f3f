/** Articles and the three story-clustering functions.

    The demo reader (app.py) and the restored enhanced reader cluster by
    greedy first match, comparing `sim(new, rep)`; the backup enhanced reader
    runs a seed scan, comparing `sim(seed, other)`. The similarity ratio
    (difflib's `SequenceMatcher(None, a, b).ratio()`) is a caller-supplied
    function and is not assumed symmetric; two texts are similar when their
    ratio is strictly above 0.85. */
module Articles {
  import opened Basics
  import opened Text
  import opened Clustering
  import opened ClusterIndices

  /** A normalised feed article of the enhanced readers. */
  datatype Article = Article(title: string, summary: string, link: string, timestamp: string,
                             source: string, domain: string)

  /** An article of the demo reader's fixed batch. */
  datatype DemoArticle = DemoArticle(title: string, content: string, timestamp: string)

  /** A similarity ratio between two texts. */
  type Ratio = (string, string) -> real

  const Threshold: real := 0.85

  /** Strictly above the threshold: a ratio of exactly 0.85 does not merge. */
  predicate Similar(sim: Ratio, a: string, b: string)
  {
    sim(a, b) > Threshold
  }

  ghost predicate Symmetric(sim: Ratio)
  {
    forall a, b :: sim(a, b) == sim(b, a)
  }

  // ---------------------------------------------------------------------
  // Demo reader: greedy first match over title + content
  // ---------------------------------------------------------------------

  /** Title and content, no separator, no lowercasing. */
  function DemoText(a: DemoArticle): string
  {
    a.title + a.content
  }

  function DemoJoins(sim: Ratio): (DemoArticle, DemoArticle) -> bool
  {
    (x: DemoArticle, rep: DemoArticle) => Similar(sim, DemoText(x), DemoText(rep))
  }

  /** The demo reader's clustering: an order-preserving partition of the
      batch in which every member after the first is similar to its
      cluster's first member and to no earlier cluster's first member. */
  function DeduplicateDemo(articles: seq<DemoArticle>, sim: Ratio): (clusters: seq<seq<DemoArticle>>)
    ensures NonEmpty(clusters)
    ensures multiset(Flatten(clusters)) == multiset(articles)
    ensures |clusters| <= |articles|
    ensures |articles| == 0 ==> clusters == []
    ensures |articles| == 1 ==> clusters == [articles]
    ensures |articles| > 0 ==> |clusters| > 0 && clusters[0][0] == articles[0]
    ensures forall k, m :: 0 <= k < |clusters| && 0 < m < |clusters[k]|
              ==> sim(DemoText(clusters[k][m]), DemoText(clusters[k][0])) > Threshold
    ensures forall k', k, m :: 0 <= k' < k < |clusters| && 0 <= m < |clusters[k]|
              ==> sim(DemoText(clusters[k][m]), DemoText(clusters[k'][0])) <= Threshold
    ensures KeepsInputOrder(articles, clusters)
  {
    var joins := DemoJoins(sim);
    GreedyPartitions(articles, joins);
    GreedyKeepsInputOrder(articles, joins);
    GreedySingleton(articles, joins);
    Greedy(articles, joins)
  }

  /** A batch shaped like the demo data: the second article restates the
      first, the last two are unrelated to it and to each other. Two
      articles merge into one story and the others stay alone. */
  lemma DemoBatchClusters(a0: DemoArticle, a1: DemoArticle, a2: DemoArticle, a3: DemoArticle, sim: Ratio)
    requires Similar(sim, DemoText(a1), DemoText(a0))
    requires !Similar(sim, DemoText(a2), DemoText(a0))
    requires !Similar(sim, DemoText(a3), DemoText(a0)) && !Similar(sim, DemoText(a3), DemoText(a2))
    ensures DeduplicateDemo([a0, a1, a2, a3], sim) == [[a0, a1], [a2], [a3]]
  {
    var joins := DemoJoins(sim);
    assert joins(a1, a0) && !joins(a2, a0) && !joins(a3, a0) && !joins(a3, a2);
    var c1 := Place([], a0, joins);
    assert c1 == [[a0]] && [a0] + [a1] == [a0, a1];
    var c2 := Place(c1, a1, joins);
    PlaceJoinsFirstMatch(c1, a1, joins, 0);
    assert c2 == [[a0, a1]];
    var c3 := Place(c2, a2, joins);
    PlaceOpensCluster(c2, a2, joins);
    assert c3 == [[a0, a1], [a2]];
    var c4 := Place(c3, a3, joins);
    PlaceOpensCluster(c3, a3, joins);
    assert c4 == [[a0, a1], [a2], [a3]];
    calc {
      Greedy([a0, a1, a2, a3], joins);
      GreedyFrom(c1, [a1, a2, a3], joins);
      GreedyFrom(c2, [a2, a3], joins);
      GreedyFrom(c3, [a3], joins);
      GreedyFrom(c4, [], joins);
    }
  }

  /** A ratio of exactly 0.85 keeps two articles apart. */
  lemma ExactThresholdKeepsApart(a: DemoArticle, b: DemoArticle, sim: Ratio)
    requires sim(DemoText(b), DemoText(a)) == Threshold
    ensures DeduplicateDemo([a, b], sim) == [[a], [b]]
  {
    var joins := DemoJoins(sim);
    assert !joins(b, a);
    PlaceOpensCluster([[a]], b, joins);
    calc {
      Greedy([a, b], joins);
      GreedyFrom([[a]], [b], joins);
      GreedyFrom([[a], [b]], [], joins);
    }
  }

  // ---------------------------------------------------------------------
  // Restored enhanced reader: greedy first match over title + summary
  // ---------------------------------------------------------------------

  /** Title and summary, no separator, no lowercasing. */
  function RestoredText(a: Article): string
  {
    a.title + a.summary
  }

  function RestoredJoins(sim: Ratio): (Article, Article) -> bool
  {
    (x: Article, rep: Article) => Similar(sim, RestoredText(x), RestoredText(rep))
  }

  /** The restored reader's clustering: each article joins the first cluster,
      in creation order, whose first member it is similar to, and otherwise
      opens a new cluster. */
  function DeduplicateRestored(articles: seq<Article>, sim: Ratio): (clusters: seq<seq<Article>>)
    ensures NonEmpty(clusters)
    ensures multiset(Flatten(clusters)) == multiset(articles)
    ensures |Flatten(clusters)| == |articles|
    ensures |clusters| <= |articles|
    ensures |articles| == 0 ==> clusters == []
    ensures |articles| > 0 ==> |clusters| > 0 && clusters[0][0] == articles[0]
    ensures forall k, m :: 0 <= k < |clusters| && 0 < m < |clusters[k]|
              ==> sim(RestoredText(clusters[k][m]), RestoredText(clusters[k][0])) > Threshold
    ensures forall k', k, m :: 0 <= k' < k < |clusters| && 0 <= m < |clusters[k]|
              ==> sim(RestoredText(clusters[k][m]), RestoredText(clusters[k'][0])) <= Threshold
    ensures KeepsInputOrder(articles, clusters)
  {
    var joins := RestoredJoins(sim);
    GreedyPartitions(articles, joins);
    GreedyKeepsInputOrder(articles, joins);
    Greedy(articles, joins)
  }

  // ---------------------------------------------------------------------
  // Backup enhanced reader: seed scan over lower(title + " " + summary)
  // ---------------------------------------------------------------------

  /** Title, a space and summary, lowercased. */
  function BackupText(a: Article): string
  {
    Lower(a.title + " " + a.summary)
  }

  /** The seed scan's test: the seed's text comes first. */
  function BackupClaims(sim: Ratio): (Article, Article) -> bool
  {
    (seed: Article, other: Article) => Similar(sim, BackupText(seed), BackupText(other))
  }

  /** The same test read as greedy first match's `joins(new, rep)`: the
      representative's text comes first. */
  function BackupJoins(sim: Ratio): (Article, Article) -> bool
  {
    (x: Article, rep: Article) => Similar(sim, BackupText(rep), BackupText(x))
  }

  /** The backup reader's seed scan. It yields exactly greedy first match with
      the comparator's arguments swapped, hence the same partition, cluster
      order and member order; every member after the seed is one the seed is
      similar to, and no member is one an earlier seed is similar to. */
  method DeduplicateBackup(articles: seq<Article>, sim: Ratio) returns (clusters: seq<seq<Article>>)
    ensures clusters == Greedy(articles, BackupJoins(sim))
    ensures |articles| == 0 ==> clusters == []
    ensures NonEmpty(clusters)
    ensures multiset(Flatten(clusters)) == multiset(articles)
    ensures |clusters| <= |articles|
    ensures |articles| > 0 ==> |clusters| > 0 && clusters[0][0] == articles[0]
    ensures forall k, m :: 0 <= k < |clusters| && 0 < m < |clusters[k]|
              ==> sim(BackupText(clusters[k][0]), BackupText(clusters[k][m])) > Threshold
    ensures forall k', k, m :: 0 <= k' < k < |clusters| && 0 <= m < |clusters[k]|
              ==> sim(BackupText(clusters[k'][0]), BackupText(clusters[k][m])) <= Threshold
    ensures KeepsInputOrder(articles, clusters)
  {
    clusters := SeedScan(articles, BackupClaims(sim));
    var joins := BackupJoins(sim);
    GreedyIsSeedPartition(articles, joins, BackupClaims(sim));
    GreedyPartitions(articles, joins);
    GreedyKeepsInputOrder(articles, joins);
  }

  /** Under an explicitly symmetric ratio, the seed scan is greedy first match
      over the backup text in the restored reader's argument order. */
  lemma BackupSymmetricIsGreedy(articles: seq<Article>, sim: Ratio)
    requires Symmetric(sim)
    ensures Greedy(articles, BackupJoins(sim))
         == Greedy(articles, (x: Article, rep: Article) => Similar(sim, BackupText(x), BackupText(rep)))
  {
    GreedyRespectsVerdicts(articles, BackupJoins(sim),
                           (x: Article, rep: Article) => Similar(sim, BackupText(x), BackupText(rep)));
  }
}
