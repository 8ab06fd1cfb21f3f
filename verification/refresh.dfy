/** The body of `refresh`: every cluster of a fetched batch becomes one story
    record built from the cluster's first member.

    The identifier is a hash of the representative's title (SHA-256 as a
    caller-supplied function `hash`). The enhanced readers list the cluster's
    distinct links as the story's sources; the demo reader lists the member
    titles, duplicates included. */
module Refresh {
  import opened Basics
  import opened Clustering
  import opened Articles

  /** A story record of the enhanced readers. */
  datatype Story = Story(id: string, title: string, summary: string, link: string, timestamp: string,
                         source: string, domain: string, sources: seq<string>, verbose: Option<string>)

  /** A story record of the demo reader. */
  datatype Brief = Brief(id: string, title: string, content: string, timestamp: string,
                         sources: seq<string>, verbose: Option<string>)

  type Hash = string -> string

  predicate NoDuplicates(xs: seq<string>)
  {
    forall i, j :: 0 <= i < j < |xs| ==> xs[i] != xs[j]
  }

  /** The distinct strings of `xs`, each at its first occurrence. Python's
      `list(set(...))` fixes no order; only the set and the absence of
      duplicates are relied on. */
  function Distinct(xs: seq<string>): (r: seq<string>)
    ensures NoDuplicates(r)
    ensures forall x :: x in r <==> x in xs
    ensures |r| <= |xs|
    decreases |xs|
  {
    if |xs| == 0 then []
    else
      var rest := Distinct(xs[..|xs| - 1]);
      assert forall x :: x in xs <==> x in xs[..|xs| - 1] || x == xs[|xs| - 1];
      if xs[|xs| - 1] in rest then rest else rest + [xs[|xs| - 1]]
  }

  /** The links of a cluster's members, in member order. */
  function Links(cluster: seq<Article>): (r: seq<string>)
    ensures |r| == |cluster| && forall m :: 0 <= m < |cluster| ==> r[m] == cluster[m].link
  {
    seq(|cluster|, m requires 0 <= m < |cluster| => cluster[m].link)
  }

  /** The record an enhanced reader emits for one cluster: every shown field
      is the representative's, the identifier hashes its title, no verbose
      summary yet, and the sources are the cluster's links without
      repetition, the representative's own link among them. */
  function Canonical(cluster: seq<Article>, hash: Hash): (s: Story)
    requires |cluster| > 0
    ensures s.id == hash(cluster[0].title)
    ensures s.title == cluster[0].title && s.summary == cluster[0].summary && s.link == cluster[0].link
    ensures s.timestamp == cluster[0].timestamp && s.source == cluster[0].source && s.domain == cluster[0].domain
    ensures s.verbose == None
    ensures NoDuplicates(s.sources)
    ensures forall l :: l in s.sources <==> exists m :: 0 <= m < |cluster| && cluster[m].link == l
    ensures cluster[0].link in s.sources
    ensures |s.sources| <= |cluster|
  {
    var main := cluster[0];
    var links := Links(cluster);
    assert links[0] == main.link;
    Story(hash(main.title), main.title, main.summary, main.link, main.timestamp,
          main.source, main.domain, Distinct(links), None)
  }

  /** One record per cluster, in cluster order. Two clusters whose
      representatives share a title get the same identifier, whatever
      their summaries. */
  function CanonicalizeAll(clusters: seq<seq<Article>>, hash: Hash): (r: seq<Story>)
    requires NonEmpty(clusters)
    ensures |r| == |clusters|
    ensures forall k :: 0 <= k < |clusters| ==> r[k] == Canonical(clusters[k], hash)
    ensures forall k, k' :: 0 <= k < |clusters| && 0 <= k' < |clusters| && clusters[k][0].title == clusters[k'][0].title
              ==> r[k].id == r[k'].id
  {
    seq(|clusters|, k requires 0 <= k < |clusters| => Canonical(clusters[k], hash))
  }

  /** `s` shows the article `a`. */
  predicate Shows(s: Story, a: Article)
  {
    s.title == a.title && s.summary == a.summary && s.link == a.link
    && s.timestamp == a.timestamp && s.source == a.source && s.domain == a.domain
  }

  /** Every story shows some article of the batch, under its title's hash. */
  ghost predicate StoriesFromBatch(raw: seq<Article>, stories: seq<Story>, hash: Hash)
  {
    forall k :: 0 <= k < |stories| ==>
      stories[k].id == hash(stories[k].title) && stories[k].verbose == None
      && exists i :: 0 <= i < |raw| && Shows(stories[k], raw[i])
  }

  /** Every article's link is listed by some story. */
  ghost predicate LinksCovered(raw: seq<Article>, stories: seq<Story>)
  {
    forall i :: 0 <= i < |raw| ==> exists k :: 0 <= k < |stories| && raw[i].link in stories[k].sources
  }

  /** Every listed link is the link of some article of the batch. */
  ghost predicate LinksFromBatch(raw: seq<Article>, stories: seq<Story>)
  {
    forall k, m :: 0 <= k < |stories| && 0 <= m < |stories[k].sources| ==>
      exists i :: 0 <= i < |raw| && raw[i].link == stories[k].sources[m]
  }

  /** What a refresh promises about the stories it publishes from a batch:
      at most one story per article, none exactly when the batch is empty,
      the first article shown first, every story showing an article of the
      batch, and the listed links being exactly the batch's links. */
  ghost predicate PublishesBatch(raw: seq<Article>, stories: seq<Story>, hash: Hash)
  {
    && |stories| <= |raw|
    && (|raw| == 0 <==> |stories| == 0)
    && (|raw| > 0 && |stories| > 0 ==> Shows(stories[0], raw[0]))
    && StoriesFromBatch(raw, stories, hash)
    && LinksCovered(raw, stories)
    && LinksFromBatch(raw, stories)
  }

  lemma StoriesShowBatch(raw: seq<Article>, clusters: seq<seq<Article>>, hash: Hash)
    requires NonEmpty(clusters)
    requires multiset(Flatten(clusters)) == multiset(raw)
    ensures StoriesFromBatch(raw, CanonicalizeAll(clusters, hash), hash)
  {
    var r := CanonicalizeAll(clusters, hash);
    forall k | 0 <= k < |r|
      ensures exists i :: 0 <= i < |raw| && Shows(r[k], raw[i])
    {
      var a := clusters[k][0];
      FlattenHasMembers(clusters, k, a);
      assert a in multiset(raw);
      var i :| 0 <= i < |raw| && raw[i] == a;
      assert Shows(r[k], raw[i]);
    }
  }

  lemma StoriesCoverLinks(raw: seq<Article>, clusters: seq<seq<Article>>, hash: Hash)
    requires NonEmpty(clusters)
    requires multiset(Flatten(clusters)) == multiset(raw)
    ensures LinksCovered(raw, CanonicalizeAll(clusters, hash))
  {
    var r := CanonicalizeAll(clusters, hash);
    forall i | 0 <= i < |raw|
      ensures exists k :: 0 <= k < |r| && raw[i].link in r[k].sources
    {
      assert raw[i] in multiset(Flatten(clusters));
      FlattenMemberFrom(clusters, raw[i]);
      var k :| 0 <= k < |clusters| && raw[i] in clusters[k];
      var m :| 0 <= m < |clusters[k]| && clusters[k][m] == raw[i];
      assert raw[i].link in r[k].sources;
    }
  }

  lemma StoriesListBatchLinks(raw: seq<Article>, clusters: seq<seq<Article>>, hash: Hash)
    requires NonEmpty(clusters)
    requires multiset(Flatten(clusters)) == multiset(raw)
    ensures LinksFromBatch(raw, CanonicalizeAll(clusters, hash))
  {
    var r := CanonicalizeAll(clusters, hash);
    forall k, n | 0 <= k < |r| && 0 <= n < |r[k].sources|
      ensures exists i :: 0 <= i < |raw| && raw[i].link == r[k].sources[n]
    {
      var l := r[k].sources[n];
      assert l in r[k].sources;
      var m :| 0 <= m < |clusters[k]| && clusters[k][m].link == l;
      FlattenHasMembers(clusters, k, clusters[k][m]);
      assert clusters[k][m] in multiset(raw);
      var i :| 0 <= i < |raw| && raw[i] == clusters[k][m];
    }
  }

  /** Canonicalising any partition of a batch publishes the batch. */
  lemma CanonicalPublishes(raw: seq<Article>, clusters: seq<seq<Article>>, hash: Hash)
    requires NonEmpty(clusters)
    requires multiset(Flatten(clusters)) == multiset(raw)
    requires |clusters| <= |raw|
    requires |raw| > 0 ==> |clusters| > 0 && clusters[0][0] == raw[0]
    ensures PublishesBatch(raw, CanonicalizeAll(clusters, hash), hash)
  {
    if |raw| == 0 {
      assert |clusters| == 0;
    }
    StoriesShowBatch(raw, clusters, hash);
    StoriesCoverLinks(raw, clusters, hash);
    StoriesListBatchLinks(raw, clusters, hash);
  }

  /** The restored reader's refresh: cluster the batch greedily, then
      canonicalise every cluster. An empty batch publishes no story. */
  function RefreshRestored(raw: seq<Article>, sim: Ratio, hash: Hash): (stories: seq<Story>)
    ensures PublishesBatch(raw, stories, hash)
    ensures |stories| == |DeduplicateRestored(raw, sim)|
  {
    var clusters := DeduplicateRestored(raw, sim);
    CanonicalPublishes(raw, clusters, hash);
    CanonicalizeAll(clusters, hash)
  }

  /** Canonicalises greedy first match's clusters of a batch. */
  function CanonicalizeGreedy(raw: seq<Article>, joins: (Article, Article) -> bool, hash: Hash): (stories: seq<Story>)
    ensures PublishesBatch(raw, stories, hash)
    ensures |stories| == |Greedy(raw, joins)|
  {
    GreedyPartitions(raw, joins);
    CanonicalPublishes(raw, Greedy(raw, joins), hash);
    CanonicalizeAll(Greedy(raw, joins), hash)
  }

  /** The backup reader's refresh: an empty batch leaves the published
      stories as they were (`None`); otherwise the seed-scan clusters are
      canonicalised, which publishes the batch exactly as canonicalising
      greedy first match with the comparator's arguments swapped. */
  method RefreshBackup(raw: seq<Article>, sim: Ratio, hash: Hash) returns (published: Option<seq<Story>>)
    ensures published.None? <==> |raw| == 0
    ensures published.Some? ==> PublishesBatch(raw, published.value, hash)
    ensures published.Some? ==> published.value == CanonicalizeGreedy(raw, BackupJoins(sim), hash)
  {
    if |raw| == 0 {
      return None;
    }
    var stories := BackupStories(raw, sim, hash);
    published := Some(stories);
  }

  /** Canonicalises the seed-scan clusters of a batch. */
  method BackupStories(raw: seq<Article>, sim: Ratio, hash: Hash) returns (stories: seq<Story>)
    ensures stories == CanonicalizeGreedy(raw, BackupJoins(sim), hash)
  {
    var clusters := DeduplicateBackup(raw, sim);
    stories := CanonicalizeAll(clusters, hash);
  }

  // ---------------------------------------------------------------------
  // Demo reader
  // ---------------------------------------------------------------------

  /** The titles of a cluster's members, in member order. */
  function Titles(cluster: seq<DemoArticle>): (r: seq<string>)
    ensures |r| == |cluster| && forall m :: 0 <= m < |cluster| ==> r[m] == cluster[m].title
  {
    seq(|cluster|, m requires 0 <= m < |cluster| => cluster[m].title)
  }

  /** The demo reader's record for one cluster: the representative's title,
      content and timestamp, the title's hash as identifier, and the member
      titles as sources, one per member and the representative's first. */
  function DemoRecord(cluster: seq<DemoArticle>, hash: Hash): (b: Brief)
    requires |cluster| > 0
    ensures b.id == hash(cluster[0].title)
    ensures b.title == cluster[0].title && b.content == cluster[0].content && b.timestamp == cluster[0].timestamp
    ensures b.verbose == None
    ensures |b.sources| == |cluster| && b.sources[0] == b.title
    ensures forall m :: 0 <= m < |cluster| ==> b.sources[m] == cluster[m].title
  {
    var main := cluster[0];
    Brief(hash(main.title), main.title, main.content, main.timestamp, Titles(cluster), None)
  }

  /** The number of source entries over all records. */
  function SourceCount(briefs: seq<Brief>): nat
  {
    if |briefs| == 0 then 0 else |briefs[0].sources| + SourceCount(briefs[1..])
  }

  /** The demo reader's refresh: one record per cluster, in cluster order. */
  function RefreshDemo(batch: seq<DemoArticle>, sim: Ratio, hash: Hash): (r: seq<Brief>)
    ensures |r| == |DeduplicateDemo(batch, sim)| && |r| <= |batch|
    ensures forall k :: 0 <= k < |r| ==> r[k] == DemoRecord(DeduplicateDemo(batch, sim)[k], hash)
  {
    var clusters := DeduplicateDemo(batch, sim);
    seq(|clusters|, k requires 0 <= k < |clusters| => DemoRecord(clusters[k], hash))
  }

  lemma {:induction false} SourceCountIsMembers(clusters: seq<seq<DemoArticle>>, r: seq<Brief>)
    requires |r| == |clusters|
    requires forall k :: 0 <= k < |r| ==> |r[k].sources| == |clusters[k]|
    ensures SourceCount(r) == |Flatten(clusters)|
    decreases |r|
  {
    if |r| > 0 {
      SourceCountIsMembers(clusters[1..], r[1..]);
    }
  }

  /** Every article of the demo batch is listed exactly once: the records
      hold as many source entries as the batch has articles, and every
      article's title is among some record's sources. */
  lemma RefreshDemoListsEveryTitle(batch: seq<DemoArticle>, sim: Ratio, hash: Hash)
    ensures SourceCount(RefreshDemo(batch, sim, hash)) == |batch|
    ensures forall i :: 0 <= i < |batch| ==>
              exists k :: 0 <= k < |RefreshDemo(batch, sim, hash)| && batch[i].title in RefreshDemo(batch, sim, hash)[k].sources
  {
    var clusters := DeduplicateDemo(batch, sim);
    var r := RefreshDemo(batch, sim, hash);
    SourceCountIsMembers(clusters, r);
    assert |Flatten(clusters)| == |multiset(Flatten(clusters))| == |multiset(batch)|;
    forall i | 0 <= i < |batch|
      ensures exists k :: 0 <= k < |r| && batch[i].title in r[k].sources
    {
      assert batch[i] in multiset(Flatten(clusters));
      FlattenMemberFrom(clusters, batch[i]);
      var k :| 0 <= k < |clusters| && batch[i] in clusters[k];
      var m :| 0 <= m < |clusters[k]| && clusters[k][m] == batch[i];
      assert r[k].sources[m] == batch[i].title;
    }
  }
}
