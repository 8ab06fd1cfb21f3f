/** The list utilities of the restored reader: searching the published
    stories, ordering them, and counting liked stories per source. */
module Browse {
  import opened Basics
  import opened Text
  import opened Articles
  import opened Refresh
  import opened StableSort

  // ---------------------------------------------------------------------
  // Search
  // ---------------------------------------------------------------------

  /** The lowercased query occurs in the lowercased title, summary or source. */
  predicate Matches(a: Story, query: string)
  {
    var q := Lower(query);
    Contains(Lower(a.title), q) || Contains(Lower(a.summary), q) || Contains(Lower(a.source), q)
  }

  /** The matching articles, in input order. */
  function Keep(articles: seq<Story>, query: string): (r: seq<Story>)
    ensures IsSubseq(r, articles)
    ensures forall a :: multiset(r)[a] == if Matches(a, query) then multiset(articles)[a] else 0
  {
    if |articles| == 0 then []
    else
      var rest := Keep(articles[1..], query);
      assert articles == [articles[0]] + articles[1..];
      if Matches(articles[0], query) then
        assert ([articles[0]] + rest)[1..] == rest;
        [articles[0]] + rest
      else
        IsSubseqPrepend(rest, articles[0], articles[1..]);
        rest
  }

  /** `filter_articles`: an empty query returns the list as it is; any other
      query keeps, in order, exactly the articles that match it, each as
      often as it occurs. */
  function FilterArticles(articles: seq<Story>, query: string): (r: seq<Story>)
    ensures |query| == 0 ==> r == articles
    ensures IsSubseq(r, articles)
    ensures |query| > 0 ==> forall a :: a in r <==> a in articles && Matches(a, query)
    ensures |query| > 0 ==> forall a :: multiset(r)[a] == if Matches(a, query) then multiset(articles)[a] else 0
  {
    if |query| == 0 then
      IsSubseqReflexive(articles);
      articles
    else
      var r := Keep(articles, query);
      assert forall a :: a in r <==> multiset(r)[a] > 0;
      r
  }

  /** The query is matched without regard to ASCII case. */
  lemma FilterIgnoresCase(articles: seq<Story>, query: string)
    requires |query| > 0
    ensures FilterArticles(articles, Lower(query)) == FilterArticles(articles, query)
  {
    LowerIdempotent(query);
    assert forall a :: Matches(a, Lower(query)) == Matches(a, query);
    KeepRespectsMatches(articles, Lower(query), query);
  }

  lemma {:induction false} KeepRespectsMatches(articles: seq<Story>, q: string, q': string)
    requires forall a :: Matches(a, q) == Matches(a, q')
    ensures Keep(articles, q) == Keep(articles, q')
    decreases |articles|
  {
    if |articles| > 0 {
      KeepRespectsMatches(articles[1..], q, q');
    }
  }

  // ---------------------------------------------------------------------
  // Ordering
  // ---------------------------------------------------------------------

  /** The code points of a string, the key Python compares strings by. */
  function Codes(s: string): (r: seq<int>)
    ensures |r| == |s| && forall i :: 0 <= i < |s| ==> r[i] == s[i] as int
  {
    seq(|s|, i requires 0 <= i < |s| => s[i] as int)
  }

  /** Python's `<=` on strings. */
  predicate StrLe(a: string, b: string)
  {
    LexLe(Codes(a), Codes(b))
  }

  /** The sort instant of a timestamp (`get_timestamp_for_sorting`), a
      caller-supplied function. */
  type TimeKey = string -> int

  function TitleKey(): Story -> seq<int>
  {
    (a: Story) => Codes(Lower(a.title))
  }

  function SourceKey(): Story -> seq<int>
  {
    (a: Story) => Codes(Lower(a.source))
  }

  /** Newest first: the negated instant, so that `reverse=True` stays stable. */
  function RecentKey(timeKey: TimeKey): Story -> seq<int>
  {
    (a: Story) => [-timeKey(a.timestamp)]
  }

  /** The key `sort_articles` sorts by for a given order. */
  function OrderKey(order: string, timeKey: TimeKey): Story -> seq<int>
  {
    if order == "alphabetical" then TitleKey()
    else if order == "recent" then RecentKey(timeKey)
    else if order == "source" then SourceKey()
    else RecentKey(timeKey)
  }

  /** `sort_articles`: a permutation of the input ordered by the selected key
      (lowercased title, lowercased source, or newest first for "recent" and
      any other order), articles with equal keys keeping their input order. */
  function SortArticles(articles: seq<Story>, order: string, timeKey: TimeKey): (r: seq<Story>)
    ensures multiset(r) == multiset(articles)
    ensures order == "alphabetical" ==>
              forall i, j :: 0 <= i < j < |r| ==> StrLe(Lower(r[i].title), Lower(r[j].title))
    ensures order == "source" ==>
              forall i, j :: 0 <= i < j < |r| ==> StrLe(Lower(r[i].source), Lower(r[j].source))
    ensures order != "alphabetical" && order != "source" ==>
              forall i, j :: 0 <= i < j < |r| ==> timeKey(r[i].timestamp) >= timeKey(r[j].timestamp)
    ensures forall k :: WithKey(r, OrderKey(order, timeKey), k) == WithKey(articles, OrderKey(order, timeKey), k)
  {
    var key := OrderKey(order, timeKey);
    SortByIsStableSort(articles, key);
    var r := SortBy(articles, key);
    assert forall i, j :: 0 <= i < j < |r| ==> LexLe(key(r[i]), key(r[j]));
    r
  }

  /** The list view of a story list: the stories filtered by the query and
      then sorted are stories of the list, each shown at most as often as it
      occurs; with no query, all of them. */
  lemma ListViewShowsStories(published: seq<Story>, query: string, order: string, timeKey: TimeKey)
    ensures multiset(SortArticles(FilterArticles(published, query), order, timeKey)) <= multiset(published)
    ensures |query| == 0 ==> multiset(SortArticles(FilterArticles(published, query), order, timeKey)) == multiset(published)
  {
    var shown := FilterArticles(published, query);
    assert forall a :: multiset(shown)[a] <= multiset(published)[a];
  }

  /** The restored reader's list view composes with its refresh: what it
      shows are published stories, every one of them when there is no query. */
  lemma ListViewShowsPublished(raw: seq<Article>, sim: Ratio, hash: Hash, query: string, order: string, timeKey: TimeKey)
    ensures var published := RefreshRestored(raw, sim, hash);
            multiset(SortArticles(FilterArticles(published, query), order, timeKey)) <= multiset(published)
    ensures var published := RefreshRestored(raw, sim, hash);
            |query| == 0 ==> multiset(SortArticles(FilterArticles(published, query), order, timeKey)) == multiset(published)
  {
    ListViewShowsStories(RefreshRestored(raw, sim, hash), query, order, timeKey);
  }

  /** An order other than the three named ones sorts newest first. */
  lemma UnknownOrderIsRecent(articles: seq<Story>, order: string, timeKey: TimeKey)
    requires order != "alphabetical" && order != "recent" && order != "source"
    ensures SortArticles(articles, order, timeKey) == SortArticles(articles, "recent", timeKey)
  {
    assert OrderKey(order, timeKey) == OrderKey("recent", timeKey);
  }

  // ---------------------------------------------------------------------
  // Liked-story statistics
  // ---------------------------------------------------------------------

  /** Per-source counts in first-seen order, as a dictionary iterates. */
  type Counts = seq<(string, nat)>

  /** The source a liked record is counted under: its `source` field, or
      "Unknown" when the record has none. */
  function SourceName(source: Option<string>): string
  {
    match source
    case None => "Unknown"
    case Some(s) => s
  }

  /** The sources listed, in order. */
  function Keys(c: Counts): (r: seq<string>)
    ensures |r| == |c| && forall i :: 0 <= i < |c| ==> r[i] == c[i].0
  {
    seq(|c|, i requires 0 <= i < |c| => c[i].0)
  }

  /** Every source is listed at most once, as in a dictionary. */
  predicate DistinctKeys(c: Counts)
  {
    forall i, j :: 0 <= i < j < |c| ==> c[i].0 != c[j].0
  }

  /** `counts.get(s, 0)`. */
  function Lookup(c: Counts, s: string): nat
  {
    if |c| == 0 then 0 else if c[0].0 == s then c[0].1 else Lookup(c[1..], s)
  }

  /** The sum of the counts. */
  function Total(c: Counts): nat
  {
    if |c| == 0 then 0 else c[0].1 + Total(c[1..])
  }

  /** `counts[s] = counts.get(s, 0) + 1`: the entry for `s` is incremented,
      or appended with count 1 when `s` is new. */
  function Bump(c: Counts, s: string): (r: Counts)
    ensures |r| == |c| || |r| == |c| + 1
  {
    if |c| == 0 then [(s, 1)]
    else if c[0].0 == s then [(s, c[0].1 + 1)] + c[1..]
    else [c[0]] + Bump(c[1..], s)
  }

  /** A new source is appended at the end; a known one keeps its place. */
  lemma {:induction false} BumpKeys(c: Counts, s: string)
    ensures Keys(Bump(c, s)) == if s in Keys(c) then Keys(c) else Keys(c) + [s]
    decreases |c|
  {
    if |c| > 0 && c[0].0 != s {
      BumpKeys(c[1..], s);
      assert Keys(c) == [c[0].0] + Keys(c[1..]);
      assert Keys(Bump(c, s)) == [c[0].0] + Keys(Bump(c[1..], s));
    } else if |c| > 0 {
      assert Keys(c)[0] == s;
    }
  }

  /** Bumping `s` adds one to its count and leaves every other count. */
  lemma {:induction false} BumpCounts(c: Counts, s: string)
    ensures forall t :: Lookup(Bump(c, s), t) == Lookup(c, t) + (if t == s then 1 else 0)
    ensures Total(Bump(c, s)) == Total(c) + 1
    ensures (forall i :: 0 <= i < |c| ==> c[i].1 > 0) ==> forall i :: 0 <= i < |Bump(c, s)| ==> Bump(c, s)[i].1 > 0
    decreases |c|
  {
    if |c| > 0 && c[0].0 != s {
      BumpCounts(c[1..], s);
      var r := Bump(c, s);
      assert r[1..] == Bump(c[1..], s);
      if forall i :: 0 <= i < |c| ==> c[i].1 > 0 {
        assert forall i :: 0 <= i < |c[1..]| ==> c[1..][i].1 > 0 by {
          forall i | 0 <= i < |c[1..]| ensures c[1..][i].1 > 0 {
            assert c[1..][i] == c[i + 1];
          }
        }
        forall i | 0 <= i < |r| ensures r[i].1 > 0 {
          if i > 0 {
            assert r[i] == r[1..][i - 1];
          }
        }
      }
    } else if |c| > 0 {
      var r := Bump(c, s);
      assert r[1..] == c[1..];
    }
  }

  /** Bumping keeps every source listed once. */
  lemma BumpDistinct(c: Counts, s: string)
    requires DistinctKeys(c)
    ensures DistinctKeys(Bump(c, s))
  {
    BumpKeys(c, s);
    var r := Bump(c, s);
    var kc, kr := Keys(c), Keys(r);
    forall i, j | 0 <= i < j < |r| ensures r[i].0 != r[j].0 {
      assert kr[i] == r[i].0 && kr[j] == r[j].0;
      if j < |c| {
        assert kr[i] == kc[i] && kr[j] == kc[j];
        assert kc[i] == c[i].0 && kc[j] == c[j].0;
      } else {
        assert s !in kc && kr[j] == s && kr[i] == kc[i];
      }
    }
  }

  /** The number of records counted under `s`. */
  function Occurrences(sources: seq<Option<string>>, s: string): nat
  {
    if |sources| == 0 then 0
    else Occurrences(sources[..|sources| - 1], s) + (if SourceName(sources[|sources| - 1]) == s then 1 else 0)
  }

  /** The counting loop of `get_article_stats` over the records' `source`
      fields. */
  function CountSources(sources: seq<Option<string>>): (c: Counts)
    ensures DistinctKeys(c)
    ensures Total(c) == |sources|
    ensures forall s :: Lookup(c, s) == Occurrences(sources, s)
    ensures forall i :: 0 <= i < |c| ==> c[i].1 > 0
  {
    if |sources| == 0 then []
    else
      var n := |sources| - 1;
      var prior := CountSources(sources[..n]);
      BumpDistinct(prior, SourceName(sources[n]));
      BumpCounts(prior, SourceName(sources[n]));
      Bump(prior, SourceName(sources[n]))
  }

  /** `get_article_stats`: the number of liked records and the per-source
      counts, which sum to it; each source's count is the number of records
      under that source, a record without one counted under "Unknown". */
  function ArticleStats(sources: seq<Option<string>>): (r: (nat, Counts))
    ensures r.0 == |sources|
    ensures DistinctKeys(r.1) && Total(r.1) == r.0
    ensures forall s :: Lookup(r.1, s) == Occurrences(sources, s)
    ensures forall i :: 0 <= i < |r.1| ==> r.1[i].1 > 0
  {
    (|sources|, CountSources(sources))
  }

  /** The number of records without a source. */
  function MissingCount(sources: seq<Option<string>>): nat
  {
    if |sources| == 0 then 0
    else MissingCount(sources[..|sources| - 1]) + (if sources[|sources| - 1].None? then 1 else 0)
  }

  lemma {:induction false} MissingCounted(sources: seq<Option<string>>)
    ensures Occurrences(sources, "Unknown") >= MissingCount(sources)
    ensures (forall i :: 0 <= i < |sources| ==> sources[i] != Some("Unknown"))
            ==> Occurrences(sources, "Unknown") == MissingCount(sources)
    decreases |sources|
  {
    if |sources| > 0 {
      var n := |sources| - 1;
      MissingCounted(sources[..n]);
      if forall i :: 0 <= i < |sources| ==> sources[i] != Some("Unknown") {
        assert forall i :: 0 <= i < n ==> sources[..n][i] != Some("Unknown") by {
          forall i | 0 <= i < n ensures sources[..n][i] != Some("Unknown") {
            assert sources[..n][i] == sources[i];
          }
        }
      }
    }
  }

  /** Every record without a source is counted under "Unknown"; when no
      record names "Unknown" itself, that count is exactly the records
      without a source. */
  lemma MissingSourceIsUnknown(sources: seq<Option<string>>)
    ensures Lookup(ArticleStats(sources).1, "Unknown") >= MissingCount(sources)
    ensures (forall i :: 0 <= i < |sources| ==> sources[i] != Some("Unknown"))
            ==> Lookup(ArticleStats(sources).1, "Unknown") == MissingCount(sources)
  {
    MissingCounted(sources);
    StatsCountUnder(sources, "Unknown");
  }

  /** The statistics' count under one source name. */
  lemma StatsCountUnder(sources: seq<Option<string>>, s: string)
    ensures Lookup(ArticleStats(sources).1, s) == Occurrences(sources, s)
  {
  }
}
