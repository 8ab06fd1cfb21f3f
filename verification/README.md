# briefs: a verified model of the news reader's core

briefs is a Streamlit news reader. It fetches RSS entries from many feeds and
normalises each entry into an article. It groups articles that report the
same story, publishing one record per group, and lets the reader search,
order and like the published stories. The repository has three versions of
the app:

- `app.py` is the demo reader. It has a fixed batch, and a record lists its
  members' titles.
- `app_enhanced_restored.py` is the restored enhanced reader. It clusters
  by greedy first match.
- `app_enhanced_backup.py` is the backup enhanced reader. It clusters by a
  seed scan over a set of processed indices.

This project models the pure pipeline inside those files as Dafny datatypes
and functions, and proves what the pipeline promises.

- `basics.dfy` (`Basics`): `Option`, flattening a list of clusters, the
  subsequence relation.
- `text.dfy` (`Text`): lowercasing (ASCII), substring search, removing every
  occurrence of a pattern (`str.replace(p, "")`), and decimal rendering with
  its inverse.
- `clustering.dfy` (`Clustering`): the two clustering algorithms, generic in
  the article type.
  - `Greedy`: every article joins the first cluster, in creation order, whose
    representative it `joins`; otherwise it opens a new cluster.
  - `SeedScan`: a method with loop invariants over the processed-index set.
  - `SeedPartition`: the reference. A seed followed by everything it claims
    forms the first cluster, and the unclaimed rest is clustered the same
    way.
  - The two algorithms are proved to compute the same clusters when the
    comparator's arguments are swapped.
- `cluster_indices.dfy` (`ClusterIndices`): clustering the input positions
  instead of the articles. This is how "clusters keep input order" is stated
  and proved.
- `articles.dfy` (`Articles`): the article records and the three
  `deduplicate_articles` functions. Each has its own comparison text and the
  strict `> 0.85` threshold on a similarity ratio supplied by the caller.
- `refresh.dfy` (`Refresh`): the loop body of `refresh`, which turns every
  cluster into one story record.
- `normalize.dfy` (`Normalize`): summary truncation, both `extract_domain`
  post-processings, and the timestamp fallback chain of
  `extract_timestamp_from_entry`.
- `timeago.dfy` (`TimeAgo`): the bucketing in `format_time_ago`, and reading
  a label back.
- `sort.dfy` (`StableSort`): a stable keyed sort, standing for Python's
  `sorted(..., key=...)`.
- `browse.dfy` (`Browse`): `filter_articles` and `sort_articles` over the
  published stories, and the per-source counting in `get_article_stats`.

The following library calls are parameters of the model:

- `difflib.SequenceMatcher(None, a, b).ratio()` is `sim: (string, string) -> real`.
  It is not assumed symmetric, except in one lemma that takes symmetry as a
  hypothesis.
- SHA-256 (`generate_hash`) is `hash: string -> string`.
- The `datetime` conversions in the timestamp chain are `fromTuple` and
  `fromDate`, and `utcnow()` is `now`.
- The sort instant of a timestamp (`get_timestamp_for_sorting`) is `timeKey`.
- `urlparse(url).netloc` is an `Option<string>`. `None` stands for parsing
  raising.
- `format_time_ago` receives the elapsed whole seconds as an `Option<int>`.
  `None` stands for a timestamp that does not parse.

## Model

| member | source | states |
|---|---|---|
| Clustering.PlaceJoinsFirstMatch | app_enhanced_restored.py:407-413 | an article is appended to the first cluster, in creation order, whose representative it is similar to, and every other cluster is unchanged |
| Clustering.PlaceOpensCluster | app_enhanced_restored.py:415-416 | an article similar to no representative opens a new singleton cluster at the end |
| Clustering.PlaceKeepsPlacements | app_enhanced_restored.py:403-416 | placing an article never moves an earlier one: each cluster stays as it was or gains only the new article, and at most one cluster is added |
| Clustering.GreedyPartitions | app_enhanced_restored.py:403-418 | greedy first match partitions the batch. Clusters are non-empty and hold every article exactly as often as the input. There are no more clusters than articles, and the first article leads the first cluster. Every member joins its representative and joins no earlier representative |
| Clustering.GreedySingleton | app.py:34-52 | a single article yields exactly one singleton cluster |
| Clustering.GreedyRespectsVerdicts | app_enhanced_restored.py:409-410 | the clusters depend only on the comparator's verdicts: comparators that agree everywhere give the same clusters |
| Clustering.ClaimLater | app_enhanced_backup.py:377-392 | the inner loop builds the seed followed by exactly the later unprocessed articles the seed claims. Afterwards the unprocessed articles after the seed are exactly the unclaimed ones |
| Clustering.SeedScan | app_enhanced_backup.py:366-396 | the seed scan over a processed-index set computes the reference partition: each seed with all it claims, then the unclaimed rest |
| Clustering.GreedyIsSeedPartition | app_enhanced_backup.py:372-394 | greedy first match with `joins(x, rep)` equals the seed-scan partition with `claims(rep, x)`: same clusters, cluster order and member order |
| Clustering.SeedPartitionPartitions | app_enhanced_backup.py:370-394 | the seed-scan clusters are non-empty and hold every article exactly as often as the input. There are no more of them than articles, and the first article is the first seed |
| Clustering.SeedPartitionMembersClaimed | app_enhanced_backup.py:381-392 | every non-seed member of a cluster is claimed by its seed |
| Clustering.SeedPartitionFirstClaim | app_enhanced_backup.py:372-392 | no member of a cluster is claimed by an earlier seed |
| ClusterIndices.GreedyIndicesOrdered | app_enhanced_restored.py:403-418 | the clusters are the input read at a partition of its positions. Every position occurs once, positions increase inside each cluster, and representatives' positions increase from cluster to cluster |
| ClusterIndices.GreedyKeepsInputOrder | app_enhanced_backup.py:372-394 | the clusters keep input order, both between clusters and within each cluster |
| Articles.DeduplicateDemo | app.py:33-52 | the demo clustering over `title + content` partitions the batch in input order. Empty yields no clusters and one article yields one cluster. A member's ratio to its representative is `> 0.85`, and to every earlier representative `<= 0.85` |
| Articles.DemoBatchClusters | app.py:37-50 | a batch whose second article restates the first, with two unrelated others, gives `[[a0, a1], [a2], [a3]]` |
| Articles.ExactThresholdKeepsApart | app.py:43-50 | a ratio of exactly 0.85 does not merge |
| Articles.DeduplicateRestored | app_enhanced_restored.py:399-418 | the restored clustering over `title + summary` is an order-preserving partition. Members total the input length and clusters number at most the input length. The first article is the first representative. Members are `> 0.85` against their representative and `<= 0.85` against earlier ones |
| Articles.DeduplicateBackup | app_enhanced_backup.py:364-396 | the seed scan over `lower(title + " " + summary)` equals greedy first match with `sim(rep, x)`. Empty input gives no clusters. The clusters partition the input in order, every member satisfies `sim(seed, m) > 0.85`, and no member has `sim(earlier seed, m) > 0.85` |
| Articles.BackupSymmetricIsGreedy | app_enhanced_backup.py:388-390 | under an explicitly symmetric ratio, the seed scan is greedy first match in the restored reader's argument order |
| Refresh.Distinct | app_enhanced_restored.py:522 | the de-duplicated links have no repetition and have exactly the members' links as elements |
| Refresh.Canonical | app_enhanced_backup.py:417-431 | a cluster's record copies title, summary, link, timestamp, source and domain from its first member, with `id = hash(title)` and verbose None. Its sources are without duplicates, are exactly the member links, and include the representative's link |
| Refresh.CanonicalizeAll | app_enhanced_backup.py:416-431 | one record per cluster, in cluster order. Representatives with the same title give the same id |
| Refresh.StoriesShowBatch | app_enhanced_restored.py:520-535 | every record shows an article of the batch under its title's hash |
| Refresh.StoriesCoverLinks | app_enhanced_restored.py:520-535 | every article's link is listed by some record |
| Refresh.StoriesListBatchLinks | app_enhanced_restored.py:520-535 | every listed link is the link of an article of the batch |
| Refresh.CanonicalPublishes | app_enhanced_restored.py:517-535 | canonicalising any partition of a batch that keeps its first article first publishes the batch |
| Refresh.RefreshRestored | app_enhanced_restored.py:517-535 | the restored refresh publishes the batch, with one record per greedy cluster |
| Refresh.CanonicalizeGreedy | app_enhanced_backup.py:413-431 | canonicalising the greedy clusters publishes the batch, with one record per cluster |
| Refresh.RefreshBackup | app_enhanced_backup.py:407-431 | an empty batch publishes nothing (`None`). Otherwise the seed-scan records publish the batch and equal the greedy records with swapped comparator |
| Refresh.BackupStories | app_enhanced_backup.py:413-431 | canonicalising the seed-scan clusters gives the records of greedy first match with the swapped comparator |
| Refresh.DemoRecord | app.py:98-107 | the demo record takes title, content and timestamp from the representative, with `id = hash(title)` and verbose None. Its sources are the member titles, one per member, the representative's first |
| Refresh.RefreshDemo | app.py:95-108 | one demo record per cluster, in cluster order, with no more records than articles |
| Refresh.RefreshDemoListsEveryTitle | app.py:97-106 | the demo records hold exactly as many source entries as the batch has articles, and every article's title is listed |
| Normalize.TruncateSummary | app_enhanced_restored.py:321-322 | a summary of at most 300 characters is unchanged. A longer one becomes its first 297 characters and "...", exactly 300 |
| Normalize.TruncateIdempotent | app_enhanced_restored.py:321-322 | truncating an already truncated summary changes nothing |
| Normalize.TruncateKeepsShort | app_enhanced_backup.py:287-288 | truncation leaves a summary unchanged exactly when it has at most 300 characters |
| Normalize.ExtractDomainBackup | app_enhanced_backup.py:200-206 | parse failure gives "unknown", and the result has no capitals. A lowercased host without a leading "www." is returned as is. Otherwise the whole lowercased host goes through `replace("www.", "")`, which removes every non-overlapping "www." from left to right, the leading one included |
| Normalize.ExtractDomainRestored | app_enhanced_restored.py:206-211 | parse failure gives "unknown". The host is never lengthened, and a host without "www." is returned unchanged |
| Normalize.BackupDomainAgreesWithoutInnerWww | app_enhanced_backup.py:203-204 | as written and as intended agree on every host with no "www." past the leading one |
| Normalize.BackupDomainCutsInnerWww | app_enhanced_backup.py:204 | "www.awww.com" shows as "acom"; the intended result is "awww.com" |
| Normalize.RestoredDomainCutsInnerWww | app_enhanced_restored.py:209 | "awww.com" shows as "acom"; the intended result is "awww.com" |
| Normalize.RestoredDomainAgreesWithoutInnerWww | app_enhanced_restored.py:209 | on every host with no "www." other than a leading one, the code as written gives the intended result: "www.example.com" shows as "example.com" |
| Normalize.ExtractDomainBackupFixed | app_enhanced_backup.py:203-204 | parse failure gives "unknown". A lowercased host starting with "www." loses exactly that prefix and nothing else; any other lowercased host is returned unchanged |
| Normalize.ExtractDomainRestoredFixed | app_enhanced_restored.py:209 | parse failure gives "unknown". A host starting with "www." loses exactly that prefix and nothing else; any other host is returned unchanged |
| Normalize.ExtractTimestamp | app_enhanced_restored.py:271-313 | the first usable source wins, in the order published_parsed, updated_parsed, published, updated. With none usable the current time is used, so the result is non-empty |
| Normalize.ExtractTimestampIsFirstUsable | app_enhanced_restored.py:271-313 | the fallback chain equals the first usable candidate in precedence order |
| Normalize.LaterSourcesIgnored | app_enhanced_restored.py:283-307 | once a source has produced a time, the later sources do not affect the result |
| TimeAgo.Bucket | app_enhanced_restored.py:224-234 | a failed parse is "recent". A non-negative elapsed time gets the label that describes it: whole days from a day, whole hours above an hour, whole minutes above a minute, else "just now". A negative elapsed time gets the label of its seconds part alone, the elapsed time modulo a day |
| TimeAgo.DescribesUnique | app_enhanced_restored.py:227-234 | the buckets do not overlap: every elapsed time has at most one label |
| TimeAgo.RenderParses | app_enhanced_restored.py:228-234 | every label text reads back as the label it renders |
| TimeAgo.ParseRenders | app_enhanced_restored.py:228-234 | a text that reads back as a label is that label's own rendering: counts are printed without leading zeros, so no other text denotes the same label |
| TimeAgo.FormatTimeAgo | app_enhanced_restored.py:213-236 | the label text reads back as the bucket of the elapsed time, and it is the only text that does, so the count is printed as Python prints it. The text is "recent" when the timestamp does not parse |
| TimeAgo.HourBoundary | app_enhanced_restored.py:229-232 | exactly an hour is "60m ago" |
| TimeAgo.MinuteBoundary | app_enhanced_restored.py:231-234 | exactly a minute is "just now" |
| TimeAgo.DayBoundary | app_enhanced_restored.py:227-230 | exactly a day is "1d ago", and an hour and a second is "1h ago" |
| TimeAgo.FutureReadsAsADayLater | app_enhanced_backup.py:220-227 | a timestamp less than a day in the future is labelled as if a day older |
| TimeAgo.FutureTimestampShowsHours | app_enhanced_backup.py:220-229 | 400 seconds in the future shows "23h ago"; the intended label is "just now" |
| TimeAgo.BucketFixed | app_enhanced_restored.py:225-234 | a future time is "just now", and every other time gets the label that describes it |
| TimeAgo.FormatTimeAgoFixed | app_enhanced_restored.py:225-234 | the corrected label reads back as the corrected bucket, and it is the only text that does. It agrees with the original for past times and is "just now" for future ones |
| StableSort.SortByIsStableSort | app_enhanced_restored.py:441-447 | keyed sorting returns a permutation of the input, ordered by key, in which equal keys keep their input order |
| Browse.SortArticles | app_enhanced_restored.py:438-447 | `sort_articles` returns a permutation. It is ordered by lowercased title for "alphabetical", by lowercased source for "source", and newest first otherwise. Equal keys keep input order |
| Browse.UnknownOrderIsRecent | app_enhanced_restored.py:446-447 | an unknown order sorts exactly as "recent" |
| Browse.Keep | app_enhanced_restored.py:428-436 | the matching articles form a subsequence of the input containing each matching article as often as the input does, and no other |
| Browse.FilterArticles | app_enhanced_restored.py:420-436 | an empty query returns the list unchanged. Otherwise the result is an order-preserving subsequence holding exactly the articles whose lowercased title, summary or source contains the lowercased query |
| Browse.ListViewShowsStories | app_enhanced_restored.py:735-736 | the list view, filtering then sorting, shows only stories of the list, each at most as often as it occurs; with no query it shows every one of them |
| Browse.ListViewShowsPublished | app_enhanced_restored.py:735-736 | the list view over the restored reader's refresh result shows only published stories, and all of them when there is no query |
| Browse.FilterIgnoresCase | app_enhanced_restored.py:425-431 | filtering by a query and by its lowercase gives the same result |
| Browse.BumpCounts | app_enhanced_restored.py:505 | incrementing a source adds one to that source's count and to the total, and leaves every other count |
| Browse.BumpDistinct | app_enhanced_restored.py:505 | incrementing keeps every source listed once |
| Browse.CountSources | app_enhanced_restored.py:503-505 | every source is listed once with a positive count. Each count is that source's number of records, and the counts sum to the number of records |
| Browse.ArticleStats | app_enhanced_restored.py:497-507 | the total is the number of liked records, and the per-source counts sum to it |
| Browse.MissingSourceIsUnknown | app_enhanced_restored.py:504 | every record without a source is counted under "Unknown". When no record names "Unknown" itself, that count is exactly the records without a source |

## Left out

- The Streamlit UI and session state are not modelled. They are presentation: rendering, page configuration, CSS, buttons, `initialize_session_state`.
- RSS fetching is not modelled, because it is network I/O and concurrency. This covers `requests`, `feedparser`, the thread pool, sleeps and logging. The backup reader's own per-entry timestamp code inside its fetch loop is part of that.
- The TinyDB calls `is_liked`, `is_discarded`, `like_article`, `discard_article`, `mark_as_read` and `db.all()` are thin wrappers over a library outside this model. `get_article_stats` receives the liked records' `source` fields as its input.
- difflib's ratio, SHA-256, BeautifulSoup's `get_text`, `urlparse`, `str.strip()`, `email.utils.parsedate_tz` and the `datetime` constructors are library code, so they are parameters or inputs.
- `bold_quantifiables` is not modelled: its chain of regular-expression rewrites is out of proportion to what it promises. Because it runs after truncation, a published summary can exceed 300 characters; `TruncateSummary` bounds only the truncation step.
- The regular-expression tag-stripping fallback of `strip_html` is not modelled, because it runs only when the HTML parser raises.
- `get_timestamp_for_sorting` is the parameter `timeKey`. Its `utcnow()` fallback for an unparseable timestamp is nondeterministic.
- Browse.SortArticles: "recent" sorts on the negated instant, which is ascending order on `-timeKey`. Python's `reverse=True` also keeps equal keys in input order, so the results agree. `x.get("source", "")` is modelled as the article's `source` field, because normalised articles always carry one.
- Text.Lower: lowercasing is ASCII only. Python's `str.lower()` also folds non-ASCII letters.
- TimeAgo.Bucket: the elapsed time is whole seconds, and microseconds are dropped. `None` ("recent") stands for `fromisoformat` raising, the only failure: `now` takes the parsed time's own `tzinfo`, so the subtraction never mixes aware and naive values.
- TimeAgo.FormatTimeAgo: the elapsed time is an input, so the model does not fix how it relates to the clock. In the source, `now` for a naive timestamp is naive local time. The stored timestamps are naive too, and their time zone depends on the path that produced them:
  - the `published_parsed` and `updated_parsed` paths, which the feed library normalises to UTC, and the `utcnow()` fallback give UTC;
  - the `published` and `updated` string paths build `datetime(*parsed_date[:6])` from `email.utils.parsedate_tz`, which is the feed's own wall-clock time with the offset in `parsed_date[9]` discarded.

  The elapsed time is therefore off by the host's UTC offset, and for entries dated through the string paths also by the feed's own offset. On a host west of UTC, or for a feed east of it, a fresh story has a negative elapsed time, which is the future-timestamp case under "## Findings".
- Refresh.Distinct: `list(set(...))` has no specified order. The model keeps first occurrences, and its contract states only distinctness and the element set, which is all the source promises.
- Normalize.ExtractDomainRestored: the contract states the parse failure, the length bound and the host without "www.". Agreement with the fixed version on hosts with no "www." other than a leading one is proved separately by Normalize.RestoredDomainAgreesWithoutInnerWww, and a host where the two differ is exhibited by Normalize.RestoredDomainCutsInnerWww. The result on a host with an inner "www." is given only by the body's `RemoveAll`, not by a closed formula in the contract.
- Normalize.ExtractDomainBackup: `urlparse` itself is not modelled. The model starts from its `netloc` and treats an exception as `None`.

## Findings

| source | as written | input that shows it | evidently intended | confidence | as-written member | corrected member |
|---|---|---|---|---|---|---|
| app_enhanced_backup.py:204 | once the host starts with "www.", `replace("www.", "")` removes every "www." in it | host "www.awww.com" shows "acom" | drop only the leading "www.", giving "awww.com" | high; not executed | Normalize.BackupDomainCutsInnerWww | Normalize.ExtractDomainBackupFixed |
| app_enhanced_restored.py:209 | `netloc.replace("www.", "")` removes every "www.", leading or not | host "awww.com" shows "acom" | drop only a leading "www.", giving "awww.com" | high; not executed | Normalize.RestoredDomainCutsInnerWww | Normalize.ExtractDomainRestoredFixed |
| app_enhanced_backup.py:220-229 (also app_enhanced_restored.py:225-234) | a future timestamp gives a negative difference with `days == -1`, and `seconds` is then read alone | a timestamp 400 seconds ahead of the clock shows "23h ago" | a future timestamp (clock skew) shows "just now" | medium; not executed | TimeAgo.FutureTimestampShowsHours | TimeAgo.FormatTimeAgoFixed |
