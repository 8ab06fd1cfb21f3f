/** Normalisation of one feed entry: summary truncation, the host shown for
    a link, and the published time chosen from the entry's date fields.

    HTML stripping, whitespace trimming and URL parsing are library calls:
    their outputs are the inputs here. */
module Normalize {
  import opened Basics
  import opened Text

  // ---------------------------------------------------------------------
  // Summary truncation
  // ---------------------------------------------------------------------

  const MaxSummary: nat := 300
  const Ellipsis: string := "..."

  /** A summary over 300 characters keeps its first 297 and gains "...". */
  function TruncateSummary(s: string): (r: string)
    ensures |r| <= MaxSummary
    ensures |s| <= MaxSummary ==> r == s
    ensures |s| > MaxSummary ==> |r| == MaxSummary && r[..297] == s[..297] && r[297..] == Ellipsis
  {
    if |s| > MaxSummary then s[..297] + Ellipsis else s
  }

  /** Truncating twice is truncating once. */
  lemma TruncateIdempotent(s: string)
    ensures TruncateSummary(TruncateSummary(s)) == TruncateSummary(s)
  {
  }

  /** A truncated summary is the original exactly when nothing was cut. */
  lemma TruncateKeepsShort(s: string)
    ensures TruncateSummary(s) == s <==> |s| <= MaxSummary
  {
    if |s| > MaxSummary {
      assert |TruncateSummary(s)| != |s|;
    }
  }

  // ---------------------------------------------------------------------
  // Domain of a link
  // ---------------------------------------------------------------------

  const Www: string := "www."

  /** The backup reader's host post-processing: lowercase the host, and if it
      starts with "www." remove every "www." in it. `None` stands for URL
      parsing raising, which shows "unknown". */
  function ExtractDomainBackup(netloc: Option<string>): (r: string)
    ensures netloc.None? ==> r == "unknown"
    ensures netloc.Some? ==> forall i :: 0 <= i < |r| ==> !IsUpper(r[i])
    ensures netloc.Some? && !(Www <= Lower(netloc.value)) ==> r == Lower(netloc.value)
    ensures netloc.Some? && Www <= Lower(netloc.value) ==> r == RemoveAll(Lower(netloc.value)[4..], Www)
  {
    match netloc
    case None => "unknown"
    case Some(host) =>
      var d := Lower(host);
      if Www <= d then
        RemoveAllLeading(Www, d[4..]);
        assert d == Www + d[4..];
        LowerKeepsLower(d, Www);
        RemoveAll(d, Www)
      else d
  }

  /** The restored reader's host post-processing: remove every "www." from
      the host as given, without lowercasing and whether or not it leads. */
  function ExtractDomainRestored(netloc: Option<string>): (r: string)
    ensures netloc.None? ==> r == "unknown"
    ensures netloc.Some? ==> |r| <= |netloc.value|
    ensures netloc.Some? && !Contains(netloc.value, Www) ==> r == netloc.value
  {
    match netloc
    case None => "unknown"
    case Some(host) =>
      RemoveAllUnchanged(host);
      RemoveAll(host, Www)
  }

  /** A host without "www." is left as it is by the removal. */
  lemma RemoveAllUnchanged(host: string)
    ensures !Contains(host, Www) ==> RemoveAll(host, Www) == host
  {
    if !Contains(host, Www) {
      RemoveAllAbsent(host, Www);
    }
  }

  /** Removing a pattern from a string without capitals leaves no capitals. */
  lemma {:induction false} LowerKeepsLower(s: string, pat: string)
    requires |pat| > 0
    requires forall i :: 0 <= i < |s| ==> !IsUpper(s[i])
    ensures forall i :: 0 <= i < |RemoveAll(s, pat)| ==> !IsUpper(RemoveAll(s, pat)[i])
    decreases |s|
  {
    if |s| >= |pat| {
      LowerKeepsLower(s[1..], pat);
      if pat <= s {
        LowerKeepsLower(s[|pat|..], pat);
      }
    }
  }

  /** The evidently intended post-processing: drop one leading "www.". */
  function StripWwwPrefix(d: string): (r: string)
    ensures Www <= d ==> d == Www + r
    ensures !(Www <= d) ==> r == d
    ensures |r| <= |d|
  {
    if Www <= d then d[4..] else d
  }

  /** The backup reader's post-processing with only the leading "www." removed. */
  function ExtractDomainBackupFixed(netloc: Option<string>): (r: string)
    ensures netloc.None? ==> r == "unknown"
    ensures netloc.Some? && Www <= Lower(netloc.value) ==> Lower(netloc.value) == Www + r
    ensures netloc.Some? && !(Www <= Lower(netloc.value)) ==> r == Lower(netloc.value)
  {
    match netloc
    case None => "unknown"
    case Some(host) => StripWwwPrefix(Lower(host))
  }

  /** The restored reader's post-processing with only a leading "www." removed. */
  function ExtractDomainRestoredFixed(netloc: Option<string>): (r: string)
    ensures netloc.None? ==> r == "unknown"
    ensures netloc.Some? && Www <= netloc.value ==> netloc.value == Www + r
    ensures netloc.Some? && !(Www <= netloc.value) ==> r == netloc.value
  {
    match netloc
    case None => "unknown"
    case Some(host) => StripWwwPrefix(host)
  }

  /** As written and as intended agree on hosts with no "www." after the
      leading one. */
  lemma BackupDomainAgreesWithoutInnerWww(host: string)
    requires Www <= Lower(host) ==> !Contains(Lower(host)[4..], Www)
    ensures ExtractDomainBackup(Some(host)) == ExtractDomainBackupFixed(Some(host))
  {
    var d := Lower(host);
    if Www <= d {
      RemoveAllAbsent(d[4..], Www);
    }
  }

  /** As written and as intended agree on hosts with no "www." other than a
      leading one: "www.example.com" shows "example.com", and a host without
      "www." is shown as it is. */
  lemma RestoredDomainAgreesWithoutInnerWww(host: string)
    requires !Contains(if Www <= host then host[4..] else host, Www)
    ensures ExtractDomainRestored(Some(host)) == ExtractDomainRestoredFixed(Some(host))
  {
    if Www <= host {
      assert host == Www + host[4..];
      RemoveAllLeading(Www, host[4..]);
      RemoveAllAbsent(host[4..], Www);
    } else {
      RemoveAllAbsent(host, Www);
    }
  }

  /** "www.awww.com" loses the inner "www." as well: the backup reader shows
      "acom" where "awww.com" is meant. */
  lemma BackupDomainCutsInnerWww()
    ensures ExtractDomainBackup(Some("www.awww.com")) == "acom"
    ensures ExtractDomainBackupFixed(Some("www.awww.com")) == "awww.com"
  {
    var d := "www.awww.com";
    assert Lower(d) == d by { LowerNoUpper(d); }
    assert d[4..] == "awww.com";
    RemoveAllSample();
  }

  /** "awww.com" has no leading "www." and still loses one: the restored
      reader shows "acom". */
  lemma RestoredDomainCutsInnerWww()
    ensures ExtractDomainRestored(Some("awww.com")) == "acom"
    ensures ExtractDomainRestoredFixed(Some("awww.com")) == "awww.com"
  {
    assert OccursAt("awww.com", Www, 1);
    RemoveAllSample();
  }

  lemma RemoveAllSample()
    ensures RemoveAll("awww.com", Www) == "acom"
  {
    var s := "awww.com";
    assert !(Www <= s);
    assert s[1..] == "www.com" && Www <= s[1..] && s[1..][4..] == "com";
    RemoveAllAbsent("com", Www);
  }

  lemma {:induction false} LowerNoUpper(s: string)
    requires forall i :: 0 <= i < |s| ==> !IsUpper(s[i])
    ensures Lower(s) == s
    decreases |s|
  {
    if |s| > 0 {
      LowerNoUpper(s[1..]);
    }
  }

  // ---------------------------------------------------------------------
  // Published time of a feed entry
  // ---------------------------------------------------------------------

  /** The date fields of a feed entry; `None` is an absent key. */
  datatype FeedEntry = FeedEntry(publishedParsed: Option<seq<int>>, updatedParsed: Option<seq<int>>,
                                 published: Option<string>, updated: Option<string>)

  /** `datetime(*t[:6]).isoformat()`; `None` when the constructor raises. */
  type FromTuple = seq<int> -> Option<string>

  /** `parsedate_tz` followed by the same conversion; `None` when parsing
      fails or raises. */
  type FromDate = string -> Option<string>

  /** A converted time is kept only when it is a non-empty string. */
  function Usable(t: Option<string>): Option<string>
  {
    if t.Some? && |t.value| > 0 then t else None
  }

  /** A structured time is tried only when present and non-empty. */
  function TryTuple(t: Option<seq<int>>, fromTuple: FromTuple): Option<string>
  {
    if t.Some? && |t.value| > 0 then Usable(fromTuple(t.value)) else None
  }

  /** A date string is tried only when present and non-empty. */
  function TryDate(t: Option<string>, fromDate: FromDate): Option<string>
  {
    if t.Some? && |t.value| > 0 then Usable(fromDate(t.value)) else None
  }

  /** The four sources in precedence order. */
  function Candidates(e: FeedEntry, fromTuple: FromTuple, fromDate: FromDate): seq<Option<string>>
  {
    [TryTuple(e.publishedParsed, fromTuple), TryTuple(e.updatedParsed, fromTuple),
     TryDate(e.published, fromDate), TryDate(e.updated, fromDate)]
  }

  /** Reference: the first usable candidate, or `now`. */
  function FirstUsable(cs: seq<Option<string>>, now: string): string
  {
    if |cs| == 0 then now else if cs[0].Some? then cs[0].value else FirstUsable(cs[1..], now)
  }

  /** The published time of an entry: each source is consulted only while no
      earlier one has produced a time, and the current time is the last
      resort. */
  function ExtractTimestamp(e: FeedEntry, fromTuple: FromTuple, fromDate: FromDate, now: string): (r: string)
    ensures forall k :: 0 <= k < 4 && Candidates(e, fromTuple, fromDate)[k].Some?
              && (forall j :: 0 <= j < k ==> Candidates(e, fromTuple, fromDate)[j].None?)
              ==> r == Candidates(e, fromTuple, fromDate)[k].value
    ensures (forall k :: 0 <= k < 4 ==> Candidates(e, fromTuple, fromDate)[k].None?) ==> r == now
    ensures |now| > 0 ==> |r| > 0
  {
    var cs := Candidates(e, fromTuple, fromDate);
    var t0: Option<string> := None;
    var t1 := if t0.None? then TryTuple(e.publishedParsed, fromTuple) else t0;
    var t2 := if t1.None? then TryTuple(e.updatedParsed, fromTuple) else t1;
    var t3 := if t2.None? then TryDate(e.published, fromDate) else t2;
    var t4 := if t3.None? then TryDate(e.updated, fromDate) else t3;
    assert t1 == cs[0] && (t1.None? ==> t2 == cs[1]) && (t2.None? ==> t3 == cs[2]) && (t3.None? ==> t4 == cs[3]);
    assert t1.Some? ==> t4 == cs[0];
    assert t1.None? && t2.Some? ==> t4 == cs[1];
    assert t2.None? && t3.Some? ==> t4 == cs[2];
    if t4.None? then now else t4.value
  }

  /** The fallback chain is the first usable candidate in precedence order. */
  lemma ExtractTimestampIsFirstUsable(e: FeedEntry, fromTuple: FromTuple, fromDate: FromDate, now: string)
    ensures ExtractTimestamp(e, fromTuple, fromDate, now) == FirstUsable(Candidates(e, fromTuple, fromDate), now)
  {
    var cs := Candidates(e, fromTuple, fromDate);
    var r := ExtractTimestamp(e, fromTuple, fromDate, now);
    assert cs[1..][0] == cs[1] && cs[1..][1..][0] == cs[2] && cs[1..][1..][1..][0] == cs[3];
    assert cs[1..][1..][1..][1..] == [];
    var c1, c2, c3 := cs[1..], cs[1..][1..], cs[1..][1..][1..];
    assert cs[0].None? ==> FirstUsable(cs, now) == FirstUsable(c1, now);
    assert c1[0].None? ==> FirstUsable(c1, now) == FirstUsable(c2, now);
    assert c2[0].None? ==> FirstUsable(c2, now) == FirstUsable(c3, now);
    assert c3[0].None? ==> FirstUsable(c3, now) == now;
    if cs[0].Some? {
      assert r == cs[0].value;
    } else if cs[1].Some? {
      assert forall j :: 0 <= j < 1 ==> cs[j].None?;
      assert r == cs[1].value;
    } else if cs[2].Some? {
      assert forall j :: 0 <= j < 2 ==> cs[j].None?;
      assert r == cs[2].value;
    } else if cs[3].Some? {
      assert forall j :: 0 <= j < 3 ==> cs[j].None?;
      assert r == cs[3].value;
    } else {
      assert forall j :: 0 <= j < 4 ==> cs[j].None?;
    }
  }

  /** Candidates that agree up to a usable one select the same time. */
  lemma {:induction false} FirstUsableStopsEarly(cs: seq<Option<string>>, cs': seq<Option<string>>, k: nat, now: string)
    requires k < |cs| && k < |cs'|
    requires forall j :: 0 <= j <= k ==> cs[j] == cs'[j]
    requires cs[k].Some?
    ensures FirstUsable(cs, now) == FirstUsable(cs', now)
    decreases k
  {
    if cs[0].None? {
      FirstUsableStopsEarly(cs[1..], cs'[1..], k - 1, now);
    }
  }

  /** Once a source produces a time, the later sources are irrelevant. */
  lemma LaterSourcesIgnored(e: FeedEntry, e': FeedEntry, fromTuple: FromTuple, fromDate: FromDate, now: string, k: nat)
    requires k < 4
    requires forall j :: 0 <= j <= k ==> Candidates(e, fromTuple, fromDate)[j] == Candidates(e', fromTuple, fromDate)[j]
    requires Candidates(e, fromTuple, fromDate)[k].Some?
    ensures ExtractTimestamp(e, fromTuple, fromDate, now) == ExtractTimestamp(e', fromTuple, fromDate, now)
  {
    ExtractTimestampIsFirstUsable(e, fromTuple, fromDate, now);
    ExtractTimestampIsFirstUsable(e', fromTuple, fromDate, now);
    FirstUsableStopsEarly(Candidates(e, fromTuple, fromDate), Candidates(e', fromTuple, fromDate), k, now);
  }
}
