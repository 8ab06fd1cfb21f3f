/** The "time ago" label of a story.

    The elapsed time is taken as whole seconds (`now - dt` with microseconds
    dropped); `None` stands for a timestamp that does not parse. Python
    normalises a time difference to whole
    days, floored, plus 0 .. 86399 seconds; Dafny's `/` and `%` by a positive
    divisor are floored the same way. */
module TimeAgo {
  import opened Basics
  import opened Text

  const Minute: int := 60
  const Hour: int := 3600
  const Day: int := 86400

  /** The label's meaning before it is rendered as text. */
  datatype Ago = Days(n: nat) | Hours(n: nat) | Minutes(n: nat) | JustNow | Recent

  /** `a` is the label for `d` elapsed seconds: the count is `d` truncated to
      the unit, days from a day on, hours above an hour, minutes above a
      minute, "just now" up to a minute. */
  predicate Describes(a: Ago, d: int)
  {
    match a
    case Days(n) => n >= 1 && n * Day <= d < (n + 1) * Day
    case Hours(n) => 1 <= n <= 23 && Hour < d < Day && n * Hour <= d < (n + 1) * Hour
    case Minutes(n) => 1 <= n <= 60 && Minute < d <= Hour && n * Minute <= d < (n + 1) * Minute
    case JustNow => 0 <= d <= Minute
    case Recent => false
  }

  /** `format_time_ago`'s bucketing as written: `days > 0` first, then the
      seconds part against an hour and a minute. */
  function Bucket(elapsed: Option<int>): (a: Ago)
    ensures elapsed.None? <==> a == Recent
    ensures elapsed.Some? && elapsed.value >= 0 ==> Describes(a, elapsed.value)
    ensures elapsed.Some? && elapsed.value < 0 ==> Describes(a, elapsed.value % Day)
  {
    match elapsed
    case None => Recent
    case Some(d) =>
      var days, seconds := d / Day, d % Day;
      if days > 0 then Days(days)
      else if seconds > Hour then Hours(seconds / Hour)
      else if seconds > Minute then Minutes(seconds / Minute)
      else JustNow
  }

  /** Every non-negative elapsed time has exactly one label. */
  lemma DescribesUnique(a: Ago, b: Ago, d: int)
    requires Describes(a, d) && Describes(b, d)
    ensures a == b
  {
    match a
    case Days(n) =>
      assert b.Days? && n * Day <= d < (n + 1) * Day && b.n * Day <= d < (b.n + 1) * Day;
    case Hours(n) =>
      assert b.Hours? && n * Hour <= d < (n + 1) * Hour && b.n * Hour <= d < (b.n + 1) * Hour;
    case Minutes(n) =>
      assert b.Minutes? && n * Minute <= d < (n + 1) * Minute && b.n * Minute <= d < (b.n + 1) * Minute;
    case JustNow =>
    case Recent =>
  }

  /** The label as text. */
  function Render(a: Ago): string
  {
    match a
    case Days(n) => NatToString(n) + "d ago"
    case Hours(n) => NatToString(n) + "h ago"
    case Minutes(n) => NatToString(n) + "m ago"
    case JustNow => "just now"
    case Recent => "recent"
  }

  /** The number of leading decimal digits of `s`. */
  function DigitPrefix(s: string): (k: nat)
    ensures k <= |s|
    ensures forall i :: 0 <= i < k ==> '0' <= s[i] <= '9'
  {
    if |s| > 0 && '0' <= s[0] <= '9' then 1 + DigitPrefix(s[1..]) else 0
  }

  /** Reads a label back. A count is read only in its canonical form, without
      leading zeros, as Python's `str` of a number prints it. */
  function ParseAgo(s: string): Option<Ago>
  {
    if s == "just now" then Some(JustNow)
    else if s == "recent" then Some(Recent)
    else
      var k := DigitPrefix(s);
      if k == 0 || (k > 1 && s[0] == '0') then None
      else
        var n := DecimalValue(s[..k]);
        var unit := s[k..];
        if unit == "d ago" then Some(Days(n))
        else if unit == "h ago" then Some(Hours(n))
        else if unit == "m ago" then Some(Minutes(n))
        else None
  }

  lemma {:induction false} DigitPrefixOfNumber(digits: string, unit: string)
    requires forall i :: 0 <= i < |digits| ==> '0' <= digits[i] <= '9'
    requires |unit| > 0 && !('0' <= unit[0] <= '9')
    ensures DigitPrefix(digits + unit) == |digits|
    decreases |digits|
  {
    if |digits| > 0 {
      assert (digits + unit)[1..] == digits[1..] + unit;
      DigitPrefixOfNumber(digits[1..], unit);
    } else {
      assert digits + unit == unit;
    }
  }

  /** A count followed by its unit reads back as the count in that unit. */
  lemma ParseCount(n: nat, unit: string)
    requires unit == "d ago" || unit == "h ago" || unit == "m ago"
    ensures ParseAgo(NatToString(n) + unit)
         == Some(if unit == "d ago" then Days(n) else if unit == "h ago" then Hours(n) else Minutes(n))
  {
    var digits := NatToString(n);
    var s := digits + unit;
    DigitPrefixOfNumber(digits, unit);
    NatToStringRoundTrip(n);
    assert s[..|digits|] == digits && s[|digits|..] == unit;
    assert s != "just now" by {
      assert '0' <= s[0] <= '9' && "just now"[0] == 'j';
    }
    assert s != "recent" by {
      assert '0' <= s[0] <= '9' && "recent"[0] == 'r';
    }
  }

  /** Every label reads back as itself. */
  lemma RenderParses(a: Ago)
    ensures ParseAgo(Render(a)) == Some(a)
  {
    match a
    case Days(n) => ParseCount(n, "d ago");
    case Hours(n) => ParseCount(n, "h ago");
    case Minutes(n) => ParseCount(n, "m ago");
    case JustNow =>
    case Recent =>
  }

  /** Only the rendering of a label reads back as that label: a text that
      parses is the label's own text. */
  lemma ParseRenders(s: string, a: Ago)
    requires ParseAgo(s) == Some(a)
    ensures s == Render(a)
  {
    if s != "just now" && s != "recent" {
      var k := DigitPrefix(s);
      var digits, unit := s[..k], s[k..];
      DecimalValueRoundTrip(digits);
      assert s == digits + unit;
    }
  }

  /** `format_time_ago` as written: the rendered bucket, which reads back as
      the bucket. */
  function FormatTimeAgo(elapsed: Option<int>): (s: string)
    ensures ParseAgo(s) == Some(Bucket(elapsed))
    ensures forall t :: ParseAgo(t) == Some(Bucket(elapsed)) ==> t == s
    ensures elapsed.None? ==> s == "recent"
  {
    RenderParses(Bucket(elapsed));
    forall t | ParseAgo(t) == Some(Bucket(elapsed)) {
      ParseRenders(t, Bucket(elapsed));
    }
    Render(Bucket(elapsed))
  }

  /** Exactly an hour is "60m ago". */
  lemma HourBoundary()
    ensures FormatTimeAgo(Some(Hour)) == "60m ago"
  {
    assert Bucket(Some(Hour)) == Minutes(60);
    assert NatToString(60) == "60" by {
      assert NatToString(6) == "6" && NatToString(60) == NatToString(6) + "0";
    }
  }

  /** Exactly a minute is "just now". */
  lemma MinuteBoundary()
    ensures FormatTimeAgo(Some(Minute)) == "just now"
  {
    assert Bucket(Some(Minute)) == JustNow;
  }

  /** Exactly a day is "1d ago"; one second past an hour is "1h ago". */
  lemma DayBoundary()
    ensures FormatTimeAgo(Some(Day)) == "1d ago"
    ensures FormatTimeAgo(Some(Hour + 1)) == "1h ago"
  {
    assert Bucket(Some(Day)) == Days(1);
    assert Bucket(Some(Hour + 1)) == Hours(1);
    assert NatToString(1) == "1";
  }

  /** A timestamp less than a day in the future is labelled as if it were a
      day older: the seconds part of the negative difference is read alone. */
  lemma FutureReadsAsADayLater(d: int)
    requires -Day <= d < 0
    ensures Bucket(Some(d)) == Bucket(Some(d + Day))
  {
    assert d / Day == -1 && d % Day == d + Day;
    assert (d + Day) / Day == 0 && (d + Day) % Day == d + Day;
  }

  /** 400 seconds in the future shows "23h ago". */
  lemma FutureTimestampShowsHours()
    ensures Bucket(Some(-400)) == Hours(23)
    ensures FormatTimeAgo(Some(-400)) == "23h ago"
    ensures BucketFixed(Some(-400)) == JustNow
  {
    FutureReadsAsADayLater(-400);
    assert Bucket(Some(-400)) == Hours(23);
    assert NatToString(23) == "23" by {
      assert NatToString(2) == "2" && NatToString(23) == NatToString(2) + "3";
    }
  }

  /** The evidently intended bucketing: a timestamp in the future (clock
      skew between feed and reader) is "just now". */
  function BucketFixed(elapsed: Option<int>): (a: Ago)
    ensures elapsed.None? <==> a == Recent
    ensures elapsed.Some? ==> Describes(a, if elapsed.value < 0 then 0 else elapsed.value)
  {
    match elapsed
    case None => Recent
    case Some(d) => if d < 0 then JustNow else Bucket(elapsed)
  }

  /** The label with the fix: future timestamps read "just now", past ones
      as before. */
  function FormatTimeAgoFixed(elapsed: Option<int>): (s: string)
    ensures ParseAgo(s) == Some(BucketFixed(elapsed))
    ensures forall t :: ParseAgo(t) == Some(BucketFixed(elapsed)) ==> t == s
    ensures elapsed.Some? && elapsed.value >= 0 ==> s == FormatTimeAgo(elapsed)
    ensures elapsed.Some? && elapsed.value < 0 ==> s == "just now"
  {
    RenderParses(BucketFixed(elapsed));
    forall t | ParseAgo(t) == Some(BucketFixed(elapsed)) {
      ParseRenders(t, BucketFixed(elapsed));
    }
    Render(BucketFixed(elapsed))
  }
}
