/** Incremental syncs against full recomputation: when the splice of stored warmup rows and fresh download
    gives the indicators of the whole history, and when it does not. */
module SpliceEquivalence {
  import opened Values
  import opened Frames
  import opened Indicators
  import opened IndicatorLaws
  import opened Tables
  import opened LatestCache
  import opened MarketSync
  import opened MarketSafety

  function IsOlderThanWarmup(start: int): Row<Bar> -> bool { (x: Row<Bar>) => x.date < start - 350 }

  /** The stored rows of t too old to be loaded as warmup. */
  function Beyond(db: Database, q: Request, t: string): seq<Row<Bar>> {
    var start := StartDate(db, q);
    if start.Some? then Select(Of(db.ohlcv, t), IsOlderThanWarmup(start.value)) else []
  }

  /** The rows a spliced sync computes with, for one ticker. */
  function Spliced(db: Database, q: Request, t: string): seq<Row<Bar>> { History(Warmup(db, q) + q.feed, t) }

  /** Every stored row of t since the start is replaced by the download. */
  ghost predicate NothingSkipped(db: Database, q: Request, t: string) {
    var start, feed := StartDate(db, q), Of(q.feed, t);
    start.Some? && feed != [] &&
    forall x :: x in db.ohlcv && x.ticker == t ==> !(start.value <= x.date < MinDate(feed))
  }

  /** A successful splicing sync of t, from sound tables and a sound download that has rows for t. */
  ghost predicate SplicesTicker(db: Database, q: Request, t: string) {
    && Aligned(db) && ProviderSound(db, q) && Distinct(Targets(db, q))
    && Splices(db, q) && q.failure.NoFailure?
    && t in Targets(db, q) && Of(q.feed, t) != []
  }

  /** The rows a sync writes for t. */
  function Written(db: Database, q: Request, std: seq<real> -> real, t: string): seq<Row<Columns>> {
    Of(Prepared(db, q, std), t)
  }

  lemma SyncedOf(db: Database, q: Request, std: seq<real> -> real, t: string)
    requires SplicesTicker(db, q, t)
    ensures var after := Synced(db, q, std).db;
            && Of(after.ohlcv, t) == DeleteFrom(Of(db.ohlcv, t), t, MinDate(Of(q.feed, t))) + Of(q.feed, t)
            && Of(after.data, t) == DeleteFrom(Of(db.data, t), t, MinDate(Of(q.feed, t))) + Written(db, q, std, t)
  {
    hide Prepared, AfterTargets, Refreshed, DeleteFrom, Of, Aligned, ProviderSound, StartDate, WarmupRows, Named,
        RowsWritten;
    var targets := Targets(db, q);
    hide Targets;
    assert targets[..|targets|] == targets;
    AlignedIsUnique(db);
    WrittenMeansDownloaded(db, q, std, t);
    LoopOf(db, q.feed, Prepared(db, q, std), targets, |targets|, t);
  }

  lemma ConcatChronological<T(!new)>(a: seq<Row<T>>, b: seq<Row<T>>, d: int)
    requires Chronological(a) && Chronological(b)
    requires (forall x :: x in a ==> x.date < d) && (forall x :: x in b ==> x.date >= d)
    ensures Chronological(a + b)
  {
    var c := a + b;
    forall i, j | 0 <= i < j < |c| ensures c[i].date < c[j].date {
      if i < |a| <= j {
        assert a[i] in a && b[j - |a|] in b;
      }
    }
  }

  /** The stored rows a splice loads for a target are those of the 350 days before the start; older ones stay out. */
  lemma WarmupOf(db: Database, q: Request, t: string)
    requires Splices(db, q) && t in Targets(db, q)
    ensures var start := StartDate(db, q).value;
            && (forall x :: x in Of(Warmup(db, q), t) <==>
                  x in db.ohlcv && x.ticker == t && start - 350 <= x.date < start)
            && (forall x :: x in Beyond(db, q, t) <==> x in db.ohlcv && x.ticker == t && x.date < start - 350)
  {
    var start := StartDate(db, q).value;
    hide StartDate, Targets;
    SelectMembers(db.ohlcv, IsWarmup(Targets(db, q), start));
    SelectMembers(Of(db.ohlcv, t), IsOlderThanWarmup(start));
  }

  lemma SortedParts(db: Database, q: Request, t: string)
    requires SplicesTicker(db, q, t)
    ensures Chronological(Spliced(db, q, t)) && Chronological(SortByDate(Of(Warmup(db, q), t)))
    ensures Chronological(History(q.feed, t)) && Chronological(SortByDate(Beyond(db, q, t)))
  {
    hide Prepared, StartDate, Targets, HonoursStart;
    SpliceIsUnique(db, q);
    HistoryIsChronological(Warmup(db, q) + q.feed, t);
    HistoryIsChronological(q.feed, t);
    SelectKeepsUnique(db.ohlcv, IsWarmup(Targets(db, q), StartDate(db, q).value));
    HistoryIsChronological(Warmup(db, q), t);
    SelectKeepsUnique(db.ohlcv, ByTicker(t));
    SelectKeepsUnique(Of(db.ohlcv, t), IsOlderThanWarmup(StartDate(db, q).value));
    SelectMembers(Of(db.ohlcv, t), IsOlderThanWarmup(StartDate(db, q).value));
    SortIsChronological(Beyond(db, q, t), t);
  }

  /** In date order the splice is the warmup rows followed by the download. */
  lemma SpliceInOrder(db: Database, q: Request, t: string)
    requires SplicesTicker(db, q, t)
    ensures Spliced(db, q, t) == SortByDate(Of(Warmup(db, q), t)) + History(q.feed, t)
  {
    hide Prepared, SortByDate, Chronological, Aligned;
    var start, warmup, feed := StartDate(db, q).value, SortByDate(Of(Warmup(db, q), t)), History(q.feed, t);
    SortedParts(db, q, t);
    WarmupOf(db, q, t);
    assert forall x :: x in feed ==> x.date >= start;
    hide StartDate, Targets, HonoursStart, History, Of, Warmup;
    ConcatChronological(warmup, feed, start);
    ChronologicalIsCanonical(Spliced(db, q, t), warmup + feed);
  }

  /** The rows stored for the ticker after the sync. */
  lemma MembersAfterSync(db: Database, q: Request, std: seq<real> -> real, t: string, x: Row<Bar>)
    requires SplicesTicker(db, q, t) && NothingSkipped(db, q, t)
    ensures x in History(Synced(db, q, std).db.ohlcv, t) <==>
            x in Beyond(db, q, t) || x in Of(Warmup(db, q), t) || x in Of(q.feed, t)
  {
    hide Prepared, Synced, Select, DeleteFrom, Of, Targets, Warmup, Beyond, Aligned, UniqueKeys;
    var start, cutoff, after := StartDate(db, q).value, MinDate(Of(q.feed, t)), Synced(db, q, std).db;
    SyncedOf(db, q, std, t);
    WarmupOf(db, q, t);
    MinDateIsLeast(Of(q.feed, t));
    assert cutoff >= start;
    hide StartDate, HonoursStart;
    assert x in History(after.ohlcv, t) <==> x in Of(after.ohlcv, t);
    assert x in Of(after.ohlcv, t) <==> (x in Of(db.ohlcv, t) && x.date < cutoff) || x in Of(q.feed, t);
  }

  /** After the sync the ticker's stored history is the rows beyond the warmup followed by the splice. */
  lemma HistoryAfterSync(db: Database, q: Request, std: seq<real> -> real, t: string)
    requires SplicesTicker(db, q, t) && NothingSkipped(db, q, t)
    ensures History(Synced(db, q, std).db.ohlcv, t) == SortByDate(Beyond(db, q, t)) + Spliced(db, q, t)
  {
    hide Prepared, Synced, IsWritten, Select, DeleteFrom, Of, Targets, Warmup, Beyond, UniqueKeys, KeySet, SortByDate,
        Spliced, NothingSkipped, HonoursStart;
    var start, after := StartDate(db, q).value, Synced(db, q, std).db;
    var whole, beyond, spliced := History(after.ohlcv, t), SortByDate(Beyond(db, q, t)), Spliced(db, q, t);
    SyncKeepsAligned(db, q, std);
    HistoryIsChronological(after.ohlcv, t);
    SortedParts(db, q, t);
    SpliceInOrder(db, q, t);
    WarmupOf(db, q, t);
    var warmup, feed := SortByDate(Of(Warmup(db, q), t)), History(q.feed, t);
    FeedSinceStart(db, q, t);
    hide StartDate, SplicesTicker, Aligned, Chronological, History;
    assert forall x :: x in spliced <==> x in warmup || x in feed;
    ConcatChronological(beyond, spliced, start - 350);
    forall x ensures x in whole <==> x in beyond + spliced {
      MembersAfterSync(db, q, std, t, x);
    }
    ChronologicalIsCanonical(whole, beyond + spliced);
  }

  lemma FeedSinceStart(db: Database, q: Request, t: string)
    requires Splices(db, q) && HonoursStart(db, q) && t in Targets(db, q)
    ensures forall x :: x in History(q.feed, t) ==> x in Of(q.feed, t) && x.date >= StartDate(db, q).value
    ensures forall x :: x in Of(q.feed, t) ==> x in History(q.feed, t)
  {}

  lemma {:induction false} SuffixSelected(h: seq<Row<Columns>>, start: int, k: nat)
    requires k <= |h| && (forall i :: 0 <= i < k ==> h[i].date < start)
    requires forall i :: k <= i < |h| ==> h[i].date >= start
    ensures Select(h, IsSince(start)) == h[k..]
  {
    if |h| == k {
      SelectNone(h, IsSince(start));
    } else {
      SuffixSelected(h[..|h| - 1], start, k);
      assert h[k..] == h[..|h| - 1][k..] + [h[|h| - 1]];
    }
  }

  /** The written rows are the computed rows after the warmup. */
  lemma WrittenAreTheSuffix(db: Database, q: Request, std: seq<real> -> real, t: string)
    requires SplicesTicker(db, q, t)
    ensures var w := |Of(Warmup(db, q), t)|;
            w < |Spliced(db, q, t)| && Written(db, q, std, t) == IndicatorRows(Spliced(db, q, t), std)[w..]
  {
    hide ComputeFrame, Prepared, SortByDate, Of, ColumnsAt, Named, KeySet, UniqueKeys, IndicatorRows, Select, Aligned;
    var start, w, rows := StartDate(db, q).value, |Of(Warmup(db, q), t)|, Spliced(db, q, t);
    PreparedOf(db, q, std, t);
    SpliceInOrder(db, q, t);
    WarmupOf(db, q, t);
    FeedSinceStart(db, q, t);
    hide StartDate, Targets, HonoursStart, History, Warmup;
    SuffixOfSplice(SortByDate(Of(Warmup(db, q), t)), History(q.feed, t), std, start);
  }

  lemma SuffixOfSplice(warmup: seq<Row<Bar>>, feed: seq<Row<Bar>>, std: seq<real> -> real, start: int)
    requires (forall x :: x in warmup ==> x.date < start) && forall x :: x in feed ==> x.date >= start
    ensures Select(IndicatorRows(warmup + feed, std), IsSince(start)) == IndicatorRows(warmup + feed, std)[|warmup|..]
  {
    hide IndicatorRows;
    var rows, w := warmup + feed, |warmup|;
    forall i | 0 <= i < |rows| ensures rows[i].date < start <==> i < w {
      assert i < w ==> rows[i] == warmup[i] && warmup[i] in warmup;
      assert i >= w ==> rows[i] == feed[i - w] && feed[i - w] in feed;
    }
    SuffixSelected(IndicatorRows(rows, std), start, w);
  }

  predicate WindowedName(m: string) { m in Named() && Windowed(Named()[m]) }

  predicate SameColumn(a: Row<Columns>, b: Row<Columns>, m: string) {
    a.date == b.date && m in a.cells && m in b.cells && a.cells[m] == b.cells[m]
  }

  lemma SplicedColumn(beyond: seq<Row<Bar>>, part: seq<Row<Bar>>, std: seq<real> -> real, m: string, j: nat)
    requires j < |part| && WindowedName(m) && (beyond == [] || j >= Lookback(Named()[m]))
    ensures SameColumn(IndicatorRows(part, std)[j], IndicatorRows(beyond + part, std)[|beyond| + j], m)
  {
    hide Compute, Lookback, Windowed, Named, Agree;
    CutHistoryAgrees(Bars(beyond + part), Bars(part), std, Named()[m], |beyond|, |part|);
    AgreementAt(Compute(Bars(beyond + part), std, Named()[m]), Compute(Bars(part), std, Named()[m]), |beyond|,
                Lost(|beyond|, 0, Lookback(Named()[m])), |part|, j);
    assert (beyond + part)[|beyond| + j] == part[j];
  }

  lemma AgreementAt(whole: Series, part: Series, m: nat, lo: nat, hi: nat, i: nat)
    requires Agree(whole, part, m, lo, hi) && lo <= i < hi
    ensures i < |part| && m + i < |whole| && part[i] == whole[m + i]
  {}

  /** The rows a rebuild of the tables a sync leaves computes for t. */
  function RebuiltAfter(db: Database, q: Request, std: seq<real> -> real, t: string): seq<Row<Columns>> {
    Of(ComputeFrame(Synced(db, q, std).db.ohlcv, std), t)
  }

  /** Written row j agrees in column m with the rebuilt row of the same date; the written rows are the last. */
  predicate AgreesWithRebuild(db: Database, q: Request, std: seq<real> -> real, t: string, j: nat, m: string) {
    var written, rebuilt := Written(db, q, std, t), RebuiltAfter(db, q, std, t);
    j < |written| <= |rebuilt| && SameColumn(written[j], rebuilt[|rebuilt| - |written| + j], m)
  }

  /** What a spliced sync writes for t, and what a rebuild of the resulting history computes for it: rows
      w, w + 1, .. of the splice against the same rows of the whole history. */
  lemma WrittenAgainstRebuilt(db: Database, q: Request, std: seq<real> -> real, t: string)
    requires SplicesTicker(db, q, t) && NothingSkipped(db, q, t)
    ensures var after, w := Synced(db, q, std).db, |Of(Warmup(db, q), t)|;
            var beyond, part := SortByDate(Beyond(db, q, t)), Spliced(db, q, t);
            && |beyond| == |Beyond(db, q, t)| && w < |part|
            && History(after.ohlcv, t) == beyond + part
            && Written(db, q, std, t) == IndicatorRows(part, std)[w..]
            && RebuiltAfter(db, q, std, t) == IndicatorRows(beyond + part, std)
  {
    hide Synced, Written, SplicesTicker, NothingSkipped, Spliced, Warmup, Beyond, Of, History, IndicatorRows,
        ComputeFrame;
    HistoryAfterSync(db, q, std, t);
    WrittenAreTheSuffix(db, q, std, t);
    OfComputeFrame(Synced(db, q, std).db.ohlcv, std, t);
  }

  /** Splice equivalence: when nothing is skipped, a written row agrees with the rebuilt one in every windowed
      column whose look-back stays inside the splice, and in all of them when no stored row was cut off. */
  lemma SpliceEqualsRebuild(db: Database, q: Request, std: seq<real> -> real, t: string, j: nat, m: string)
    requires SplicesTicker(db, q, t) && NothingSkipped(db, q, t) && WindowedName(m)
    requires j < |Written(db, q, std, t)|
    requires Beyond(db, q, t) == [] || |Of(Warmup(db, q), t)| + j >= Lookback(Named()[m])
    ensures AgreesWithRebuild(db, q, std, t, j, m)
  {
    hide Synced, RebuiltAfter, Written, SplicesTicker, NothingSkipped, Spliced, Warmup, Beyond, Of, History, Lookback,
         IndicatorRows, SortByDate, WindowedName, Named, SameColumn;
    WrittenAgainstRebuilt(db, q, std, t);
    SuffixColumn(Written(db, q, std, t), RebuiltAfter(db, q, std, t), SortByDate(Beyond(db, q, t)), Spliced(db, q, t),
                 std, |Of(Warmup(db, q), t)|, j, m);
  }

  lemma SuffixColumn(written: seq<Row<Columns>>, rebuilt: seq<Row<Columns>>, beyond: seq<Row<Bar>>, part: seq<Row<Bar>>,
                     std: seq<real> -> real, w: nat, j: nat, m: string)
    requires w + j < |part| && WindowedName(m) && (beyond == [] || w + j >= Lookback(Named()[m]))
    requires written == IndicatorRows(part, std)[w..] && rebuilt == IndicatorRows(beyond + part, std)
    ensures |written| <= |rebuilt| && SameColumn(written[j], rebuilt[|rebuilt| - |written| + j], m)
  {
    hide SameColumn, IndicatorRows, Lookback, WindowedName, Named;
    SplicedColumn(beyond, part, std, m, w + j);
    SuffixAgrees(IndicatorRows(part, std), IndicatorRows(beyond + part, std), |beyond|, w, j, m);
  }

  /** Counting from the end instead of from the front. */
  lemma SuffixAgrees(a: seq<Row<Columns>>, b: seq<Row<Columns>>, n: nat, w: nat, j: nat, m: string)
    requires |b| == n + |a| && w + j < |a|
    ensures SameColumn(a[w..][j], b[|b| - |a[w..]| + j], m) <==> SameColumn(a[w + j], b[n + (w + j)], m)
  {}

  /** How many rows before a written one the windowed columns read, rounded up for all but the five longest. */
  function RowsNeeded(m: string): nat {
    if m == "Ticker_Return_252D" then 252
    else if m in {"Ticker_52W_High", "Ticker_52W_Low", "Ticker_52W_Range_Pct"} then 251
    else if m == "Ticker_SMA_250" then 249
    else 199
  }

  lemma LongLookbacks(m: string)
    requires RowsNeeded(m) > 199
    ensures m in Named() && Windowed(Named()[m]) && Lookback(Named()[m]) == RowsNeeded(m)
  {}

  lemma OtherLookbacks(m: string)
    requires WindowedName(m) && RowsNeeded(m) == 199
    ensures Lookback(Named()[m]) <= 199
  {}

  lemma LookbacksByName(m: string)
    requires WindowedName(m)
    ensures Lookback(Named()[m]) <= RowsNeeded(m)
    ensures RowsNeeded(m) > 199 ==> Lookback(Named()[m]) == RowsNeeded(m)
  {
    hide Lookback, Named, Windowed;
    if RowsNeeded(m) > 199 {
      LongLookbacks(m);
    } else {
      OtherLookbacks(m);
    }
  }

  /** How long the warmup must be: 252 rows for the one-year return, 251 for the 52-week columns, 249 for SMA_250
      and 199 for every other windowed column, each written row counting one more. */
  lemma WarmupCoversEachColumn(db: Database, q: Request, std: seq<real> -> real, t: string, j: nat, m: string)
    requires SplicesTicker(db, q, t) && NothingSkipped(db, q, t) && WindowedName(m)
    requires j < |Written(db, q, std, t)| && |Of(Warmup(db, q), t)| + j >= RowsNeeded(m)
    ensures AgreesWithRebuild(db, q, std, t, j, m)
  {
    hide Synced, Written, AgreesWithRebuild, SplicesTicker, NothingSkipped, Warmup, Of, Lookback, WindowedName, Named;
    LookbacksByName(m);
    SpliceEqualsRebuild(db, q, std, t, j, m);
  }

  // ---------- how many rows 350 calendar days hold ----------

  /** Monday to Friday; day 0 is Thursday 1970-01-01. */
  predicate IsWeekday(d: int) { (d + 3) % 7 < 5 }

  /** Weekdays before d, counted from a fixed Monday. */
  function WeekdayRank(d: int): int {
    var k := (d + 3) % 7;
    5 * ((d + 3) / 7) + (if k < 5 then k else 5)
  }

  lemma LaterWeekdayRanksHigher(a: int, b: int)
    requires a < b && IsWeekday(a)
    ensures WeekdayRank(a) + 1 <= WeekdayRank(b)
  {}

  lemma {:induction false} RanksSpread(h: seq<Row<Bar>>, k: nat)
    requires Chronological(h) && k < |h| && forall x :: x in h ==> IsWeekday(x.date)
    ensures WeekdayRank(h[k].date) >= WeekdayRank(h[0].date) + k
  {
    if k > 0 {
      RanksSpread(h, k - 1);
      assert h[k - 1] in h;
      LaterWeekdayRanksHigher(h[k - 1].date, h[k].date);
    }
  }

  lemma LaterDateRanksNoLower(a: int, b: int)
    requires a <= b
    ensures WeekdayRank(a) <= WeekdayRank(b)
  {}

  /** 350 calendar days hold exactly 50 weeks, so at most 250 rows of a market that trades on weekdays. */
  lemma WarmupHoldsAtMost250(h: seq<Row<Bar>>, start: int)
    requires Chronological(h) && forall x :: x in h ==> IsWeekday(x.date) && start - 350 <= x.date < start
    ensures |h| <= 250
  {
    if h != [] {
      var last := |h| - 1;
      assert h[0] in h && h[last] in h;
      RanksSpread(h, last);
      LaterDateRanksNoLower(start - 350, h[0].date);
      LaterWeekdayRanksHigher(h[last].date, start);
    }
  }

  /** The weekdays a, .., a + n - 1. */
  ghost function WeekdaysIn(a: int, n: nat): set<int> { set d | a <= d < a + n && IsWeekday(d) }

  lemma {:induction false} WeekdaysCounted(a: int, n: nat)
    ensures |WeekdaysIn(a, n)| == WeekdayRank(a + n) - WeekdayRank(a)
  {
    hide IsWeekday, WeekdayRank;
    if n == 0 {
      assert WeekdaysIn(a, n) == {};
    } else {
      var last := a + n - 1;
      WeekdaysCounted(a, n - 1);
      assert WeekdaysIn(a, n) == WeekdaysIn(a, n - 1) + (if IsWeekday(last) then {last} else {});
      NextRank(last);
    }
  }

  lemma NextRank(d: int)
    ensures WeekdayRank(d + 1) == WeekdayRank(d) + (if IsWeekday(d) then 1 else 0)
  {}

  lemma {:induction false} DatesCounted(h: seq<Row<Bar>>)
    ensures |set x | x in h :: x.date| <= |h|
  {
    if h == [] {
      assert (set x | x in h :: x.date) == {};
    } else {
      var front, last := h[..|h| - 1], h[|h| - 1];
      assert h == front + [last];
      DatesCounted(front);
      assert (set x | x in h :: x.date) == (set x | x in front :: x.date) + {last.date};
    }
  }

  lemma FiftyWeeks(start: int)
    ensures WeekdayRank(start) - WeekdayRank(start - 350) == 250
  {}

  /** A row on each weekday of the 350 days makes exactly 250. */
  lemma FullWeeksHold250(h: seq<Row<Bar>>, start: int)
    requires Chronological(h) && forall x :: x in h ==> IsWeekday(x.date) && start - 350 <= x.date < start
    requires forall d :: start - 350 <= d < start && IsWeekday(d) ==> exists x :: x in h && x.date == d
    ensures |h| == 250
  {
    hide IsWeekday, WeekdayRank;
    WarmupHoldsAtMost250(h, start);
    WeekdaysCounted(start - 350, 350);
    FiftyWeeks(start);
    var dates := set x | x in h :: x.date;
    DatesCounted(h);
    assert WeekdaysIn(start - 350, 350) <= dates;
    SmallerSet(WeekdaysIn(start - 350, 350), dates);
  }

  /** The market traded on every weekday of the 350 days before the start, and stores t on weekdays only. */
  ghost predicate FullWeeks(db: Database, q: Request, t: string) {
    var start := StartDate(db, q);
    && start.Some?
    && (forall x :: x in db.ohlcv && x.ticker == t ==> IsWeekday(x.date))
    && forall d :: start.value - 350 <= d < start.value && IsWeekday(d) ==>
         exists x :: x in db.ohlcv && x.ticker == t && x.date == d
  }

  lemma FullWeeksAreLoaded(db: Database, q: Request, t: string)
    requires SplicesTicker(db, q, t) && FullWeeks(db, q, t)
    ensures |Of(Warmup(db, q), t)| == 250
  {
    hide IsWeekday;
    SortedParts(db, q, t);
    WarmupOf(db, q, t);
    hide Warmup, SplicesTicker;
    var warmup, start := Of(Warmup(db, q), t), StartDate(db, q).value;
    forall d | start - 350 <= d < start && IsWeekday(d) ensures exists x :: x in warmup && x.date == d {
      var x :| x in db.ohlcv && x.ticker == t && x.date == d;
      assert x in warmup;
    }
    hide StartDate;
    FullWeeksHold250(SortByDate(warmup), start);
  }

  /** After full weeks every row a spliced sync writes has the SMA_250 of a rebuild, and so has every other windowed
      column but the one-year return, and but the 52-week ones on the first row. */
  lemma FullWeeksSuffice(db: Database, q: Request, std: seq<real> -> real, t: string, j: nat, m: string)
    requires SplicesTicker(db, q, t) && NothingSkipped(db, q, t) && FullWeeks(db, q, t) && WindowedName(m)
    requires j < |Written(db, q, std, t)| && m != "Ticker_Return_252D"
    requires j == 0 ==> m !in {"Ticker_52W_High", "Ticker_52W_Low", "Ticker_52W_Range_Pct"}
    ensures AgreesWithRebuild(db, q, std, t, j, m)
  {
    hide SplicesTicker, NothingSkipped, FullWeeks, WindowedName, Written, Warmup, Of, AgreesWithRebuild, Named;
    FullWeeksAreLoaded(db, q, t);
    WarmupCoversEachColumn(db, q, std, t, j, m);
  }

  // ---------- columns that need their whole window ----------

  /** SMA, return and average-volume columns have no value before their window is full. */
  predicate NeedsAll(x: Indicator) { x.Sma? || x.Return? || x.AvgVolume? }

  /** Whether such a column has a value on row k: enough rows, closes present, a return's base not zero. */
  predicate HasValue(x: Indicator, bars: seq<Bar>, k: nat)
    requires NeedsAll(x) && k < |bars|
  {
    match x
    case Sma(w) => k >= w - 1 && forall i :: k - w < i <= k ==> bars[i].close.Num?
    case Return(d) => k >= d && bars[k].close.Num? && bars[k - d].close.Num? && bars[k - d].close.v != 0.0
    case _ => k >= 19
  }

  lemma {:induction false} AllObserved(s: Series)
    ensures |Observed(s)| == |s| <==> forall i :: 0 <= i < |s| ==> s[i].Num?
  {
    if s != [] {
      AllObserved(s[..|s| - 1]);
    }
  }

  /** A rolling aggregate over w rows that wants w observations exists when the window is full. */
  lemma FullWindow(s: Series, w: nat, agg: seq<real> -> real, k: nat)
    requires 0 < w && k < |s|
    ensures Rolling(s, w, w, agg)[k].Num? <==> k >= w - 1 && forall i :: k - w < i <= k ==> s[i].Num?
  {
    var win := Window(s, k, w);
    AllObserved(win);
    if k >= w - 1 {
      assert forall i :: 0 <= i < w ==> win[i] == s[k + 1 - w + i];
      assert forall i :: k - w < i <= k ==> s[i] == win[i - (k + 1 - w)];
    }
  }

  lemma ValueExists(bars: seq<Bar>, std: seq<real> -> real, x: Indicator, k: nat)
    requires NeedsAll(x) && k < |bars|
    ensures Compute(bars, std, x)[k].Num? <==> HasValue(x, bars, k)
  {
    if x.Sma? {
      FullWindow(Closes(bars), x.window, Mean, k);
      assert forall i :: 0 <= i <= k ==> Closes(bars)[i] == bars[i].close;
    } else if x.Return? {
      assert ReturnOf(bars, x.days)[k] == PctChange(Closes(bars)[k], Shift(Closes(bars), x.days)[k]);
    } else {
      FullWindow(Volumes(bars), 20, Mean, k);
    }
  }

  lemma TooEarly(x: Indicator, bars: seq<Bar>, k: nat)
    requires NeedsAll(x) && k < |bars| && k < Lookback(x)
    ensures !HasValue(x, bars, k)
  {}

  /** Cutting m rows off leaves such a column right on row i exactly when nothing was cut, the row reaches the
      look-back, or the whole history has no value there. */
  lemma CutColumnIsRightExactlyWhen(whole: seq<Bar>, part: seq<Bar>, std: seq<real> -> real, x: Indicator, m: nat,
                                    i: nat)
    requires NeedsAll(x) && SameBars(whole, part, m, |part|) && i < |part|
    ensures Compute(part, std, x)[i] == Compute(whole, std, x)[m + i] <==>
            m == 0 || i >= Lookback(x) || !HasValue(x, whole, m + i)
  {
    hide Compute, HasValue, Lookback;
    CutHistoryAgrees(whole, part, std, x, m, |part|);
    ValueExists(whole, std, x, m + i);
    ValueExists(part, std, x, i);
    if i < Lookback(x) {
      TooEarly(x, part, i);
    }
  }

  /** The ticker's bars after the sync, oldest first. */
  function BarsAfter(db: Database, q: Request, std: seq<real> -> real, t: string): seq<Bar> {
    Bars(History(Synced(db, q, std).db.ohlcv, t))
  }

  predicate NeedsAllName(m: string) { m in Named() && NeedsAll(Named()[m]) }

  /** The rows before its own that such a column reads. */
  function Reach(m: string): nat { if NeedsAllName(m) then Lookback(Named()[m]) else 0 }

  predicate HasColumn(bars: seq<Bar>, m: string, k: nat) {
    NeedsAllName(m) && k < |bars| && HasValue(Named()[m], bars, k)
  }

  /** The same for a sync: what it writes on row j is the rebuilt value exactly when no stored row was cut off, the
      row reaches the look-back within the splice, or the resulting history has no value there. */
  lemma WrittenColumnIsRightExactlyWhen(db: Database, q: Request, std: seq<real> -> real, t: string, j: nat, m: string)
    requires SplicesTicker(db, q, t) && NothingSkipped(db, q, t) && NeedsAllName(m)
    requires j < |Written(db, q, std, t)|
    ensures var w, b := |Of(Warmup(db, q), t)|, |Beyond(db, q, t)|;
            AgreesWithRebuild(db, q, std, t, j, m) <==>
            b == 0 || w + j >= Reach(m) || !HasColumn(BarsAfter(db, q, std, t), m, b + w + j)
  {
    hide Synced, Written, RebuiltAfter, SplicesTicker, NothingSkipped, Spliced, Warmup, Beyond, Of, History,
         SameColumn, HasColumn, Reach, NeedsAllName, IndicatorRows, SortByDate, Bars;
    WrittenAgainstRebuilt(db, q, std, t);
    SuffixColumnExactly(Written(db, q, std, t), RebuiltAfter(db, q, std, t), SortByDate(Beyond(db, q, t)),
                        Spliced(db, q, t), std, |Of(Warmup(db, q), t)|, j, m);
  }

  lemma SuffixColumnExactly(written: seq<Row<Columns>>, rebuilt: seq<Row<Columns>>, beyond: seq<Row<Bar>>,
                            part: seq<Row<Bar>>, std: seq<real> -> real, w: nat, j: nat, m: string)
    requires w + j < |part| && NeedsAllName(m)
    requires written == IndicatorRows(part, std)[w..] && rebuilt == IndicatorRows(beyond + part, std)
    ensures |written| <= |rebuilt|
    ensures SameColumn(written[j], rebuilt[|rebuilt| - |written| + j], m) <==>
            |beyond| == 0 || w + j >= Reach(m) || !HasColumn(Bars(beyond + part), m, |beyond| + w + j)
  {
    hide SameColumn, IndicatorRows, HasValue, Lookback, Compute, Named;
    SameColumnMeans(beyond, part, std, m, w + j);
    CutColumnIsRightExactlyWhen(Bars(beyond + part), Bars(part), std, Named()[m], |beyond|, w + j);
    SuffixAgrees(IndicatorRows(part, std), IndicatorRows(beyond + part, std), |beyond|, w, j, m);
  }

  lemma SameColumnMeans(beyond: seq<Row<Bar>>, part: seq<Row<Bar>>, std: seq<real> -> real, m: string, i: nat)
    requires i < |part| && m in Named()
    ensures SameColumn(IndicatorRows(part, std)[i], IndicatorRows(beyond + part, std)[|beyond| + i], m) <==>
            Compute(Bars(part), std, Named()[m])[i] == Compute(Bars(beyond + part), std, Named()[m])[|beyond| + i]
  {
    hide Compute, Named;
    assert (beyond + part)[|beyond| + i] == part[i];
  }

  /** A splice too short for such a column blanks it. */
  lemma ShortSpliceBlanks(db: Database, q: Request, std: seq<real> -> real, t: string, j: nat, m: string)
    requires SplicesTicker(db, q, t) && NeedsAllName(m)
    requires j < |Written(db, q, std, t)| && |Of(Warmup(db, q), t)| + j < Reach(m)
    ensures var c := Written(db, q, std, t)[j].cells; m in c && c[m] == Missing
  {
    hide Written, SplicesTicker, Spliced, Warmup, Of, IndicatorRows, Reach, NeedsAllName;
    WrittenAreTheSuffix(db, q, std, t);
    SuffixBlank(Written(db, q, std, t), Spliced(db, q, t), std, |Of(Warmup(db, q), t)|, j, m);
  }

  lemma SuffixBlank(written: seq<Row<Columns>>, part: seq<Row<Bar>>, std: seq<real> -> real, w: nat, j: nat, m: string)
    requires w + j < |part| && written == IndicatorRows(part, std)[w..] && NeedsAllName(m) && w + j < Reach(m)
    ensures m in written[j].cells && written[j].cells[m] == Missing
  {
    hide IndicatorRows, Reach, NeedsAllName;
    BlankBefore(part, std, w + j, m);
    assert written[j] == IndicatorRows(part, std)[w + j];
  }

  lemma BlankBefore(part: seq<Row<Bar>>, std: seq<real> -> real, i: nat, m: string)
    requires i < |part| && NeedsAllName(m) && i < Reach(m)
    ensures var c := IndicatorRows(part, std)[i].cells; m in c && c[m] == Missing
  {
    hide Compute, HasValue, Lookback, Named;
    ValueExists(Bars(part), std, Named()[m], i);
    TooEarly(Named()[m], Bars(part), i);
  }

  /** On weekday data the loaded warmup is always too short: every spliced sync blanks the one-year return of
      the first rows it writes, however long the stored history is. */
  lemma SpliceBlanksTheYearReturn(db: Database, q: Request, std: seq<real> -> real, t: string, j: nat)
    requires SplicesTicker(db, q, t)
    requires forall x :: x in db.ohlcv && x.ticker == t ==> IsWeekday(x.date)
    requires j < 2 && j < |Written(db, q, std, t)|
    ensures var c := Written(db, q, std, t)[j].cells;
            "Ticker_Return_252D" in c && c["Ticker_Return_252D"] == Missing
  {
    hide Written, SplicesTicker, Warmup, Of;
    WeekdayWarmup(db, q, t);
    assert NeedsAllName("Ticker_Return_252D") && Reach("Ticker_Return_252D") == 252;
    ShortSpliceBlanks(db, q, std, t, j, "Ticker_Return_252D");
  }

  lemma WeekdayWarmup(db: Database, q: Request, t: string)
    requires SplicesTicker(db, q, t)
    requires forall x :: x in db.ohlcv && x.ticker == t ==> IsWeekday(x.date)
    ensures |Of(Warmup(db, q), t)| <= 250
  {
    hide IsWeekday;
    SortedParts(db, q, t);
    WarmupOf(db, q, t);
    hide StartDate, Warmup;
    WarmupHoldsAtMost250(SortByDate(Of(Warmup(db, q), t)), StartDate(db, q).value);
  }
}
