/** A database on which a spliced sync loses a one-year return that the stored history has. */
module SpliceWitness {
  import opened Values
  import opened Frames
  import opened Indicators
  import opened IndicatorMeaning
  import opened Tables
  import opened MarketSync
  import opened MarketSafety
  import opened MarketRuns
  import opened SpliceEquivalence

  /** The i-th weekday from Monday 1970-01-05 on. */
  function Weekday(i: nat): int {
    if i == 0 then 4 else Weekday(i - 1) + (if i % 5 == 0 then 3 else 1)
  }

  lemma {:induction false} WeekdayIs(i: nat)
    ensures Weekday(i) == 4 + 7 * (i / 5) + i % 5
  {
    if i > 0 {
      WeekdayIs(i - 1);
    }
  }

  lemma {:induction false} WeekdaysRise(i: nat, j: nat)
    requires i < j
    ensures Weekday(i) < Weekday(j) && IsWeekday(Weekday(i))
  {
    hide Weekday;
    WeekdayIs(i);
    if j == i + 1 {
      NextDay(i);
    } else {
      WeekdaysRise(i, j - 1);
      NextDay(j - 1);
    }
  }

  lemma NextDay(i: nat)
    ensures Weekday(i) < Weekday(i + 1)
  {}

  lemma KnownDays()
    ensures Weekday(0) == 4 && Weekday(100) == 144 && Weekday(293) == 413 && Weekday(294) == 414 && Weekday(299) == 421
  {
    WeekdayIs(100);
    WeekdayIs(293);
    WeekdayIs(294);
    WeekdayIs(299);
  }

  /** One row on each of the weekdays from, .., from + n - 1. */
  function Daily<T>(from: nat, n: nat, cells: T): (r: seq<Row<T>>)
    ensures |r| == n
  {
    seq(n, i requires 0 <= i < n => Row("A", Weekday(from + i), cells))
  }

  /** 300 weekdays are stored; the download brings the last 6 of them again and 5 more. */
  function Year(b: Bar, c: Columns): Database { Database(Daily(0, 300, b), Daily(0, 300, c), []) }

  function Update(b: Bar): Request { Download(Daily(294, 11, b)) }

  function Download(feed: seq<Row<Bar>>): Request { Request(["A"], true, 430, feed, NoFailure) }

  lemma DailyIsSound<T(!new)>(from: nat, n: nat, cells: T)
    ensures UniqueKeys(Daily(from, n, cells)) && Of(Daily(from, n, cells), "A") == Daily(from, n, cells)
    ensures forall x :: x in Daily(from, n, cells) ==> x.ticker == "A" && x.cells == cells && x.date >= Weekday(from)
    ensures forall x :: x in Daily(from, n, cells) ==> IsWeekday(x.date)
  {
    hide Weekday, IsWeekday, Select;
    var rows := Daily(from, n, cells);
    forall i, j | 0 <= i < j < n ensures rows[i].date < rows[j].date {
      WeekdaysRise(from + i, from + j);
    }
    forall x | x in rows ensures x.ticker == "A" && x.cells == cells && IsWeekday(x.date) && x.date >= Weekday(from) {
      var i :| 0 <= i < n && rows[i] == x;
      DayInRange(from, i);
    }
    SelectAll(rows, ByTicker("A"));
  }

  lemma DayInRange(from: nat, i: nat)
    ensures Weekday(from) <= Weekday(from + i) && IsWeekday(Weekday(from + i))
  {
    WeekdaysRise(from + i, from + i + 1);
    if i > 0 {
      WeekdaysRise(from, from + i);
    }
  }

  lemma {:induction false} NewestOfDaily<T(!new)>(n: nat, cells: T)
    requires n > 0
    ensures MaxDate(Daily(0, n, cells)) == Some(Weekday(n - 1))
  {
    var rows := Daily(0, n, cells);
    assert rows[..n - 1] == Daily(0, n - 1, cells);
    if n > 1 {
      NewestOfDaily(n - 1, cells);
      WeekdaysRise(n - 2, n - 1);
    }
  }

  /** The plan: A is stale and downloaded from Friday, day 414, on. */
  lemma Plan(b: Bar, c: Columns, feed: seq<Row<Bar>>)
    ensures Targets(Year(b, c), Download(feed)) == ["A"] && StartDate(Year(b, c), Download(feed)) == Some(414)
  {
    var data := Year(b, c).data;
    KnownDays();
    DailyIsSound(0, 300, c);
    NewestOfDaily(300, c);
    hide MaxDate, Of, Daily;
    assert LatestDate(data, "A") == Some(421);
    assert ["A"][..0] == [];
    assert OldestLatest(data, ["A"]) == Some(421);
  }

  lemma SameKeys(b: Bar, c: Columns)
    ensures KeySet(Year(b, c).ohlcv) == KeySet(Year(b, c).data)
  {
    var p, q := Year(b, c).ohlcv, Year(b, c).data;
    forall k | k in KeySet(p) ensures k in KeySet(q) {
      var i :| 0 <= i < 300 && k == (p[i].ticker, p[i].date);
      assert q[i] in q;
    }
    forall k | k in KeySet(q) ensures k in KeySet(p) {
      var i :| 0 <= i < 300 && k == (q[i].ticker, q[i].date);
      assert p[i] in p;
    }
  }

  lemma StoredDay(b: Bar, c: Columns, i: nat)
    requires i < 300
    ensures Row("A", Weekday(i), b) in Year(b, c).ohlcv
  {
    assert Year(b, c).ohlcv[i] == Row("A", Weekday(i), b);
  }

  lemma YearIsAligned(b: Bar, c: Columns)
    ensures Aligned(Year(b, c))
  {
    hide UniqueKeys, KeySet, Daily;
    SameKeys(b, c);
    DailyIsSound(0, 300, b);
    DailyIsSound(0, 300, c);
  }

  lemma YearSplices(b: Bar, c: Columns, feed: seq<Row<Bar>>)
    ensures Splices(Year(b, c), Download(feed))
  {
    hide StartDate, Targets, Select;
    Plan(b, c, feed);
    StoredDay(b, c, 100);
    KnownDays();
    SelectMembers(Year(b, c).ohlcv, IsWarmup(["A"], 414));
    assert Row("A", Weekday(100), b) in WarmupRows(Year(b, c).ohlcv, ["A"], 414);
  }

  /** A provider that starts one weekday before the requested date misaligns the tables; one that returns only
      that earlier day does not, since then nothing is written. */
  lemma OneEarlyDayMisaligns(b: Bar, c: Columns, std: seq<real> -> real)
    ensures !Aligned(Synced(Year(b, c), Download(Daily(293, 12, b)), std).db)
    ensures Aligned(Synced(Year(b, c), Download(Daily(293, 1, b)), std).db)
  {
    EarlyFeed(b, c, std, 12);
    EarlyFeed(b, c, std, 1);
  }

  lemma EarlyFeed(b: Bar, c: Columns, std: seq<real> -> real, n: nat)
    requires n > 0
    ensures Aligned(Synced(Year(b, c), Download(Daily(293, n, b)), std).db) <==> n == 1
  {
    hide Targets, StartDate, Splices, Aligned, UniqueKeys, Of, Synced, Prepared;
    var feed := Daily(293, n, b);
    var db, q := Year(b, c), Download(feed);
    Plan(b, c, feed);
    YearIsAligned(b, c);
    YearSplices(b, c, feed);
    DailyIsSound(293, n, b);
    KnownDays();
    assert feed[0] in feed && feed[0].date == 413;
    assert ["A"][..1] == ["A"];
    assert ReachedTargets(db, q, std) == ["A"];
    SyncAlignsExactlyWhen(db, q, std);
    assert Of(q.feed, "A") == feed && StartDate(db, q).value == 414;
    assert "A" in ReachedTargets(db, q, std);
    if n > 1 {
      assert feed[1] == Row("A", Weekday(293 + 1), b);
      assert feed[1] in feed && feed[1].date == 414;
    }
  }

  /** The hypotheses of the splice results hold here, and stored rows are cut off. */
  lemma SpliceOccurs(b: Bar, c: Columns)
    ensures var db, q := Year(b, c), Update(b);
            SplicesTicker(db, q, "A") && NothingSkipped(db, q, "A") && Beyond(db, q, "A") != []
  {
    hide Targets, StartDate, MinDate, UniqueKeys, KeySet, Select, Of, Daily, Beyond, Weekday;
    var db, q := Year(b, c), Update(b);
    KnownDays();
    Plan(b, c, q.feed);
    YearIsAligned(b, c);
    DailyIsSound(0, 300, b);
    DailyIsSound(294, 11, b);
    StoredDay(b, c, 0);
    YearSplices(b, c, q.feed);
    FirstDownloaded(b);
    WarmupOf(db, q, "A");
    assert Row("A", Weekday(0), b) in Beyond(db, q, "A");
  }

  lemma FirstDownloaded(b: Bar)
    ensures MinDate(Of(Update(b).feed, "A")) == 414
  {
    hide Of;
    DailyIsSound(294, 11, b);
    KnownDays();
    var feed := Update(b).feed;
    MinDateIsLeast(feed);
    assert feed[0] in feed && feed[0].date == 414;
  }

  lemma DailyGrows(n: nat, b: Bar)
    requires n > 0
    ensures Daily(0, n, b) == Daily(0, n - 1, b) + [Row("A", Weekday(n - 1), b)]
  {}

  lemma {:induction false} KeptDays(n: nat, b: Bar)
    ensures Select(Daily(0, n, b), Survives("A", 414)) == Daily(0, if n < 294 then n else 294, b)
  {
    hide Weekday, Daily;
    if n > 0 {
      KeptDays(n - 1, b);
      DailyGrows(n, b);
      var front, last := Daily(0, n - 1, b), Row("A", Weekday(n - 1), b);
      var rows := front + [last];
      assert rows[..|rows| - 1] == front && rows[|rows| - 1] == last;
      if n - 1 < 294 {
        assert last.date < 414 by { DayBefore(n - 1); }
      } else {
        assert last.date >= 414 by { DayInRange(294, n - 1 - 294); KnownDays(); }
        assert Daily(0, 294, b) + [] == Daily(0, 294, b);
      }
    }
  }

  lemma DayBefore(i: nat)
    requires i < 294
    ensures Weekday(i) < 414
  {
    WeekdaysRise(i, 294);
    KnownDays();
  }

  /** Those of the 300 stored days that a spliced sync either loads as warmup or leaves beyond it. */
  lemma DaysBeforeTheStart(b: Bar, c: Columns, std: seq<real> -> real)
    ensures var db, q := Year(b, c), Update(b);
            SplicesTicker(db, q, "A") && |Beyond(db, q, "A")| + |Of(Warmup(db, q), "A")| == 294
  {
    var db, q := Year(b, c), Update(b);
    SpliceOccurs(b, c);
    hide SplicesTicker, NothingSkipped, Beyond, Warmup, Synced, Spliced, Select;
    SyncedOf(db, q, std, "A");
    HistoryAfterSync(db, q, std, "A");
    SpliceInOrder(db, q, "A");
    FirstDownloaded(b);
    DailyIsSound(0, 300, b);
    DailyIsSound(294, 11, b);
    KeptDays(300, b);
  }

  /** All rows stored for the ticker after the sync carry the one bar. */
  lemma OneBarOnly(b: Bar, c: Columns, std: seq<real> -> real)
    ensures forall x :: x in History(Synced(Year(b, c), Update(b), std).db.ohlcv, "A") ==> x.cells == b
  {
    var db, q := Year(b, c), Update(b);
    SpliceOccurs(b, c);
    hide SplicesTicker, NothingSkipped, Synced, Select;
    SyncedOf(db, q, std, "A");
    DailyIsSound(0, 300, b);
    DailyIsSound(294, 11, b);
  }

  const YEAR := "Ticker_Return_252D"

  lemma CutAtTheYear(beyond: seq<Row<Bar>>, part: seq<Row<Bar>>, std: seq<real> -> real, w: nat, b: Bar)
    requires w < |part| && w < 252 <= |beyond| + w && b.close.Num? && b.close.v != 0.0
    requires forall x :: x in beyond + part ==> x.cells == b
    ensures var short, long := IndicatorRows(part, std)[w], IndicatorRows(beyond + part, std)[|beyond| + w];
            short.date == long.date && Cells(short.cells, YEAR).Missing? && Cells(long.cells, YEAR).Num?
  {
    hide Compute, Named;
    var whole, k := beyond + part, |beyond| + w;
    assert whole[k] in whole && whole[k - 252] in whole && whole[k] == part[w];
    ReturnNames(YEAR, 252);
    ValueExists(Bars(whole), std, Return(252), k);
    ValueExists(Bars(part), std, Return(252), w);
  }

  /** The first written row lacks the one-year return that the rebuilt row of its date has. */
  predicate LosesTheReturn(written: seq<Row<Columns>>, rebuilt: seq<Row<Columns>>) {
    && 0 < |written| <= |rebuilt|
    && var short, long := written[0], rebuilt[|rebuilt| - |written|];
       short.date == long.date && Cells(short.cells, YEAR).Missing? && Cells(long.cells, YEAR).Num?
  }

  /** Whatever the one nonzero close is, the first row the sync writes has no one-year return although a
      rebuild of the very tables it leaves computes one for that date. */
  lemma SpliceLosesAKnownReturn(b: Bar, c: Columns, std: seq<real> -> real)
    requires b.close.Num? && b.close.v != 0.0
    ensures var db, q := Year(b, c), Update(b);
            LosesTheReturn(Written(db, q, std, "A"), RebuiltAfter(db, q, std, "A"))
  {
    var db, q := Year(b, c), Update(b);
    SpliceOccurs(b, c);
    DaysBeforeTheStart(b, c, std);
    OneBarOnly(b, c, std);
    DailyIsSound(0, 300, b);
    hide SplicesTicker, NothingSkipped, Beyond, Warmup, Spliced, Written, RebuiltAfter, Of, History,
         IndicatorRows, SortByDate, LosesTheReturn, Synced;
    WeekdayWarmup(db, q, "A");
    WrittenAgainstRebuilt(db, q, std, "A");
    FirstWritten(Written(db, q, std, "A"), RebuiltAfter(db, q, std, "A"), SortByDate(Beyond(db, q, "A")),
                 Spliced(db, q, "A"), std, |Of(Warmup(db, q), "A")|, b);
  }

  lemma FirstWritten(written: seq<Row<Columns>>, rebuilt: seq<Row<Columns>>, beyond: seq<Row<Bar>>,
                     part: seq<Row<Bar>>, std: seq<real> -> real, w: nat, b: Bar)
    requires w < |part| && w < 252 <= |beyond| + w && b.close.Num? && b.close.v != 0.0
    requires forall x :: x in beyond + part ==> x.cells == b
    requires written == IndicatorRows(part, std)[w..] && rebuilt == IndicatorRows(beyond + part, std)
    ensures LosesTheReturn(written, rebuilt)
  {
    hide IndicatorRows, Cells;
    CutAtTheYear(beyond, part, std, w, b);
  }

  // ---------- the same splice is long enough for SMA_250 ----------

  lemma WeekdayOf(d: int)
    requires 4 <= d < 414 && IsWeekday(d)
    ensures var i := 5 * ((d - 4) / 7) + (d - 4) % 7; 0 <= i < 294 && Weekday(i) == d
  {
    var i := 5 * ((d - 4) / 7) + (d - 4) % 7;
    assert i / 5 == (d - 4) / 7 && i % 5 == (d - 4) % 7;
    WeekdayIs(i);
  }

  lemma YearHasFullWeeks(b: Bar, c: Columns)
    ensures FullWeeks(Year(b, c), Update(b), "A")
  {
    hide Weekday, IsWeekday, StartDate, Targets, Daily;
    var db, q := Year(b, c), Update(b);
    Plan(b, c, q.feed);
    DailyIsSound(0, 300, b);
    forall d | 414 - 350 <= d < 414 && IsWeekday(d)
      ensures exists x :: x in db.ohlcv && x.ticker == "A" && x.date == d
    {
      WeekdayOf(d);
      var i := 5 * ((d - 4) / 7) + (d - 4) % 7;
      StoredDay(b, c, i);
    }
  }

  lemma {:induction false} TotalOfOne(s: Series, x: real, lo: nat, hi: nat)
    requires lo <= hi <= |s| && forall k :: lo <= k < hi ==> s[k] == Num(x)
    ensures Total(s, lo, hi) == x * (hi - lo) as real
  {
    if lo < hi {
      TotalOfOne(s, x, lo, hi - 1);
    }
  }

  lemma AverageOfOne(part: seq<Row<Bar>>, std: seq<real> -> real, b: Bar)
    requires 250 < |part| && b.close == Num(100.0) && forall x :: x in part ==> x.cells == b
    ensures Cells(IndicatorRows(part, std)[250].cells, "Ticker_SMA_250") == Num(100.0)
  {
    hide Compute, Named, At;
    var bars := Bars(part);
    forall k | 0 <= k < |part| ensures bars[k] == b {
      assert part[k] in part;
    }
    SmaNames("Ticker_SMA_250", 250);
    AtIs(bars, std, "Ticker_SMA_250", 250);
    AveragesMean(bars, std, "Ticker_SMA_250", 250, 250);
    TotalOfOne(CloseSeries(bars), 100.0, 1, 251);
  }

  lemma FirstWrittenDay(b: Bar, c: Columns, std: seq<real> -> real)
    ensures var written := Written(Year(b, c), Update(b), std, "A"); written != [] && written[0].date == 414
  {
    hide SplicesTicker, NothingSkipped, FullWeeks, Beyond, Warmup, Spliced, Written, Select, Synced, StartDate, Weekday,
         SortByDate, IsWeekday, Daily, MinDate;
    var db, q := Year(b, c), Update(b);
    SpliceOccurs(b, c);
    YearHasFullWeeks(b, c);
    FullWeeksAreLoaded(db, q, "A");
    WrittenAreTheSuffix(db, q, std, "A");
    SpliceInOrder(db, q, "A");
    var feed := History(q.feed, "A");
    DailyIsSound(294, 11, b);
    HistoryIsChronological(q.feed, "A");
    FirstDownloaded(b);
    MinDateIsLeast(Of(q.feed, "A"));
    var x :| x in Of(q.feed, "A") && x.date == 414;
    assert x in feed && feed[0] in feed && forall y :: y in feed ==> y in Of(q.feed, "A") && y.date >= 414;
    assert Spliced(db, q, "A")[250] == feed[0];
  }

  /** With 250 rows loaded the same splice does write SMA_250 from its first row on: 100 if all closes are. */
  lemma SpliceKeepsTheAverage(b: Bar, c: Columns, std: seq<real> -> real)
    requires b.close == Num(100.0)
    ensures var written := Written(Year(b, c), Update(b), std, "A");
            written != [] && written[0].date == 414 && Cells(written[0].cells, "Ticker_SMA_250") == Num(100.0)
  {
    hide SplicesTicker, NothingSkipped, FullWeeks, Beyond, Warmup, Spliced, Written, RebuiltAfter, Of, History,
         IndicatorRows, SortByDate, Synced, Cells, StartDate;
    var db, q := Year(b, c), Update(b);
    SpliceOccurs(b, c);
    YearHasFullWeeks(b, c);
    OneBarOnly(b, c, std);
    FullWeeksAreLoaded(db, q, "A");
    WrittenAgainstRebuilt(db, q, std, "A");
    AverageOfOne(Spliced(db, q, "A"), std, b);
    FirstWrittenDay(b, c, std);
  }

  // ---------- a rebuild that swaps too late ----------

  /** A sync that runs while a rebuild computes. */
  function Overtaken(b: Bar): seq<Step> { [StartRebuild(0, ["A"])] + FirstSteps(Update(b), 1) + [FinishSync] }

  lemma AfterTheRead(b: Bar, c: Columns, std: seq<real> -> real)
    ensures Play(Idle(Year(b, c)), [StartRebuild(0, ["A"])], std) ==
            Some(System(Year(b, c), None, map[0 := RebuildJob(["A"], Daily(0, 300, b), false)], {}))
  {
    hide Daily, Play, In;
    DailyIsSound(0, 300, b);
    AllListed(b);
    PlayOne(Idle(Year(b, c)), StartRebuild(0, ["A"]), std);
  }

  lemma AllListed(b: Bar)
    ensures In(Daily(0, 300, b), ["A"]) == Daily(0, 300, b)
  {
    DailyIsSound(0, 300, b);
    hide Daily;
    SelectAll(Daily(0, 300, b), IsListed(["A"]));
  }

  /** The sync brings day 304, which the rebuild has not read. */
  lemma NewDay(b: Bar, c: Columns, std: seq<real> -> real)
    ensures ("A", Weekday(304)) !in KeySet(Daily(0, 300, b))
    ensures ("A", Weekday(304)) in KeySet(In(Synced(Year(b, c), Update(b), std).db.ohlcv, ["A"]))
  {
    hide Synced, Weekday, Daily, DeleteFrom;
    var db, q := Year(b, c), Update(b);
    DaysUpTo(b);
    SpliceOccurs(b, c);
    SyncedOf(db, q, std, "A");
    var x := Row("A", Weekday(304), b);
    assert x in Daily(294, 11, b) by { LastDay(b); }
    assert x in Of(Synced(db, q, std).db.ohlcv, "A");
  }

  lemma LastDay(b: Bar)
    ensures Row("A", Weekday(304), b) in Daily(294, 11, b)
  {
    assert Daily(294, 11, b)[10] == Row("A", Weekday(294 + 10), b);
  }

  lemma DaysUpTo(b: Bar)
    ensures ("A", Weekday(304)) !in KeySet(Daily(0, 300, b))
  {
    hide Weekday;
    forall x | x in Daily(0, 300, b) ensures x.date < Weekday(304) {
      var i :| 0 <= i < 300 && Daily(0, 300, b)[i] == x;
      WeekdaysRise(i, 304);
    }
  }

  lemma OvertakenRun(b: Bar, c: Columns, std: seq<real> -> real)
    ensures var run := Play(Idle(Year(b, c)), Overtaken(b), std);
            && run.Some? && run.value.db == Synced(Year(b, c), Update(b), std).db
            && run.value.rebuilds == map[0 := RebuildJob(["A"], Daily(0, 300, b), false)]
  {
    hide Play, Targets, Prepared, Synced, FirstSteps, Daily, ProviderSound, Writes;
    var db, q, first := Year(b, c), Update(b), [StartRebuild(0, ["A"])];
    AfterTheRead(b, c, std);
    UpdateWrites(b, c, std);
    SyncIsItsSteps(Play(Idle(db), first, std).value, q, std);
    PlayAppends(Idle(db), first, FirstSteps(q, 1) + [FinishSync], std);
    assert Overtaken(b) == first + (FirstSteps(q, 1) + [FinishSync]);
  }

  /** A sync that overtakes a rebuild: both are legal up to the swap and the tables are aligned, and the swap, with the
      rows read before the sync, misaligns them. */
  lemma LateSwapMisaligns(b: Bar, c: Columns, std: seq<real> -> real)
    ensures var run := Play(Idle(Year(b, c)), Overtaken(b), std);
            && run.Some? && Aligned(run.value.db) && Enabled(run.value, Swap(0))
            && !Aligned(Next(run.value, Swap(0), std).db)
  {
    hide Play, Synced, ProviderSound, Aligned, Enabled, Legal, Next, WasRead, Overtaken, Year, Update, Daily;
    OvertakenRun(b, c, std);
    UpdateWrites(b, c, std);
    YearIsAligned(b, c);
    SyncKeepsAligned(Year(b, c), Update(b), std);
    var s := Play(Idle(Year(b, c)), Overtaken(b), std).value;
    StaleSwap(s, b, c, std);
    SwapAlignsExactlyWhenLegal(s, 0, std);
  }

  lemma StaleSwap(s: System, b: Bar, c: Columns, std: seq<real> -> real)
    requires s.db == Synced(Year(b, c), Update(b), std).db
    requires s.rebuilds == map[0 := RebuildJob(["A"], Daily(0, 300, b), false)]
    ensures Enabled(s, Swap(0)) && !Legal(s, Swap(0)) && WasRead(s.rebuilds[0].universe, s.rebuilds[0].read)
  {
    hide Synced, KeySet, In, UniqueKeys, Daily, Weekday;
    NewDay(b, c, std);
    DailyIsSound(0, 300, b);
  }

  lemma UpdateWrites(b: Bar, c: Columns, std: seq<real> -> real)
    ensures var db, q := Year(b, c), Update(b);
            && Writes(db, q) && ProviderSound(db, q) && Distinct(Targets(db, q))
            && Reached(q, Prepared(db, q, std), Targets(db, q)) == 1
            && LastStep(q, 1, Targets(db, q)) == FinishSync
  {
    hide Prepared, StartDate, Targets, Daily;
    Plan(b, c, Update(b).feed);
    SpliceOccurs(b, c);
  }
}
