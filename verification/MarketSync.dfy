/** The sync run, the indicator rebuild and the state of the market tables they leave
    (backend/services/data_sync_service.py). */
module MarketSync {
  import opened Values
  import opened Indicators
  import opened Tables
  import opened LatestCache

  /** Days before the oldest stale date that a sync downloads again. */
  const BUFFER_DAYS := 7
  /** Calendar days of stored history spliced in front of the download. */
  const WARMUP_DAYS := 350
  /** Data this many days old still counts as fresh. */
  const FRESH_DAYS := 2
  /** 2000-01-01, the date assumed for a ticker without data, in days since 1970-01-01. */
  const NO_DATA_DATE := 10957

  datatype Database = Database(ohlcv: seq<Row<Bar>>, data: seq<Row<Columns>>, latest: seq<Row<Snapshot>>)

  // ---------- indicator frames ----------

  function Bars(h: seq<Row<Bar>>): (r: seq<Bar>)
    ensures |r| == |h|
  {
    seq(|h|, i requires 0 <= i < |h| => h[i].cells)
  }

  function ColumnsAt(bars: seq<Bar>, std: seq<real> -> real, i: nat): Columns
    requires i < |bars|
  {
    map m | m in Named() :: Compute(bars, std, Named()[m])[i]
  }

  /** One ticker's rows in date order with their indicator columns. */
  function IndicatorRows(h: seq<Row<Bar>>, std: seq<real> -> real): (r: seq<Row<Columns>>)
    ensures |r| == |h|
    ensures forall i :: 0 <= i < |h| ==> r[i].ticker == h[i].ticker && r[i].date == h[i].date
  {
    seq(|h|, i requires 0 <= i < |h| => Row(h[i].ticker, h[i].date, ColumnsAt(Bars(h), std, i)))
  }

  /** The tickers of a frame in order of first appearance. */
  function Tickers(rows: seq<Row<Bar>>): (r: seq<string>)
    ensures forall t :: t in r <==> exists x :: x in rows && x.ticker == t
  {
    if rows == [] then []
    else
      var front, last := rows[..|rows| - 1], rows[|rows| - 1];
      var before := Tickers(front);
      assert rows == front + [last];
      assert last in rows;
      if last.ticker in before then before else before + [last.ticker]
  }

  function ComputeGroups(rows: seq<Row<Bar>>, tickers: seq<string>, std: seq<real> -> real): seq<Row<Columns>> {
    if tickers == [] then []
    else ComputeGroups(rows, tickers[..|tickers| - 1], std) +
         IndicatorRows(History(rows, tickers[|tickers| - 1]), std)
  }

  /** groupby("Ticker"), each group sorted by date, concatenated. */
  function ComputeFrame(rows: seq<Row<Bar>>, std: seq<real> -> real): seq<Row<Columns>> {
    ComputeGroups(rows, Tickers(rows), std)
  }

  // ---------- planning a sync ----------

  /** Where a sync is cut short; a slice that fails is rolled back, a refresh that fails between its two
      statements is not. */
  datatype Failure =
    | NoFailure | DownloadFails | ComputeFails | SliceFails(at: nat, statement: Statement) | FailsAfterWrites
    | RefreshFails

  /** The two deletes, the two inserts and the commit of a slice. */
  type Statement = n: nat | n < 5

  datatype Request = Request(universe: seq<string>, incremental: bool, today: int, feed: seq<Row<Bar>>,
                             failure: Failure)

  function LatestDate(data: seq<Row<Columns>>, t: string): Option<int> { MaxDate(Of(data, t)) }

  predicate IsStale(data: seq<Row<Columns>>, t: string, today: int) {
    var latest := LatestDate(data, t);
    (if latest.Some? then latest.value else NO_DATA_DATE) < today - FRESH_DAYS
  }

  function StaleOf(universe: seq<string>, data: seq<Row<Columns>>, today: int): (r: seq<string>)
    ensures forall t :: t in r <==> t in universe && IsStale(data, t, today)
    ensures |r| <= |universe|
  {
    if universe == [] then []
    else
      var front, last := universe[..|universe| - 1], universe[|universe| - 1];
      assert universe == front + [last];
      StaleOf(front, data, today) + (if IsStale(data, last, today) then [last] else [])
  }

  predicate Skipping(q: Request) { q.incremental && q.universe != [] }

  function Targets(db: Database, q: Request): seq<string> {
    if Skipping(q) then StaleOf(q.universe, db.data, q.today) else q.universe
  }

  /** The oldest latest-row date among the given tickers; None when none of them has data. */
  function OldestLatest(data: seq<Row<Columns>>, tickers: seq<string>): Option<int> {
    if tickers == [] then None
    else
      var rest, d := OldestLatest(data, tickers[..|tickers| - 1]), LatestDate(data, tickers[|tickers| - 1]);
      if d.None? then rest else if rest.Some? && rest.value < d.value then rest else d
  }

  function StartDate(db: Database, q: Request): Option<int> {
    if !Skipping(q) then None
    else
      var oldest := OldestLatest(db.data, Targets(db, q));
      if oldest.None? then None else Some(oldest.value - BUFFER_DAYS)
  }

  function IsWarmup(targets: seq<string>, start: int): Row<Bar> -> bool {
    (x: Row<Bar>) => x.ticker in targets && start - WARMUP_DAYS <= x.date < start
  }

  function WarmupRows(ohlcv: seq<Row<Bar>>, targets: seq<string>, start: int): seq<Row<Bar>> {
    Select(ohlcv, IsWarmup(targets, start))
  }

  function IsSince(start: int): Row<Columns> -> bool { (x: Row<Columns>) => x.date >= start }

  /** The stored rows spliced in front of a download; none without a start. */
  function WarmupFrom(ohlcv: seq<Row<Bar>>, targets: seq<string>, start: Option<int>): seq<Row<Bar>> {
    if start.Some? then WarmupRows(ohlcv, targets, start.value) else []
  }

  /** The rows to be written: the download alone, or warmup and download spliced and cut at the start. */
  function PreparedFrom(ohlcv: seq<Row<Bar>>, targets: seq<string>, start: Option<int>, feed: seq<Row<Bar>>,
                        std: seq<real> -> real): seq<Row<Columns>> {
    var warmup := WarmupFrom(ohlcv, targets, start);
    if warmup == [] then ComputeFrame(feed, std)
    else Select(ComputeFrame(warmup + feed, std), IsSince(if start.Some? then start.value else 0))
  }

  function Prepared(db: Database, q: Request, std: seq<real> -> real): seq<Row<Columns>> {
    PreparedFrom(db.ohlcv, Targets(db, q), StartDate(db, q), q.feed, std)
  }

  // ---------- writing ----------

  /** Replaces one ticker's range in both tables. */
  function Replaced(db: Database, t: string, cutoff: int, raw: seq<Row<Bar>>, prepared: seq<Row<Columns>>): Database {
    db.(ohlcv := DeleteFrom(db.ohlcv, t, cutoff) + raw, data := DeleteFrom(db.data, t, cutoff) + prepared)
  }

  /** A sync replaces the range that starts at the first downloaded date. */
  function Sliced(db: Database, t: string, raw: seq<Row<Bar>>, prepared: seq<Row<Columns>>): Database
    requires raw != []
  {
    Replaced(db, t, MinDate(raw), raw, prepared)
  }

  /** A target is written only when both the download and the indicator frame have rows for it. */
  predicate IsWritten(feed: seq<Row<Bar>>, prepared: seq<Row<Columns>>, t: string) {
    Of(feed, t) != [] && Of(prepared, t) != []
  }

  function AfterTargets(db: Database, feed: seq<Row<Bar>>, prepared: seq<Row<Columns>>, targets: seq<string>,
                        n: nat): Database
    requires n <= |targets|
  {
    if n == 0 then db
    else
      var before, t := AfterTargets(db, feed, prepared, targets, n - 1), targets[n - 1];
      if IsWritten(feed, prepared, t) then Sliced(before, t, Of(feed, t), Of(prepared, t)) else before
  }

  function RowsWritten(feed: seq<Row<Bar>>, prepared: seq<Row<Columns>>, targets: seq<string>, n: nat): nat
    requires n <= |targets|
  {
    if n == 0 then 0
    else RowsWritten(feed, prepared, targets, n - 1) +
         (if IsWritten(feed, prepared, targets[n - 1]) then |Of(prepared, targets[n - 1])| else 0)
  }

  /** How many targets are written before the run is cut short. */
  function Reached(q: Request, prepared: seq<Row<Columns>>, targets: seq<string>): (n: nat)
    ensures n <= |targets|
  {
    if q.failure.SliceFails? && q.failure.at < |targets| && IsWritten(q.feed, prepared, targets[q.failure.at])
    then q.failure.at else |targets|
  }

  /** The statement at which the slice of target n raises, if it does. */
  function Fault(f: Failure, n: nat): Option<Statement> {
    if f.SliceFails? && f.at == n then Some(f.statement) else None
  }

  datatype Outcome = Outcome(db: Database, succeeded: bool, rowsWritten: nat)

  predicate NothingToDo(db: Database, q: Request) { Skipping(q) && Targets(db, q) == [] }

  function Synced(db: Database, q: Request, std: seq<real> -> real): Outcome {
    if NothingToDo(db, q) then Outcome(db, true, 0)
    else if q.failure.DownloadFails? then Outcome(db, false, 0)
    else if q.feed == [] then Outcome(db, true, 0)
    else if q.failure.ComputeFails? then Outcome(db, false, 0)
    else
      var targets, prepared := Targets(db, q), Prepared(db, q, std);
      var n := Reached(q, prepared, targets);
      var written, rows := AfterTargets(db, q.feed, prepared, targets, n), RowsWritten(q.feed, prepared, targets, n);
      if n < |targets| || q.failure.FailsAfterWrites? then Outcome(written, false, rows)
      else if q.failure.RefreshFails? then Outcome(written.(latest := NotIn(written.latest, targets)), false, rows)
      else Outcome(written.(latest := Refreshed(written.latest, written.data, targets)), true, rows)
  }

  /** The swap of a rebuild, from rows read earlier. */
  function Swapped(db: Database, universe: seq<string>, read: seq<Row<Bar>>, std: seq<real> -> real): Database {
    db.(data := NotIn(db.data, universe) + ComputeFrame(read, std))
  }

  /** A rebuild that nothing interrupts between its swap and its refresh. */
  function Rebuilt(db: Database, universe: seq<string>, read: seq<Row<Bar>>, std: seq<real> -> real): Database {
    if read == [] then db
    else
      var swapped := Swapped(db, universe, read, std);
      swapped.(latest := Refreshed(swapped.latest, swapped.data, universe))
  }

  // ---------- the tables as mutable state ----------

  class MarketStore {
    var ohlcv: seq<Row<Bar>>
    var data: seq<Row<Columns>>
    var latest: seq<Row<Snapshot>>

    ghost function Contents(): Database
      reads this
    {
      Database(ohlcv, data, latest)
    }

    constructor ()
      ensures Contents() == Database([], [], [])
    {
      ohlcv, data, latest := [], [], [];
    }

    /** BEGIN; two deletes and two inserts; COMMIT, or ROLLBACK when statement failAt raises. */
    method WriteTickerSlice(t: string, cutoff: int, raw: seq<Row<Bar>>, prepared: seq<Row<Columns>>,
                            failAt: Option<Statement>)
      returns (ok: bool)
      modifies this`ohlcv, this`data
      ensures ok <==> failAt.None?
      ensures Contents() == if ok then Replaced(old(Contents()), t, cutoff, raw, prepared) else old(Contents())
    {
      var ohlcvBefore, dataBefore := ohlcv, data;
      ok := false;
      if failAt != Some(0) {
        ohlcv := DeleteFrom(ohlcv, t, cutoff);
        if failAt != Some(1) {
          ohlcv := ohlcv + raw;
          if failAt != Some(2) {
            data := DeleteFrom(data, t, cutoff);
            if failAt != Some(3) {
              data := data + prepared;
              ok := failAt != Some(4);
            }
          }
        }
      }
      if !ok {
        ohlcv, data := ohlcvBefore, dataBefore;
      }
    }

    /** DELETE, then INSERT, each committed on its own: an interruption in between leaves the delete. */
    method RefreshLatestTickerCache(universe: seq<string>, interrupted: bool) returns (ok: bool, count: nat)
      modifies this`latest
      ensures ok == !interrupted
      ensures latest == if ok then Refreshed(old(latest), data, universe) else NotIn(old(latest), universe)
      ensures ok ==> count == |latest|
    {
      if universe != [] {
        latest := NotIn(latest, universe);
      } else {
        latest := [];
        NothingUnlisted(old(latest));
      }
      if interrupted {
        return false, 0;
      }
      ok := true;
      latest := latest + LatestRows(In(data, universe));
      count := |latest|;
    }

    method SyncMarketData(q: Request, std: seq<real> -> real) returns (succeeded: bool, rowsWritten: nat)
      modifies this
      ensures Outcome(Contents(), succeeded, rowsWritten) == Synced(old(Contents()), q, std)
    {
      hide ComputeFrame, Select, Replaced, Refreshed, IsStale, OldestLatest, SortByDate, MinDate;
      ghost var before := Contents();
      var targets := q.universe;
      var start: Option<int> := None;
      if q.incremental && targets != [] {
        targets := StaleOf(q.universe, data, q.today);
        if targets == [] {
          return true, 0;
        }
        var oldest := OldestLatest(data, targets);
        if oldest.Some? {
          start := Some(oldest.value - BUFFER_DAYS);
        }
      }
      if q.failure.DownloadFails? {
        return false, 0;
      }
      if q.feed == [] {
        return true, 0;
      }
      if q.failure.ComputeFails? {
        return false, 0;
      }
      var prepared;
      if start.Some? {
        var warmup := WarmupRows(ohlcv, targets, start.value);
        if warmup == [] {
          prepared := ComputeFrame(q.feed, std);
        } else {
          prepared := Select(ComputeFrame(warmup + q.feed, std), IsSince(start.value));
        }
      } else {
        prepared := ComputeFrame(q.feed, std);
      }
      assert targets == Targets(before, q) && prepared == Prepared(before, q, std);
      rowsWritten := 0;
      for n := 0 to |targets|
        invariant Contents() == AfterTargets(before, q.feed, prepared, targets, n)
        invariant rowsWritten == RowsWritten(q.feed, prepared, targets, n)
        invariant n <= Reached(q, prepared, targets)
      {
        var t := targets[n];
        var raw, subset := Of(q.feed, t), Of(prepared, t);
        if raw != [] && subset != [] {
          var cutoff := MinDate(raw);
          var ok := WriteTickerSlice(t, cutoff, raw, subset, Fault(q.failure, n));
          if !ok {
            return false, rowsWritten;
          }
          rowsWritten := rowsWritten + |subset|;
        }
      }
      if q.failure.FailsAfterWrites? {
        return false, rowsWritten;
      }
      var refreshed, _ := RefreshLatestTickerCache(targets, q.failure.RefreshFails?);
      succeeded := refreshed;
    }

    /** DROP and recreate ticker_data: the listed tickers' rows are replaced by the rebuilt ones. */
    method SwapTickerData(universe: seq<string>, rebuilt: seq<Row<Columns>>)
      modifies this`data
      ensures data == NotIn(old(data), universe) + rebuilt
    {
      if universe != [] {
        data := NotIn(data, universe) + rebuilt;
      } else {
        NothingUnlisted(data);
        data := rebuilt;
      }
    }

    /** Reads, computes, swaps and refreshes; each of the three accesses to the tables is a critical section. */
    method RebuildIndicatorCache(universe: seq<string>, std: seq<real> -> real) returns (rowsWritten: nat)
      modifies this
      ensures Contents() == Rebuilt(old(Contents()), universe, In(old(ohlcv), universe), std)
      ensures rowsWritten == if In(ohlcv, universe) == [] then 0 else |ComputeFrame(In(ohlcv, universe), std)|
    {
      hide ComputeFrame, Select, Refreshed, In, NotIn;
      var raw := In(ohlcv, universe);
      if raw == [] {
        return 0;
      }
      ghost var before := Contents();
      var rebuilt := ComputeFrame(raw, std);
      SwapTickerData(universe, rebuilt);
      assert Contents() == Swapped(before, universe, raw, std);
      var _, _ := RefreshLatestTickerCache(universe, false);
      assert Contents() == Rebuilt(before, universe, raw, std);
      rowsWritten := |rebuilt|;
    }
  }

  lemma NothingUnlisted<T(!new)>(rows: seq<Row<T>>)
    ensures NotIn(rows, []) == []
  {
    SelectNone(rows, IsUnlisted([]));
  }
}
