/** What an incremental sync selects, and what a second one selects after it. */
module SyncProgress {
  import opened Values
  import opened Indicators
  import opened Tables
  import opened LatestCache
  import opened MarketSync
  import opened MarketSafety

  // ---------- what a sync plans ----------

  lemma NewestIs(data: seq<Row<Columns>>, t: string)
    ensures LatestDate(data, t).None? <==> forall x :: x in data ==> x.ticker != t
    ensures forall x :: x in data && x.ticker == t ==> x.date <= LatestDate(data, t).value
    ensures LatestDate(data, t).Some? ==>
              exists x :: x in data && x.ticker == t && x.date == LatestDate(data, t).value
  {
    hide Select, MaxDate;
    var rows := Of(data, t);
    if rows != [] {
      HasAMember(rows);
      MaxDateIsGreatest(rows);
    }
  }

  /** An incremental sync of a nonempty list targets those of its tickers that have no row of the last two days; one
      without any row counts as of 2000-01-01. Every other sync targets its whole list. */
  lemma TargetsMean(db: Database, q: Request, t: string)
    ensures t in Targets(db, q) <==>
            && t in q.universe
            && (!q.incremental ||
                if exists x :: x in db.data && x.ticker == t
                then forall x :: x in db.data && x.ticker == t ==> x.date < q.today - 2 else 10957 < q.today - 2)
  {
    hide LatestDate;
    NewestIs(db.data, t);
  }

  lemma {:induction false} OldestIsLeast(data: seq<Row<Columns>>, tickers: seq<string>, t: string)
    requires t in tickers && LatestDate(data, t).Some?
    ensures OldestLatest(data, tickers).Some? && OldestLatest(data, tickers).value <= LatestDate(data, t).value
  {
    hide LatestDate;
    var front, last := tickers[..|tickers| - 1], tickers[|tickers| - 1];
    assert tickers == front + [last];
    if t in front {
      OldestIsLeast(data, front, t);
    }
  }

  lemma {:induction false} OldestIsAttained(data: seq<Row<Columns>>, tickers: seq<string>)
    requires OldestLatest(data, tickers).Some?
    ensures exists t :: t in tickers && LatestDate(data, t) == OldestLatest(data, tickers)
  {
    hide LatestDate;
    var front, last := tickers[..|tickers| - 1], tickers[|tickers| - 1];
    assert tickers == front + [last];
    assert last in tickers;
    if OldestLatest(data, front).Some? {
      OldestIsAttained(data, front);
      var t :| t in front && LatestDate(data, t) == OldestLatest(data, front);
      assert t in tickers;
    }
  }

  /** x is the newest row of its ticker. */
  ghost predicate IsNewestRow(data: seq<Row<Columns>>, x: Row<Columns>) {
    x in data && forall y :: y in data && y.ticker == x.ticker ==> y.date <= x.date
  }

  /** No gap: an incremental download starts exactly 7 days before the oldest of its targets' newest rows, hence at
      least 7 days before each of them; there is no start only when no target has a row. */
  lemma DownloadOverlapsStoredRows(db: Database, q: Request)
    requires q.incremental && q.universe != []
    ensures var start := StartDate(db, q);
            && (start.None? <==> forall x :: x in db.data ==> x.ticker !in Targets(db, q))
            && (start.Some? ==>
                  && (exists x :: IsNewestRow(db.data, x) && x.ticker in Targets(db, q) && x.date == start.value + 7)
                  && (forall x :: IsNewestRow(db.data, x) && x.ticker in Targets(db, q) ==> start.value + 7 <= x.date))
  {
    hide LatestDate, Targets;
    var targets, start := Targets(db, q), StartDate(db, q);
    forall x | x in db.data && x.ticker in targets
      ensures var latest := LatestDate(db.data, x.ticker);
              start.Some? && latest.Some? && start.value + 7 <= latest.value
    {
      NewestIs(db.data, x.ticker);
      OldestIsLeast(db.data, targets, x.ticker);
    }
    if start.Some? {
      OldestIsAttained(db.data, targets);
      var t :| t in targets && LatestDate(db.data, t) == OldestLatest(db.data, targets);
      NewestIs(db.data, t);
      var x :| x in db.data && x.ticker == t && x.date == LatestDate(db.data, t).value;
      assert IsNewestRow(db.data, x);
    }
    forall x | IsNewestRow(db.data, x) && x.ticker in targets ensures start.Some? && start.value + 7 <= x.date {
      NewestIs(db.data, x.ticker);
    }
  }

  /** The targets whose download was written before the run ended. */
  predicate Delivered(db: Database, q: Request, std: seq<real> -> real, t: string) {
    t in ReachedTargets(db, q, std) && Of(q.feed, t) != []
  }

  lemma MaxOfReplaced(kept: seq<Row<Columns>>, prepared: seq<Row<Columns>>, raw: seq<Row<Bar>>, cutoff: int)
    requires raw != [] && (forall x :: x in kept ==> x.date < cutoff) && forall x :: x in raw ==> x.date >= cutoff
    requires KeySet(prepared) == KeySet(raw)
    ensures MaxDate(kept + prepared) == MaxDate(raw)
  {
    MaxDateIsGreatest(raw);
    var x :| x in raw && x.date == MaxDate(raw).value;
    assert (x.ticker, x.date) in KeySet(prepared);
    var y :| y in prepared && (y.ticker, y.date) == (x.ticker, x.date);
    forall z | z in kept + prepared ensures z.date <= y.date {
      if z in prepared {
        assert (z.ticker, z.date) in KeySet(raw);
        var r :| r in raw && (r.ticker, r.date) == (z.ticker, z.date);
      }
    }
    MaxDateIs(kept + prepared, y);
  }

  /** However a sync ends, the newest date of a target it has written is the newest downloaded one, even when
      older data was stored; every other ticker keeps its own. */
  lemma LatestDateAfterSync(db: Database, q: Request, std: seq<real> -> real, t: string)
    requires Aligned(db) && ProviderSound(db, q) && Distinct(Targets(db, q))
    ensures LatestDate(Synced(db, q, std).db.data, t) ==
            if Delivered(db, q, std, t) then MaxDate(Of(q.feed, t)) else LatestDate(db.data, t)
  {
    hide Prepared, AfterTargets, Refreshed, Of, DeleteFrom, KeySet, UniqueKeys, HonoursStart, MaxDate, MinDate,
         FitsSlice, Targets, Writes, Reached, Synced;
    var targets, prepared := Targets(db, q), Prepared(db, q, std);
    var n := Reached(q, prepared, targets);
    DataAfterSync(db, q, std);
    LoopOf(db, q.feed, prepared, targets, n, t);
    if Delivered(db, q, std, t) {
      WrittenMeansDownloaded(db, q, std, t);
      WrittenSliceFits(db, q, std, t);
      MinDateIsLeast(Of(q.feed, t));
      MaxOfReplaced(DeleteFrom(Of(db.data, t), t, MinDate(Of(q.feed, t))), Of(prepared, t), Of(q.feed, t),
                    MinDate(Of(q.feed, t)));
    }
  }

  lemma DataAfterSync(db: Database, q: Request, std: seq<real> -> real)
    ensures var targets, prepared := Targets(db, q), Prepared(db, q, std);
            Synced(db, q, std).db.data ==
            if Writes(db, q) then AfterTargets(db, q.feed, prepared, targets, Reached(q, prepared, targets)).data
            else db.data
  {
    hide Prepared, Targets, AfterTargets, Refreshed, RowsWritten, NotIn;
  }

  /** With the same clock, and however the first run ended, a second run reselects exactly the targets whose download
      was not written or is still before the fresh cutoff. */
  lemma SecondRunReselects(db: Database, q: Request, std: seq<real> -> real, t: string)
    requires Aligned(db) && ProviderSound(db, q) && Distinct(Targets(db, q)) && Skipping(q)
    ensures t in Targets(Synced(db, q, std).db, q) <==>
            t in Targets(db, q) &&
            (!Delivered(db, q, std, t) || MaxDate(Of(q.feed, t)).value < q.today - 2)
  {
    hide Prepared, Synced, Of, MaxDate, Delivered;
    assert Delivered(db, q, std, t) ==> t in Targets(db, q) && MaxDate(Of(q.feed, t)).Some? by {
      DeliveredIsTarget(db, q, std, t);
    }
    LatestDateAfterSync(db, q, std, t);
  }

  lemma DeliveredIsTarget(db: Database, q: Request, std: seq<real> -> real, t: string)
    ensures Delivered(db, q, std, t) ==> t in Targets(db, q) && MaxDate(Of(q.feed, t)).Some?
  {
    hide Prepared, Targets, Reached, Writes;
  }

  /** Every target was written up to the fresh cutoff. */
  predicate CaughtUp(db: Database, q: Request, std: seq<real> -> real) {
    forall t :: t in Targets(db, q) ==>
      Delivered(db, q, std, t) && MaxDate(Of(q.feed, t)).Some? &&
      MaxDate(Of(q.feed, t)).value >= q.today - 2
  }

  /** When nothing is reselected the second run, whatever it would download and however it would fail, leaves
      every table as it is. */
  lemma IdleRunChangesNothing(db: Database, q: Request, r: Request, std: seq<real> -> real)
    requires Aligned(db) && ProviderSound(db, q) && Distinct(Targets(db, q)) && Skipping(q) && CaughtUp(db, q, std)
    requires r == q.(feed := r.feed, failure := r.failure)
    ensures Synced(Synced(db, q, std).db, r, std) == Outcome(Synced(db, q, std).db, true, 0)
  {
    var after := Synced(db, q, std).db;
    hide Synced, Delivered, MaxDate;
    forall t ensures t !in Targets(after, r) {
      SecondRunReselects(db, q, std, t);
    }
    if Targets(after, r) != [] {
      HasAMember(Targets(after, r));
    }
    NothingSelected(after, r, std);
  }

  lemma NothingSelected(db: Database, q: Request, std: seq<real> -> real)
    requires Skipping(q) && Targets(db, q) == []
    ensures Synced(db, q, std) == Outcome(db, true, 0)
  {}

  // ---------- what a sync reports ----------

  lemma {:induction false} AsManyKeysAsRows<T(!new)>(rows: seq<Row<T>>)
    requires UniqueKeys(rows)
    ensures |KeySet(rows)| == |rows|
  {
    if rows == [] {
      assert KeySet(rows) == {};
    } else {
      var front, last := rows[..|rows| - 1], rows[|rows| - 1];
      assert rows == front + [last];
      AsManyKeysAsRows(front);
      LastKeyIsNew(front, last);
      hide KeySet, UniqueKeys;
    }
  }

  lemma LastKeyIsNew<T(!new)>(front: seq<Row<T>>, last: Row<T>)
    requires UniqueKeys(front + [last])
    ensures (last.ticker, last.date) !in KeySet(front)
    ensures KeySet(front + [last]) == KeySet(front) + {(last.ticker, last.date)}
  {
    var rows := front + [last];
    forall x | x in front ensures x.ticker != last.ticker || x.date != last.date {
      var i :| 0 <= i < |front| && front[i] == x;
      assert rows[i] == x && rows[|front|] == last;
    }
    KeySetAppends(front, [last]);
    assert KeySet([last]) == {(last.ticker, last.date)};
  }

  /** A sound download is written row for row. */
  lemma AsManyAsDownloaded(db: Database, q: Request, std: seq<real> -> real, t: string)
    requires ProviderSound(db, q) && t in Targets(db, q)
    ensures |Of(Prepared(db, q, std), t)| == |Of(q.feed, t)|
  {
    hide Prepared, Targets, HonoursStart, KeySet, UniqueKeys;
    PreparedKeys(db, q, std, t);
    OfKeepsUnique(q.feed, t);
    AsManyKeysAsRows(Of(q.feed, t));
    AsManyKeysAsRows(Of(Prepared(db, q, std), t));
  }

  function IsOneOf(tickers: seq<string>): Row<Bar> -> bool { (x: Row<Bar>) => x.ticker in tickers }

  lemma {:induction false} OneMoreTicker(rows: seq<Row<Bar>>, tickers: seq<string>, t: string)
    requires t !in tickers
    ensures |Select(rows, IsOneOf(tickers + [t]))| == |Select(rows, IsOneOf(tickers))| + |Of(rows, t)|
  {
    if rows != [] {
      OneMoreTicker(rows[..|rows| - 1], tickers, t);
    }
  }

  lemma {:induction false} RowsCounted(db: Database, q: Request, std: seq<real> -> real, n: nat)
    requires ProviderSound(db, q) && Distinct(Targets(db, q)) && n <= |Targets(db, q)|
    ensures RowsWritten(q.feed, Prepared(db, q, std), Targets(db, q), n) ==
            |Select(q.feed, IsOneOf(Targets(db, q)[..n]))|
  {
    hide Prepared, Select, Of, HonoursStart, Targets, UniqueKeys;
    if n == 0 {
      SelectNone(q.feed, IsOneOf([]));
    } else {
      RowsCounted(db, q, std, n - 1);
      var front, t := Targets(db, q)[..n - 1], Targets(db, q)[n - 1];
      assert Targets(db, q)[..n] == front + [t];
      AsManyAsDownloaded(db, q, std, t);
      WrittenMeansDownloaded(db, q, std, t);
      OneMoreTicker(q.feed, front, t);
    }
  }

  /** What a sync reports: it fails when the download fails or, with rows downloaded, when the computation, the slice of
      a target that has rows, anything after the writes or the refresh does; having nothing to do or nothing
      downloaded is a success. The row count is the number of downloaded rows of the targets it got to. */
  lemma SyncReportMeans(db: Database, q: Request, std: seq<real> -> real)
    requires ProviderSound(db, q) && Distinct(Targets(db, q))
    ensures var r, targets := Synced(db, q, std), Targets(db, q);
            && (r.succeeded <==>
                  || (q.incremental && q.universe != [] && targets == [])
                  || (!q.failure.DownloadFails? &&
                      (|| q.feed == [] || q.failure.NoFailure?
                       || (q.failure.SliceFails? &&
                           !(q.failure.at < |targets| && Of(q.feed, targets[q.failure.at]) != [])))))
            && r.rowsWritten == |Select(q.feed, IsOneOf(ReachedTargets(db, q, std)))|
  {
    hide Prepared, Select, Of, HonoursStart, Targets, UniqueKeys, AfterTargets, Refreshed, NotIn, RowsWritten;
    var targets, prepared := Targets(db, q), Prepared(db, q, std);
    if q.failure.SliceFails? && q.failure.at < |targets| {
      WrittenMeansDownloaded(db, q, std, targets[q.failure.at]);
    }
    if Writes(db, q) {
      RowsCounted(db, q, std, Reached(q, prepared, targets));
    } else {
      SelectNone(q.feed, IsOneOf([]));
    }
  }

  // ---------- when the cache heals ----------

  /** A sync that fails after its writes is not made up for: its targets are fresh, so the next run with the same
      clock selects nothing, and the cache keeps showing what it showed before. */
  lemma FailureAfterWritesIsNotMadeUpFor(db: Database, q: Request, r: Request, std: seq<real> -> real)
    requires Aligned(db) && ProviderSound(db, q) && Distinct(Targets(db, q)) && Skipping(q) && CaughtUp(db, q, std)
    requires q.failure.FailsAfterWrites? && r == q.(feed := r.feed, failure := r.failure)
    ensures var after := Synced(db, q, std).db;
            Synced(after, r, std) == Outcome(after, true, 0) && after.latest == db.latest
  {
    hide Aligned, ProviderSound, Distinct, CaughtUp, Synced, Targets;
    IdleRunChangesNothing(db, q, r, std);
    FailureKeepsCache(db, q, std);
  }

  lemma FailureKeepsCache(db: Database, q: Request, std: seq<real> -> real)
    requires q.failure.FailsAfterWrites?
    ensures Synced(db, q, std).db.latest == db.latest
  {
    hide Prepared, Targets, AfterTargets, RowsWritten;
    LoopKeepsCache(db, q.feed, Prepared(db, q, std), Targets(db, q), Reached(q, Prepared(db, q, std), Targets(db, q)));
  }

  /** A successful sync heals a wrong cache row exactly when it refreshes that ticker: when it gets to write and the
      ticker is one of its targets. */
  lemma HealsExactlyWhen(db: Database, q: Request, std: seq<real> -> real, t: string)
    requires Aligned(db) && ProviderSound(db, q) && Distinct(Targets(db, q))
    requires q.failure.NoFailure? && !Shows(db.latest, db.data, t)
    ensures var after := Synced(db, q, std).db;
            Shows(after.latest, after.data, t) <==> Writes(db, q) && Listed(Targets(db, q), t)
  {
    hide Prepared, AfterTargets, Refreshed, LatestOf, Of, KeySet, UniqueKeys, Targets;
    if Writes(db, q) {
      var targets, prepared := Targets(db, q), Prepared(db, q, std);
      var n := Reached(q, prepared, targets);
      var loop := AfterTargets(db, q.feed, prepared, targets, n);
      LoopKeepsAligned(db, q, std, n);
      AlignedIsUnique(loop);
      LoopKeepsCache(db, q.feed, prepared, targets, n);
      LoopOf(db, q.feed, prepared, targets, n, t);
      RefreshOf(loop.latest, loop.data, targets, t);
      if t !in targets {
        LatestDependsOnOwnRows(db.data, loop.data, t);
      }
    }
  }
}
