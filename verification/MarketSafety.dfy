/** What the market tables and the latest-row cache keep over every run of syncs and rebuilds. */
module MarketSafety {
  import opened Values
  import opened Indicators
  import opened Tables
  import opened LatestCache
  import opened MarketSync

  ghost predicate AllOf<T(!new)>(rows: seq<Row<T>>, t: string) { forall x :: x in rows ==> x.ticker == t }

  // ---------- the computed frame, ticker by ticker ----------

  lemma OfUniform<T(!new)>(rows: seq<Row<T>>, t: string, u: string)
    requires AllOf(rows, t)
    ensures Of(rows, u) == if u == t then rows else []
  {
    if u == t {
      SelectAll(rows, ByTicker(u));
    } else {
      SelectNone(rows, ByTicker(u));
    }
  }

  lemma IndicatorRowsKeepTicker(h: seq<Row<Bar>>, std: seq<real> -> real, t: string)
    requires AllOf(h, t)
    ensures AllOf(IndicatorRows(h, std), t)
  {
    forall x | x in IndicatorRows(h, std) ensures x.ticker == t {
      var i :| 0 <= i < |h| && IndicatorRows(h, std)[i] == x;
      assert h[i] in h;
    }
  }

  lemma {:induction false} TickersAreDistinct(rows: seq<Row<Bar>>)
    ensures Distinct(Tickers(rows))
  {
    if rows != [] {
      TickersAreDistinct(rows[..|rows| - 1]);
    }
  }

  lemma {:induction false} OfComputeGroups(rows: seq<Row<Bar>>, tickers: seq<string>, std: seq<real> -> real, t: string)
    requires Distinct(tickers)
    ensures Of(ComputeGroups(rows, tickers, std), t) ==
            if t in tickers then IndicatorRows(History(rows, t), std) else []
  {
    hide IndicatorRows, History, Select;
    if tickers == [] {
      SelectNone<Columns>([], ByTicker(t));
    } else {
      var front, last := tickers[..|tickers| - 1], tickers[|tickers| - 1];
      assert tickers == front + [last];
      assert last !in front;
      OfComputeGroups(rows, front, std, t);
      var group := IndicatorRows(History(rows, last), std);
      OfAppends(ComputeGroups(rows, front, std), group, t);
      IndicatorRowsKeepTicker(History(rows, last), std, last);
      OfUniform(group, last, t);
    }
  }

  /** Each ticker's part of the computed frame depends on that ticker's rows alone. */
  lemma OfComputeFrame(rows: seq<Row<Bar>>, std: seq<real> -> real, t: string)
    ensures Of(ComputeFrame(rows, std), t) == IndicatorRows(History(rows, t), std)
  {
    hide IndicatorRows;
    TickersAreDistinct(rows);
    OfComputeGroups(rows, Tickers(rows), std, t);
    if t !in Tickers(rows) {
      if Of(rows, t) != [] {
        HasAMember(Of(rows, t));
      }
      assert |IndicatorRows(History(rows, t), std)| == 0;
    }
  }

  // ---------- one slice ----------

  lemma OfDeleteFrom<T(!new)>(rows: seq<Row<T>>, t: string, cutoff: int, u: string)
    ensures Of(DeleteFrom(rows, t, cutoff), u) == if u == t then DeleteFrom(Of(rows, t), t, cutoff) else Of(rows, u)
  {
    var both := (x: Row<T>) => !(x.ticker == t && x.date >= cutoff) && x.ticker == u;
    SelectTwice(rows, Survives(t, cutoff), ByTicker(u), both);
    if u == t {
      SelectTwice(rows, ByTicker(t), Survives(t, cutoff), both);
    } else {
      SelectSame(rows, both, ByTicker(u));
    }
  }

  /** A slice replaces the rows of its ticker from the first downloaded date on, and nothing else. */
  lemma SlicedOf(db: Database, t: string, raw: seq<Row<Bar>>, prepared: seq<Row<Columns>>, u: string)
    requires raw != [] && AllOf(raw, t) && AllOf(prepared, t)
    ensures var after, cutoff := Sliced(db, t, raw, prepared), MinDate(raw);
            && Of(after.ohlcv, u) == (if u == t then DeleteFrom(Of(db.ohlcv, t), t, cutoff) + raw else Of(db.ohlcv, u))
            && Of(after.data, u) ==
               (if u == t then DeleteFrom(Of(db.data, t), t, cutoff) + prepared else Of(db.data, u))
            && after.latest == db.latest
  {
    hide DeleteFrom, Select, Of;
    var cutoff := MinDate(raw);
    OfAppends(DeleteFrom(db.ohlcv, t, cutoff), raw, u);
    OfAppends(DeleteFrom(db.data, t, cutoff), prepared, u);
    OfDeleteFrom(db.ohlcv, t, cutoff, u);
    OfDeleteFrom(db.data, t, cutoff, u);
    OfUniform(raw, t, u);
    OfUniform(prepared, t, u);
  }

  /** Both tables have unique keys, and the same ones. */
  ghost predicate Aligned(db: Database) {
    UniqueKeys(db.ohlcv) && UniqueKeys(db.data) && KeySet(db.ohlcv) == KeySet(db.data)
  }

  lemma DeleteAndInsert<T(!new)>(rows: seq<Row<T>>, t: string, cutoff: int, added: seq<Row<T>>)
    requires UniqueKeys(rows) && UniqueKeys(added) && forall x :: x in added ==> x.ticker == t && x.date >= cutoff
    ensures UniqueKeys(DeleteFrom(rows, t, cutoff) + added)
    ensures KeySet(DeleteFrom(rows, t, cutoff) + added) ==
            (set k | k in KeySet(rows) && !(k.0 == t && k.1 >= cutoff)) + KeySet(added)
  {
    hide DeleteFrom;
    var kept := DeleteFrom(rows, t, cutoff);
    assert UniqueKeys(kept) by { DeleteKeepsUnique(rows, t, cutoff); }
    KeySetOfDelete(rows, t, cutoff);
    KeySetAppends(kept, added);
    forall k | k in KeySet(added) ensures k !in KeySet(kept) {}
    AppendKeepsUnique(kept, added);
  }

  lemma DeleteKeepsUnique<T(!new)>(rows: seq<Row<T>>, t: string, cutoff: int)
    requires UniqueKeys(rows)
    ensures UniqueKeys(DeleteFrom(rows, t, cutoff))
  {
    SelectKeepsUnique(rows, Survives(t, cutoff));
  }

  ghost predicate FitsSlice(t: string, raw: seq<Row<Bar>>, prepared: seq<Row<Columns>>) {
    && raw != [] && UniqueKeys(raw) && UniqueKeys(prepared) && AllOf(raw, t)
    && forall x :: x in prepared ==> x.ticker == t && x.date >= MinDate(raw)
  }

  /** After a slice the two tables have the same keys exactly when the two inserted sets had. */
  lemma SliceAlignsExactlyWhen(db: Database, t: string, raw: seq<Row<Bar>>, prepared: seq<Row<Columns>>)
    requires Aligned(db) && FitsSlice(t, raw, prepared)
    ensures Aligned(Sliced(db, t, raw, prepared)) <==> KeySet(raw) == KeySet(prepared)
  {
    hide DeleteFrom, UniqueKeys, KeySet;
    var cutoff := MinDate(raw);
    MinDateIsLeast(raw);
    DeleteAndInsert(db.ohlcv, t, cutoff, raw);
    DeleteAndInsert(db.data, t, cutoff, prepared);
    var kept := set k | k in KeySet(db.ohlcv) && !(k.0 == t && k.1 >= cutoff);
    KeysInRange(raw, t, cutoff);
    KeysInRange(prepared, t, cutoff);
    DisjointUnions(kept, KeySet(raw), KeySet(prepared));
  }

  lemma KeysInRange<T(!new)>(rows: seq<Row<T>>, t: string, cutoff: int)
    requires forall x :: x in rows ==> x.ticker == t && x.date >= cutoff
    ensures forall k :: k in KeySet(rows) ==> k.0 == t && k.1 >= cutoff
  {}

  lemma DisjointUnions<K(!new)>(a: set<K>, b: set<K>, c: set<K>)
    requires a !! b && a !! c
    ensures a + b == a + c <==> b == c
  {
    if a + b == a + c {
      assert b == (a + b) - a;
      assert c == (a + c) - a;
    }
  }

  // ---------- the rows a sync prepares ----------

  /** The stored rows a sync loads in front of its download; it splices when there are any. */
  function Warmup(db: Database, q: Request): seq<Row<Bar>> { WarmupFrom(db.ohlcv, Targets(db, q), StartDate(db, q)) }

  predicate Splices(db: Database, q: Request) { StartDate(db, q).Some? && Warmup(db, q) != [] }

  lemma PreparedFromOf(ohlcv: seq<Row<Bar>>, targets: seq<string>, start: Option<int>, feed: seq<Row<Bar>>,
                       std: seq<real> -> real, t: string)
    ensures var warmup := WarmupFrom(ohlcv, targets, start);
            && (warmup != [] ==> start.Some?)
            && Of(PreparedFrom(ohlcv, targets, start, feed, std), t) ==
               if warmup != [] then Select(IndicatorRows(History(warmup + feed, t), std), IsSince(start.value))
               else IndicatorRows(History(feed, t), std)
  {
    hide IndicatorRows, ComputeFrame;
    var warmup := WarmupFrom(ohlcv, targets, start);
    if warmup != [] {
      var rows := ComputeFrame(warmup + feed, std);
      var both := (x: Row<Columns>) => x.date >= start.value && x.ticker == t;
      SelectTwice(rows, IsSince(start.value), ByTicker(t), both);
      SelectTwice(rows, ByTicker(t), IsSince(start.value), both);
      OfComputeFrame(warmup + feed, std, t);
    } else {
      OfComputeFrame(feed, std, t);
    }
  }

  lemma PreparedOf(db: Database, q: Request, std: seq<real> -> real, t: string)
    ensures Of(Prepared(db, q, std), t) ==
            if Splices(db, q)
            then Select(IndicatorRows(History(Warmup(db, q) + q.feed, t), std), IsSince(StartDate(db, q).value))
            else IndicatorRows(History(q.feed, t), std)
  {
    hide IndicatorRows, PreparedFrom, WarmupFrom, Targets, StartDate;
    PreparedFromOf(db.ohlcv, Targets(db, q), StartDate(db, q), q.feed, std, t);
  }

  /** The provider returns no row of a target before the requested start. */
  ghost predicate HonoursStart(db: Database, q: Request) { Honours(Targets(db, q), StartDate(db, q), q.feed) }

  ghost predicate ProviderSound(db: Database, q: Request) { UniqueKeys(q.feed) && HonoursStart(db, q) }

  lemma SpliceIsUnique(db: Database, q: Request)
    requires UniqueKeys(db.ohlcv) && ProviderSound(db, q) && Splices(db, q)
    ensures UniqueKeys(Warmup(db, q) + q.feed)
  {
    var start, targets, warmup := StartDate(db, q).value, Targets(db, q), Warmup(db, q);
    SelectMembers(db.ohlcv, IsWarmup(targets, start));
    SelectKeepsUnique(db.ohlcv, IsWarmup(targets, start));
    assert forall k :: k in KeySet(warmup) ==> k.0 in targets && k.1 < start;
    assert forall k :: k in KeySet(q.feed) && k.0 in targets ==> k.1 >= start;
    AppendKeepsUnique(warmup, q.feed);
  }

  lemma KeysOfIndicatorRows(h: seq<Row<Bar>>, std: seq<real> -> real)
    requires Chronological(h)
    ensures UniqueKeys(IndicatorRows(h, std)) && KeySet(IndicatorRows(h, std)) == KeySet(h)
  {
    IndicatorRowsKeepKeys(h, std);
  }

  lemma IndicatorRowsKeepKeys(h: seq<Row<Bar>>, std: seq<real> -> real)
    ensures KeySet(IndicatorRows(h, std)) == KeySet(h)
  {
    var r := IndicatorRows(h, std);
    forall k | k in KeySet(h) ensures k in KeySet(r) {
      var x :| x in h && k == (x.ticker, x.date);
      var i :| 0 <= i < |h| && h[i] == x;
      assert r[i] in r;
    }
    forall k | k in KeySet(r) ensures k in KeySet(h) {
      var x :| x in r && k == (x.ticker, x.date);
      var i :| 0 <= i < |r| && r[i] == x;
      assert h[i] in h;
    }
  }

  lemma KeysSince(rows: seq<Row<Columns>>, start: int)
    ensures KeySet(Select(rows, IsSince(start))) == set k | k in KeySet(rows) && k.1 >= start
  {
    SelectMembers(rows, IsSince(start));
  }

  /** Keys from a date on are not repeated. */
  ghost predicate UniqueSince<T(!new)>(rows: seq<Row<T>>, start: int) {
    forall i, j :: 0 <= i < j < |rows| && rows[i].date >= start ==>
      rows[i].ticker != rows[j].ticker || rows[i].date != rows[j].date
  }

  lemma {:induction false} InsertKeepsUniqueSince<T(!new)>(h: seq<Row<T>>, x: Row<T>, start: int)
    requires UniqueSince(h, start)
    requires x.date >= start ==> forall y :: y in h ==> y.ticker != x.ticker || y.date != x.date
    ensures UniqueSince(InsertByDate(h, x), start)
  {
    if h != [] && h[|h| - 1].date > x.date {
      var front, last := h[..|h| - 1], h[|h| - 1];
      assert h == front + [last];
      InsertKeepsUniqueSince(front, x, start);
      var r := InsertByDate(front, x);
      forall i | 0 <= i < |r| && r[i].date >= start ensures r[i].ticker != last.ticker || r[i].date != last.date {
        assert r[i] in r;
      }
    } else {
      forall i | 0 <= i < |h| && h[i].date >= start ensures h[i].ticker != x.ticker || h[i].date != x.date {
        assert h[i] in h;
      }
    }
  }

  lemma {:induction false} SortKeepsUniqueSince<T(!new)>(rows: seq<Row<T>>, start: int)
    requires UniqueSince(rows, start)
    ensures UniqueSince(SortByDate(rows), start)
  {
    if rows != [] {
      var front, last := rows[..|rows| - 1], rows[|rows| - 1];
      SortKeepsUniqueSince(front, start);
      forall y | y in SortByDate(front) && last.date >= start ensures y.ticker != last.ticker || y.date != last.date {
        var i :| 0 <= i < |front| && front[i] == y;
        assert rows[i] == y;
      }
      InsertKeepsUniqueSince(SortByDate(front), last, start);
    }
  }

  lemma {:induction false} SinceIsUnique(rows: seq<Row<Columns>>, start: int)
    requires UniqueSince(rows, start)
    ensures UniqueKeys(Select(rows, IsSince(start)))
  {
    if rows != [] {
      var front, last := rows[..|rows| - 1], rows[|rows| - 1];
      SinceIsUnique(front, start);
      SelectMembers(front, IsSince(start));
      var s := Select(front, IsSince(start));
      forall i | 0 <= i < |s| && last.date >= start ensures s[i].ticker != last.ticker || s[i].date != last.date {
        assert s[i] in front;
        var k :| 0 <= k < |front| && front[k] == s[i];
        assert rows[k] == s[i];
      }
    }
  }

  lemma {:induction false} OfKeepsUniqueSince<T(!new)>(rows: seq<Row<T>>, t: string, start: int)
    requires UniqueSince(rows, start)
    ensures UniqueSince(Of(rows, t), start)
  {
    if rows != [] {
      var front, last := rows[..|rows| - 1], rows[|rows| - 1];
      OfKeepsUniqueSince(front, t, start);
      var s := Of(front, t);
      forall i | 0 <= i < |s| && s[i].date >= start ensures s[i].ticker != last.ticker || s[i].date != last.date {
        assert s[i] in front;
        var k :| 0 <= k < |front| && front[k] == s[i];
        assert rows[k] == s[i];
      }
    }
  }

  /** Warmup rows are older than the start, so the splice repeats no key from there on, whatever the download
      brings before it. */
  lemma SpliceIsUniqueSince(ohlcv: seq<Row<Bar>>, targets: seq<string>, start: int, feed: seq<Row<Bar>>)
    requires UniqueKeys(feed)
    ensures UniqueSince(WarmupRows(ohlcv, targets, start) + feed, start)
    ensures forall x :: x in WarmupRows(ohlcv, targets, start) ==> x.date < start
  {
    var warmup := WarmupRows(ohlcv, targets, start);
    SelectMembers(ohlcv, IsWarmup(targets, start));
    forall i | 0 <= i < |warmup| ensures warmup[i].date < start {
      assert warmup[i] in warmup;
    }
  }

  /** The dates a ticker is about to be written at: those of its download, in a splice only from the start on. */
  lemma PreparedFromKeys(ohlcv: seq<Row<Bar>>, targets: seq<string>, start: Option<int>, feed: seq<Row<Bar>>,
                         std: seq<real> -> real, t: string)
    requires UniqueKeys(feed)
    ensures var prepared := Of(PreparedFrom(ohlcv, targets, start, feed, std), t);
            var warmup := WarmupFrom(ohlcv, targets, start);
            && UniqueKeys(prepared) && (warmup != [] ==> start.Some?)
            && KeySet(prepared) ==
               if warmup != [] then set k | k in KeySet(Of(feed, t)) && k.1 >= start.value else KeySet(Of(feed, t))
  {
    hide PreparedFrom, WarmupRows;
    PreparedFromOf(ohlcv, targets, start, feed, std, t);
    var warmup := WarmupFrom(ohlcv, targets, start);
    if warmup != [] {
      var rows := warmup + feed;
      var h := History(rows, t);
      SpliceIsUniqueSince(ohlcv, targets, start.value, feed);
      hide WarmupFrom, IndicatorRows;
      OfKeepsUniqueSince(rows, t, start.value);
      SortKeepsUniqueSince(Of(rows, t), start.value);
      IndicatorRowsKeepUniqueSince(h, std, start.value);
      SinceIsUnique(IndicatorRows(h, std), start.value);
      IndicatorRowsKeepKeys(h, std);
      KeysSince(IndicatorRows(h, std), start.value);
      SplicedKeys(warmup, feed, t, start.value);
    } else {
      hide IndicatorRows;
      HistoryIsChronological(feed, t);
      KeysOfIndicatorRows(History(feed, t), std);
      assert KeySet(History(feed, t)) == KeySet(Of(feed, t));
    }
  }

  lemma PreparedKeysExactly(db: Database, q: Request, std: seq<real> -> real, t: string)
    requires UniqueKeys(q.feed)
    ensures UniqueKeys(Of(Prepared(db, q, std), t))
    ensures KeySet(Of(Prepared(db, q, std), t)) ==
            if Splices(db, q) then set k | k in KeySet(Of(q.feed, t)) && k.1 >= StartDate(db, q).value
            else KeySet(Of(q.feed, t))
  {
    hide PreparedFrom, WarmupFrom, Targets, StartDate;
    PreparedFromKeys(db.ohlcv, Targets(db, q), StartDate(db, q), q.feed, std, t);
  }

  lemma IndicatorRowsKeepUniqueSince(h: seq<Row<Bar>>, std: seq<real> -> real, start: int)
    requires UniqueSince(h, start)
    ensures UniqueSince(IndicatorRows(h, std), start)
  {}

  /** A download that honours the start: no row of a target before it. */
  ghost predicate Honours(targets: seq<string>, start: Option<int>, feed: seq<Row<Bar>>) {
    start.Some? ==> forall x :: x in feed && x.ticker in targets ==> x.date >= start.value
  }

  lemma HonouredKeys(ohlcv: seq<Row<Bar>>, targets: seq<string>, start: Option<int>, feed: seq<Row<Bar>>,
                     std: seq<real> -> real, t: string)
    requires UniqueKeys(feed) && Honours(targets, start, feed) && t in targets
    ensures UniqueKeys(Of(PreparedFrom(ohlcv, targets, start, feed, std), t))
    ensures KeySet(Of(PreparedFrom(ohlcv, targets, start, feed, std), t)) == KeySet(Of(feed, t))
  {
    hide PreparedFrom, WarmupFrom, UniqueKeys;
    PreparedFromKeys(ohlcv, targets, start, feed, std, t);
    if start.Some? {
      assert forall k :: k in KeySet(Of(feed, t)) ==> k.1 >= start.value;
    }
  }

  lemma PreparedKeys(db: Database, q: Request, std: seq<real> -> real, t: string)
    requires ProviderSound(db, q) && t in Targets(db, q)
    ensures UniqueKeys(Of(Prepared(db, q, std), t))
    ensures KeySet(Of(Prepared(db, q, std), t)) == KeySet(Of(q.feed, t))
  {
    hide PreparedFrom, UniqueKeys, Targets, StartDate, KeySet, Of;
    HonouredKeys(db.ohlcv, Targets(db, q), StartDate(db, q), q.feed, std, t);
  }

  /** With a sound download a target is written exactly when the download has rows for it. */
  lemma WrittenMeansDownloaded(db: Database, q: Request, std: seq<real> -> real, t: string)
    requires ProviderSound(db, q) && t in Targets(db, q)
    ensures IsWritten(q.feed, Prepared(db, q, std), t) <==> Of(q.feed, t) != []
  {
    hide Prepared, Of, Targets, UniqueKeys, HonoursStart;
    PreparedKeys(db, q, std, t);
    NoKeysNoRows(Of(Prepared(db, q, std), t));
    NoKeysNoRows(Of(q.feed, t));
  }

  lemma NoKeysNoRows<T(!new)>(rows: seq<Row<T>>)
    ensures KeySet(rows) == {} <==> rows == []
  {
    if rows != [] {
      assert rows[0] in rows && (rows[0].ticker, rows[0].date) in KeySet(rows);
    }
  }

  lemma SplicedKeys(warmup: seq<Row<Bar>>, feed: seq<Row<Bar>>, t: string, start: int)
    requires forall x :: x in warmup ==> x.date < start
    ensures (set k | k in KeySet(History(warmup + feed, t)) && k.1 >= start) ==
            (set k | k in KeySet(Of(feed, t)) && k.1 >= start)
  {
    forall k | k in KeySet(History(warmup + feed, t)) && k.1 >= start ensures k in KeySet(Of(feed, t)) {
      var x :| x in History(warmup + feed, t) && k == (x.ticker, x.date);
      assert x in feed;
      assert x in Of(feed, t);
    }
    forall k | k in KeySet(Of(feed, t)) ensures k in KeySet(History(warmup + feed, t)) {
      var x :| x in Of(feed, t) && k == (x.ticker, x.date);
      assert x in warmup + feed;
      assert x in History(warmup + feed, t);
    }
  }

  // ---------- the write loop ----------

  lemma HonouredSliceFits(ohlcv: seq<Row<Bar>>, targets: seq<string>, start: Option<int>, feed: seq<Row<Bar>>,
                          std: seq<real> -> real, t: string)
    requires UniqueKeys(feed) && Honours(targets, start, feed) && t in targets
    requires IsWritten(feed, PreparedFrom(ohlcv, targets, start, feed, std), t)
    ensures var raw, prepared := Of(feed, t), Of(PreparedFrom(ohlcv, targets, start, feed, std), t);
            FitsSlice(t, raw, prepared) && KeySet(raw) == KeySet(prepared)
  {
    hide PreparedFrom, Honours, Select;
    HonouredKeys(ohlcv, targets, start, feed, std, t);
    OfKeepsUnique(feed, t);
    KeysNotBefore(Of(feed, t), Of(PreparedFrom(ohlcv, targets, start, feed, std), t), t);
  }

  lemma WrittenSliceFits(db: Database, q: Request, std: seq<real> -> real, t: string)
    requires ProviderSound(db, q) && t in Targets(db, q)
    requires IsWritten(q.feed, Prepared(db, q, std), t)
    ensures FitsSlice(t, Of(q.feed, t), Of(Prepared(db, q, std), t))
    ensures KeySet(Of(q.feed, t)) == KeySet(Of(Prepared(db, q, std), t))
  {
    hide PreparedFrom, Honours, Targets, StartDate, Of, KeySet, UniqueKeys, FitsSlice;
    HonouredSliceFits(db.ohlcv, Targets(db, q), StartDate(db, q), q.feed, std, t);
  }

  lemma {:induction false} LoopKeepsAligned(db: Database, q: Request, std: seq<real> -> real, n: nat)
    requires Aligned(db) && ProviderSound(db, q) && n <= |Targets(db, q)|
    ensures Aligned(AfterTargets(db, q.feed, Prepared(db, q, std), Targets(db, q), n))
  {
    hide Prepared, Sliced, Aligned, KeySet, ProviderSound, Targets, Of;
    if n > 0 {
      LoopKeepsAligned(db, q, std, n - 1);
      var t, prepared := Targets(db, q)[n - 1], Prepared(db, q, std);
      if IsWritten(q.feed, prepared, t) {
        assert UniqueKeys(db.ohlcv) by { AlignedIsUnique(db); }
        WrittenSliceFits(db, q, std, t);
        SliceAlignsExactlyWhen(AfterTargets(db, q.feed, prepared, Targets(db, q), n - 1), t, Of(q.feed, t),
                               Of(prepared, t));
      }
    }
  }

  lemma AlignedIsUnique(db: Database)
    requires Aligned(db)
    ensures UniqueKeys(db.ohlcv) && UniqueKeys(db.data)
  {}

  /** What the loop leaves for a ticker: untouched, or its own slice of the tables the run started from. */
  lemma {:induction false} LoopOf(db: Database, feed: seq<Row<Bar>>, prepared: seq<Row<Columns>>, targets: seq<string>,
                                  n: nat, u: string)
    requires n <= |targets| && Distinct(targets)
    ensures var after := AfterTargets(db, feed, prepared, targets, n);
            var mine := u in targets[..n] && IsWritten(feed, prepared, u);
            && Of(after.ohlcv, u) == (if mine then DeleteFrom(Of(db.ohlcv, u), u, MinDate(Of(feed, u))) + Of(feed, u)
                                      else Of(db.ohlcv, u))
            && Of(after.data, u) == (if mine then DeleteFrom(Of(db.data, u), u, MinDate(Of(feed, u))) + Of(prepared, u)
                                     else Of(db.data, u))
            && after.latest == db.latest
  {
    hide Sliced, DeleteFrom, Of;
    if n > 0 {
      LoopOf(db, feed, prepared, targets, n - 1, u);
      var t := targets[n - 1];
      assert targets[..n] == targets[..n - 1] + [t];
      assert t !in targets[..n - 1];
      if IsWritten(feed, prepared, t) {
        SlicedOf(AfterTargets(db, feed, prepared, targets, n - 1), t, Of(feed, t), Of(prepared, t), u);
      }
    }
  }

  // ---------- a whole sync ----------

  /** A sync, however it ends, keeps the two tables aligned. */
  lemma SyncKeepsAligned(db: Database, q: Request, std: seq<real> -> real)
    requires Aligned(db) && ProviderSound(db, q)
    ensures Aligned(Synced(db, q, std).db)
  {
    hide AfterTargets, Prepared, Refreshed;
    LoopKeepsAligned(db, q, std, Reached(q, Prepared(db, q, std), Targets(db, q)));
  }

  /** A sync that gets as far as its write loop. */
  predicate Writes(db: Database, q: Request) {
    !NothingToDo(db, q) && !q.failure.DownloadFails? && q.feed != [] && !q.failure.ComputeFails?
  }

  /** The targets whose turn came before the run ended. */
  function ReachedTargets(db: Database, q: Request, std: seq<real> -> real): seq<string> {
    if Writes(db, q) then Targets(db, q)[..Reached(q, Prepared(db, q, std), Targets(db, q))] else []
  }

  predicate SinceStart(rows: seq<Row<Bar>>, start: int) { forall x :: x in rows ==> x.date >= start }

  predicate BeforeStart(rows: seq<Row<Bar>>, start: int) { forall x :: x in rows ==> x.date < start }

  /** In a splice, the download of t lies entirely at or after the start, or entirely before it. */
  predicate OneSided(db: Database, q: Request, t: string) {
    Splices(db, q) ==>
      SinceStart(Of(q.feed, t), StartDate(db, q).value) || BeforeStart(Of(q.feed, t), StartDate(db, q).value)
  }

  ghost predicate AlignedFor(db: Database, t: string) {
    && UniqueKeys(Of(db.ohlcv, t)) && UniqueKeys(Of(db.data, t))
    && KeySet(Of(db.ohlcv, t)) == KeySet(Of(db.data, t))
  }

  lemma AlignedByTicker(db: Database)
    ensures Aligned(db) <==> forall t :: AlignedFor(db, t)
  {
    if forall t :: AlignedFor(db, t) {
      hide Of, KeySet, UniqueKeys;
      forall t ensures KeySet(Of(db.ohlcv, t)) == KeySet(Of(db.data, t)) && UniqueKeys(Of(db.ohlcv, t))
                       && UniqueKeys(Of(db.data, t)) {
        assert AlignedFor(db, t);
      }
      UniqueByTicker(db.ohlcv);
      UniqueByTicker(db.data);
      KeysByTicker(db.ohlcv, db.data);
    } else if Aligned(db) {
      forall t ensures AlignedFor(db, t) {
        AlignedParts(db, t);
      }
    }
  }

  lemma AlignedParts(db: Database, t: string)
    requires Aligned(db)
    ensures AlignedFor(db, t)
  {
    SelectKeepsUnique(db.ohlcv, ByTicker(t));
    SelectKeepsUnique(db.data, ByTicker(t));
    KeysOf(db.ohlcv, t);
    KeysOf(db.data, t);
  }

  lemma KeysOf<T(!new)>(rows: seq<Row<T>>, t: string)
    ensures KeySet(Of(rows, t)) == set k | k in KeySet(rows) && k.0 == t
  {}

  /** A reached target stays aligned exactly when its download lies on one side of the start. */
  lemma TargetAlignsExactlyWhen(db: Database, q: Request, std: seq<real> -> real, t: string)
    requires Aligned(db) && UniqueKeys(q.feed)
    ensures var raw, prepared := Of(q.feed, t), Of(Prepared(db, q, std), t);
            && (IsWritten(q.feed, Prepared(db, q, std), t) ==> FitsSlice(t, raw, prepared))
            && ((IsWritten(q.feed, Prepared(db, q, std), t) ==> KeySet(raw) == KeySet(prepared))
                <==> OneSided(db, q, t))
  {
    hide Prepared, WarmupRows, StartDate, Of, UniqueKeys;
    var raw, prepared := Of(q.feed, t), Of(Prepared(db, q, std), t);
    PreparedKeysExactly(db, q, std, t);
    OfKeepsUnique(q.feed, t);
    NoKeysNoRows(raw);
    NoKeysNoRows(prepared);
    if raw != [] {
      KeysNotBefore(raw, prepared, t);
    }
    if Splices(db, q) {
      SidesOfKeys(raw, StartDate(db, q).value);
    }
  }

  lemma KeysNotBefore(raw: seq<Row<Bar>>, prepared: seq<Row<Columns>>, t: string)
    requires raw != [] && KeySet(prepared) <= KeySet(raw) && AllOf(raw, t)
    ensures forall x :: x in prepared ==> x.ticker == t && x.date >= MinDate(raw)
  {
    MinDateIsLeast(raw);
    forall x | x in prepared ensures x.ticker == t && x.date >= MinDate(raw) {
      assert (x.ticker, x.date) in KeySet(prepared);
      var y :| y in raw && (y.ticker, y.date) == (x.ticker, x.date);
    }
  }

  lemma SidesOfKeys(rows: seq<Row<Bar>>, start: int)
    ensures SinceStart(rows, start) <==> KeySet(rows) == set k | k in KeySet(rows) && k.1 >= start
    ensures BeforeStart(rows, start) <==> (set k | k in KeySet(rows) && k.1 >= start) == {}
  {
    var late := set k | k in KeySet(rows) && k.1 >= start;
    forall x | x in rows ensures (x.ticker, x.date) in KeySet(rows) {}
    if late == KeySet(rows) {
      forall x | x in rows ensures x.date >= start {
        assert (x.ticker, x.date) in late;
      }
    }
    if late == {} {
      forall x | x in rows ensures x.date < start {
        assert (x.ticker, x.date) !in late;
      }
    }
  }

  /** The part of the tables that belongs to one ticker. */
  function Part(db: Database, t: string): Database { Database(Of(db.ohlcv, t), Of(db.data, t), []) }

  lemma PartAligned(db: Database, t: string)
    ensures Aligned(Part(db, t)) <==> AlignedFor(db, t)
  {}

  lemma LoopAlignsExactlyWhen(db: Database, q: Request, std: seq<real> -> real, n: nat, t: string)
    requires Aligned(db) && UniqueKeys(q.feed) && Distinct(Targets(db, q)) && n <= |Targets(db, q)|
    ensures AlignedFor(AfterTargets(db, q.feed, Prepared(db, q, std), Targets(db, q), n), t) <==>
            (t in Targets(db, q)[..n] ==> OneSided(db, q, t))
  {
    var targets, prepared := Targets(db, q), Prepared(db, q, std);
    hide Prepared, OneSided, Of, UniqueKeys, Targets, FitsSlice, KeySet, DeleteFrom, MinDate, Aligned, AlignedFor;
    LoopOf(db, q.feed, prepared, targets, n, t);
    AlignedByTicker(db);
    PartAligned(db, t);
    var after := AfterTargets(db, q.feed, prepared, targets, n);
    PartAligned(after, t);
    TargetAlignsExactlyWhen(db, q, std, t);
    if t in targets[..n] && IsWritten(q.feed, prepared, t) {
      SliceAlignsExactlyWhen(Part(db, t), t, Of(q.feed, t), Of(prepared, t));
      assert Part(after, t) == Sliced(Part(db, t), t, Of(q.feed, t), Of(prepared, t));
    } else {
      assert Part(after, t) == Part(db, t);
    }
  }

  /** Whatever the provider returns, as long as no key is repeated: after a sync the tables are aligned exactly
      when it did not splice, or the download of every reached target lies entirely on one side of the start. */
  lemma SyncAlignsExactlyWhen(db: Database, q: Request, std: seq<real> -> real)
    requires Aligned(db) && UniqueKeys(q.feed) && Distinct(Targets(db, q))
    ensures Aligned(Synced(db, q, std).db) <==> forall t :: t in ReachedTargets(db, q, std) ==> OneSided(db, q, t)
  {
    hide Prepared, OneSided, Of, UniqueKeys, Targets, KeySet, AlignedFor, AfterTargets, Synced, Writes;
    var targets, prepared := Targets(db, q), Prepared(db, q, std);
    var n := Reached(q, prepared, targets);
    var after := AfterTargets(db, q.feed, prepared, targets, n);
    TablesAfterSync(db, q, std);
    if Writes(db, q) {
      AlignedByTicker(after);
      forall t ensures AlignedFor(after, t) <==> (t in targets[..n] ==> OneSided(db, q, t)) {
        LoopAlignsExactlyWhen(db, q, std, n, t);
      }
    }
  }

  /** A sync leaves the tables its write loop leaves, or does not touch them. */
  lemma TablesAfterSync(db: Database, q: Request, std: seq<real> -> real)
    ensures var targets, prepared := Targets(db, q), Prepared(db, q, std);
            var after := AfterTargets(db, q.feed, prepared, targets, Reached(q, prepared, targets));
            if Writes(db, q) then Aligned(Synced(db, q, std).db) <==> Aligned(after) else Synced(db, q, std).db == db
  {
    hide Prepared, Targets, AfterTargets, Refreshed, UniqueKeys, KeySet, RowsWritten, NotIn;
  }

  /** The stored rows of u outside the downloaded range of u. */
  ghost predicate KeptFrom<T(!new)>(before: seq<Row<T>>, after: seq<Row<T>>, u: string, first: Option<int>) {
    forall x: Row<T> :: x.ticker == u && (first.None? || x.date < first.value) ==> (x in before <==> x in after)
  }

  /** A sync, whatever the provider returns, changes only rows of its own targets, at or after the first date
      downloaded for each. */
  lemma SyncTouchesOnlyItsRanges(db: Database, q: Request, std: seq<real> -> real, u: string)
    requires Aligned(db) && UniqueKeys(q.feed) && Distinct(Targets(db, q))
    ensures var after := Synced(db, q, std).db;
            var first := if u in Targets(db, q) && Of(q.feed, u) != [] then Some(MinDate(Of(q.feed, u))) else None;
            && KeptFrom(db.ohlcv, after.ohlcv, u, first)
            && KeptFrom(db.data, after.data, u, first)
  {
    hide AfterTargets, Prepared, Refreshed, Select, MinDate, UniqueKeys, Aligned, OneSided, Of, DeleteFrom, KeySet;
    var targets, prepared := Targets(db, q), Prepared(db, q, std);
    var n := Reached(q, prepared, targets);
    LoopOf(db, q.feed, prepared, targets, n, u);
    var loop := AfterTargets(db, q.feed, prepared, targets, n);
    if u in targets[..n] && IsWritten(q.feed, prepared, u) {
      TargetAlignsExactlyWhen(db, q, std, u);
      MinDateIsLeast(Of(q.feed, u));
      ReplacedFrom(db.ohlcv, loop.ohlcv, u, MinDate(Of(q.feed, u)), Of(q.feed, u));
      ReplacedFrom(db.data, loop.data, u, MinDate(Of(q.feed, u)), Of(prepared, u));
    } else {
      SameOf(db.ohlcv, loop.ohlcv, u);
      SameOf(db.data, loop.data, u);
    }
  }

  lemma SameOf<T(!new)>(a: seq<Row<T>>, b: seq<Row<T>>, u: string)
    requires Of(a, u) == Of(b, u)
    ensures KeptFrom(a, b, u, None)
  {
    forall x: Row<T> | x.ticker == u ensures x in a <==> x in b {
      assert x in a <==> x in Of(a, u);
      assert x in b <==> x in Of(b, u);
    }
  }

  lemma ReplacedFrom<T(!new)>(before: seq<Row<T>>, after: seq<Row<T>>, u: string, cutoff: int, added: seq<Row<T>>)
    requires Of(after, u) == DeleteFrom(Of(before, u), u, cutoff) + added
    requires forall x :: x in added ==> x.date >= cutoff
    ensures KeptFrom(before, after, u, Some(cutoff))
  {
    forall x: Row<T> | x.ticker == u && x.date < cutoff ensures x in before <==> x in after {
      assert x in after <==> x in Of(after, u);
      assert x in before <==> x in Of(before, u);
    }
  }

  /** A slice that fails leaves no trace, whichever of its statements raised: its own target and the later ones
      keep exactly the rows they had, the written targets before it keep their slices, the cache is untouched. */
  lemma FailedSliceLeavesNoTrace(db: Database, q: Request, std: seq<real> -> real, u: string, other: Statement)
    requires Writes(db, q) && Distinct(Targets(db, q))
    requires q.failure.SliceFails? && q.failure.at < |Targets(db, q)|
    requires IsWritten(q.feed, Prepared(db, q, std), Targets(db, q)[q.failure.at])
    ensures var outcome := Synced(db, q, std);
            var mine := u in Targets(db, q)[..q.failure.at] && IsWritten(q.feed, Prepared(db, q, std), u);
            && !outcome.succeeded && outcome.db.latest == db.latest
            && outcome == Synced(db, q.(failure := SliceFails(q.failure.at, other)), std)
            && Of(outcome.db.ohlcv, u) ==
               (if mine then DeleteFrom(Of(db.ohlcv, u), u, MinDate(Of(q.feed, u))) + Of(q.feed, u)
                else Of(db.ohlcv, u))
            && Of(outcome.db.data, u) ==
               (if mine then DeleteFrom(Of(db.data, u), u, MinDate(Of(q.feed, u))) + Of(Prepared(db, q, std), u)
                else Of(db.data, u))
  {
    var r := q.(failure := SliceFails(q.failure.at, other));
    SamePlan(db, q, r, std);
    hide Prepared, Targets, Of, DeleteFrom, MinDate, AfterTargets, Distinct, Skipping;
    LoopOf(db, q.feed, Prepared(db, q, std), Targets(db, q), q.failure.at, u);
  }

  /** Targets and prepared rows do not depend on how the run fails. */
  lemma SamePlan(db: Database, q: Request, r: Request, std: seq<real> -> real)
    requires r == q.(failure := r.failure)
    ensures Targets(db, r) == Targets(db, q) && Prepared(db, r, std) == Prepared(db, q, std)
  {
    hide ComputeFrame, Select, StaleOf, OldestLatest;
  }

  lemma {:induction false} LoopKeepsCache(db: Database, feed: seq<Row<Bar>>, prepared: seq<Row<Columns>>,
                                          targets: seq<string>, n: nat)
    requires n <= |targets|
    ensures AfterTargets(db, feed, prepared, targets, n).latest == db.latest
  {
    if n > 0 {
      LoopKeepsCache(db, feed, prepared, targets, n - 1);
    }
  }

  // ---------- the cache ----------

  /** Outside the dirty tickers the cache shows every ticker's newest row. */
  ghost predicate CacheRight(db: Database, dirty: set<string>) {
    forall t :: t !in dirty ==> Shows(db.latest, db.data, t)
  }

  lemma LatestDependsOnOwnRows(a: seq<Row<Columns>>, b: seq<Row<Columns>>, t: string)
    requires Of(a, t) == Of(b, t)
    ensures LatestOf(a, t) == LatestOf(b, t)
  {}

  function TickersIn<T(==)>(rows: seq<Row<T>>): (r: set<string>)
    ensures forall x :: x in rows ==> x.ticker in r
  {
    set x | x in rows :: x.ticker
  }

  /** The tickers a refresh that stopped after its DELETE left without their rows. */
  function Emptied(data: seq<Row<Columns>>, universe: seq<string>): set<string> {
    set t | t in TickersIn(data) && Listed(universe, t)
  }

  /** The tickers whose cache rows may be wrong after a sync: those of a failed run join, those of a
      successful one leave. */
  function DirtyAfterSync(db: Database, q: Request, std: seq<real> -> real, dirty: set<string>): set<string> {
    var outcome := Synced(db, q, std);
    if !Writes(db, q) then dirty
    else if !outcome.succeeded then
      dirty + Members(Targets(db, q)) +
      (if q.failure.RefreshFails? then Emptied(outcome.db.data, Targets(db, q)) else {})
    else if Targets(db, q) == [] then {}
    else dirty - Members(Targets(db, q))
  }

  lemma SyncKeepsCacheRight(db: Database, q: Request, std: seq<real> -> real, dirty: set<string>)
    requires Aligned(db) && ProviderSound(db, q) && Distinct(Targets(db, q)) && CacheRight(db, dirty)
    ensures CacheRight(Synced(db, q, std).db, DirtyAfterSync(db, q, std, dirty))
  {
    hide AfterTargets, Prepared, Refreshed, Select, LatestOf, KeySet, UniqueKeys;
    var targets, prepared := Targets(db, q), Prepared(db, q, std);
    var n := Reached(q, prepared, targets);
    var loop := AfterTargets(db, q.feed, prepared, targets, n);
    var after := Synced(db, q, std);
    LoopKeepsAligned(db, q, std, n);
    LoopKeepsCache(db, q.feed, prepared, targets, n);
    forall t | t !in DirtyAfterSync(db, q, std, dirty) ensures Shows(after.db.latest, after.db.data, t) {
      LoopOf(db, q.feed, prepared, targets, n, t);
      if t !in targets {
        LatestDependsOnOwnRows(db.data, loop.data, t);
      }
      RefreshOf(loop.latest, loop.data, targets, t);
      OfIn(loop.latest, targets, t);
      if t !in TickersIn(loop.data) {
        NothingToShow(loop.data, t);
      }
    }
  }

  lemma NothingToShow(data: seq<Row<Columns>>, t: string)
    requires t !in TickersIn(data)
    ensures Of(data, t) == [] && LatestOf(data, t) == []
  {
    if Of(data, t) != [] {
      HasAMember(Of(data, t));
    }
  }

  // ---------- rebuild ----------

  lemma KeySetOfIn<T(!new)>(rows: seq<Row<T>>, universe: seq<string>)
    ensures KeySet(In(rows, universe)) == set k | k in KeySet(rows) && Listed(universe, k.0)
    ensures KeySet(NotIn(rows, universe)) == set k | k in KeySet(rows) && !Listed(universe, k.0)
  {}

  lemma KeysByTicker<T(!new), U(!new)>(a: seq<Row<T>>, b: seq<Row<U>>)
    requires forall t :: KeySet(Of(a, t)) == KeySet(Of(b, t))
    ensures KeySet(a) == KeySet(b)
  {
    forall k ensures k in KeySet(a) <==> k in KeySet(b) {
      assert k in KeySet(a) <==> k in KeySet(Of(a, k.0));
      assert k in KeySet(b) <==> k in KeySet(Of(b, k.0));
    }
  }

  lemma UniqueByTicker<T(!new)>(rows: seq<Row<T>>)
    requires forall t :: UniqueKeys(Of(rows, t))
    ensures UniqueKeys(rows)
  {
    forall i, j | 0 <= i < j < |rows|
      ensures rows[i].ticker != rows[j].ticker || rows[i].date != rows[j].date
    {
      if rows[i].ticker == rows[j].ticker && rows[i].date == rows[j].date {
        TwoPositions(rows, rows[i].ticker, i, j);
      }
    }
  }

  lemma {:induction false} TwoPositions<T(!new)>(rows: seq<Row<T>>, t: string, i: nat, j: nat)
    requires i < j < |rows| && rows[i].ticker == t && rows[j].ticker == t && rows[i].date == rows[j].date
    ensures !UniqueKeys(Of(rows, t))
  {
    var front, last := rows[..|rows| - 1], rows[|rows| - 1];
    if j == |rows| - 1 {
      assert front[i] in front && front[i] in Of(front, t);
      var p :| 0 <= p < |Of(front, t)| && Of(front, t)[p] == front[i];
      var s := Of(rows, t);
      assert s == Of(front, t) + [last];
      assert s[p] == rows[i] && s[|s| - 1] == rows[j];
    } else {
      TwoPositions(front, t, i, j);
      var p, q :| 0 <= p < q < |Of(front, t)| && Of(front, t)[p].ticker == Of(front, t)[q].ticker &&
                  Of(front, t)[p].date == Of(front, t)[q].date;
      var s := Of(rows, t);
      assert s[p] == Of(front, t)[p] && s[q] == Of(front, t)[q];
    }
  }

  lemma KeysOfComputeFrame(rows: seq<Row<Bar>>, std: seq<real> -> real)
    requires UniqueKeys(rows)
    ensures UniqueKeys(ComputeFrame(rows, std)) && KeySet(ComputeFrame(rows, std)) == KeySet(rows)
  {
    hide ComputeFrame, IndicatorRows;
    forall t
      ensures UniqueKeys(Of(ComputeFrame(rows, std), t))
      ensures KeySet(Of(ComputeFrame(rows, std), t)) == KeySet(Of(rows, t))
    {
      OfComputeFrame(rows, std, t);
      HistoryIsChronological(rows, t);
      KeysOfIndicatorRows(History(rows, t), std);
      assert KeySet(History(rows, t)) == KeySet(Of(rows, t));
    }
    UniqueByTicker(ComputeFrame(rows, std));
    KeysByTicker(ComputeFrame(rows, std), rows);
  }

  /** Rows a rebuild may have read: never empty, with unique keys, all of listed tickers. */
  ghost predicate WasRead(universe: seq<string>, read: seq<Row<Bar>>) {
    read != [] && UniqueKeys(read) && forall x :: x in read ==> Listed(universe, x.ticker)
  }

  /** Swapping in rows computed from an earlier read aligns the tables exactly when ohlcv_daily still has the
      listed keys that were read. */
  lemma SwapAlignsExactlyWhen(db: Database, universe: seq<string>, read: seq<Row<Bar>>, std: seq<real> -> real)
    requires Aligned(db) && WasRead(universe, read)
    ensures Aligned(Swapped(db, universe, read, std)) <==> KeySet(read) == KeySet(In(db.ohlcv, universe))
  {
    hide ComputeFrame, In, NotIn;
    var kept, computed := NotIn(db.data, universe), ComputeFrame(read, std);
    KeysOfComputeFrame(read, std);
    KeySetOfIn(db.data, universe);
    KeySetOfIn(db.ohlcv, universe);
    assert UniqueKeys(kept) by { NotInKeepsUnique(db.data, universe); }
    hide UniqueKeys;
    assert KeySet(kept) !! KeySet(computed) by {
      KeysListed(read, universe);
    }
    AppendKeepsUnique(kept, computed);
    KeySetAppends(kept, computed);
    var rest, listed := KeySet(kept), KeySet(In(db.ohlcv, universe));
    assert KeySet(db.ohlcv) == rest + listed;
    DisjointUnions(rest, KeySet(read), listed);
  }

  lemma KeysListed(rows: seq<Row<Bar>>, universe: seq<string>)
    requires forall x :: x in rows ==> Listed(universe, x.ticker)
    ensures forall k :: k in KeySet(rows) ==> Listed(universe, k.0)
  {}

  lemma NotInKeepsUnique<T(!new)>(rows: seq<Row<T>>, universe: seq<string>)
    requires UniqueKeys(rows)
    ensures UniqueKeys(NotIn(rows, universe)) && UniqueKeys(In(rows, universe))
  {
    SelectKeepsUnique(rows, IsUnlisted(universe));
    SelectKeepsUnique(rows, IsListed(universe));
  }

  /** A swap whose keys still fit leaves the cache right except for the tickers it rewrote. */
  lemma SwapKeepsCacheRight(db: Database, universe: seq<string>, read: seq<Row<Bar>>, std: seq<real> -> real,
                            dirty: set<string>)
    requires Aligned(db) && WasRead(universe, read) && KeySet(read) == KeySet(In(db.ohlcv, universe))
    requires CacheRight(db, dirty)
    ensures CacheRight(Swapped(db, universe, read, std), dirty + TickersIn(read))
  {
    hide ComputeFrame, LatestOf, In, NotIn, KeySet, UniqueKeys, Of, Aligned, TickersIn;
    var after := Swapped(db, universe, read, std);
    forall t | t !in dirty + TickersIn(read) ensures Shows(after.latest, after.data, t) {
      SwapLeaves(db, universe, read, std, t);
      LatestDependsOnOwnRows(db.data, after.data, t);
    }
  }

  /** A ticker that was not read keeps its rows: it is not listed, or it has none. */
  lemma SwapLeaves(db: Database, universe: seq<string>, read: seq<Row<Bar>>, std: seq<real> -> real, t: string)
    requires Aligned(db) && WasRead(universe, read) && KeySet(read) == KeySet(In(db.ohlcv, universe))
    requires t !in TickersIn(read)
    ensures Of(Swapped(db, universe, read, std).data, t) == Of(db.data, t)
  {
    hide ComputeFrame, IndicatorRows, Select, UniqueKeys, KeySet, In, NotIn;
    OfAppends(NotIn(db.data, universe), ComputeFrame(read, std), t);
    OfIn(db.data, universe, t);
    OfComputeFrame(read, std, t);
    NoRowsOf(read, t);
    if Listed(universe, t) {
      NoneStored(db, universe, read, t);
    }
  }

  lemma NoRowsOf<T(!new)>(rows: seq<Row<T>>, t: string)
    requires forall x :: x in rows ==> x.ticker != t
    ensures Of(rows, t) == [] && History(rows, t) == []
  {
    if Of(rows, t) != [] {
      HasAMember(Of(rows, t));
    }
  }

  lemma NoneStored(db: Database, universe: seq<string>, read: seq<Row<Bar>>, t: string)
    requires Aligned(db) && KeySet(read) == KeySet(In(db.ohlcv, universe))
    requires Listed(universe, t) && t !in TickersIn(read)
    ensures Of(db.data, t) == []
  {
    hide Aligned, TickersIn, KeySet;
    if Of(db.data, t) != [] {
      HasAMember(Of(db.data, t));
      StoredMeansRead(db, universe, read, Of(db.data, t)[0]);
    }
  }

  lemma StoredMeansRead(db: Database, universe: seq<string>, read: seq<Row<Bar>>, x: Row<Columns>)
    requires Aligned(db) && KeySet(read) == KeySet(In(db.ohlcv, universe))
    requires x in db.data && Listed(universe, x.ticker)
    ensures x.ticker in TickersIn(read)
  {
    hide UniqueKeys;
    assert (x.ticker, x.date) in KeySet(db.data);
    KeySetOfIn(db.ohlcv, universe);
    assert (x.ticker, x.date) in KeySet(read);
    var y :| y in read && (y.ticker, y.date) == (x.ticker, x.date);
  }

  /** Without an interruption a rebuild keeps the tables aligned: it swaps in what it has just read. */
  lemma RebuildKeepsAligned(db: Database, universe: seq<string>, std: seq<real> -> real)
    requires Aligned(db)
    ensures Aligned(Rebuilt(db, universe, In(db.ohlcv, universe), std))
  {
    hide Swapped, In, Refreshed;
    if In(db.ohlcv, universe) != [] {
      NotInKeepsUnique(db.ohlcv, universe);
      SwapAlignsExactlyWhen(db, universe, In(db.ohlcv, universe), std);
    }
  }

  /** What an undisturbed rebuild leaves: a listed ticker (every ticker, for an empty list) has the indicator rows of
      all its stored bars, and the cache shows them; the others, and the bars, stay. Without listed bars nothing
      happens. */
  lemma RebuildMeans(db: Database, universe: seq<string>, std: seq<real> -> real, t: string)
    requires Aligned(db)
    ensures var after, listed := Rebuilt(db, universe, In(db.ohlcv, universe), std), universe == [] || t in universe;
            && after.ohlcv == db.ohlcv
            && Of(after.data, t) == (if listed then IndicatorRows(History(db.ohlcv, t), std) else Of(db.data, t))
            && (if listed && In(db.ohlcv, universe) != [] then Of(after.latest, t) == LatestOf(after.data, t)
                else Of(after.latest, t) == Of(db.latest, t))
  {
    hide ComputeFrame, IndicatorRows, Select, UniqueKeys, KeySet, In, NotIn, LatestOf, SortByDate, Refreshed, Of;
    var read := In(db.ohlcv, universe);
    var swapped := Swapped(db, universe, read, std);
    OfIn(db.ohlcv, universe, t);
    OfIn(db.data, universe, t);
    OfAppends(NotIn(db.data, universe), ComputeFrame(read, std), t);
    OfComputeFrame(read, std, t);
    assert [] + Of(ComputeFrame(read, std), t) == Of(ComputeFrame(read, std), t);
    if read != [] {
      NotInKeepsUnique(db.ohlcv, universe);
      SwapAlignsExactlyWhen(db, universe, read, std);
      RefreshOf(swapped.latest, swapped.data, universe, t);
      NothingComputed(db.ohlcv, std, t, universe);
      assert Of(db.data, t) + [] == Of(db.data, t);
    } else if Listed(universe, t) {
      NothingStored(db, std, t, universe);
    }
  }

  /** The computed rows of a ticker that is not listed. */
  lemma NothingComputed(rows: seq<Row<Bar>>, std: seq<real> -> real, t: string, universe: seq<string>)
    ensures IndicatorRows(History(In(rows, universe), t), std) ==
            if Listed(universe, t) then IndicatorRows(History(rows, t), std) else []
  {
    hide IndicatorRows, In;
    OfIn(rows, universe, t);
    assert |IndicatorRows([], std)| == 0;
  }

  lemma NothingStored(db: Database, std: seq<real> -> real, t: string, universe: seq<string>)
    requires Aligned(db) && In(db.ohlcv, universe) == [] && Listed(universe, t)
    ensures Of(db.data, t) == [] == IndicatorRows(History(db.ohlcv, t), std)
  {
    hide IndicatorRows, In, Select;
    OfIn(db.ohlcv, universe, t);
    SelectNone<Bar>([], ByTicker(t));
    assert |IndicatorRows([], std)| == 0;
    AlignedParts(db, t);
    hide UniqueKeys, KeySet, Of;
    assert Of(db.ohlcv, t) == [];
    NoKeysNoRows(Of(db.ohlcv, t));
    NoKeysNoRows(Of(db.data, t));
  }

  lemma EmptyIsSound()
    ensures Aligned(Database([], [], [])) && CacheRight(Database([], [], []), {})
  {
    NoKeysNoRows<Bar>([]);
    NoKeysNoRows<Columns>([]);
  }
}
