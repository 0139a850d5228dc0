/** The latest-row serving table and the two-row screen frame, both defined by window queries over
    ticker_data (backend/core/duckdb.py, backend/queries/common.py). */
module LatestCache {
  import opened Values
  import opened Frames
  import opened Indicators
  import opened Tables
  import opened Strategy

  /** What latest_ticker_cache stores for a ticker beside its key. */
  datatype Snapshot = Snapshot(columns: Columns, prevClose: Cell, changePct: Cell, volumeRatio: Cell)

  // ---------- window functions ----------

  function IsNewer<T(!new)>(t: string, d: int): Row<T> -> bool { (x: Row<T>) => x.ticker == t && x.date > d }

  function IsOlder<T(!new)>(t: string, d: int): Row<T> -> bool { (x: Row<T>) => x.ticker == t && x.date < d }

  /** ROW_NUMBER() OVER (PARTITION BY Ticker ORDER BY Date DESC) */
  function RowNumber<T(!new)>(rows: seq<Row<T>>, x: Row<T>): nat {
    1 + |Select(rows, IsNewer(x.ticker, x.date))|
  }

  function Newest<T(!new)>(rows: seq<Row<T>>): (r: Row<T>)
    requires rows != []
    ensures r in rows
  {
    var last := rows[|rows| - 1];
    if |rows| == 1 then last
    else
      var rest := Newest(rows[..|rows| - 1]);
      if rest.date > last.date then rest else last
  }

  /** LEAD(Close) OVER (PARTITION BY Ticker ORDER BY Date DESC) */
  function LeadClose(rows: seq<Row<Columns>>, x: Row<Columns>): Cell {
    var older := Select(rows, IsOlder(x.ticker, x.date));
    if older == [] then Missing else Cells(Newest(older).cells, "Close")
  }

  function ChangePct(close: Cell, prevClose: Cell): Cell {
    if prevClose.Missing? || prevClose.v == 0.0 then Missing
    else Times(Minus(Over(close, prevClose), Num(1.0)), Num(100.0))
  }

  function VolumeRatio(volume: Cell, average: Cell): Cell {
    if average.Num? && average.v > 0.0 then Over(volume, average) else Missing
  }

  function SnapshotOf(columns: Columns, prevClose: Cell): Snapshot {
    Snapshot(columns, prevClose, ChangePct(Cells(columns, "Close"), prevClose),
             VolumeRatio(Cells(columns, "Volume"), Cells(columns, "Ticker_Avg_Volume_20D")))
  }

  function IsRanked<T(!new)>(rows: seq<Row<T>>, n: nat): Row<T> -> bool { (x: Row<T>) => RowNumber(rows, x) <= n }

  function Snapshots(rows: seq<Row<Columns>>, chosen: seq<Row<Columns>>): (r: seq<Row<Snapshot>>)
    ensures |r| == |chosen|
  {
    seq(|chosen|, i requires 0 <= i < |chosen| =>
      Row(chosen[i].ticker, chosen[i].date, SnapshotOf(chosen[i].cells, LeadClose(rows, chosen[i]))))
  }

  /** SELECT ... FROM ordered WHERE rn = 1 */
  function LatestRows(rows: seq<Row<Columns>>): seq<Row<Snapshot>> {
    Snapshots(rows, Select(rows, IsRanked(rows, 1)))
  }

  /** Deletes the listed tickers (all of them for an empty list) and inserts their latest rows again. */
  function Refreshed(latest: seq<Row<Snapshot>>, data: seq<Row<Columns>>, universe: seq<string>): seq<Row<Snapshot>> {
    NotIn(latest, universe) + LatestRows(In(data, universe))
  }

  // ---------- the queries against a ticker's history ----------

  lemma HistoryFrom<T(!new)>(rows: seq<Row<T>>, t: string, p: nat)
    requires UniqueKeys(rows) && p < |History(rows, t)|
    ensures var h := History(rows, t);
            && (forall x :: x in Select(rows, IsNewer(t, h[p].date)) <==> x in h[p + 1..])
            && (forall x :: x in Select(rows, IsOlder(t, h[p].date)) <==> x in h[..p])
  {
    var h := History(rows, t);
    HistoryIsChronological(rows, t);
    SelectMembers(rows, IsNewer(t, h[p].date));
    SelectMembers(rows, IsOlder(t, h[p].date));
    forall x
      ensures x in h && x.date > h[p].date <==> x in h[p + 1..]
      ensures x in h && x.date < h[p].date <==> x in h[..p]
    {
      if x in h {
        var i :| 0 <= i < |h| && h[i] == x;
        if i > p {
          assert x == h[p + 1..][i - p - 1];
        } else if i < p {
          assert x == h[..p][i];
        }
      }
    }
  }

  lemma SameMembersSameSize<T(!new)>(a: seq<Row<T>>, b: seq<Row<T>>, t: string)
    requires UniqueKeys(a) && (forall x :: x in a ==> x.ticker == t) && Chronological(b)
    requires forall x :: x in a <==> x in b
    ensures SortByDate(a) == b && |a| == |b|
  {
    SortIsChronological(a, t);
    ChronologicalIsCanonical(SortByDate(a), b);
  }

  /** Row numbers count back from the newest row of the ticker. */
  lemma RowNumberCountsBack<T(!new)>(rows: seq<Row<T>>, t: string, p: nat)
    requires UniqueKeys(rows) && p < |History(rows, t)|
    ensures RowNumber(rows, History(rows, t)[p]) == |History(rows, t)| - p
  {
    var h := History(rows, t);
    HistoryFrom(rows, t, p);
    HistoryIsChronological(rows, t);
    var newer := Select(rows, IsNewer(t, h[p].date));
    SelectKeepsUnique(rows, IsNewer(t, h[p].date));
    SelectMembers(rows, IsNewer(t, h[p].date));
    SameMembersSameSize(newer, h[p + 1..], t);
    assert h[p].ticker == t by { assert h[p] in h; }
  }

  lemma {:induction false} NewestIsNewest<T(!new)>(rows: seq<Row<T>>, x: Row<T>)
    requires x in rows && forall y :: y in rows && y != x ==> y.date < x.date
    ensures Newest(rows) == x
  {
    var front, last := rows[..|rows| - 1], rows[|rows| - 1];
    assert rows == front + [last];
    if |rows| > 1 {
      if x in front {
        NewestIsNewest(front, x);
      } else {
        assert Newest(front) in front;
      }
    }
  }

  /** LEAD looks at the previous row of the ticker. */
  lemma LeadIsThePreviousRow(rows: seq<Row<Columns>>, t: string, p: nat)
    requires UniqueKeys(rows) && p < |History(rows, t)|
    ensures var h := History(rows, t);
            LeadClose(rows, h[p]) == if p == 0 then Missing else Cells(h[p - 1].cells, "Close")
  {
    var h := History(rows, t);
    HistoryIsChronological(rows, t);
    HistoryFrom(rows, t, p);
    assert h[p].ticker == t by { assert h[p] in h; }
    var older := Select(rows, IsOlder(t, h[p].date));
    if p > 0 {
      assert h[p - 1] == h[..p][p - 1];
      assert h[p - 1] in older;
      forall y | y in older && y != h[p - 1] ensures y.date < h[p - 1].date {
        var i :| 0 <= i < p && h[..p][i] == y;
      }
      NewestIsNewest(older, h[p - 1]);
    } else if older != [] {
      HasAMember(older);
    }
  }

  /** What the cache must show for a ticker: its newest row with the close before it. */
  function LatestOf(data: seq<Row<Columns>>, t: string): seq<Row<Snapshot>> {
    var h := History(data, t);
    var n := |h|;
    if n == 0 then []
    else [Row(t, h[n - 1].date, SnapshotOf(h[n - 1].cells, if n == 1 then Missing else Cells(h[n - 2].cells, "Close")))]
  }

  lemma SnapshotsAppend(rows: seq<Row<Columns>>, a: seq<Row<Columns>>, b: seq<Row<Columns>>)
    ensures Snapshots(rows, a + b) == Snapshots(rows, a) + Snapshots(rows, b)
  {}

  lemma OneSnapshotOf(rows: seq<Row<Columns>>, x: Row<Columns>, t: string)
    ensures Of(Snapshots(rows, [x]), t) == Snapshots(rows, Of([x], t))
  {
    var one := Snapshots(rows, [x]);
    assert |one| == 1 && one[0].ticker == x.ticker;
    if x.ticker == t {
      SelectAll(one, ByTicker(t));
      SelectAll([x], ByTicker(t));
    } else {
      SelectNone(one, ByTicker(t));
      SelectNone([x], ByTicker(t));
    }
  }

  lemma {:induction false} OfSnapshots(rows: seq<Row<Columns>>, chosen: seq<Row<Columns>>, t: string)
    ensures Of(Snapshots(rows, chosen), t) == Snapshots(rows, Of(chosen, t))
  {
    if chosen != [] {
      hide Snapshots, Select;
      var front, last := chosen[..|chosen| - 1], chosen[|chosen| - 1];
      assert chosen == front + [last];
      OfSnapshots(rows, front, t);
      SnapshotsAppend(rows, front, [last]);
      OfAppends(Snapshots(rows, front), Snapshots(rows, [last]), t);
      OfAppends(front, [last], t);
      SnapshotsAppend(rows, Of(front, t), Of([last], t));
      OneSnapshotOf(rows, last, t);
    }
  }

  lemma RankOfMember<T(!new)>(rows: seq<Row<T>>, t: string, n: nat, x: Row<T>)
    requires UniqueKeys(rows)
    ensures var h := History(rows, t); var lo := if |h| < n then 0 else |h| - n;
            x in h && RowNumber(rows, x) <= n <==> x in h[lo..]
  {
    hide RowNumber, UniqueKeys, SortByDate, Select, Of;
    var h := History(rows, t);
    var lo := if |h| < n then 0 else |h| - n;
    if x in h {
      var i :| 0 <= i < |h| && h[i] == x;
      RowNumberCountsBack(rows, t, i);
      HistoryIsChronological(rows, t);
      if i >= lo {
        assert h[lo..][i - lo] == x;
      } else {
        assert forall j :: lo <= j < |h| ==> h[j].date > x.date;
      }
    }
  }

  /** The newest n rows of a ticker are the last n of its history. */
  lemma RankedRows<T(!new)>(rows: seq<Row<T>>, t: string, n: nat)
    requires UniqueKeys(rows)
    ensures var h := History(rows, t);
            SortByDate(Of(Select(rows, IsRanked(rows, n)), t)) == h[if |h| < n then 0 else |h| - n..]
  {
    hide RowNumber, UniqueKeys, SortByDate, Of;
    var h := History(rows, t);
    var lo := if |h| < n then 0 else |h| - n;
    var chosen := Select(rows, IsRanked(rows, n));
    HistoryIsChronological(rows, t);
    SelectMembers(rows, IsRanked(rows, n));
    SelectKeepsUnique(rows, IsRanked(rows, n));
    OfKeepsUnique(chosen, t);
    forall x ensures x in Of(chosen, t) <==> x in h[lo..] {
      RankOfMember(rows, t, n, x);
    }
    SameMembersSameSize(Of(chosen, t), h[lo..], t);
  }

  /** The window query finds exactly the newest row of every ticker, with the close of the row before it. */
  lemma LatestRowsAreNewest(rows: seq<Row<Columns>>, t: string)
    requires UniqueKeys(rows)
    ensures Of(LatestRows(rows), t) == LatestOf(rows, t)
  {
    hide RowNumber, LeadClose, SnapshotOf;
    var chosen, h := Select(rows, IsRanked(rows, 1)), History(rows, t);
    OfSnapshots(rows, chosen, t);
    RankedRows(rows, t, 1);
    var mine := Of(chosen, t);
    if h != [] {
      var last := h[|h| - 1];
      assert h[|h| - 1..] == [last];
      assert |mine| == 1 && last in mine && mine[0] in mine && mine[0] in SortByDate(mine);
      LeadIsThePreviousRow(rows, t, |h| - 1);
      assert last.ticker == t by { assert last in h; }
    }
  }

  // ---------- refresh ----------

  ghost predicate Shows(latest: seq<Row<Snapshot>>, data: seq<Row<Columns>>, t: string) {
    Of(latest, t) == LatestOf(data, t)
  }

  /** A refresh corrects the tickers it lists and leaves the others as they were. */
  lemma RefreshOf(latest: seq<Row<Snapshot>>, data: seq<Row<Columns>>, universe: seq<string>, t: string)
    requires UniqueKeys(data)
    ensures Of(Refreshed(latest, data, universe), t) == if Listed(universe, t) then LatestOf(data, t) else Of(latest, t)
  {
    hide LatestRows, SortByDate, Select, Of, UniqueKeys, SnapshotOf;
    var kept, added := NotIn(latest, universe), LatestRows(In(data, universe));
    OfAppends(kept, added, t);
    OfIn(latest, universe, t);
    SelectKeepsUnique(data, IsListed(universe));
    LatestRowsAreNewest(In(data, universe), t);
    OfIn(data, universe, t);
  }

  /** What the cache shows for a ticker with history h: its newest row, the close of the row before it, the change in
      percent that leads from that close to the newest, and the volume as a multiple of the average. */
  ghost predicate Reports(x: Row<Snapshot>, h: seq<Row<Columns>>)
    requires h != []
  {
    var last := h[|h| - 1];
    var close, volume, average :=
      Cells(last.cells, "Close"), Cells(last.cells, "Volume"), Cells(last.cells, "Ticker_Avg_Volume_20D");
    var prev := if |h| == 1 then Missing else Cells(h[|h| - 2].cells, "Close");
    var change, ratio := x.cells.changePct, x.cells.volumeRatio;
    && x.date == last.date && x.cells.columns == last.cells && x.cells.prevClose == prev
    && (change.Num? <==> close.Num? && prev.Num? && prev.v != 0.0)
    && (change.Num? ==> prev.v * (1.0 + change.v / 100.0) == close.v)
    && (ratio.Num? <==> volume.Num? && average.Num? && average.v > 0.0)
    && (ratio.Num? ==> ratio.v * average.v == volume.v)
  }

  lemma ChangeMeans(close: Cell, prev: Cell)
    ensures var change := ChangePct(close, prev);
            && (change.Num? <==> close.Num? && prev.Num? && prev.v != 0.0)
            && (change.Num? ==> prev.v * (1.0 + change.v / 100.0) == close.v)
  {
    if close.Num? && prev.Num? && prev.v != 0.0 {
      assert (close.v / prev.v) * prev.v == close.v;
    }
  }

  lemma RatioMeans(volume: Cell, average: Cell)
    ensures var ratio := VolumeRatio(volume, average);
            && (ratio.Num? <==> volume.Num? && average.Num? && average.v > 0.0)
            && (ratio.Num? ==> ratio.v * average.v == volume.v)
  {}

  /** After a refresh every listed ticker (every ticker, for an empty list) has one row when it has a history, which
      reports on that history, and none otherwise; the others keep their rows. */
  lemma RefreshMeans(latest: seq<Row<Snapshot>>, data: seq<Row<Columns>>, universe: seq<string>, t: string)
    requires UniqueKeys(data)
    ensures var after, h := Of(Refreshed(latest, data, universe), t), History(data, t);
            if universe != [] && t !in universe then after == Of(latest, t)
            else if h == [] then after == []
            else |after| == 1 && after[0].ticker == t && Reports(after[0], h)
  {
    var h := History(data, t);
    hide Refreshed, History, Of, ChangePct, VolumeRatio;
    RefreshOf(latest, data, universe, t);
    if h != [] {
      var last, prev := h[|h| - 1].cells, if |h| == 1 then Missing else Cells(h[|h| - 2].cells, "Close");
      ChangeMeans(Cells(last, "Close"), prev);
      RatioMeans(Cells(last, "Volume"), Cells(last, "Ticker_Avg_Volume_20D"));
    }
  }

  /** A partial refresh of a cache that is right elsewhere gives the table a full refresh gives. */
  lemma PartialRefreshIsFull(latest: seq<Row<Snapshot>>, data: seq<Row<Columns>>, universe: seq<string>)
    requires UniqueKeys(data)
    requires forall t :: !Listed(universe, t) ==> Shows(latest, data, t)
    ensures multiset(Refreshed(latest, data, universe)) == multiset(Refreshed(latest, data, []))
  {
    forall t ensures Of(Refreshed(latest, data, universe), t) == Of(Refreshed(latest, data, []), t) {
      RefreshOf(latest, data, universe, t);
      RefreshOf(latest, data, [], t);
      assert !Listed(universe, t) ==> Shows(latest, data, t);
    }
    TickersDetermineTheTable(Refreshed(latest, data, universe), Refreshed(latest, data, []));
  }

  // ---------- the screen frame ----------

  /** A ticker's rows as the frame the rules read. */
  function FrameOf(h: seq<Row<Columns>>): (f: Frame)
    ensures f.rows == |h|
  {
    Frame(|h|, map m | m in Named() :: seq(|h|, i requires 0 <= i < |h| => Cells(h[i].cells, m)))
  }

  /** LEFT JOIN stock_information. */
  function CompanyOf(info: map<string, Company>, t: string): Company {
    if t in info then info[t] else Company(None, None)
  }

  /** WHERE rn <= 2 ... ORDER BY Ticker, Date, one ticker of it. */
  function ScreenGroup(data: seq<Row<Columns>>, info: map<string, Company>, universe: seq<string>, t: string): Group {
    var rows := In(data, universe);
    Group(t, CompanyOf(info, t), FrameOf(SortByDate(Of(Select(rows, IsRanked(rows, 2)), t))))
  }

  /** The screen frame holds exactly the two newest rows of each listed ticker, so the screener answers from
      it what it would answer from the ticker's whole history. */
  lemma ScreenFrameIsEnough(data: seq<Row<Columns>>, info: map<string, Company>, universe: seq<string>, t: string,
                            d: Definition)
    requires UniqueKeys(data) && Listed(universe, t)
    ensures var company := if t in info then info[t] else Company(None, None);
            var whole := Group(t, company, FrameOf(History(data, t)));
            && ScreenGroup(data, info, universe, t) == LastTwo(whole)
            && Contribution(ScreenGroup(data, info, universe, t), d) == Contribution(whole, d)
  {
    var whole := Group(t, CompanyOf(info, t), FrameOf(History(data, t)));
    hide Contribution, FrameOf, SortByDate;
    NewestTwo(data, universe, t);
    LastTwoSuffice(whole, d);
  }

  lemma NewestTwo(data: seq<Row<Columns>>, universe: seq<string>, t: string)
    requires UniqueKeys(data) && Listed(universe, t)
    ensures var f := FrameOf(History(data, t));
            FrameOf(SortByDate(Of(Select(In(data, universe), IsRanked(In(data, universe), 2)), t))) ==
            Rows(f, if f.rows < 2 then 0 else f.rows - 2, f.rows)
  {
    hide FrameOf, Select, SortByDate, UniqueKeys;
    var rows, h := In(data, universe), History(data, t);
    assert UniqueKeys(rows) by { InKeepsUnique(data, universe); }
    OfIn(data, universe, t);
    RankedRows(rows, t, 2);
    FrameOfSuffix(h, if |h| < 2 then 0 else |h| - 2);
  }

  lemma InKeepsUnique<T(!new)>(rows: seq<Row<T>>, universe: seq<string>)
    requires UniqueKeys(rows)
    ensures UniqueKeys(In(rows, universe))
  {
    SelectKeepsUnique(rows, IsListed(universe));
  }

  lemma FrameOfSuffix(h: seq<Row<Columns>>, lo: nat)
    requires lo <= |h|
    ensures FrameOf(h[lo..]) == Rows(FrameOf(h), lo, |h|)
  {
    var a, b := FrameOf(h[lo..]), Rows(FrameOf(h), lo, |h|);
    forall m | m in Named() ensures a.columns[m] == b.columns[m] {
      assert |a.columns[m]| == |b.columns[m]|;
    }
    assert a.columns == b.columns;
  }
}
