/** No look-ahead from the stored bars to the backtest report. */
module EndToEnd {
  import opened Frames
  import opened Indicators
  import opened IndicatorLaws
  import opened Strategy
  import opened Backtest
  import opened Drawdown

  /** The rows that are read have a close. */
  predicate Priced(bars: seq<Bar>, lo: nat, hi: nat) {
    forall i :: lo <= i < hi && i < |bars| ==> bars[i].close.Num?
  }

  /** Rows lo, .., hi - 1 of a ticker's table: indicators over the whole history, read in a date range. */
  function Stored(dates: seq<int>, bars: seq<Bar>, std: seq<real> -> real, lo: nat, hi: nat): (h: History)
    requires |dates| == |bars| && lo <= hi <= |bars| && Priced(bars, lo, hi)
    ensures h.Valid() && h.frame.rows == hi - lo
  {
    History(dates[lo..hi],
            seq(hi - lo, i requires 0 <= i < hi - lo => bars[lo + i].close.v),
            Rows(IndicatorFrame(bars, std), lo, hi))
  }

  /** Two histories that agree on their first hi bars store the same rows there. */
  lemma StoredRowsKeepThePast(dates: seq<int>, other: seq<int>, a: seq<Bar>, b: seq<Bar>, std: seq<real> -> real,
                              lo: nat, hi: nat)
    requires |dates| == |a| && |other| == |b| && lo <= hi <= |a| && hi <= |b|
    requires dates[..hi] == other[..hi] && SameBars(a, b, 0, hi) && Priced(a, lo, hi)
    ensures Priced(b, lo, hi) && Stored(dates, a, std, lo, hi) == Stored(other, b, std, lo, hi)
  {
    hide Compute, Named;
    var p, q := Stored(dates, a, std, lo, hi), Stored(other, b, std, lo, hi);
    assert dates[lo..hi] == dates[..hi][lo..] == other[lo..hi];
    assert p.closes == q.closes;
    forall m | m in Named() ensures p.frame.columns[m] == q.frame.columns[m] {
      LaterBarsDoNotMatter(a, b, std, Named()[m], hi);
    }
    assert p.frame.columns == q.frame.columns;
  }

  /** The first k rows of a history. */
  function Front(h: History, k: nat): (r: History)
    requires h.Valid() && k <= h.frame.rows
    ensures r.Valid() && r.frame.rows == k
  {
    History(h.dates[..k], h.closes[..k], Rows(h.frame, 0, k))
  }

  /** Signals look back one row and never ahead, so the days of a shorter history are the first days. */
  lemma DaysOfFront(h: History, d: Definition, k: nat)
    requires h.Valid() && k <= h.frame.rows
    ensures var part, whole := SignalDays(Front(h, k), d), SignalDays(h, d);
            && (part.Err? <==> whole.Err?) && (part.Err? ==> part == whole)
            && (whole.Ok? ==> k <= |whole.value| && part.value == whole.value[..k])
  {
    hide StackSignal;
    StackOnWindow(h.frame, [d.entry] + d.entryFilters, d.entryOperator, 0, k);
    StackOnWindow(h.frame, [d.exit] + d.exitFilters, d.exitOperator, 0, k);
    var part, whole := SignalDays(Front(h, k), d), SignalDays(h, d);
    if whole.Ok? {
      assert |part.value| == k;
      assert part.value == whole.value[..k];
    }
  }

  lemma FrontOfStored(dates: seq<int>, bars: seq<Bar>, std: seq<real> -> real, lo: nat, k: nat, hi: nat)
    requires |dates| == |bars| && lo <= k <= hi <= |bars| && Priced(bars, lo, hi)
    ensures Front(Stored(dates, bars, std, lo, hi), k - lo) == Stored(dates, bars, std, lo, k)
  {
    hide IndicatorFrame;
    var p, q := Front(Stored(dates, bars, std, lo, hi), k - lo), Stored(dates, bars, std, lo, k);
    assert p.dates == q.dates;
    assert p.closes == q.closes;
    var f := IndicatorFrame(bars, std);
    forall m | m in f.columns ensures p.frame.columns[m] == q.frame.columns[m] {
      assert f.columns[m][lo..hi][0..k - lo] == f.columns[m][lo..k];
    }
    assert p.frame.columns == q.frame.columns;
  }

  /** The first n points of the curve, and the first `done` trades beside at most one liquidation. */
  predicate ReportsThePast(early: Report, late: Report, n: nat, done: nat) {
    && n <= |late.curve| && early.curve == late.curve[..n]
    && done <= |early.trades| <= done + 1 && done <= |late.trades|
    && early.trades[..done] == late.trades[..done]
  }

  /** End to end: take two bar histories that agree on their first k bars, compute all indicators, read the
      rows from lo on, evaluate the rule stacks and run the backtest, on the one up to bar k and on the other
      up to any later bar. Both fail alike, or the shorter curve is a prefix of the longer one, and so are
      the trades apart from the shorter run's own liquidation. */
  lemma NothingLooksAhead(dates: seq<int>, other: seq<int>, a: seq<Bar>, b: seq<Bar>, std: seq<real> -> real,
                          groups: seq<Group>, d: Definition, lo: nat, k: nat, hi: nat)
    requires |dates| == |a| && |other| == |b| && lo < k <= |a| && k <= hi <= |b|
    requires dates[..k] == other[..k] && SameBars(a, b, 0, k) && Priced(b, lo, hi)
    ensures Priced(a, lo, k)
    ensures var p, q := Stored(dates, a, std, lo, k), Stored(other, b, std, lo, hi);
            var early, late := Backtested(p, groups, d), Backtested(q, groups, d);
            && (early.Err? <==> late.Err?) && (early.Err? ==> early == late)
            && (early.Ok? ==>
                  && SignalDays(q, d).Ok? && k - lo <= |SignalDays(q, d).value|
                  && ReportsThePast(early.value, late.value, k - lo,
                                    |Run(SettingsOf(d), SignalDays(q, d).value, k - lo).trades|))
  {
    hide Stored, SignalDays, SummaryOf, Run, Final, Curve, SettingsOf, Candidates, Ranking;
    forall i | lo <= i < k ensures a[i].close.Num? {
      assert b[i] == a[0 + i];
    }
    var p, q := Stored(dates, a, std, lo, k), Stored(other, b, std, lo, hi);
    StoredRowsKeepThePast(dates, other, a, b, std, lo, k);
    FrontOfStored(other, b, std, lo, k, hi);
    DaysOfFront(q, d, k - lo);
    if SignalDays(q, d).Ok? {
      var whole := SignalDays(q, d).value;
      assert whole[..k - lo][0] == whole[0];
      if whole[0].close != 0.0 {
        NoLookAhead(SettingsOf(d), whole[..k - lo], whole, k - lo);
      }
    }
  }
}
