/** The trades a backtest reports, stated without a loop. */
module TradeSchedule {
  import opened Values
  import opened Backtest
  import opened BacktestLedger

  /** The first bar at which the k-th entry may happen: strictly after the previous exit. */
  function SearchFrom(spans: seq<Span>, k: nat): nat
    requires k <= |spans|
  {
    if k == 0 then 0 else spans[k - 1].exit + 1
  }

  ghost predicate NoEntry(days: seq<Day>, from: nat, to: nat)
    requires to <= |days|
  {
    forall j :: from <= j < to ==> !days[j].enter
  }

  /** Bar j ends a position opened on bar e: an exit signal, or a close that has fallen by the stop percentage. */
  ghost predicate Leaves(stop: Option<real>, days: seq<Day>, e: nat, j: nat)
    requires e < |days| && j < |days|
  {
    days[j].leave || (stop.Some? && days[j].close <= days[e].close * (1.0 - stop.value / 100.0))
  }

  ghost predicate NoExit(stop: Option<real>, days: seq<Day>, e: nat, to: nat)
    requires e < |days| && to <= |days|
  {
    forall j :: e < j < to ==> !Leaves(stop, days, e, j)
  }

  ghost predicate FirstEntry(days: seq<Day>, from: nat, e: nat) {
    from <= e < |days| && days[e].enter && NoEntry(days, from, e)
  }

  ghost predicate FirstExit(stop: Option<real>, days: seq<Day>, e: nat, x: nat) {
    e < x < |days| && Leaves(stop, days, e, x) && NoExit(stop, days, e, x)
  }

  /** Left open by the signals and closed on the last bar. */
  ghost predicate Liquidated(stop: Option<real>, days: seq<Day>, t: Span) {
    t.entry < |days| && NoExit(stop, days, t.entry, |days|) && t.exit == |days| - 1
  }

  /** The k-th round trip enters on the first entry signal after the previous exit and leaves on the first
      later bar with an exit signal or a close at the stop. */
  ghost predicate Signalled(stop: Option<real>, days: seq<Day>, spans: seq<Span>, k: nat)
    requires k < |spans|
  {
    && FirstEntry(days, SearchFrom(spans, k), spans[k].entry)
    && FirstExit(stop, days, spans[k].entry, spans[k].exit)
  }

  /** The last round trip may instead be closed by the end of the data. */
  ghost predicate Scheduled(stop: Option<real>, days: seq<Day>, spans: seq<Span>, k: nat)
    requires k < |spans|
  {
    || Signalled(stop, days, spans, k)
    || (&& k == |spans| - 1
        && FirstEntry(days, SearchFrom(spans, k), spans[k].entry)
        && Liquidated(stop, days, spans[k]))
  }

  /** Every round trip is scheduled and no entry signal is left over. */
  ghost predicate IsSchedule(stop: Option<real>, days: seq<Day>, spans: seq<Span>) {
    && (forall k :: 0 <= k < |spans| ==> Scheduled(stop, days, spans, k))
    && NoEntry(days, SearchFrom(spans, |spans|), |days|)
  }

  lemma {:induction false} SchedulesAgreeUpTo(stop: Option<real>, days: seq<Day>, a: seq<Span>, b: seq<Span>, k: nat)
    requires IsSchedule(stop, days, a) && IsSchedule(stop, days, b) && k <= |a| && k <= |b|
    ensures forall j :: 0 <= j < k ==> a[j] == b[j]
  {
    hide Leaves;
    if k > 0 {
      SchedulesAgreeUpTo(stop, days, a, b, k - 1);
      assert SearchFrom(a, k - 1) == SearchFrom(b, k - 1);
      assert Scheduled(stop, days, a, k - 1) && Scheduled(stop, days, b, k - 1);
      SameEntry(days, SearchFrom(a, k - 1), a[k - 1].entry, b[k - 1].entry);
      SameExit(stop, days, a[k - 1], b[k - 1]);
    }
  }

  lemma SameEntry(days: seq<Day>, from: nat, e: nat, f: nat)
    requires FirstEntry(days, from, e) && FirstEntry(days, from, f)
    ensures e == f
  {}

  lemma SameExit(stop: Option<real>, days: seq<Day>, t: Span, u: Span)
    requires t.entry == u.entry
    requires FirstExit(stop, days, t.entry, t.exit) || Liquidated(stop, days, t)
    requires FirstExit(stop, days, u.entry, u.exit) || Liquidated(stop, days, u)
    ensures t.exit == u.exit
  {
    hide Leaves;
  }

  /** Bars, signals and stop determine the schedule. */
  lemma ScheduleIsUnique(stop: Option<real>, days: seq<Day>, a: seq<Span>, b: seq<Span>)
    requires IsSchedule(stop, days, a) && IsSchedule(stop, days, b)
    ensures a == b
  {
    if |a| <= |b| {
      ScheduleCannotBeExtended(stop, days, a, b);
    } else {
      ScheduleCannotBeExtended(stop, days, b, a);
    }
  }

  lemma ScheduleCannotBeExtended(stop: Option<real>, days: seq<Day>, a: seq<Span>, b: seq<Span>)
    requires IsSchedule(stop, days, a) && IsSchedule(stop, days, b) && |a| <= |b|
    ensures a == b
  {
    SchedulesAgreeUpTo(stop, days, a, b, |a|);
    assert SearchFrom(a, |a|) == SearchFrom(b, |a|);
    NothingAfterTheLastEntry(stop, days, b, |a|);
  }

  lemma NothingAfterTheLastEntry(stop: Option<real>, days: seq<Day>, b: seq<Span>, n: nat)
    requires IsSchedule(stop, days, b) && n <= |b| && NoEntry(days, SearchFrom(b, n), |days|)
    ensures n == |b|
  {
    hide Leaves;
    assert n < |b| ==> Scheduled(stop, days, b, n);
  }

  /** What the loop's positions satisfy after n bars. */
  ghost predicate OnSchedule(stop: Option<real>, days: seq<Day>, n: nat, p: Positions)
    requires n <= |days|
  {
    && SearchFrom(p.closed, |p.closed|) <= n
    && (forall k :: 0 <= k < |p.closed| ==> Signalled(stop, days, p.closed, k))
    && (p.open.None? ==> NoEntry(days, SearchFrom(p.closed, |p.closed|), n))
    && (p.open.Some? ==>
          && p.open.value < n
          && FirstEntry(days, SearchFrom(p.closed, |p.closed|), p.open.value)
          && NoExit(stop, days, p.open.value, n))
  }

  lemma StillSignalled(stop: Option<real>, days: seq<Day>, spans: seq<Span>, t: Span)
    requires forall k :: 0 <= k < |spans| ==> Signalled(stop, days, spans, k)
    ensures forall k :: 0 <= k < |spans| ==> Signalled(stop, days, spans + [t], k)
    ensures SearchFrom(spans + [t], |spans|) == SearchFrom(spans, |spans|)
  {
    hide FirstEntry, FirstExit;
    forall k | 0 <= k < |spans| ensures Signalled(stop, days, spans + [t], k) {
      assert Signalled(stop, days, spans, k);
      assert SearchFrom(spans + [t], k) == SearchFrom(spans, k);
    }
  }

  lemma ExitSignals(stop: Option<real>, days: seq<Day>, spans: seq<Span>, t: Span)
    requires FirstEntry(days, SearchFrom(spans, |spans|), t.entry) && FirstExit(stop, days, t.entry, t.exit)
    ensures Signalled(stop, days, spans + [t], |spans|)
  {
    assert SearchFrom(spans + [t], |spans|) == SearchFrom(spans, |spans|);
  }

  lemma FlatBar(stop: Option<real>, days: seq<Day>, n: nat, p: Positions)
    requires n < |days| && OnSchedule(stop, days, n, p) && p.open.None?
    ensures OnSchedule(stop, days, n + 1, if days[n].enter then Positions(p.closed, Some(n)) else p)
  {
    hide Signalled;
  }

  lemma HeldBar(stop: Option<real>, days: seq<Day>, n: nat, p: Positions)
    requires n < |days| && OnSchedule(stop, days, n, p) && p.open.Some? && !Leaves(stop, days, p.open.value, n)
    ensures OnSchedule(stop, days, n + 1, p)
  {
    hide Signalled, Leaves;
  }

  lemma ExitBar(stop: Option<real>, days: seq<Day>, n: nat, p: Positions)
    requires n < |days| && OnSchedule(stop, days, n, p) && p.open.Some? && Leaves(stop, days, p.open.value, n)
    ensures OnSchedule(stop, days, n + 1, Positions(p.closed + [Span(p.open.value, n)], None))
  {
    hide Signalled, Leaves, FirstEntry;
    var t := Span(p.open.value, n);
    StillSignalled(stop, days, p.closed, t);
    ExitSignals(stop, days, p.closed, t);
  }

  lemma ExitDueMeans(stop: Option<real>, days: seq<Day>, e: nat, j: nat)
    requires e < |days| && j < |days|
    ensures ExitDue(stop, days, e, j) <==> Leaves(stop, days, e, j)
  {}

  lemma {:induction false} PositionsStayOnSchedule(stop: Option<real>, days: seq<Day>, n: nat)
    requires n <= |days|
    ensures OnSchedule(stop, days, n, PositionsAfter(stop, days, n))
  {
    hide OnSchedule, ExitDue, Leaves;
    if n == 0 {
      StartsOnSchedule(stop, days);
    } else {
      PositionsStayOnSchedule(stop, days, n - 1);
      var p := PositionsAfter(stop, days, n - 1);
      if p.open.Some? {
        ExitDueMeans(stop, days, p.open.value, n - 1);
      }
      if p.open.None? {
        FlatBar(stop, days, n - 1, p);
      } else if ExitDue(stop, days, p.open.value, n - 1) {
        ExitBar(stop, days, n - 1, p);
      } else {
        HeldBar(stop, days, n - 1, p);
      }
    }
  }

  lemma StartsOnSchedule(stop: Option<real>, days: seq<Day>)
    ensures OnSchedule(stop, days, 0, Positions([], None))
  {}

  lemma RoundTripsFormASchedule(stop: Option<real>, days: seq<Day>)
    ensures IsSchedule(stop, days, RoundTrips(stop, days))
  {
    hide ExitDue, Leaves, Signalled, FirstEntry;
    PositionsStayOnSchedule(stop, days, |days|);
    var p := PositionsAfter(stop, days, |days|);
    if p.open.Some? {
      StillSignalled(stop, days, p.closed, Span(p.open.value, |days| - 1));
    }
  }

  /** Refinement: the loop reports exactly the trades of the one schedule that the bars, the signals and the
      stop determine, if and only if every round trip but the last left some capital for the next entry. */
  lemma RunFollowsTheScheduleExactlyWhen(s: Settings, days: seq<Day>, spans: seq<Span>)
    requires s.Valid() && PositiveCloses(days) && IsSchedule(s.stop, days, spans)
    ensures InRange(days, spans)
    ensures ReportsAll(s, days, spans, Final(s, days).trades) <==>
            forall k :: 0 <= k < |spans| - 1 ==> Factor(s.size, s.cost, PriceRatio(days, spans[k])) > 0.0
  {
    hide ReportsAll, Final, IsSchedule, Factor, PriceRatio;
    RoundTripsFormASchedule(s.stop, days);
    ScheduleIsUnique(s.stop, days, spans, RoundTrips(s.stop, days));
    ReportsAllExactlyWhenFunded(s, days);
    FundedMeansAllButTheLast(s, days);
  }

  /** Three bars at one price that enter, leave and enter again. */
  function BackInAtOnce(): seq<Day> { [Day(0, 1.0, true, false), Day(1, 1.0, false, true), Day(2, 1.0, true, false)] }

  /** At cost rate 1 with everything staked the first exit leaves nothing: the second round trip is scheduled, but
      the run reports only the first. */
  lemma FullCostStopsTheSchedule(s: Settings)
    requires s == Settings(1.0, 1.0, None, 1.0)
    ensures s.Valid() && PositiveCloses(BackInAtOnce())
    ensures var days, spans := BackInAtOnce(), [Span(0, 1), Span(2, 2)];
            IsSchedule(None, days, spans) && InRange(days, spans) && !ReportsAll(s, days, spans, Final(s, days).trades)
  {
    var days, spans := BackInAtOnce(), [Span(0, 1), Span(2, 2)];
    assert FirstEntry(days, 0, 0) && FirstExit(None, days, 0, 1) && FirstEntry(days, 2, 2);
    assert Signalled(None, days, spans, 0) && Scheduled(None, days, spans, 1);
    assert Factor(1.0, 1.0, PriceRatio(days, spans[0])) == 0.0;
    hide IsSchedule, Final, ReportsAll, Factor, PriceRatio;
    RunFollowsTheScheduleExactlyWhen(s, days, spans);
  }

  lemma FundedMeansAllButTheLast(s: Settings, days: seq<Day>)
    requires s.Valid() && PositiveCloses(days)
    ensures var spans := RoundTrips(s.stop, days);
            && InRange(days, spans)
            && (Funded(s, days, |days|) <==>
                forall k :: 0 <= k < |spans| - 1 ==> Factor(s.size, s.cost, PriceRatio(days, spans[k])) > 0.0)
  {
    hide Factor, PriceRatio;
    var p, spans := PositionsAfter(s.stop, days, |days|), RoundTrips(s.stop, days);
    var before := if p.open.Some? || p.closed == [] then p.closed else p.closed[..|p.closed| - 1];
    assert forall k :: 0 <= k < |before| ==> before[k] == spans[k];
    assert |before| == if spans == [] then 0 else |spans| - 1;
  }

  // ---------- exposure ----------

  /** A bar is covered by a round trip from its entry up to but excluding a signalled exit; a liquidated
      position covers every later bar. */
  ghost predicate Covers(stop: Option<real>, days: seq<Day>, t: Span, i: nat) {
    t.entry <= i && (i < t.exit || Liquidated(stop, days, t))
  }

  /** q continues p from bar m on: nothing closed is reopened, the open position stays open or is the next
      to close, and everything else starts at m or later. */
  ghost predicate Continues(p: Positions, q: Positions, m: nat) {
    var n := |p.closed|;
    && p.closed <= q.closed
    && (forall k :: n <= k < |q.closed| ==>
          q.closed[k].exit >= m &&
          if k == n && p.open.Some? then q.closed[k].entry == p.open.value else q.closed[k].entry >= m)
    && (if |q.closed| == n && p.open.Some? then q.open == p.open
        else q.open.Some? ==> q.open.value >= m)
  }

  lemma ContinuesThroughExit(p: Positions, q: Positions, m: nat, x: nat)
    requires Continues(p, q, m) && q.open.Some? && x >= m
    ensures Continues(p, Positions(q.closed + [Span(q.open.value, x)], None), m)
  {}

  lemma {:induction false} LaterPositionsExtend(stop: Option<real>, days: seq<Day>, m: nat, n: nat)
    requires m <= n <= |days|
    ensures Continues(PositionsAfter(stop, days, m), PositionsAfter(stop, days, n), m)
  {
    hide ExitDue, Continues;
    var p := PositionsAfter(stop, days, m);
    if m == n {
      ContinuesItself(p, m);
    } else {
      LaterPositionsExtend(stop, days, m, n - 1);
      var q := PositionsAfter(stop, days, n - 1);
      if q.open.Some? {
        ContinuesThroughExit(p, q, m, n - 1);
      } else {
        ContinuesThroughEntry(p, q, m, n - 1);
      }
    }
  }

  lemma ContinuesItself(p: Positions, m: nat)
    ensures Continues(p, p, m)
  {}

  lemma ContinuesThroughEntry(p: Positions, q: Positions, m: nat, e: nat)
    requires Continues(p, q, m) && q.open.None? && e >= m
    ensures Continues(p, Positions(q.closed, Some(e)), m)
  {}

  /** On a funded schedule exposure is 1 exactly on the bars covered by a round trip, 0 elsewhere. */
  lemma ExposureFollowsTheSchedule(s: Settings, days: seq<Day>, spans: seq<Span>, i: nat)
    requires s.Valid() && PositiveCloses(days) && Funded(s, days, |days|) && i < |days|
    requires IsSchedule(s.stop, days, spans)
    ensures PointAt(s, days, i).exposure ==
            if exists k :: 0 <= k < |spans| && Covers(s.stop, days, spans[k], i) then 1.0 else 0.0
  {
    hide ExitDue, Run, PositionsAfter, IsSchedule, Covers, RoundTrips, Funded;
    RoundTripsFormASchedule(s.stop, days);
    ScheduleIsUnique(s.stop, days, spans, RoundTrips(s.stop, days));
    var p := PositionsAfter(s.stop, days, i + 1);
    FundedEarlier(s, days, i + 1, |days|);
    HeldMeansShares(s, days, i + 1);
    if p.open.Some? {
      OpenCovers(s.stop, days, i);
    } else {
      forall k | 0 <= k < |spans| ensures !Covers(s.stop, days, spans[k], i) {
        FlatUncovered(s.stop, days, i, k);
      }
    }
  }

  lemma OpenCovers(stop: Option<real>, days: seq<Day>, i: nat)
    requires i < |days| && PositionsAfter(stop, days, i + 1).open.Some?
    ensures var spans, k := RoundTrips(stop, days), |PositionsAfter(stop, days, i + 1).closed|;
            k < |spans| && Covers(stop, days, spans[k], i)
  {
    hide ExitDue, Leaves;
    LaterPositionsExtend(stop, days, i + 1, |days|);
    PositionsStayOnSchedule(stop, days, |days|);
  }

  lemma FlatUncovered(stop: Option<real>, days: seq<Day>, i: nat, k: nat)
    requires i < |days| && PositionsAfter(stop, days, i + 1).open.None?
    requires k < |RoundTrips(stop, days)|
    ensures !Covers(stop, days, RoundTrips(stop, days)[k], i)
  {
    hide ExitDue, Leaves;
    LaterPositionsExtend(stop, days, i + 1, |days|);
    PositionsStayOnSchedule(stop, days, i + 1);
    var p, q := PositionsAfter(stop, days, i + 1), PositionsAfter(stop, days, |days|);
    if k < |p.closed| {
      assert p.closed[k] == q.closed[k] == RoundTrips(stop, days)[k];
      assert Signalled(stop, days, p.closed, k);
    }
  }

  lemma HeldMeansShares(s: Settings, days: seq<Day>, n: nat)
    requires s.Valid() && PositiveCloses(days) && n <= |days| && Funded(s, days, n)
    ensures Run(s, days, n).shares > 0.0 <==> PositionsAfter(s.stop, days, n).open.Some?
  {
    hide Run, Capital, Stake, PaysAt;
    RunInClosedForm(s, days, n);
    var p := PositionsAfter(s.stop, days, n);
    if p.open.Some? {
      StakePositive(s, s.cost, days, p.closed, p.open.value);
    }
  }
}
