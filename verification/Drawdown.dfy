/** The one-pass drawdown against its definition over all pairs of points, and the reach of the loop. */
module Drawdown {
  import opened Values
  import opened Backtest
  import opened BacktestLedger
  import opened BacktestComparisons

  /** The starting capital followed by the equity curve. */
  function Levels(capital: real, equity: seq<real>): (r: seq<real>)
    ensures |r| == |equity| + 1
  {
    [capital] + equity
  }

  /** The change from level i to level j in percent. */
  function MovePct(levels: seq<real>, i: nat, j: nat): real
    requires i < |levels| && j < |levels| && levels[i] != 0.0
  {
    (levels[j] / levels[i] - 1.0) * 100.0
  }

  ghost predicate Positive(levels: seq<real>) { forall i :: 0 <= i < |levels| ==> levels[i] > 0.0 }

  lemma {:induction false} PeakIsTheMaximum(capital: real, equity: seq<real>, n: nat)
    requires n <= |equity|
    ensures forall i :: 0 <= i <= n ==> Levels(capital, equity)[i] <= Peak(capital, equity, n)
    ensures exists i :: 0 <= i <= n && Levels(capital, equity)[i] == Peak(capital, equity, n)
  {
    var levels := Levels(capital, equity);
    if n == 0 {
      assert levels[0] == capital;
    } else {
      PeakIsTheMaximum(capital, equity, n - 1);
      var i :| 0 <= i <= n - 1 && levels[i] == Peak(capital, equity, n - 1);
      assert levels[n] == equity[n - 1];
      assert levels[if equity[n - 1] > Peak(capital, equity, n - 1) then n else i] == Peak(capital, equity, n);
    }
  }

  lemma HigherStartFallsFurther(levels: seq<real>, i: nat, top: nat, j: nat)
    requires Positive(levels) && i < |levels| && top < |levels| && j < |levels| && levels[i] <= levels[top]
    ensures -100.0 < MovePct(levels, top, j) <= MovePct(levels, i, j)
  {
    PositiveQuotient(levels[j], levels[top]);
    QuotientMonotone(levels[j], levels[j], levels[i], levels[top]);
  }

  lemma NoMove(levels: seq<real>, i: nat)
    requires i < |levels| && levels[i] != 0.0
    ensures MovePct(levels, i, i) == 0.0
  {
    assert levels[i] / levels[i] == 1.0;
  }

  /** The figure is a lower bound of all moves from an earlier to a later level among the first n + 1. */
  ghost predicate Bounds(figure: real, levels: seq<real>, n: nat)
    requires n < |levels| && Positive(levels)
  {
    forall i, j :: 0 <= i <= j <= n ==> figure <= MovePct(levels, i, j)
  }

  ghost predicate Attained(figure: real, levels: seq<real>, n: nat)
    requires n < |levels| && Positive(levels)
  {
    exists i, j :: 0 <= i <= j <= n && MovePct(levels, i, j) == figure
  }

  lemma NextBar(levels: seq<real>, n: nat, before: real, top: nat)
    requires 0 < n < |levels| && Positive(levels) && top <= n
    requires Bounds(before, levels, n - 1) && Attained(before, levels, n - 1)
    requires forall i :: 0 <= i <= n ==> levels[i] <= levels[top]
    ensures var figure := Min(before, MovePct(levels, top, n)); Bounds(figure, levels, n) && Attained(figure, levels, n)
  {
    hide MovePct;
    var fall := MovePct(levels, top, n);
    forall i, j | 0 <= i <= j <= n
      ensures Min(before, fall) <= MovePct(levels, i, j)
    {
      if j == n {
        HigherStartFallsFurther(levels, i, top, n);
      }
    }
    var a, b :| 0 <= a <= b <= n - 1 && MovePct(levels, a, b) == before;
    assert Attained(fall, levels, n) && Attained(before, levels, n);
  }

  /** No later level lost more than the running figure against an earlier one, and some pair attains it;
      the starting capital counts as the first level. */
  lemma {:induction false} DrawdownIsTheWorstFall(capital: real, equity: seq<real>, n: nat)
    requires n <= |equity| && Positive(Levels(capital, equity))
    ensures Bounds(MaxDrawdown(capital, equity, n), Levels(capital, equity), n)
    ensures Attained(MaxDrawdown(capital, equity, n), Levels(capital, equity), n)
    ensures -100.0 < MaxDrawdown(capital, equity, n) <= 0.0
  {
    hide MovePct, Bounds, Attained;
    var levels := Levels(capital, equity);
    if n == 0 {
      NoDrawdownYet(capital, equity);
    } else {
      DrawdownIsTheWorstFall(capital, equity, n - 1);
      PeakIsTheMaximum(capital, equity, n);
      var peak := Peak(capital, equity, n);
      var top :| 0 <= top <= n && levels[top] == peak;
      DrawdownIsAMove(levels, top, n);
      HigherStartFallsFurther(levels, top, top, n);
      NextBar(levels, n, MaxDrawdown(capital, equity, n - 1), top);
    }
  }

  lemma DrawdownIsAMove(levels: seq<real>, top: nat, n: nat)
    requires top < |levels| && n < |levels| && Positive(levels)
    ensures DrawdownPct(levels[top], levels[n]) == MovePct(levels, top, n)
  {}

  lemma NoDrawdownYet(capital: real, equity: seq<real>)
    requires Positive(Levels(capital, equity))
    ensures Bounds(0.0, Levels(capital, equity), 0) && Attained(0.0, Levels(capital, equity), 0)
  {
    NoMove(Levels(capital, equity), 0);
  }

  /** The equity of a run that thrives to its last bar stays positive, so the reported drawdown is the worst fall of
      its curve and lies in [0, 100). */
  lemma ReportedDrawdown(s: Settings, days: seq<Day>)
    requires s.Valid() && days != [] && Thrives(s, days, |days|)
    ensures days[0].close != 0.0
    ensures var equity := Equities(Curve(s, days));
            && Positive(Levels(s.capital, equity))
            && 0.0 <= SummaryOf(s, days).maxDrawdownPct < 100.0
            && Bounds(-SummaryOf(s, days).maxDrawdownPct, Levels(s.capital, equity), |days|)
            && Attained(-SummaryOf(s, days).maxDrawdownPct, Levels(s.capital, equity), |days|)
  {
    hide Run, Final, MaxDrawdown, Bounds, Attained, Equity, Thrives;
    ThrivingIsFunded(s, days, |days|);
    var equity := Equities(Curve(s, days));
    forall i | 0 <= i <= |days| ensures Levels(s.capital, equity)[i] > 0.0 {
      if i > 0 {
        ThrivesEarlier(s, days, i, |days|);
        CostNeverHelps(s, s, days, i);
        assert Levels(s.capital, equity)[i] == equity[i - 1] == Equity(s, days, i - 1);
      }
    }
    DrawdownIsTheWorstFall(s.capital, equity, |equity|);
  }

  // ---------- no look-ahead ----------

  lemma {:induction false} RunReadsOnlyThePast(s: Settings, a: seq<Day>, b: seq<Day>, n: nat)
    requires s.Valid() && n <= |a| && n <= |b| && a[..n] == b[..n]
    ensures Run(s, a, n) == Run(s, b, n)
  {
    if n > 0 {
      assert a[..n - 1] == a[..n][..n - 1] && b[..n - 1] == b[..n][..n - 1];
      assert a[n - 1] == a[..n][n - 1] && b[n - 1] == b[..n][n - 1];
      hide Step;
      RunReadsOnlyThePast(s, a, b, n - 1);
    }
  }

  lemma {:induction false} TradesOnlyGrow(s: Settings, days: seq<Day>, m: nat, n: nat)
    requires s.Valid() && m <= n <= |days|
    ensures Run(s, days, m).trades <= Run(s, days, n).trades
  {
    hide Affordable, Deployable, Worth, Fee, Gain, ReturnPct, StopReached;
    if m < n {
      TradesOnlyGrow(s, days, m, n - 1);
    }
  }

  /** Two bar sequences that agree on the first k bars give the same first k equity points and the same
      trades up to there; the run that stops at k adds at most its own liquidation. */
  lemma NoLookAhead(s: Settings, a: seq<Day>, b: seq<Day>, k: nat)
    requires s.Valid() && 0 < k <= |b| && a == b[..k] && b[0].close != 0.0
    ensures Curve(s, a) == Curve(s, b)[..k]
    ensures var done := |Run(s, b, k).trades|;
            && done <= |Final(s, a).trades| <= done + 1 && done <= |Final(s, b).trades|
            && Final(s, a).trades[..done] == Final(s, b).trades[..done] == Run(s, b, k).trades
            && (|Final(s, a).trades| == done + 1 <==> Run(s, b, k).shares > 0.0)
  {
    hide Step, Equity, Run;
    forall i | 0 <= i < k
      ensures PointAt(s, a, i) == PointAt(s, b, i)
    {
      assert a[..i + 1] == b[..i + 1];
      RunReadsOnlyThePast(s, a, b, i + 1);
      SameEquity(s, a, b, i);
    }
    assert a[..k] == b[..k];
    RunReadsOnlyThePast(s, a, b, k);
    TradesOnlyGrow(s, b, k, |b|);
  }

  lemma SameEquity(s: Settings, a: seq<Day>, b: seq<Day>, i: nat)
    requires s.Valid() && i < |a| && i < |b| && Run(s, a, i + 1) == Run(s, b, i + 1) && a[i] == b[i]
    ensures Equity(s, a, i) == Equity(s, b, i)
  {
    hide Run, Worth;
  }
}
