/** What the request settings, the trades and the figures of a backtest report mean. */
module BacktestReport {
  import opened Values
  import opened Strategy
  import opened StrategyLaws
  import opened Backtest
  import opened BacktestLedger
  import opened TradeSchedule

  // ---------- the request ----------

  /** The cost is the two rates in basis points, negative ones counting as 0; capital and position size are taken as
      given inside [1, ..) and [1, 100] percent, and the nearest bound outside. */
  lemma SettingsMean(d: Definition)
    ensures var s := SettingsOf(d);
            && 10000.0 * s.cost == (if d.feeBps > 0.0 then d.feeBps else 0.0) +
                                   (if d.slippageBps > 0.0 then d.slippageBps else 0.0)
            && s.capital == (if d.initialCapital < 1.0 then 1.0 else d.initialCapital)
            && 100.0 * s.size == (if d.positionSizePct < 1.0 then 1.0
                                  else if d.positionSizePct > 100.0 then 100.0 else d.positionSizePct)
            && (100.0 * s.size == d.positionSizePct <==> 1.0 <= d.positionSizePct <= 100.0)
            && s.stop == d.stopLossPct
  {}

  /** The bars of a backtest: stored dates and closes, the entry rules as `enter`, the exit rules as `leave`. */
  lemma SignalDaysMean(h: History, d: Definition, i: nat)
    requires h.Valid() && i < h.frame.rows && SignalDays(h, d).Ok?
    ensures i < |SignalDays(h, d).value|
    ensures var day := SignalDays(h, d).value[i];
            && day.date == h.dates[i] && day.close == h.closes[i]
            && (day.enter <==> StackHolds(h.frame, d.entry, d.entryFilters, d.entryOperator, i))
            && (day.leave <==> StackHolds(h.frame, d.exit, d.exitFilters, d.exitOperator, i))
  {
    hide StackHolds, StackSignal;
    SignalsMean(h.frame, d, i);
  }

  /** The faults of a request in the order they are noticed: no rows, the entry stack, the exit stack, a first close of
      0, the screener. Without a fault the first 25 of the screener's matches are reported. */
  lemma RouteFailsExactlyWhen(h: History, groups: seq<Group>, d: Definition)
    requires h.Valid()
    ensures var r := Backtested(h, groups, d);
            if h.frame.rows == 0 then r == Err(NoData)
            else if EntrySignal(h.frame, d).Err? then r == Err(Rule(EntrySignal(h.frame, d).error))
            else if ExitSignal(h.frame, d).Err? then r == Err(Rule(ExitSignal(h.frame, d).error))
            else if h.closes[0] == 0.0 then r == Err(ZeroFirstClose)
            else if Candidates(groups, d).Err? then r == Err(Rule(Candidates(groups, d).error))
            else
              var found := Ranking(Candidates(groups, d).value);
              r.Ok? && r.value.currentMatches == if |found| < 25 then found else found[..25]
  {
    hide EntrySignal, ExitSignal, Candidates, Ranking, SummaryOf, Curve, Final, SettingsOf;
  }

  // ---------- trades ----------

  /** A reported trade: bought on an entry signal, held over bars without exit signal or stop, and sold on the first
      bar with one of them or on the last bar; its return is the price change in percent, and its pnl has that sign. */
  ghost predicate Explains(stop: Option<real>, days: seq<Day>, t: Span, trade: Trade) {
    var e, x := t.entry, t.exit;
    && e <= x < |days| && days[e].enter
    && trade.entryDate == days[e].date && trade.entryPrice == days[e].close > 0.0
    && trade.exitDate == days[x].date && trade.exitPrice == days[x].close
    && ((e < x && Leaves(stop, days, e, x)) || x == |days| - 1)
    && (forall j :: e < j < x ==> !Leaves(stop, days, e, j))
    && days[x].close == days[e].close * (1.0 + trade.returnPct / 100.0)
    && (trade.pnl > 0.0 <==> days[x].close > days[e].close)
    && (trade.pnl < 0.0 <==> days[x].close < days[e].close)
  }

  ghost predicate Explained(stop: Option<real>, days: seq<Day>, spans: seq<Span>, trades: seq<Trade>) {
    && |spans| == |trades|
    && (forall k :: 0 <= k < |spans| ==> Explains(stop, days, spans[k], trades[k]))
    && (forall k :: 0 < k < |spans| ==> spans[k - 1].exit < spans[k].entry)
  }

  /** The position held after n bars was opened on bar e and has met no reason to leave since. */
  ghost predicate HeldSince(stop: Option<real>, days: seq<Day>, n: nat, b: Book, e: nat)
    requires n <= |days|
  {
    && e < n && days[e].enter && b.entryPrice == days[e].close > 0.0 && b.entryDate == Some(days[e].date)
    && forall j :: e < j < n ==> !Leaves(stop, days, e, j)
  }

  ghost predicate EndsBefore(spans: seq<Span>, n: nat) { spans != [] ==> spans[|spans| - 1].exit < n }

  ghost predicate Tracked(stop: Option<real>, days: seq<Day>, n: nat, b: Book, spans: seq<Span>)
    requires n <= |days|
  {
    && Explained(stop, days, spans, b.trades) && EndsBefore(spans, n)
    && (b.shares > 0.0 ==> exists e :: HeldSince(stop, days, n, b, e) && EndsBefore(spans, e))
  }

  lemma BuyTracked(s: Settings, days: seq<Day>, n: nat, b: Book, spans: seq<Span>)
    requires s.Valid() && n < |days| && Tracked(s.stop, days, n, b, spans) && days[n].enter
    ensures Tracked(s.stop, days, n + 1, Buy(s, b, days[n]), spans)
  {
    hide Leaves, Explained, Deployable, Worth, Fee;
    var next := Buy(s, b, days[n]);
    if next.shares > 0.0 {
      assert HeldSince(s.stop, days, n + 1, next, n);
    }
  }

  lemma ReturnMeans(entryPrice: real, close: real)
    requires entryPrice > 0.0
    ensures close == entryPrice * (1.0 + ReturnPct(entryPrice, close) / 100.0)
  {
    assert (close / entryPrice) * entryPrice == close;
  }

  /** A sale on bar n, by a signal, by the stop or after the last bar. */
  lemma SaleExplained(s: Settings, days: seq<Day>, n: nat, b: Book, spans: seq<Span>, e: nat)
    requires n < |days| && b.shares > 0.0 && Explained(s.stop, days, spans, b.trades)
    requires e <= n && days[e].enter && b.entryPrice == days[e].close > 0.0 && b.entryDate == Some(days[e].date)
    requires (e < n && Leaves(s.stop, days, e, n)) || n == |days| - 1
    requires (forall j :: e < j < n ==> !Leaves(s.stop, days, e, j)) && EndsBefore(spans, e)
    ensures Explained(s.stop, days, spans + [Span(e, n)], Sell(s, b, days[n]).trades)
  {
    hide Leaves, Worth, Fee, ReturnPct;
    ReturnMeans(days[e].close, days[n].close);
    assert Explains(s.stop, days, Span(e, n), TradeOf(b, days[n]));
    hide Explains;
  }

  lemma IdleTracked(stop: Option<real>, days: seq<Day>, n: nat, b: Book, spans: seq<Span>)
    requires n < |days| && Tracked(stop, days, n, b, spans)
    requires b.shares > 0.0 ==> !days[n].leave && !StopReached(stop, b.entryPrice, days[n].close)
    ensures Tracked(stop, days, n + 1, b, spans)
  {
    hide Explained;
    if b.shares > 0.0 {
      var e :| HeldSince(stop, days, n, b, e) && EndsBefore(spans, e);
      assert HeldSince(stop, days, n + 1, b, e);
    }
  }

  lemma {:induction false} RunIsTracked(s: Settings, days: seq<Day>, n: nat) returns (spans: seq<Span>)
    requires s.Valid() && n <= |days|
    ensures Tracked(s.stop, days, n, Run(s, days, n), spans)
  {
    hide Explained, HeldSince, Buy, Sell, StopReached;
    if n == 0 {
      spans := [];
      assert Explained(s.stop, days, [], []) by { NothingToExplain(s.stop, days); }
    } else {
      spans := RunIsTracked(s, days, n - 1);
      var b, d := Run(s, days, n - 1), days[n - 1];
      if b.shares == 0.0 && d.enter {
        BuyTracked(s, days, n - 1, b, spans);
      } else if b.shares > 0.0 && (d.leave || StopReached(s.stop, b.entryPrice, d.close)) {
        spans := SaleTracked(s, days, n - 1, b, spans);
      } else {
        IdleTracked(s.stop, days, n - 1, b, spans);
      }
    }
  }

  lemma NothingToExplain(stop: Option<real>, days: seq<Day>)
    ensures Explained(stop, days, [], [])
  {}

  lemma SaleTracked(s: Settings, days: seq<Day>, n: nat, b: Book, spans: seq<Span>) returns (longer: seq<Span>)
    requires n < |days| && Tracked(s.stop, days, n, b, spans) && b.shares > 0.0
    requires days[n].leave || StopReached(s.stop, b.entryPrice, days[n].close)
    ensures Tracked(s.stop, days, n + 1, Sell(s, b, days[n]), longer)
  {
    hide Explained, Worth, Fee, Gain, ReturnPct;
    var e :| HeldSince(s.stop, days, n, b, e) && EndsBefore(spans, e);
    longer := spans + [Span(e, n)];
    SaleExplained(s, days, n, b, spans, e);
  }

  /** Every reported trade follows the rules, for all closes and settings: it was entered on an entry signal after the
      previous exit, no bar in between had an exit signal or a close at the stop, and its last bar had one or is the
      end of the data. */
  lemma TradesFollowTheRules(s: Settings, days: seq<Day>)
    requires s.Valid()
    ensures exists spans :: Explained(s.stop, days, spans, Final(s, days).trades)
  {
    hide Explained, HeldSince, Sell, Run;
    var spans := RunIsTracked(s, days, |days|);
    var b := Run(s, days, |days|);
    if days != [] && b.shares > 0.0 {
      var e :| HeldSince(s.stop, days, |days|, b, e) && EndsBefore(spans, e);
      HeldIsOpen(s.stop, days, b, e);
      SaleExplained(s, days, |days| - 1, b, spans, e);
      assert Explained(s.stop, days, spans + [Span(e, |days| - 1)], Final(s, days).trades);
    } else {
      assert Explained(s.stop, days, spans, Final(s, days).trades);
    }
  }

  lemma HeldIsOpen(stop: Option<real>, days: seq<Day>, b: Book, e: nat)
    requires HeldSince(stop, days, |days|, b, e)
    ensures e < |days| && days[e].enter && b.entryPrice == days[e].close > 0.0 && b.entryDate == Some(days[e].date)
    ensures forall j :: e < j < |days| ==> !Leaves(stop, days, e, j)
  {}

  // ---------- figures ----------

  /** A point of the curve: cash and position at the bar's close, and the capital moved with the price since the first
      close. */
  lemma PointMeans(s: Settings, days: seq<Day>, i: nat)
    requires s.Valid() && i < |days| && days[0].close != 0.0
    ensures var p, b := Curve(s, days)[i], Run(s, days, i + 1);
            && p.date == days[i].date
            && p.equity == b.cash + b.shares * days[i].close
            && p.benchmark * days[0].close == s.capital * days[i].close
            && p.exposure == if b.shares > 0.0 then 1.0 else 0.0
  {
    hide Run;
    var first, close := days[0].close, days[i].close;
    assert (close / first) * first == close;
    assert s.capital * (close / first) * first == s.capital * ((close / first) * first);
  }

  /** The positions of the trades that gained. */
  ghost function Winners(pcts: seq<real>): set<nat> { set i: nat | i < |pcts| && pcts[i] > 0.0 }

  lemma {:induction false} WinsAreCounted(pcts: seq<real>)
    ensures Wins(pcts) == |Winners(pcts)|
  {
    if pcts == [] {
      assert Winners(pcts) == {};
    } else {
      var n := |pcts| - 1;
      var front := pcts[..n];
      WinsAreCounted(front);
      assert Winners(pcts) == Winners(front) + (if pcts[n] > 0.0 then {n} else {});
    }
  }

  lemma PercentOf(value: real, base: real)
    requires base != 0.0
    ensures base * (1.0 + (value / base - 1.0) * 100.0 / 100.0) == value
  {
    assert (value / base) * base == value;
  }

  /** The returns of the summary lead from the capital to the final ledgers and from the first close to the last, the
      win rate counts the trades that gained, and the average return times their number is the sum of their returns. */
  lemma SummaryMeans(s: Settings, days: seq<Day>)
    requires s.Valid() && days != [] && days[0].close != 0.0
    ensures var r, b := SummaryOf(s, days), Final(s, days);
            && s.capital * (1.0 + r.totalReturnPct / 100.0) == b.cash
            && s.capital * (1.0 + r.grossReturnPct / 100.0) == b.grossCash
            && s.capital * r.costDragPct / 100.0 == b.grossCash - b.cash
            && days[0].close * (1.0 + r.buyHoldReturnPct / 100.0) == days[|days| - 1].close
            && r.numTrades == |b.trades| && r.totalFeesPaid == b.fees
            && r.winRate * r.numTrades as real == 100.0 * |Winners(Returns(b.trades))| as real
            && r.avgReturnPct * r.numTrades as real == Sum(Returns(b.trades))
            && (b.trades == [] ==> r.winRate == r.avgReturnPct == 0.0)
  {
    hide Final, Curve, MaxDrawdown;
    var b := Final(s, days);
    PercentOf(b.cash, s.capital);
    PercentOf(b.grossCash, s.capital);
    PercentOf(days[|days| - 1].close, days[0].close);
    WinsAreCounted(Returns(b.trades));
  }
}
