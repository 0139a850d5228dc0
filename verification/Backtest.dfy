/** The backtest engine: one pass over daily closes keeping a net and a gross ledger
    (backend/queries/backtest.py). */
module Backtest {
  import opened Values
  import opened Frames
  import opened Strategy

  /** One bar as the loop sees it: its close and the two rule-stack signals. */
  datatype Day = Day(date: int, close: real, enter: bool, leave: bool)

  /** The clamped request: capital >= 1, size in [0.01, 1], cost >= 0. */
  datatype Settings = Settings(capital: real, size: real, stop: Option<real>, cost: real) {
    predicate Valid() { capital >= 1.0 && 0.01 <= size <= 1.0 && cost >= 0.0 }
  }

  function TradeCostRate(d: Definition): real {
    Max(d.feeBps, 0.0) / 10000.0 + Max(d.slippageBps, 0.0) / 10000.0
  }

  function SettingsOf(d: Definition): (s: Settings)
    ensures s.Valid()
  {
    Settings(Max(d.initialCapital, 1.0), Min(Max(d.positionSizePct / 100.0, 0.01), 1.0),
             d.stopLossPct, TradeCostRate(d))
  }

  datatype Trade = Trade(entryDate: int, entryPrice: real, exitDate: int, exitPrice: real,
                         returnPct: real, pnl: real)

  /** The ledgers and the trade list. */
  datatype Book = Book(cash: real, grossCash: real, shares: real, grossShares: real,
                       entryPrice: real, entryDate: Option<int>, fees: real, trades: seq<Trade>)

  function Opening(s: Settings): Book {
    Book(s.capital, s.capital, 0.0, 0.0, 0.0, None, 0.0, [])
  }

  /** Shares a deployable amount buys when each costs close * (1 + cost). */
  function Affordable(deployable: real, close: real, cost: real): real
    requires cost >= 0.0
  {
    if close > 0.0 then deployable / (close * (1.0 + cost)) else 0.0
  }

  function Deployable(cash: real, size: real): real { cash * size }

  function Worth(shares: real, close: real): real { shares * close }

  function Fee(worth: real, cost: real): real { worth * cost }

  function Gain(entryPrice: real, close: real, shares: real): real { (close - entryPrice) * shares }

  function ReturnPct(entryPrice: real, close: real): real {
    if entryPrice != 0.0 then (close / entryPrice - 1.0) * 100.0 else 0.0
  }

  function StopPrice(entryPrice: real, stopPct: real): real { entryPrice * (1.0 - stopPct / 100.0) }

  /** Buys with the deployable fraction of each ledger; a close that is not positive buys nothing. */
  function Buy(s: Settings, b: Book, d: Day): Book
    requires s.Valid()
  {
    var shares := Affordable(Deployable(b.cash, s.size), d.close, s.cost);
    var grossShares := Affordable(Deployable(b.grossCash, s.size), d.close, 0.0);
    var fee := Fee(Worth(shares, d.close), s.cost);
    b.(cash := b.cash - (Worth(shares, d.close) + fee),
       grossCash := b.grossCash - Worth(grossShares, d.close),
       shares := shares, grossShares := grossShares, entryPrice := d.close, entryDate := Some(d.date),
       fees := b.fees + fee)
  }

  function TradeOf(b: Book, d: Day): Trade {
    Trade(if b.entryDate.Some? then b.entryDate.value else d.date, b.entryPrice, d.date, d.close,
          ReturnPct(b.entryPrice, d.close), Gain(b.entryPrice, d.close, b.shares))
  }

  function Sell(s: Settings, b: Book, d: Day): Book {
    var fee := Fee(Worth(b.shares, d.close), s.cost);
    Book(b.cash + (Worth(b.shares, d.close) - fee), b.grossCash + Worth(b.grossShares, d.close),
         0.0, 0.0, 0.0, None,
         b.fees + fee, b.trades + [TradeOf(b, d)])
  }

  /** A close at or below the stop level set by the entry price. */
  predicate StopReached(stop: Option<real>, entryPrice: real, close: real) {
    stop.Some? && close <= StopPrice(entryPrice, stop.value)
  }

  function Step(s: Settings, b: Book, d: Day): Book
    requires s.Valid()
  {
    if b.shares == 0.0 && d.enter then Buy(s, b, d)
    else if b.shares > 0.0 && (d.leave || StopReached(s.stop, b.entryPrice, d.close)) then Sell(s, b, d)
    else b
  }

  /** The books after the first n bars. */
  function Run(s: Settings, days: seq<Day>, n: nat): Book
    requires s.Valid() && n <= |days|
  {
    if n == 0 then Opening(s) else Step(s, Run(s, days, n - 1), days[n - 1])
  }

  /** Whatever is still held after the last bar is sold at its close and reported as a trade. */
  function Final(s: Settings, days: seq<Day>): Book
    requires s.Valid()
  {
    var b := Run(s, days, |days|);
    if days != [] && b.shares > 0.0 then Sell(s, b, days[|days| - 1]) else b
  }

  // ---------- the equity curve ----------

  datatype Point = Point(date: int, equity: real, benchmark: real, exposure: real)

  function Equity(s: Settings, days: seq<Day>, i: nat): real
    requires s.Valid() && i < |days|
  {
    Run(s, days, i + 1).cash + Worth(Run(s, days, i + 1).shares, days[i].close)
  }

  function BuyAndHold(capital: real, firstClose: real, close: real): real
    requires firstClose != 0.0
  {
    capital * (close / firstClose)
  }

  function PointAt(s: Settings, days: seq<Day>, i: nat): Point
    requires s.Valid() && i < |days| && days[0].close != 0.0
  {
    Point(days[i].date, Equity(s, days, i), BuyAndHold(s.capital, days[0].close, days[i].close),
          if Run(s, days, i + 1).shares > 0.0 then 1.0 else 0.0)
  }

  function Curve(s: Settings, days: seq<Day>): (r: seq<Point>)
    requires s.Valid() && (days != [] ==> days[0].close != 0.0)
    ensures |r| == |days|
  {
    seq(|days|, i requires 0 <= i < |days| => PointAt(s, days, i))
  }

  function Equities(points: seq<Point>): (r: seq<real>)
    ensures |r| == |points|
  {
    seq(|points|, i requires 0 <= i < |points| => points[i].equity)
  }

  // ---------- drawdown ----------

  /** The running peak after n equity values, the starting capital being the first peak. */
  function Peak(capital: real, equity: seq<real>, n: nat): real
    requires n <= |equity|
  {
    if n == 0 then capital else Max(Peak(capital, equity, n - 1), equity[n - 1])
  }

  function DrawdownPct(peak: real, equity: real): real {
    if peak == 0.0 then 0.0 else (equity / peak - 1.0) * 100.0
  }

  function MaxDrawdown(capital: real, equity: seq<real>, n: nat): real
    requires n <= |equity|
  {
    if n == 0 then 0.0
    else Min(MaxDrawdown(capital, equity, n - 1), DrawdownPct(Peak(capital, equity, n), equity[n - 1]))
  }

  // ---------- the summary ----------

  function Returns(trades: seq<Trade>): (r: seq<real>)
    ensures |r| == |trades|
  {
    seq(|trades|, i requires 0 <= i < |trades| => trades[i].returnPct)
  }

  function Wins(pcts: seq<real>): (n: nat)
    ensures n <= |pcts|
  {
    if pcts == [] then 0
    else Wins(pcts[..|pcts| - 1]) + (if pcts[|pcts| - 1] > 0.0 then 1 else 0)
  }

  datatype Summary = Summary(totalReturnPct: real, grossReturnPct: real, costDragPct: real, buyHoldReturnPct: real,
                             maxDrawdownPct: real, winRate: real, numTrades: nat, avgReturnPct: real,
                             totalFeesPaid: real)

  function Summarised(days: seq<Day>, points: seq<Point>, trades: seq<Trade>, cash: real, grossCash: real,
                      capital: real, fees: real): Summary
    requires days != [] && days[0].close != 0.0 && capital != 0.0
  {
    var total, gross := (cash / capital - 1.0) * 100.0, (grossCash / capital - 1.0) * 100.0;
    var pcts, n, equity := Returns(trades), |trades| as real, Equities(points);
    Summary(total, gross, gross - total, (days[|days| - 1].close / days[0].close - 1.0) * 100.0,
            -MaxDrawdown(capital, equity, |equity|),
            if trades != [] then Wins(pcts) as real / n * 100.0 else 0.0, |trades|,
            if trades != [] then Sum(pcts) / n else 0.0, fees)
  }

  /** The summary of a whole run. */
  function SummaryOf(s: Settings, days: seq<Day>): Summary
    requires s.Valid() && days != [] && days[0].close != 0.0
  {
    var b := Final(s, days);
    Summarised(days, Curve(s, days), b.trades, b.cash, b.grossCash, s.capital, b.fees)
  }

  /** The second drawdown loop, over the finished curve; it also averages and counts the trades. */
  method BuildSummary(days: seq<Day>, points: seq<Point>, trades: seq<Trade>, cash: real, grossCash: real,
                      initialCapital: real, totalFeesPaid: real)
    returns (r: Summary)
    requires days != [] && days[0].close != 0.0 && initialCapital != 0.0
    ensures r == Summarised(days, points, trades, cash, grossCash, initialCapital, totalFeesPaid)
  {
    var totalReturn := (cash / initialCapital - 1.0) * 100.0;
    var grossReturn := (grossCash / initialCapital - 1.0) * 100.0;
    var sum, wins := 0.0, 0;
    ghost var pcts := Returns(trades);
    for n := 0 to |trades|
      invariant sum == Sum(pcts[..n]) && wins == Wins(pcts[..n])
    {
      assert pcts[..n + 1][..n] == pcts[..n];
      sum := sum + trades[n].returnPct;
      wins := wins + if trades[n].returnPct > 0.0 then 1 else 0;
    }
    assert pcts[..|trades|] == pcts;
    var peak, maxDrawdown := initialCapital, 0.0;
    ghost var equity := Equities(points);
    for n := 0 to |points|
      invariant peak == Peak(initialCapital, equity, n)
      invariant maxDrawdown == MaxDrawdown(initialCapital, equity, n) <= 0.0
    {
      peak := Max(peak, points[n].equity);
      maxDrawdown := Min(maxDrawdown, DrawdownPct(peak, points[n].equity));
    }
    r := Summary(totalReturn, grossReturn, grossReturn - totalReturn,
                 (days[|days| - 1].close / days[0].close - 1.0) * 100.0,
                 if maxDrawdown < 0.0 then -maxDrawdown else maxDrawdown,
                 if |trades| > 0 then wins as real / |trades| as real * 100.0 else 0.0, |trades|,
                 if |trades| > 0 then sum / |trades| as real else 0.0, totalFeesPaid);
  }

  // ---------- the route ----------

  datatype BacktestError = NoData | ZeroFirstClose | Rule(error: RuleError)

  datatype Report = Report(summary: Summary, curve: seq<Point>, trades: seq<Trade>, currentMatches: seq<Match>)

  /** A ticker's stored rows: dates and closes beside the columns the rules read. */
  datatype History = History(dates: seq<int>, closes: seq<real>, frame: Frame) {
    predicate Valid() { |dates| == |closes| == frame.rows }
  }

  /** The bars of a history together with the signals of both stacks. */
  function DaysOf(h: History, enter: seq<bool>, leave: seq<bool>): (days: seq<Day>)
    requires h.Valid() && |enter| == |leave| == h.frame.rows
    ensures |days| == h.frame.rows
  {
    seq(|h.dates|, i requires 0 <= i < |h.dates| => Day(h.dates[i], h.closes[i], enter[i], leave[i]))
  }

  function SignalDays(h: History, d: Definition): Result<seq<Day>, RuleError>
    requires h.Valid()
  {
    match EntrySignal(h.frame, d)
    case Err(e) => Err(e)
    case Ok(enter) =>
      match ExitSignal(h.frame, d)
      case Err(e) => Err(e)
      case Ok(leave) => Ok(DaysOf(h, enter, leave))
  }

  /** matches[:25] */
  function FirstMatches(matches: seq<Match>): seq<Match> { if |matches| <= 25 then matches else matches[..25] }

  /** The route: a ticker's history is backtested, and the screen frame is searched for today's matches. */
  function Backtested(h: History, groups: seq<Group>, d: Definition): Result<Report, BacktestError>
    requires h.Valid()
  {
    if h.frame.rows == 0 then Err(NoData)
    else
      match SignalDays(h, d)
      case Err(e) => Err(Rule(e))
      case Ok(days) =>
        if days[0].close == 0.0 then Err(ZeroFirstClose)
        else
          match Candidates(groups, d)
          case Err(e) => Err(Rule(e))
          case Ok(found) =>
            var s := SettingsOf(d);
            Ok(Report(SummaryOf(s, days), Curve(s, days), Final(s, days).trades, FirstMatches(Ranking(found))))
  }

  method RunStrategyBacktest(h: History, groups: seq<Group>, d: Definition) returns (r: Result<Report, BacktestError>)
    requires h.Valid()
    ensures r == Backtested(h, groups, d)
  {
    if h.frame.rows == 0 {
      return Err(NoData);
    }
    var entrySignal := CombineRuleStack(h.frame, d.entry, d.entryFilters, d.entryOperator);
    if entrySignal.Err? {
      return Err(Rule(entrySignal.error));
    }
    var exitSignal := CombineRuleStack(h.frame, d.exit, d.exitFilters, d.exitOperator);
    if exitSignal.Err? {
      return Err(Rule(exitSignal.error));
    }
    var days := DaysOf(h, entrySignal.value, exitSignal.value);
    var firstClose := days[0].close;
    if firstClose == 0.0 {
      return Err(ZeroFirstClose);
    }
    var s := SettingsOf(d);
    var points, trades, cash, grossCash, fees := RunLoop(s, days);
    var summary := BuildSummary(days, points, trades, cash, grossCash, s.capital, fees);
    var screenMatches := EvaluateStrategyMatches(groups, d);
    if screenMatches.Err? {
      return Err(Rule(screenMatches.error));
    }
    return Ok(Report(summary, points, trades, FirstMatches(screenMatches.value)));
  }

  /** The bar loop and the final liquidation, one variable per ledger column. */
  method RunLoop(s: Settings, days: seq<Day>)
    returns (points: seq<Point>, trades: seq<Trade>, cash: real, grossCash: real, fees: real)
    requires s.Valid() && days != [] && days[0].close != 0.0
    ensures points == Curve(s, days)
    ensures var b := Final(s, days);
            trades == b.trades && cash == b.cash && grossCash == b.grossCash && fees == b.fees
  {
    hide Affordable, Deployable, Worth, Fee, Gain, ReturnPct, StopPrice, BuyAndHold, DrawdownPct;
    cash, grossCash, fees, points, trades := s.capital, s.capital, 0.0, [], [];
    var shares, grossShares, entryPrice := 0.0, 0.0, 0.0;
    var entryDate: Option<int> := None;
    var peakEquity, maxDrawdown := s.capital, 0.0;
    for idx := 0 to |days|
      invariant Book(cash, grossCash, shares, grossShares, entryPrice, entryDate, fees, trades) == Run(s, days, idx)
      invariant points == Curve(s, days)[..idx]
      invariant peakEquity == Peak(s.capital, Equities(points), idx)
      invariant maxDrawdown == MaxDrawdown(s.capital, Equities(points), idx)
    {
      var close, date, shouldExit := days[idx].close, days[idx].date, days[idx].leave;
      if shares > 0.0 && s.stop.Some? {
        var stopPrice := StopPrice(entryPrice, s.stop.value);
        shouldExit := shouldExit || close <= stopPrice;
      }
      ghost var b := Run(s, days, idx);
      assert shares > 0.0 ==> (shouldExit <==> days[idx].leave || StopReached(s.stop, b.entryPrice, close));
      if shares == 0.0 && days[idx].enter {
        var deployable, grossDeployable := Deployable(cash, s.size), Deployable(grossCash, s.size);
        shares := Affordable(deployable, close, s.cost);
        grossShares := Affordable(grossDeployable, close, 0.0);
        var entryCost := Fee(Worth(shares, close), s.cost);
        cash := cash - (Worth(shares, close) + entryCost);
        grossCash := grossCash - Worth(grossShares, close);
        fees := fees + entryCost;
        entryPrice := close;
        entryDate := Some(date);
        assert Book(cash, grossCash, shares, grossShares, entryPrice, entryDate, fees, trades) == Buy(s, b, days[idx]);
      } else if shares > 0.0 && shouldExit {
        var exitValue, grossExitValue := Worth(shares, close), Worth(grossShares, close);
        var exitCost := Fee(exitValue, s.cost);
        trades := trades + [Trade(if entryDate.Some? then entryDate.value else date, entryPrice, date, close,
                                  ReturnPct(entryPrice, close), Gain(entryPrice, close, shares))];
        cash := cash + (exitValue - exitCost);
        grossCash := grossCash + grossExitValue;
        fees := fees + exitCost;
        shares, grossShares, entryPrice, entryDate := 0.0, 0.0, 0.0, None;
        assert Book(cash, grossCash, shares, grossShares, entryPrice, entryDate, fees, trades) == Sell(s, b, days[idx]);
      }
      ghost var book := Book(cash, grossCash, shares, grossShares, entryPrice, entryDate, fees, trades);
      assert book == Run(s, days, idx + 1);
      var equity := cash + Worth(shares, close);
      assert equity == Equity(s, days, idx);
      peakEquity := Max(peakEquity, equity);
      maxDrawdown := Min(maxDrawdown, DrawdownPct(peakEquity, equity));
      var before := points;
      points := points + [Point(date, equity, BuyAndHold(s.capital, days[0].close, close),
                                if shares > 0.0 then 1.0 else 0.0)];
      assert points[idx] == PointAt(s, days, idx);
      DrawdownOfPrefix(s.capital, Equities(before), Equities(points), idx);
    }
    ghost var last := Run(s, days, |days|);
    assert points == Curve(s, days);
    if shares > 0.0 {
      assert Final(s, days) == Sell(s, last, days[|days| - 1]);
      var close := days[|days| - 1].close;
      var exitValue, grossExitValue := Worth(shares, close), Worth(grossShares, close);
      var exitCost := Fee(exitValue, s.cost);
      trades := trades + [Trade(if entryDate.Some? then entryDate.value else days[|days| - 1].date, entryPrice,
                                days[|days| - 1].date, close,
                                ReturnPct(entryPrice, close), Gain(entryPrice, close, shares))];
      cash := cash + (exitValue - exitCost);
      grossCash := grossCash + grossExitValue;
      fees := fees + exitCost;
    }
  }

  lemma {:induction false} DrawdownOfPrefix(capital: real, a: seq<real>, b: seq<real>, n: nat)
    requires n <= |a| && n <= |b| && a[..n] == b[..n]
    ensures Peak(capital, a, n) == Peak(capital, b, n) && MaxDrawdown(capital, a, n) == MaxDrawdown(capital, b, n)
  {
    if n > 0 {
      assert a[..n - 1] == a[..n][..n - 1] && a[n - 1] == a[..n][n - 1] && b[n - 1] == b[..n][n - 1];
      DrawdownOfPrefix(capital, a, b, n - 1);
    }
  }
}
