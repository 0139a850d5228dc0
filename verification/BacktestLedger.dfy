/** Conservation and closed forms of the backtest ledgers. */
module BacktestLedger {
  import opened Values
  import opened Backtest

  ghost predicate PositiveCloses(days: seq<Day>) { forall i :: 0 <= i < |days| ==> days[i].close > 0.0 }

  ghost predicate NonNegativeCloses(days: seq<Day>) { forall i :: 0 <= i < |days| ==> days[i].close >= 0.0 }

  // ---------- conservation ----------

  function TotalPnl(trades: seq<Trade>): real {
    if trades == [] then 0.0 else TotalPnl(trades[..|trades| - 1]) + trades[|trades| - 1].pnl
  }

  /** The right-hand side of the accounting identity: capital plus realised gains less fees. */
  function Accounted(s: Settings, b: Book): real { s.capital + TotalPnl(b.trades) - b.fees }

  lemma SellAccounts(s: Settings, b: Book, d: Day)
    requires b.cash + Worth(b.shares, b.entryPrice) == Accounted(s, b)
    ensures Sell(s, b, d).cash == Accounted(s, Sell(s, b, d))
  {
    var sold := Sell(s, b, d);
    assert sold.trades[..|sold.trades| - 1] == b.trades;
    assert Gain(b.entryPrice, d.close, b.shares) == Worth(b.shares, d.close) - Worth(b.shares, b.entryPrice);
  }

  lemma BuyAccounts(s: Settings, b: Book, d: Day)
    requires s.Valid() && b.shares == 0.0 && b.cash == Accounted(s, b)
    ensures var next := Buy(s, b, d); next.cash + Worth(next.shares, next.entryPrice) == Accounted(s, next)
  {
    hide Affordable, Worth, Fee, Deployable;
  }

  lemma {:induction false} LedgerBalances(s: Settings, days: seq<Day>, n: nat)
    requires s.Valid() && n <= |days|
    ensures var b := Run(s, days, n);
            b.cash + Worth(b.shares, b.entryPrice) == Accounted(s, b)
  {
    if n > 0 {
      LedgerBalances(s, days, n - 1);
      var b, d := Run(s, days, n - 1), days[n - 1];
      if b.shares == 0.0 && d.enter {
        assert Worth(b.shares, b.entryPrice) == 0.0;
        BuyAccounts(s, b, d);
      } else if b.shares > 0.0 && (d.leave || StopReached(s.stop, b.entryPrice, d.close)) {
        SellAccounts(s, b, d);
        assert Worth(0.0, 0.0) == 0.0;
      }
    }
  }

  /** After every bar, for every cost rate and all closes: cash plus the position at its entry price is the
      capital plus the pnl of the closed trades minus the fees paid so far. */
  lemma AccountingIdentity(s: Settings, days: seq<Day>, n: nat)
    requires s.Valid() && n <= |days|
    ensures var b := Run(s, days, n);
            b.cash + b.shares * b.entryPrice == s.capital + TotalPnl(b.trades) - b.fees
  {
    LedgerBalances(s, days, n);
    hide Run;
  }

  ghost predicate Settled(s: Settings, days: seq<Day>)
    requires s.Valid()
  {
    Final(s, days).cash == Accounted(s, Final(s, days))
  }

  /** The reported totals balance exactly unless the run ends short, because a negative position is never
      liquidated. */
  lemma SettledUnlessShort(s: Settings, days: seq<Day>)
    requires s.Valid()
    ensures Settled(s, days) <==> Run(s, days, |days|).shares >= 0.0
  {
    LedgerBalances(s, days, |days|);
    var b := Run(s, days, |days|);
    if days != [] && b.shares > 0.0 {
      SellAccounts(s, b, days[|days| - 1]);
    } else if b.shares == 0.0 {
      assert Worth(b.shares, b.entryPrice) == 0.0;
    } else {
      ShortOnlyAtPositivePrice(s, days, |days|);
      assert Worth(b.shares, b.entryPrice) < 0.0;
    }
  }

  lemma {:induction false} ShortOnlyAtPositivePrice(s: Settings, days: seq<Day>, n: nat)
    requires s.Valid() && n <= |days|
    ensures Run(s, days, n).shares != 0.0 ==> Run(s, days, n).entryPrice > 0.0
  {
    hide Worth, Fee, Deployable;
    if n > 0 {
      ShortOnlyAtPositivePrice(s, days, n - 1);
    }
  }

  lemma AffordableSign(cash: real, size: real, close: real, cost: real)
    requires cash >= 0.0 && size > 0.0 && cost >= 0.0
    ensures Affordable(Deployable(cash, size), close, cost) >= 0.0
  {
    if close > 0.0 {
      var x, y := Deployable(cash, size), close * (1.0 + cost);
      assert x >= 0.0 && y > 0.0;
      assert x / y >= 0.0;
    }
  }

  /** The part of a ledger that stays in cash when the rest is staked. */
  function Idle(cash: real, size: real): real { cash * (1.0 - size) }

  lemma BuyKeepsCash(cash: real, size: real, close: real, cost: real)
    requires close > 0.0 && cost >= 0.0
    ensures var w := Worth(Affordable(Deployable(cash, size), close, cost), close);
            cash - (w + Fee(w, cost)) == Idle(cash, size)
  {
    var x, y := Deployable(cash, size), close * (1.0 + cost);
    var shares := x / y;
    assert shares * y == x;
    assert shares * close + shares * close * cost == shares * y;
  }

  lemma BuyKeepsSign(s: Settings, b: Book, d: Day)
    requires s.Valid() && b.cash >= 0.0 && d.close >= 0.0
    ensures Buy(s, b, d).cash >= 0.0 && Buy(s, b, d).shares >= 0.0
  {
    AffordableSign(b.cash, s.size, d.close, s.cost);
    if d.close > 0.0 {
      BuyKeepsCash(b.cash, s.size, d.close, s.cost);
      var kept := Idle(b.cash, s.size);
      assert kept >= 0.0;
      hide Affordable, Worth, Fee, Deployable;
      assert Buy(s, b, d).cash == kept;
    }
  }

  lemma SellKeepsSign(s: Settings, b: Book, d: Day)
    requires s.Valid() && s.cost <= 1.0 && b.cash >= 0.0 && b.shares >= 0.0 && d.close >= 0.0
    ensures Sell(s, b, d).cash >= 0.0 && Sell(s, b, d).shares == 0.0
  {
    var w := Worth(b.shares, d.close);
    assert w >= 0.0;
    assert w - Fee(w, s.cost) == w * (1.0 - s.cost);
    assert w * (1.0 - s.cost) >= 0.0;
  }

  /** With cost at most 1 neither the cash nor the position can turn negative. */
  lemma {:induction false} NeverShort(s: Settings, days: seq<Day>, n: nat)
    requires s.Valid() && s.cost <= 1.0 && n <= |days| && NonNegativeCloses(days)
    ensures Run(s, days, n).cash >= 0.0 && Run(s, days, n).shares >= 0.0
  {
    if n > 0 {
      NeverShort(s, days, n - 1);
      var b, d := Run(s, days, n - 1), days[n - 1];
      BuyKeepsSign(s, b, d);
      SellKeepsSign(s, b, d);
      hide Buy, Sell, StopReached;
    }
  }

  /** Three bars that leave any run with cost above 1 short: buy at 1, sell so high that the exit fee
      exceeds the cash, buy again. */
  function RuinousDays(s: Settings): seq<Day>
    requires s.Valid() && s.cost > 1.0
  {
    [Day(0, 1.0, true, false), Day(1, 2.0 * (1.0 + s.cost) / s.size / (s.cost - 1.0), false, true),
     Day(2, 1.0, true, false)]
  }

  lemma RuinousPrice(s: Settings)
    requires s.Valid() && s.cost > 1.0
    ensures var p := RuinousDays(s)[1].close;
            p > 0.0 && s.size * p * (s.cost - 1.0) == 2.0 * (1.0 + s.cost)
  {
    var x, k := 2.0 * (1.0 + s.cost), s.cost - 1.0;
    var y := x / s.size;
    assert y * s.size == x;
    PositiveQuotient(x, s.size);
    var p := y / k;
    assert p * k == y;
    PositiveQuotient(y, k);
    assert s.size * p * k == s.size * (p * k);
  }

  /** The exit at the ruinous price takes the whole capital and leaves the ledger in debt. */
  lemma RuinousExit(s: Settings, shares: real)
    requires s.Valid() && s.cost > 1.0 && shares * (1.0 + s.cost) == Deployable(s.capital, s.size)
    ensures var w := Worth(shares, RuinousDays(s)[1].close); w - Fee(w, s.cost) == -(2.0 * s.capital)
  {
    RuinousPrice(s);
    var p, stake := RuinousDays(s)[1].close, Deployable(s.capital, s.size);
    hide RuinousDays;
    var w := Worth(shares, p);
    var lost := w * (s.cost - 1.0);
    assert w - Fee(w, s.cost) == -lost;
    assert lost * s.size == shares * (s.size * p * (s.cost - 1.0));
    assert lost * s.size == 2.0 * stake;
    assert stake == s.capital * s.size;
  }

  lemma RuinousRun(s: Settings)
    requires s.Valid() && s.cost > 1.0
    ensures NonNegativeCloses(RuinousDays(s)) && !Settled(s, RuinousDays(s))
  {
    var days := RuinousDays(s);
    RuinousPrice(s);
    var stake := Deployable(s.capital, s.size);
    PositiveProduct(s.capital, s.size);
    var shares := stake / (1.0 + s.cost);
    assert shares * (1.0 + s.cost) == stake;
    PositiveQuotient(stake, 1.0 + s.cost);
    assert Affordable(stake, 1.0, s.cost) == shares;
    BuyKeepsCash(s.capital, s.size, 1.0, s.cost);
    RuinousExit(s, shares);
    ShortAfter(s, days, shares);
    SettledUnlessShort(s, days);
  }

  lemma ShortAfter(s: Settings, days: seq<Day>, shares: real)
    requires s.Valid() && s.cost > 1.0 && days == RuinousDays(s) && shares > 0.0
    requires shares == Affordable(Deployable(s.capital, s.size), 1.0, s.cost)
    requires var w := Worth(shares, 1.0); s.capital - (w + Fee(w, s.cost)) == Idle(s.capital, s.size)
    requires var w := Worth(shares, days[1].close); w - Fee(w, s.cost) == -(2.0 * s.capital)
    ensures Run(s, days, 3).shares < 0.0
  {
    hide Worth, Fee, Gain, ReturnPct, StopReached;
    assert Run(s, days, 0) == Opening(s);
    var bought := Run(s, days, 1);
    assert bought == Buy(s, Opening(s), days[0]) && bought.shares == shares;
    var sold := Run(s, days, 2);
    assert sold == Sell(s, bought, days[1]);
    IdleAtMost(s.capital, s.size);
    assert sold.cash < 0.0 && sold.shares == 0.0;
    var short := Run(s, days, 3);
    assert short == Buy(s, sold, days[2]);
    NegativeStake(sold.cash, s.size, s.cost);
  }

  lemma IdleAtMost(capital: real, size: real)
    requires capital > 0.0 && size > 0.0
    ensures Idle(capital, size) <= capital
  {
    PositiveProduct(capital, size);
  }

  lemma NegativeStake(cash: real, size: real, cost: real)
    requires cash < 0.0 && size > 0.0 && cost >= 0.0
    ensures Affordable(Deployable(cash, size), 1.0, cost) < 0.0
  {
    var stake := Deployable(cash, size);
    assert stake < 0.0;
    var shares := stake / (1.0 + cost);
    assert shares * (1.0 + cost) == stake;
  }

  /** The identity that users can check against the report -- cash equals capital plus pnl minus fees --
      holds for all runs on nonnegative closes exactly when the total cost rate is at most 1; the request
      model accepts rates up to 2. */
  lemma SettledExactlyUpToFullCost(cost: real)
    requires cost >= 0.0
    ensures cost <= 1.0 <==>
            forall s: Settings, days :: s.Valid() && s.cost == cost && NonNegativeCloses(days) ==> Settled(s, days)
  {
    if cost <= 1.0 {
      forall s: Settings, days | s.Valid() && s.cost == cost && NonNegativeCloses(days) ensures Settled(s, days) {
        NeverShort(s, days, |days|);
        ShortOnlyAtPositivePrice(s, days, |days|);
        SettledUnlessShort(s, days);
      }
    } else {
      var s := Settings(1.0, 1.0, None, cost);
      RuinousRun(s);
      assert !Settled(s, RuinousDays(s));
    }
  }

  // ---------- positions, from prices and signals alone ----------

  datatype Span = Span(entry: nat, exit: nat)

  datatype Positions = Positions(closed: seq<Span>, open: Option<nat>)

  predicate ExitDue(stop: Option<real>, days: seq<Day>, e: nat, j: nat)
    requires e < |days| && j < |days|
  {
    days[j].leave || StopReached(stop, days[e].close, days[j].close)
  }

  predicate Within(p: Positions, n: nat) {
    && (forall k :: 0 <= k < |p.closed| ==> p.closed[k].entry < p.closed[k].exit < n)
    && (p.open.Some? ==> p.open.value < n)
  }

  /** The round trips completed in the first n bars and the bar of the position still open. */
  function PositionsAfter(stop: Option<real>, days: seq<Day>, n: nat): (p: Positions)
    requires n <= |days|
    ensures Within(p, n)
  {
    if n == 0 then Positions([], None)
    else
      var p := PositionsAfter(stop, days, n - 1);
      if p.open.None? && days[n - 1].enter then Positions(p.closed, Some(n - 1))
      else if p.open.Some? && ExitDue(stop, days, p.open.value, n - 1) then
        Positions(p.closed + [Span(p.open.value, n - 1)], None)
      else p
  }

  /** All round trips of a finished run, the last one closed by the liquidation when still open. */
  function RoundTrips(stop: Option<real>, days: seq<Day>): (r: seq<Span>)
    ensures forall k :: 0 <= k < |r| ==> r[k].entry <= r[k].exit < |days|
  {
    var p := PositionsAfter(stop, days, |days|);
    if p.open.Some? then p.closed + [Span(p.open.value, |days| - 1)] else p.closed
  }

  // ---------- closed form ----------

  /** What one round trip does to the capital: the idle part is kept, the staked part moves with the price
      and pays the cost on both sides. */
  function Factor(size: real, cost: real, ratio: real): real
    requires cost >= 0.0
  {
    1.0 - size + size * ratio * ((1.0 - cost) / (1.0 + cost))
  }

  ghost predicate InRange(days: seq<Day>, spans: seq<Span>) {
    PositiveCloses(days) && forall k :: 0 <= k < |spans| ==> spans[k].entry < |days| && spans[k].exit < |days|
  }

  ghost function PriceRatio(days: seq<Day>, t: Span): real
    requires PositiveCloses(days) && t.entry < |days| && t.exit < |days|
  {
    days[t.exit].close / days[t.entry].close
  }

  ghost function Growth(size: real, cost: real, days: seq<Day>, spans: seq<Span>): real
    requires cost >= 0.0 && InRange(days, spans)
  {
    if spans == [] then 1.0
    else Growth(size, cost, days, spans[..|spans| - 1]) * Factor(size, cost, PriceRatio(days, spans[|spans| - 1]))
  }

  /** The ledger's capital when the given round trips are behind it. */
  ghost function Capital(s: Settings, cost: real, days: seq<Day>, spans: seq<Span>): real
    requires cost >= 0.0 && InRange(days, spans)
  {
    s.capital * Growth(s.size, cost, days, spans)
  }

  ghost function Stake(s: Settings, cost: real, days: seq<Day>, spans: seq<Span>, e: nat): real
    requires cost >= 0.0 && InRange(days, spans) && e < |days|
  {
    Affordable(Deployable(Capital(s, cost, days, spans), s.size), days[e].close, cost)
  }

  /** A reported trade is its round trip: dates, prices, return and pnl on the shares then affordable. */
  ghost predicate Reports(s: Settings, days: seq<Day>, spans: seq<Span>, k: nat, t: Trade)
    requires s.Valid() && InRange(days, spans) && k < |spans|
  {
    var e, x := spans[k].entry, spans[k].exit;
    t == Trade(days[e].date, days[e].close, days[x].date, days[x].close,
               ReturnPct(days[e].close, days[x].close),
               Gain(days[e].close, days[x].close, Stake(s, s.cost, days, spans[..k], e)))
  }

  ghost predicate ReportsAll(s: Settings, days: seq<Day>, spans: seq<Span>, trades: seq<Trade>)
    requires s.Valid() && InRange(days, spans)
  {
    |trades| == |spans| && forall k :: 0 <= k < |spans| ==> Reports(s, days, spans, k, trades[k])
  }

  ghost predicate ClosedForm(s: Settings, days: seq<Day>, n: nat, b: Book)
    requires s.Valid() && n <= |days| && PositiveCloses(days)
  {
    var p := PositionsAfter(s.stop, days, n);
    var net, gross := Capital(s, s.cost, days, p.closed), Capital(s, 0.0, days, p.closed);
    && ReportsAll(s, days, p.closed, b.trades)
    && (p.open.None? ==>
          b.shares == 0.0 && b.grossShares == 0.0 && b.cash == net && b.grossCash == gross)
    && (p.open.Some? ==>
          var e := p.open.value;
          && b.entryPrice == days[e].close && b.entryDate == Some(days[e].date)
          && b.shares == Stake(s, s.cost, days, p.closed, e) && b.grossShares == Stake(s, 0.0, days, p.closed, e)
          && b.cash == Idle(net, s.size) && b.grossCash == Idle(gross, s.size))
  }

  lemma FactorPositive(size: real, cost: real, ratio: real)
    requires 0.0 <= cost < 1.0 && 0.0 < size <= 1.0 && ratio > 0.0
    ensures Factor(size, cost, ratio) > 0.0
  {
    var k := (1.0 - cost) / (1.0 + cost);
    assert k > 0.0 by { PositiveQuotient(1.0 - cost, 1.0 + cost); }
    PositiveProduct(size, ratio);
    PositiveProduct(size * ratio, k);
  }

  lemma RatioPositive(days: seq<Day>, t: Span)
    requires PositiveCloses(days) && t.entry < |days| && t.exit < |days|
    ensures PriceRatio(days, t) > 0.0
  {
    PositiveQuotient(days[t.exit].close, days[t.entry].close);
  }

  /** Every round trip leaves some capital: what its exit fee takes does not exceed what was kept idle. */
  ghost predicate PaysAt(size: real, cost: real, days: seq<Day>, spans: seq<Span>)
    requires cost >= 0.0
  {
    InRange(days, spans) &&
    forall k :: 0 <= k < |spans| ==> Factor(size, cost, PriceRatio(days, spans[k])) > 0.0
  }

  /** A cost rate below 1 always leaves some. */
  lemma BelowFullCostPays(size: real, cost: real, days: seq<Day>, spans: seq<Span>)
    requires 0.0 <= cost < 1.0 && 0.0 < size <= 1.0 && InRange(days, spans)
    ensures PaysAt(size, cost, days, spans)
  {
    hide Factor, PriceRatio;
    forall k | 0 <= k < |spans| ensures Factor(size, cost, PriceRatio(days, spans[k])) > 0.0 {
      RatioPositive(days, spans[k]);
      FactorPositive(size, cost, PriceRatio(days, spans[k]));
    }
  }

  lemma {:induction false} GrowthPositive(size: real, cost: real, days: seq<Day>, spans: seq<Span>)
    requires cost >= 0.0 && PaysAt(size, cost, days, spans)
    ensures Growth(size, cost, days, spans) > 0.0
  {
    hide Factor, PriceRatio;
    if spans != [] {
      var front, last := spans[..|spans| - 1], spans[|spans| - 1];
      GrowthPositive(size, cost, days, front);
      PositiveProduct(Growth(size, cost, days, front), Factor(size, cost, PriceRatio(days, last)));
    }
  }

  lemma PositiveProduct(x: real, y: real)
    requires x > 0.0 && y > 0.0
    ensures x * y > 0.0
  {}

  lemma PositiveQuotient(x: real, y: real)
    requires x > 0.0 && y > 0.0
    ensures x / y > 0.0
  {
    assert (x / y) * y == x;
  }

  lemma CapitalPositive(s: Settings, cost: real, days: seq<Day>, spans: seq<Span>)
    requires s.Valid() && cost >= 0.0 && PaysAt(s.size, cost, days, spans)
    ensures Capital(s, cost, days, spans) > 0.0
  {
    GrowthPositive(s.size, cost, days, spans);
    PositiveProduct(s.capital, Growth(s.size, cost, days, spans));
  }

  lemma StakePositive(s: Settings, cost: real, days: seq<Day>, spans: seq<Span>, e: nat)
    requires s.Valid() && cost >= 0.0 && PaysAt(s.size, cost, days, spans) && e < |days|
    ensures Stake(s, cost, days, spans, e) > 0.0
  {
    CapitalPositive(s, cost, days, spans);
    PositiveProduct(Capital(s, cost, days, spans), s.size);
    var close := days[e].close;
    assert close > 0.0;
    PositiveProduct(close, 1.0 + cost);
    PositiveQuotient(Deployable(Capital(s, cost, days, spans), s.size), close * (1.0 + cost));
  }

  /** Selling the stake at px turns capital * (1 - size) into capital * Factor. */
  lemma SellCompounds(capital: real, size: real, pe: real, px: real, cost: real)
    requires pe > 0.0 && cost >= 0.0
    ensures var w := Worth(Affordable(Deployable(capital, size), pe, cost), px);
            Idle(capital, size) + (w - Fee(w, cost)) == capital * Factor(size, cost, px / pe)
  {
    var y := pe * (1.0 + cost);
    PositiveProduct(pe, 1.0 + cost);
    var stake := Deployable(capital, size);
    var shares := stake / y;
    assert shares * y == stake;
    var ratio, k := px / pe, (1.0 - cost) / (1.0 + cost);
    assert px == ratio * pe && 1.0 - cost == k * (1.0 + cost);
    var w := shares * px;
    assert w * (1.0 - cost) == (shares * y) * (ratio * k) by {
      assert w == shares * ratio * pe;
      assert w * (1.0 - cost) == shares * ratio * pe * (k * (1.0 + cost));
    }
    assert w - Fee(w, cost) == w * (1.0 - cost);
    assert stake * (ratio * k) == capital * (size * ratio * k);
  }

  lemma AppendedSpan(s: Settings, cost: real, days: seq<Day>, spans: seq<Span>, t: Span)
    requires cost >= 0.0 && InRange(days, spans) && t.entry < |days| && t.exit < |days|
    ensures InRange(days, spans + [t])
    ensures Capital(s, cost, days, spans + [t]) ==
            Capital(s, cost, days, spans) * Factor(s.size, cost, PriceRatio(days, t))
  {
    hide Factor, PriceRatio;
    var g, x := Growth(s.size, cost, days, spans), Factor(s.size, cost, PriceRatio(days, t));
    assert (spans + [t])[..|spans|] == spans;
    assert Growth(s.size, cost, days, spans + [t]) == g * x;
    assert s.capital * (g * x) == s.capital * g * x;
  }

  /** One ledger of a sale: what was idle and what the stake brings after its fee. */
  lemma SellLedger(s: Settings, cost: real, days: seq<Day>, closed: seq<Span>, t: Span)
    requires s.Valid() && cost >= 0.0 && InRange(days, closed) && t.entry < |days| && t.exit < |days|
    ensures InRange(days, closed + [t])
    ensures var w := Worth(Stake(s, cost, days, closed, t.entry), days[t.exit].close);
            Idle(Capital(s, cost, days, closed), s.size) + (w - Fee(w, cost)) == Capital(s, cost, days, closed + [t])
  {
    hide Capital, Idle, Factor, Affordable, Deployable, Worth, Fee;
    SellCompounds(Capital(s, cost, days, closed), s.size, days[t.entry].close, days[t.exit].close, cost);
    AppendedSpan(s, cost, days, closed, t);
  }

  /** The trade that a sale adds to the report. */
  lemma OneMoreReport(s: Settings, days: seq<Day>, closed: seq<Span>, t: Span, trades: seq<Trade>, trade: Trade)
    requires s.Valid() && InRange(days, closed) && t.entry < |days| && t.exit < |days|
    requires ReportsAll(s, days, closed, trades)
    requires trade == Trade(days[t.entry].date, days[t.entry].close, days[t.exit].date, days[t.exit].close,
                            ReturnPct(days[t.entry].close, days[t.exit].close),
                            Gain(days[t.entry].close, days[t.exit].close, Stake(s, s.cost, days, closed, t.entry)))
    ensures InRange(days, closed + [t]) && ReportsAll(s, days, closed + [t], trades + [trade])
  {
    hide Stake, Gain, ReturnPct;
    var spans, all := closed + [t], trades + [trade];
    forall k | 0 <= k < |spans| ensures Reports(s, days, spans, k, all[k]) {
      if k < |closed| {
        assert Reports(s, days, closed, k, trades[k]);
        assert spans[..k] == closed[..k];
      } else {
        assert spans[..k] == closed;
      }
    }
  }

  lemma NoFee(w: real)
    ensures Fee(w, 0.0) == 0.0
  {}

  lemma BuyOpens(s: Settings, days: seq<Day>, n: nat, b: Book)
    requires s.Valid() && n < |days| && PositiveCloses(days)
    requires PositionsAfter(s.stop, days, n).open.None? && days[n].enter && ClosedForm(s, days, n, b)
    ensures ClosedForm(s, days, n + 1, Buy(s, b, days[n]))
  {
    hide Capital, Idle, Affordable, Deployable, Worth, Fee, Gain, ReturnPct, Reports;
    var close := days[n].close;
    BuyKeepsCash(b.cash, s.size, close, s.cost);
    BuyKeepsCash(b.grossCash, s.size, close, 0.0);
    NoFee(Worth(Affordable(Deployable(b.grossCash, s.size), close, 0.0), close));
  }

  lemma SellCloses(s: Settings, days: seq<Day>, n: nat, b: Book)
    requires s.Valid() && n < |days| && PositiveCloses(days)
    requires var p := PositionsAfter(s.stop, days, n);
             p.open.Some? && ExitDue(s.stop, days, p.open.value, n) && ClosedForm(s, days, n, b)
    ensures ClosedForm(s, days, n + 1, Sell(s, b, days[n]))
  {
    hide Capital, Idle, Stake, Worth, Fee, Gain, ReturnPct, ReportsAll, ExitDue;
    var p := PositionsAfter(s.stop, days, n);
    var t := Span(p.open.value, n);
    SellLedger(s, s.cost, days, p.closed, t);
    SellLedger(s, 0.0, days, p.closed, t);
    NoFee(Worth(b.grossShares, days[n].close));
    OneMoreReport(s, days, p.closed, t, b.trades, TradeOf(b, days[n]));
  }

  // ---------- when the ledger can fund the schedule ----------

  /** Whenever a position was opened in the first n bars, all round trips before it had left some capital. */
  ghost predicate Funded(s: Settings, days: seq<Day>, n: nat)
    requires s.Valid() && n <= |days| && PositiveCloses(days)
  {
    var p := PositionsAfter(s.stop, days, n);
    var before := if p.open.Some? || p.closed == [] then p.closed else p.closed[..|p.closed| - 1];
    PaysAt(s.size, s.cost, days, before)
  }

  lemma PaysPrefix(size: real, cost: real, days: seq<Day>, spans: seq<Span>, n: nat)
    requires cost >= 0.0 && PaysAt(size, cost, days, spans) && n <= |spans|
    ensures PaysAt(size, cost, days, spans[..n])
  {}

  lemma FundedBefore(s: Settings, days: seq<Day>, n: nat)
    requires s.Valid() && 0 < n <= |days| && PositiveCloses(days) && Funded(s, days, n)
    ensures Funded(s, days, n - 1)
  {
    hide Factor, PriceRatio, ExitDue, PaysAt;
    var p, q := PositionsAfter(s.stop, days, n - 1), PositionsAfter(s.stop, days, n);
    if q != p {
      if p.open.None? {
        PaysPrefix(s.size, s.cost, days, p.closed, if p.closed == [] then 0 else |p.closed| - 1);
      } else {
        assert q.closed[..|q.closed| - 1] == p.closed;
      }
    }
  }

  lemma {:induction false} FundedEarlier(s: Settings, days: seq<Day>, m: nat, n: nat)
    requires s.Valid() && m <= n <= |days| && PositiveCloses(days) && Funded(s, days, n)
    ensures Funded(s, days, m)
  {
    hide Funded;
    if m < n {
      FundedBefore(s, days, n);
      FundedEarlier(s, days, m, n - 1);
    }
  }

  /** A cost rate below 1 funds every schedule. */
  lemma BelowFullCostFunds(s: Settings, days: seq<Day>, n: nat)
    requires s.Valid() && s.cost < 1.0 && n <= |days| && PositiveCloses(days)
    ensures Funded(s, days, n)
  {
    hide PaysAt, ExitDue;
    var p := PositionsAfter(s.stop, days, n);
    BelowFullCostPays(s.size, s.cost, days, p.closed);
    PaysPrefix(s.size, s.cost, days, p.closed, if p.closed == [] then 0 else |p.closed| - 1);
  }

  /** The loop in closed form, bar by bar. */
  lemma {:induction false} RunInClosedForm(s: Settings, days: seq<Day>, n: nat)
    requires s.Valid() && n <= |days| && PositiveCloses(days) && Funded(s, days, n)
    ensures ClosedForm(s, days, n, Run(s, days, n))
  {
    hide Capital, Idle, Affordable, Deployable, Worth, Fee, Gain, ReturnPct, Buy, Sell, Reports, StopReached, PaysAt;
    if n == 0 {
      ClosedFormAtStart(s, days);
    } else {
      FundedBefore(s, days, n);
      RunInClosedForm(s, days, n - 1);
      var b, p := Run(s, days, n - 1), PositionsAfter(s.stop, days, n - 1);
      if p.open.None? {
        if days[n - 1].enter {
          BuyOpens(s, days, n - 1, b);
        }
      } else {
        StakePositive(s, s.cost, days, p.closed, p.open.value);
        if ExitDue(s.stop, days, p.open.value, n - 1) {
          SellCloses(s, days, n - 1, b);
        }
      }
    }
  }

  /** The cash of one ledger behind the given positions, at the given cost rate. */
  ghost function LedgerCash(s: Settings, cost: real, days: seq<Day>, p: Positions): real
    requires cost >= 0.0 && InRange(days, p.closed)
  {
    var c := Capital(s, cost, days, p.closed);
    if p.open.Some? then Idle(c, s.size) else c
  }

  /** The shares it holds. */
  ghost function LedgerShares(s: Settings, cost: real, days: seq<Day>, p: Positions): real
    requires cost >= 0.0 && InRange(days, p.closed) && (p.open.Some? ==> p.open.value < |days|)
  {
    if p.open.Some? then Stake(s, cost, days, p.closed, p.open.value) else 0.0
  }

  /** Both ledgers at any bar, without a loop. */
  lemma LedgersInClosedForm(s: Settings, days: seq<Day>, n: nat)
    requires s.Valid() && n <= |days| && PositiveCloses(days) && Funded(s, days, n)
    ensures var b, p := Run(s, days, n), PositionsAfter(s.stop, days, n);
            && InRange(days, p.closed) && (p.open.Some? ==> p.open.value < |days|)
            && b.cash == LedgerCash(s, s.cost, days, p) && b.grossCash == LedgerCash(s, 0.0, days, p)
            && b.shares == LedgerShares(s, s.cost, days, p) && b.grossShares == LedgerShares(s, 0.0, days, p)
  {
    hide Run, Capital, Idle, Stake, ReportsAll, ExitDue, Funded;
    RunInClosedForm(s, days, n);
  }

  lemma ClosedFormAtStart(s: Settings, days: seq<Day>)
    requires s.Valid() && PositiveCloses(days)
    ensures ClosedForm(s, days, 0, Opening(s))
  {
    assert PositionsAfter(s.stop, days, 0) == Positions([], None);
  }

  /** The finished run: both ledgers are the capital times one factor per reported trade, at the run's own
      cost rate and at rate 0, and the report lists exactly the round trips. */
  lemma FinalClosedForm(s: Settings, days: seq<Day>)
    requires s.Valid() && PositiveCloses(days) && Funded(s, days, |days|)
    ensures var b, spans := Final(s, days), RoundTrips(s.stop, days);
            && b.cash == Capital(s, s.cost, days, spans)
            && b.grossCash == Capital(s, 0.0, days, spans)
            && ReportsAll(s, days, spans, b.trades)
  {
    hide Run, Capital, Idle, Stake, Worth, Fee, Gain, ReturnPct, ReportsAll, ExitDue, PaysAt;
    RunInClosedForm(s, days, |days|);
    var p, b := PositionsAfter(s.stop, days, |days|), Run(s, days, |days|);
    if p.open.Some? {
      var t, last := Span(p.open.value, |days| - 1), days[|days| - 1];
      StakePositive(s, s.cost, days, p.closed, p.open.value);
      SellLedger(s, s.cost, days, p.closed, t);
      SellLedger(s, 0.0, days, p.closed, t);
      NoFee(Worth(b.grossShares, last.close));
      OneMoreReport(s, days, p.closed, t, b.trades, TradeOf(b, last));
    }
  }

  /** Nothing is held and nothing can be bought any more, or the position is negative for good. */
  predicate Broke(b: Book) { b.shares < 0.0 || (b.shares == 0.0 && b.cash <= 0.0) }

  lemma BrokeBuy(s: Settings, b: Book, d: Day)
    requires s.Valid() && b.shares == 0.0 && b.cash <= 0.0
    ensures Broke(Buy(s, b, d)) && Buy(s, b, d).trades == b.trades
  {
    var stake := Deployable(b.cash, s.size);
    assert stake <= 0.0 && (b.cash == 0.0 ==> stake == 0.0);
    if d.close > 0.0 {
      var y := d.close * (1.0 + s.cost);
      PositiveProduct(d.close, 1.0 + s.cost);
      var shares := stake / y;
      assert shares * y == stake;
      BuyKeepsCash(b.cash, s.size, d.close, s.cost);
    }
  }

  lemma BrokeStays(s: Settings, b: Book, d: Day)
    requires s.Valid() && Broke(b)
    ensures Broke(Step(s, b, d)) && Step(s, b, d).trades == b.trades
  {
    hide Buy, Sell;
    if b.shares == 0.0 {
      BrokeBuy(s, b, d);
    }
  }

  /** Round trips begun so far. */
  function Begun(p: Positions): nat { |p.closed| + (if p.open.Some? then 1 else 0) }

  /** Funding is lost at an entry, after a round trip that took all the capital. */
  lemma UnfundedEntry(s: Settings, days: seq<Day>, n: nat)
    requires s.Valid() && 0 < n <= |days| && PositiveCloses(days) && Funded(s, days, n - 1) && !Funded(s, days, n)
    ensures var p := PositionsAfter(s.stop, days, n - 1);
            && p.open.None? && days[n - 1].enter && PositionsAfter(s.stop, days, n) == Positions(p.closed, Some(n - 1))
            && p.closed != [] && PaysAt(s.size, s.cost, days, p.closed[..|p.closed| - 1])
            && !PaysAt(s.size, s.cost, days, p.closed)
  {
    hide ExitDue, PaysAt;
    if PositionsAfter(s.stop, days, n - 1).open.Some? {
      HeldBarKeepsFunded(s, days, n);
    }
    NothingPaid(s, days);
  }

  lemma HeldBarKeepsFunded(s: Settings, days: seq<Day>, n: nat)
    requires s.Valid() && 0 < n <= |days| && PositiveCloses(days) && PositionsAfter(s.stop, days, n - 1).open.Some?
    ensures Funded(s, days, n) <==> Funded(s, days, n - 1)
  {
    hide ExitDue, PaysAt;
    var p, q := PositionsAfter(s.stop, days, n - 1), PositionsAfter(s.stop, days, n);
    if q.open.None? {
      assert q.closed[..|q.closed| - 1] == p.closed;
    }
  }

  lemma NothingPaid(s: Settings, days: seq<Day>)
    requires s.Valid() && PositiveCloses(days)
    ensures PaysAt(s.size, s.cost, days, [])
  {}

  lemma EntryWithoutCapital(s: Settings, days: seq<Day>, n: nat)
    requires s.Valid() && 0 < n <= |days| && PositiveCloses(days) && Funded(s, days, n - 1) && !Funded(s, days, n)
    ensures Broke(Run(s, days, n)) && |Run(s, days, n).trades| < Begun(PositionsAfter(s.stop, days, n))
  {
    hide Run, Buy, Sell, Reports, ExitDue, StopReached, Capital, PaysAt, Funded, Broke;
    var p, b := PositionsAfter(s.stop, days, n - 1), Run(s, days, n - 1);
    RunInClosedForm(s, days, n - 1);
    UnfundedEntry(s, days, n);
    LastTripTookAll(s, days, p.closed);
    RunStep(s, days, n);
    BrokeBuy(s, b, days[n - 1]);
  }

  lemma RunStep(s: Settings, days: seq<Day>, n: nat)
    requires s.Valid() && 0 < n <= |days|
    ensures Run(s, days, n) == Step(s, Run(s, days, n - 1), days[n - 1])
  {}

  lemma LastTripTookAll(s: Settings, days: seq<Day>, spans: seq<Span>)
    requires s.Valid() && InRange(days, spans) && !PaysAt(s.size, s.cost, days, spans)
    requires spans != [] && PaysAt(s.size, s.cost, days, spans[..|spans| - 1])
    ensures Capital(s, s.cost, days, spans) <= 0.0
  {
    var front, last := spans[..|spans| - 1], spans[|spans| - 1];
    PaysExtends(s.size, s.cost, days, front, last);
    assert front + [last] == spans;
    hide Factor, PriceRatio, PaysAt;
    GrowthPositive(s.size, s.cost, days, front);
    var g, x := Growth(s.size, s.cost, days, front), Factor(s.size, s.cost, PriceRatio(days, last));
    assert g * x <= 0.0;
    assert s.capital * (g * x) <= 0.0;
  }

  lemma PaysExtends(size: real, cost: real, days: seq<Day>, spans: seq<Span>, t: Span)
    requires cost >= 0.0 && PaysAt(size, cost, days, spans) && InRange(days, spans + [t])
    ensures t.entry < |days| && t.exit < |days|
    ensures PaysAt(size, cost, days, spans + [t]) <==> Factor(size, cost, PriceRatio(days, t)) > 0.0
  {
    hide Factor, PriceRatio;
    var all := spans + [t];
    assert all[|spans|] == t && forall k :: 0 <= k < |spans| ==> all[k] == spans[k];
  }

  lemma {:induction false} UnfundedRunStops(s: Settings, days: seq<Day>, n: nat)
    requires s.Valid() && n <= |days| && PositiveCloses(days) && !Funded(s, days, n)
    ensures Broke(Run(s, days, n)) && |Run(s, days, n).trades| < Begun(PositionsAfter(s.stop, days, n))
  {
    hide Step, Broke, Funded, ExitDue;
    NothingToFund(s, days);
    if n > 0 {
      if Funded(s, days, n - 1) {
        EntryWithoutCapital(s, days, n);
      } else {
        UnfundedRunStops(s, days, n - 1);
        BrokeStays(s, Run(s, days, n - 1), days[n - 1]);
      }
    }
  }

  lemma NothingToFund(s: Settings, days: seq<Day>)
    requires s.Valid() && PositiveCloses(days)
    ensures Funded(s, days, 0)
  {
    assert PositionsAfter(s.stop, days, 0).closed == [];
  }

  /** The report lists exactly the round trips if and only if every entry but the first was funded, that is if
      every round trip but the last left some capital. */
  lemma ReportsAllExactlyWhenFunded(s: Settings, days: seq<Day>)
    requires s.Valid() && PositiveCloses(days)
    ensures InRange(days, RoundTrips(s.stop, days))
    ensures ReportsAll(s, days, RoundTrips(s.stop, days), Final(s, days).trades) <==> Funded(s, days, |days|)
  {
    hide Run, Sell, Funded, Reports;
    if Funded(s, days, |days|) {
      FinalClosedForm(s, days);
    } else {
      UnfundedRunStops(s, days, |days|);
    }
  }
}
