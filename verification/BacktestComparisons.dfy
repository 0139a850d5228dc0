/** Laws relating two backtest runs over the same bars. */
module BacktestComparisons {
  import opened Values
  import opened Backtest
  import opened BacktestLedger

  /** Same trades: bars, prices and percentage returns; only the pnl depends on size, capital and cost. */
  predicate SameTrade(a: Trade, b: Trade) {
    a.(pnl := 0.0) == b.(pnl := 0.0)
  }

  /** As long as both runs can fund their schedule, cost, size and capital never move a trade. */
  lemma SettingsDoNotMoveTrades(s: Settings, t: Settings, days: seq<Day>)
    requires s.Valid() && t.Valid() && s.stop == t.stop && PositiveCloses(days)
    requires Funded(s, days, |days|) && Funded(t, days, |days|)
    ensures var a, b := Final(s, days).trades, Final(t, days).trades;
            |a| == |b| && forall k :: 0 <= k < |a| ==> SameTrade(a[k], b[k])
  {
    hide Capital, Stake, Gain, Final, Funded;
    FinalClosedForm(s, days);
    FinalClosedForm(t, days);
    var spans := RoundTrips(s.stop, days);
    forall k | 0 <= k < |spans| ensures SameTrade(Final(s, days).trades[k], Final(t, days).trades[k]) {
      assert Reports(s, days, spans, k, Final(s, days).trades[k]);
      assert Reports(t, days, spans, k, Final(t, days).trades[k]);
    }
  }

  // ---------- cost ----------

  lemma RetentionFalls(c: real, d: real)
    requires 0.0 <= c <= d
    ensures (1.0 - d) / (1.0 + d) <= (1.0 - c) / (1.0 + c)
  {
    var p, q, x, y := (1.0 - d) / (1.0 + d), (1.0 - c) / (1.0 + c), 1.0 + c, 1.0 + d;
    assert p * y == 1.0 - d && q * x == 1.0 - c;
    assert (q - p) * (x * y) == (q * x) * y - (p * y) * x;
    assert (1.0 - c) * y - (1.0 - d) * x == 2.0 * (d - c);
    PositiveProduct(x, y);
    NonNegativeFactor(q - p, x * y);
  }

  lemma FactorFalls(size: real, c: real, d: real, ratio: real)
    requires 0.0 <= c <= d && 0.0 < size <= 1.0 && ratio > 0.0
    ensures Factor(size, d, ratio) <= Factor(size, c, ratio)
  {
    RetentionFalls(c, d);
    PositiveProduct(size, ratio);
    var w, p, q := size * ratio, (1.0 - d) / (1.0 + d), (1.0 - c) / (1.0 + c);
    assert w * p <= w * q;
  }

  /** What pays at a cost rate pays at every lower one. */
  lemma CheaperPays(size: real, c: real, d: real, days: seq<Day>, spans: seq<Span>)
    requires 0.0 <= c <= d && 0.0 < size <= 1.0 && PaysAt(size, d, days, spans)
    ensures PaysAt(size, c, days, spans)
  {
    hide Factor, PriceRatio;
    forall k | 0 <= k < |spans| ensures Factor(size, c, PriceRatio(days, spans[k])) > 0.0 {
      RatioPositive(days, spans[k]);
      FactorFalls(size, c, d, PriceRatio(days, spans[k]));
    }
  }

  lemma {:induction false} GrowthFalls(size: real, c: real, d: real, days: seq<Day>, spans: seq<Span>)
    requires 0.0 <= c <= d && 0.0 < size <= 1.0 && PaysAt(size, d, days, spans)
    ensures 0.0 < Growth(size, d, days, spans) <= Growth(size, c, days, spans)
  {
    hide PriceRatio, Factor;
    GrowthPositive(size, d, days, spans);
    if spans != [] {
      var before, ratio := spans[..|spans| - 1], PriceRatio(days, spans[|spans| - 1]);
      GrowthFalls(size, c, d, days, before);
      RatioPositive(days, spans[|spans| - 1]);
      FactorFalls(size, c, d, ratio);
      ProductMonotone(Growth(size, d, days, before), Growth(size, c, days, before),
                      Factor(size, d, ratio), Factor(size, c, ratio));
    }
  }

  lemma CapitalFalls(s: Settings, c: real, d: real, days: seq<Day>, spans: seq<Span>)
    requires s.Valid() && 0.0 <= c <= d && PaysAt(s.size, d, days, spans)
    ensures 0.0 < Capital(s, d, days, spans) <= Capital(s, c, days, spans)
  {
    hide Growth;
    GrowthFalls(s.size, c, d, days, spans);
    CapitalPositive(s, d, days, spans);
    ProductMonotone(s.capital, s.capital, Growth(s.size, d, days, spans), Growth(s.size, c, days, spans));
  }

  lemma QuotientMonotone(a: real, b: real, x: real, y: real)
    requires 0.0 < a <= b && 0.0 < x <= y
    ensures a / y <= b / x
  {
    var p, q := a / y, b / x;
    assert p * y == a && q * x == b;
    PositiveQuotient(b, x);
    assert q * y >= q * x;
    assert (q - p) * y >= 0.0;
    NonNegativeFactor(q - p, y);
  }

  lemma AffordableFalls(x: real, y: real, size: real, close: real, c: real, d: real)
    requires 0.0 < x <= y && 0.0 < size && close > 0.0 && 0.0 <= c <= d
    ensures Affordable(Deployable(x, size), close, d) <= Affordable(Deployable(y, size), close, c)
  {
    ProductMonotone(x, y, size, size);
    PositiveProduct(x, size);
    ProductMonotone(close, close, 1.0 + c, 1.0 + d);
    PositiveProduct(close, 1.0 + c);
    QuotientMonotone(Deployable(x, size), Deployable(y, size), close * (1.0 + c), close * (1.0 + d));
  }

  lemma StakeFalls(s: Settings, c: real, d: real, days: seq<Day>, spans: seq<Span>, e: nat)
    requires s.Valid() && 0.0 <= c <= d && PaysAt(s.size, d, days, spans) && e < |days|
    ensures Stake(s, d, days, spans, e) <= Stake(s, c, days, spans, e)
  {
    hide Capital, Affordable, Deployable;
    CapitalFalls(s, c, d, days, spans);
    AffordableFalls(Capital(s, d, days, spans), Capital(s, c, days, spans), s.size, days[e].close, c, d);
  }

  /** Every round trip completed in the first n bars left some capital. */
  ghost predicate Thrives(s: Settings, days: seq<Day>, n: nat)
    requires s.Valid() && n <= |days|
  {
    PaysAt(s.size, s.cost, days, PositionsAfter(s.stop, days, n).closed)
  }

  lemma ThrivingIsFunded(s: Settings, days: seq<Day>, n: nat)
    requires s.Valid() && n <= |days| && Thrives(s, days, n)
    ensures PositiveCloses(days) && Funded(s, days, n)
  {
    hide Factor, PriceRatio;
    var closed := PositionsAfter(s.stop, days, n).closed;
    PaysPrefix(s.size, s.cost, days, closed, if closed == [] then 0 else |closed| - 1);
  }

  lemma {:induction false} ThrivesEarlier(s: Settings, days: seq<Day>, m: nat, n: nat)
    requires s.Valid() && m <= n <= |days| && Thrives(s, days, n)
    ensures Thrives(s, days, m)
  {
    hide ExitDue, PaysAt;
    if m < n {
      var p, q := PositionsAfter(s.stop, days, n - 1), PositionsAfter(s.stop, days, n);
      assert q.closed[..|p.closed|] == p.closed;
      PaysPrefix(s.size, s.cost, days, q.closed, |p.closed|);
      ThrivesEarlier(s, days, m, n - 1);
    }
  }

  lemma CheaperThrives(s: Settings, t: Settings, days: seq<Day>, n: nat)
    requires s.Valid() && t.Valid() && t == s.(cost := t.cost) && s.cost <= t.cost && n <= |days| && Thrives(t, days, n)
    ensures Thrives(s, days, n)
  {
    hide PaysAt;
    CheaperPays(s.size, s.cost, t.cost, days, PositionsAfter(s.stop, days, n).closed);
  }

  /** At any cost rate below 1 a run thrives and every round trip pays. */
  lemma BelowFullCostThrives(s: Settings, days: seq<Day>, n: nat)
    requires s.Valid() && s.cost < 1.0 && PositiveCloses(days) && n <= |days|
    ensures Thrives(s, days, n)
    ensures PaysAt(s.size, s.cost, days, RoundTrips(s.stop, days))
  {
    hide PaysAt;
    BelowFullCostPays(s.size, s.cost, days, PositionsAfter(s.stop, days, n).closed);
    BelowFullCostPays(s.size, s.cost, days, RoundTrips(s.stop, days));
  }

  lemma LedgerFalls(s: Settings, c: real, d: real, days: seq<Day>, p: Positions)
    requires s.Valid() && 0.0 <= c <= d && PaysAt(s.size, d, days, p.closed) && (p.open.Some? ==> p.open.value < |days|)
    ensures 0.0 <= LedgerCash(s, d, days, p) <= LedgerCash(s, c, days, p)
    ensures 0.0 <= LedgerShares(s, d, days, p) <= LedgerShares(s, c, days, p)
    ensures LedgerCash(s, d, days, p) > 0.0 || LedgerShares(s, d, days, p) > 0.0
  {
    assert InRange(days, p.closed);
    hide Capital, Stake, Idle, PaysAt;
    CapitalFalls(s, c, d, days, p.closed);
    if p.open.Some? {
      IdleMonotone(Capital(s, d, days, p.closed), Capital(s, c, days, p.closed), s.size);
      StakeFalls(s, c, d, days, p.closed, p.open.value);
      StakePositive(s, d, days, p.closed, p.open.value);
    }
  }

  lemma LedgerIgnoresRunCost(s: Settings, cost: real, runCost: real, days: seq<Day>, p: Positions)
    requires cost >= 0.0 && InRange(days, p.closed) && (p.open.Some? ==> p.open.value < |days|)
    ensures LedgerCash(s.(cost := runCost), cost, days, p) == LedgerCash(s, cost, days, p)
    ensures LedgerShares(s.(cost := runCost), cost, days, p) == LedgerShares(s, cost, days, p)
  {
    hide Growth;
    assert Capital(s.(cost := runCost), cost, days, p.closed) == Capital(s, cost, days, p.closed);
  }

  /** As long as the dearer of two runs thrives, it never holds more cash, more shares or more equity than the
      cheaper one. */
  lemma CostNeverHelps(s: Settings, t: Settings, days: seq<Day>, n: nat)
    requires s.Valid() && t.Valid() && t == s.(cost := t.cost) && s.cost <= t.cost
    requires n <= |days| && Thrives(t, days, n)
    ensures 0.0 <= Run(t, days, n).cash <= Run(s, days, n).cash
    ensures 0.0 <= Run(t, days, n).shares <= Run(s, days, n).shares
    ensures n > 0 ==> 0.0 < Equity(t, days, n - 1) <= Equity(s, days, n - 1)
  {
    hide Run, LedgerCash, LedgerShares, Worth, PaysAt, Funded, ExitDue;
    CheaperThrives(s, t, days, n);
    ThrivingIsFunded(s, days, n);
    ThrivingIsFunded(t, days, n);
    LedgersInClosedForm(s, days, n);
    LedgersInClosedForm(t, days, n);
    var p := PositionsAfter(s.stop, days, n);
    LedgerFalls(s, s.cost, t.cost, days, p);
    LedgerIgnoresRunCost(s, t.cost, t.cost, days, p);
    if n > 0 {
      WorthMonotone(Run(t, days, n).shares, Run(s, days, n).shares, days[n - 1].close);
    }
  }

  /** The cost that compounds is the one passed in, not the one in the settings. */
  lemma CapitalIgnoresRunCost(s: Settings, cost: real, days: seq<Day>, spans: seq<Span>)
    requires cost >= 0.0 && InRange(days, spans)
    ensures Capital(s.(cost := cost), cost, days, spans) == Capital(s, cost, days, spans)
  {
    hide Growth;
  }

  lemma IdleMonotone(x: real, y: real, size: real)
    requires 0.0 <= x <= y && size <= 1.0
    ensures 0.0 <= Idle(x, size) <= Idle(y, size)
  {
    ProductMonotone(x, y, 1.0 - size, 1.0 - size);
  }

  lemma WorthMonotone(a: real, b: real, close: real)
    requires 0.0 <= a <= b && close > 0.0
    ensures 0.0 <= Worth(a, close) <= Worth(b, close) && (a > 0.0 ==> Worth(a, close) > 0.0)
  {
    ProductMonotone(a, b, close, close);
  }

  lemma PayingTripsFund(s: Settings, days: seq<Day>)
    requires s.Valid() && PaysAt(s.size, s.cost, days, RoundTrips(s.stop, days))
    ensures PositiveCloses(days) && Funded(s, days, |days|) && Thrives(s, days, |days|)
  {
    hide Factor, PriceRatio;
    var p, spans := PositionsAfter(s.stop, days, |days|), RoundTrips(s.stop, days);
    assert p.closed == spans[..|p.closed|];
    PaysPrefix(s.size, s.cost, days, spans, |p.closed|);
    ThrivingIsFunded(s, days, |days|);
  }

  lemma FinalCostNeverHelps(s: Settings, t: Settings, days: seq<Day>)
    requires s.Valid() && t.Valid() && t == s.(cost := t.cost) && s.cost <= t.cost
    requires PaysAt(t.size, t.cost, days, RoundTrips(t.stop, days))
    ensures 0.0 < Final(t, days).cash <= Final(s, days).cash
    ensures Final(t, days).grossCash == Final(s, days).grossCash
  {
    hide Final, Growth, PaysAt, Funded;
    CheaperPays(s.size, s.cost, t.cost, days, RoundTrips(s.stop, days));
    PayingTripsFund(s, days);
    PayingTripsFund(t, days);
    FinalClosedForm(s, days);
    FinalClosedForm(t, days);
    CapitalFalls(s, s.cost, t.cost, days, RoundTrips(s.stop, days));
  }

  // ---------- the gross ledger ----------

  /** The gross ledger of a funded run is the net ledger of the run without costs, bar by bar and after
      liquidation. */
  lemma GrossIsTheFreeRun(s: Settings, days: seq<Day>, n: nat)
    requires s.Valid() && PositiveCloses(days) && n <= |days|
    ensures var free := s.(cost := 0.0);
            && (Funded(s, days, n) ==>
                  && Run(s, days, n).grossCash == Run(free, days, n).cash
                  && Run(s, days, n).grossShares == Run(free, days, n).shares)
            && (Funded(s, days, |days|) ==> Final(s, days).grossCash == Final(free, days).cash)
  {
    hide Final, Run, Funded, LedgerCash, LedgerShares, Capital, ReportsAll, RoundTrips, ExitDue;
    var free := s.(cost := 0.0);
    BelowFullCostFunds(free, days, n);
    BelowFullCostFunds(free, days, |days|);
    if Funded(s, days, n) {
      LedgersInClosedForm(s, days, n);
      LedgersInClosedForm(free, days, n);
      LedgerIgnoresRunCost(s, 0.0, 0.0, days, PositionsAfter(s.stop, days, n));
    }
    if Funded(s, days, |days|) {
      FinalClosedForm(s, days);
      FinalClosedForm(free, days);
      CapitalIgnoresRunCost(s, 0.0, days, RoundTrips(s.stop, days));
    }
  }

  /** Net never exceeds gross, at any bar of a thriving run. */
  lemma NetNeverExceedsGross(s: Settings, days: seq<Day>, n: nat)
    requires s.Valid() && n <= |days| && Thrives(s, days, n)
    ensures 0.0 <= Run(s, days, n).cash <= Run(s, days, n).grossCash
  {
    hide Final, Growth, Run, Funded, Thrives;
    var free := s.(cost := 0.0);
    ThrivingIsFunded(s, days, n);
    GrossIsTheFreeRun(s, days, n);
    CostNeverHelps(free, s, days, n);
  }

  /** When every round trip pays, the reported net never exceeds gross and the cost drag is never negative. */
  lemma CostDragIsNeverNegative(s: Settings, days: seq<Day>)
    requires s.Valid() && PaysAt(s.size, s.cost, days, RoundTrips(s.stop, days))
    ensures 0.0 < Final(s, days).cash <= Final(s, days).grossCash
    ensures days != [] ==> days[0].close != 0.0 && SummaryOf(s, days).costDragPct >= 0.0
  {
    hide Final, Growth, Run, Funded, Thrives;
    var free := s.(cost := 0.0);
    PayingTripsFund(s, days);
    GrossIsTheFreeRun(s, days, |days|);
    FinalCostNeverHelps(free, s, days);
    QuotientOrder(Final(s, days).cash, Final(s, days).grossCash, s.capital);
  }

  lemma QuotientOrder(x: real, y: real, z: real)
    requires 0.0 < x <= y && z > 0.0
    ensures x / z <= y / z
  {
    QuotientMonotone(x, y, z, z);
  }

  // ---------- capital ----------

  function Scaled(k: real, x: real): real { k * x }

  /** The same settings with k times the capital. */
  predicate Scales(s: Settings, t: Settings, k: real) {
    s.Valid() && t.Valid() && t == s.(capital := t.capital) && t.capital == Scaled(k, s.capital)
  }

  lemma LedgerScales(s: Settings, t: Settings, k: real, cost: real, days: seq<Day>, p: Positions)
    requires Scales(s, t, k) && cost >= 0.0 && InRange(days, p.closed) && (p.open.Some? ==> p.open.value < |days|)
    ensures LedgerCash(t, cost, days, p) == Scaled(k, LedgerCash(s, cost, days, p))
    ensures LedgerShares(t, cost, days, p) == Scaled(k, LedgerShares(s, cost, days, p))
  {
    hide Capital, Idle, Affordable, Deployable, Scaled;
    CapitalOfScaled(s, t, k, cost, days, p.closed);
    ScaledNothing(k);
    IdleScales(Capital(s, cost, days, p.closed), s.size, k);
    if p.open.Some? {
      AffordableScales(Capital(s, cost, days, p.closed), s.size, days[p.open.value].close, cost, k);
    }
  }

  lemma BarScales(s: Settings, t: Settings, k: real, days: seq<Day>, n: nat)
    requires Scales(s, t, k) && PositiveCloses(days) && n <= |days| && Funded(s, days, n)
    ensures Run(t, days, n).cash == Scaled(k, Run(s, days, n).cash)
    ensures Run(t, days, n).shares == Scaled(k, Run(s, days, n).shares)
    ensures Run(t, days, n).grossCash == Scaled(k, Run(s, days, n).grossCash)
  {
    hide Run, LedgerCash, LedgerShares, Scaled, Funded, ExitDue;
    FundingIgnoresCapital(s, t, days, n);
    LedgersInClosedForm(s, days, n);
    LedgersInClosedForm(t, days, n);
    LedgerScales(s, t, k, s.cost, days, PositionsAfter(s.stop, days, n));
    LedgerScales(s, t, k, 0.0, days, PositionsAfter(s.stop, days, n));
  }

  lemma FundingIgnoresCapital(s: Settings, t: Settings, days: seq<Day>, n: nat)
    requires s.Valid() && t.Valid() && t == s.(capital := t.capital) && PositiveCloses(days) && n <= |days|
    ensures Funded(t, days, n) <==> Funded(s, days, n)
  {
    hide PaysAt, ExitDue;
  }

  /** Capital is only a unit: multiplying it by k multiplies both ledgers by k at every bar and at the end. */
  lemma CapitalScales(s: Settings, t: Settings, k: real, days: seq<Day>, n: nat)
    requires Scales(s, t, k) && PositiveCloses(days) && n <= |days| && Funded(s, days, |days|)
    ensures Run(t, days, n).cash == Scaled(k, Run(s, days, n).cash)
    ensures Run(t, days, n).shares == Scaled(k, Run(s, days, n).shares)
    ensures Run(t, days, n).grossCash == Scaled(k, Run(s, days, n).grossCash)
    ensures Final(t, days).cash == Scaled(k, Final(s, days).cash)
    ensures Final(t, days).grossCash == Scaled(k, Final(s, days).grossCash)
  {
    hide Final, Run, Capital, Scaled, Funded, ReportsAll, ExitDue, RoundTrips;
    FundingIgnoresCapital(s, t, days, |days|);
    FundedEarlier(s, days, n, |days|);
    BarScales(s, t, k, days, n);
    FinalClosedForm(s, days);
    FinalClosedForm(t, days);
    CapitalOfScaled(s, t, k, s.cost, days, RoundTrips(s.stop, days));
    CapitalOfScaled(s, t, k, 0.0, days, RoundTrips(s.stop, days));
  }

  lemma ScaledNothing(k: real)
    ensures Scaled(k, 0.0) == 0.0
  {}

  lemma CapitalOfScaled(s: Settings, t: Settings, k: real, cost: real, days: seq<Day>, spans: seq<Span>)
    requires Scales(s, t, k) && cost >= 0.0 && InRange(days, spans)
    ensures Capital(t, cost, days, spans) == Scaled(k, Capital(s, cost, days, spans))
  {
    hide Growth;
    assert (k * s.capital) * Growth(s.size, cost, days, spans) == k * (s.capital * Growth(s.size, cost, days, spans));
  }

  lemma IdleScales(x: real, size: real, k: real)
    ensures Idle(Scaled(k, x), size) == Scaled(k, Idle(x, size))
  {}

  lemma AffordableScales(x: real, size: real, close: real, cost: real, k: real)
    requires close > 0.0 && cost >= 0.0
    ensures Affordable(Deployable(Scaled(k, x), size), close, cost) ==
            Scaled(k, Affordable(Deployable(x, size), close, cost))
  {
    var y := close * (1.0 + cost);
    PositiveProduct(close, 1.0 + cost);
    var p, q := k * x * size / y, x * size / y;
    assert p * y == k * x * size && q * y == x * size;
    assert (k * q) * y == k * (q * y);
    assert (p - k * q) * y == 0.0;
  }
}
