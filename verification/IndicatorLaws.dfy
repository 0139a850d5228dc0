/** Which rows an indicator depends on, how far a recursive mean drifts, and what values can appear. */
module IndicatorLaws {
  import opened Values
  import opened Frames
  import opened Indicators

  // ---------- agreement of a cut history with the whole ----------

  /** Rows lo, .., hi - 1 of the cut series are rows m + lo, .., m + hi - 1 of the whole one. */
  ghost predicate Agree(whole: Series, part: Series, m: nat, lo: nat, hi: nat) {
    hi <= |part| && m + hi <= |whole| && forall i :: lo <= i < hi ==> part[i] == whole[m + i]
  }

  ghost predicate SameBars(whole: seq<Bar>, part: seq<Bar>, m: nat, hi: nat) {
    hi <= |part| && m + hi <= |whole| && forall i :: 0 <= i < hi ==> part[i] == whole[m + i]
  }

  /** Rows lost at the front of a cut history by looking back d rows; none when nothing was cut off. */
  function Lost(m: nat, lo: nat, d: nat): nat { if m == 0 then 0 else lo + d }

  lemma AgreeOnField(whole: seq<Bar>, part: seq<Bar>, m: nat, hi: nat, f: Bar -> Cell)
    requires SameBars(whole, part, m, hi)
    ensures Agree(Field(whole, f), Field(part, f), m, 0, hi)
  {}

  lemma AgreeOnMap1(f: Cell -> Cell, a: Series, b: Series, m: nat, lo: nat, hi: nat)
    requires Agree(a, b, m, lo, hi)
    ensures Agree(Map1(f, a), Map1(f, b), m, lo, hi)
  {}

  lemma AgreeOnMap2(f: (Cell, Cell) -> Cell, a: Series, b: Series, c: Series, d: Series, m: nat, lo: nat, hi: nat)
    requires |a| == |c| && |b| == |d| && Agree(a, b, m, lo, hi) && Agree(c, d, m, lo, hi)
    ensures Agree(Map2(f, a, c), Map2(f, b, d), m, lo, hi)
  {}

  lemma AgreeOnMap3(f: (Cell, Cell, Cell) -> Cell, a: Series, b: Series, c: Series, d: Series, e: Series, g: Series,
                    m: nat, lo: nat, hi: nat)
    requires |a| == |c| == |e| && |b| == |d| == |g|
    requires Agree(a, b, m, lo, hi) && Agree(c, d, m, lo, hi) && Agree(e, g, m, lo, hi)
    ensures Agree(Map3(f, a, c, e), Map3(f, b, d, g), m, lo, hi)
  {}

  lemma AgreeOnShift(a: Series, b: Series, k: nat, m: nat, lo: nat, hi: nat)
    requires Agree(a, b, m, lo, hi) && (m == 0 ==> lo == 0)
    ensures Agree(Shift(a, k), Shift(b, k), m, Lost(m, lo, k), hi)
  {}

  lemma AgreeOnRolling(a: Series, b: Series, w: nat, minPeriods: nat, agg: seq<real> -> real, m: nat, lo: nat, hi: nat)
    requires Agree(a, b, m, lo, hi) && (m == 0 ==> lo == 0) && w > 0
    ensures Agree(Rolling(a, w, minPeriods, agg), Rolling(b, w, minPeriods, agg), m, Lost(m, lo, w - 1), hi)
  {
    hide Window, Observed;
    forall i | Lost(m, lo, w - 1) <= i < hi
      ensures RollingAt(a, m + i, w, minPeriods, agg) == RollingAt(b, i, w, minPeriods, agg)
    {
      SameWindow(a, b, w, m, lo, hi, i);
    }
  }

  lemma SameWindow(a: Series, b: Series, w: nat, m: nat, lo: nat, hi: nat, i: nat)
    requires Agree(a, b, m, lo, hi) && (m == 0 ==> lo == 0) && w > 0 && Lost(m, lo, w - 1) <= i < hi
    ensures Window(a, m + i, w) == Window(b, i, w)
  {
    var from := if i + 1 < w then 0 else i + 1 - w;
    var p, q := Window(a, m + i, w), Window(b, i, w);
    forall k | 0 <= k < i + 1 - from
      ensures p[k] == q[k]
    {
      assert b[from + k] == a[m + (from + k)];
    }
  }

  lemma {:induction false} AgreeOnEwm(a: Series, b: Series, alpha: Rate, n: nat)
    requires n <= |a| && n <= |b| && forall i :: 0 <= i < n ==> a[i] == b[i]
    ensures EwmAt(a, alpha, n) == EwmAt(b, alpha, n)
  {
    if n > 0 {
      AgreeOnEwm(a, b, alpha, n - 1);
      hide EwmStep;
    }
  }

  lemma AgreeOnEwmMean(a: Series, b: Series, span: Pos, hi: nat)
    requires Agree(a, b, 0, 0, hi)
    ensures Agree(EwmMean(a, span), EwmMean(b, span), 0, 0, hi)
  {
    forall i | 0 <= i < hi ensures EwmMean(a, span)[i] == EwmMean(b, span)[i] {
      AgreeOnEwm(a, b, Alpha(span), i + 1);
    }
  }

  lemma Weaken(a: Series, b: Series, m: nat, lo: nat, more: nat, hi: nat)
    requires Agree(a, b, m, lo, hi) && lo <= more
    ensures Agree(a, b, m, more, hi)
  {}

  /** Columns that look back a bounded number of rows; the recursive means do not. */
  predicate Windowed(x: Indicator) {
    !(x.Ema? || x.Macd? || x.MacdSignal? || x.MacdDiff? || x.TechScore?)
  }

  /** How many earlier rows a windowed column reads. */
  function Lookback(x: Indicator): nat
    requires Windowed(x)
  {
    match x
    case Price(_) => 0
    case Sma(w) => w - 1
    case Return(days) => days
    case Rsi => 14
    case Mfi => 14
    case Vwap => 13
    case AvgVolume => 19
    case High52 => 251
    case Low52 => 251
    case Range52 => 251
    case Bollinger => 19
  }

  lemma AgreeOnFlows(whole: seq<Bar>, part: seq<Bar>, m: nat, hi: nat)
    requires SameBars(whole, part, m, hi)
    ensures Agree(Closes(whole), Closes(part), m, 0, hi)
    ensures Agree(Volumes(whole), Volumes(part), m, 0, hi)
    ensures Agree(TypicalPrices(whole), TypicalPrices(part), m, 0, hi)
    ensures Agree(MoneyFlow(whole), MoneyFlow(part), m, 0, hi)
  {
    AgreeOnField(whole, part, m, hi, (b: Bar) => Num(FillNa(b.volume, 0.0)));
    AgreeOnField(whole, part, m, hi, TypicalPrice);
    AgreeOnMap2(Times, TypicalPrices(whole), TypicalPrices(part), Volumes(whole), Volumes(part), m, 0, hi);
  }

  lemma AgreeOnRsi(whole: seq<Bar>, part: seq<Bar>, m: nat, hi: nat)
    requires SameBars(whole, part, m, hi)
    ensures Agree(RsiOf(whole), RsiOf(part), m, Lost(m, 0, 14), hi)
  {
    AgreeOnFlows(whole, part, m, hi);
    var a, b, lo := Closes(whole), Closes(part), Lost(m, 0, 1);
    AgreeOnShift(a, b, 1, m, 0, hi);
    AgreeOnMap2(Minus, a, b, Shift(a, 1), Shift(b, 1), m, lo, hi);
    var c, d := Delta(a), Delta(b);
    AgreeOnMap1(Gain, c, d, m, lo, hi);
    AgreeOnMap1(Loss, c, d, m, lo, hi);
    AgreeOnRolling(Map1(Gain, c), Map1(Gain, d), 14, 14, Mean, m, lo, hi);
    AgreeOnRolling(Map1(Loss, c), Map1(Loss, d), 14, 14, Mean, m, lo, hi);
    var p, q := Rolling(Map1(Gain, c), 14, 14, Mean), Rolling(Map1(Gain, d), 14, 14, Mean);
    var r, s := Rolling(Map1(Loss, c), 14, 14, Mean), Rolling(Map1(Loss, d), 14, 14, Mean);
    AgreeOnMap2(Over, p, q, r, s, m, Lost(m, 0, 14), hi);
    AgreeOnMap1(Oscillator, Map2(Over, p, r), Map2(Over, q, s), m, Lost(m, 0, 14), hi);
  }

  lemma AgreeOnMfi(whole: seq<Bar>, part: seq<Bar>, m: nat, hi: nat)
    requires SameBars(whole, part, m, hi)
    ensures Agree(MfiOf(whole), MfiOf(part), m, Lost(m, 0, 14), hi)
  {
    AgreeOnFlows(whole, part, m, hi);
    var lo := Lost(m, 0, 1);
    var a, b, c, d := TypicalPrices(whole), TypicalPrices(part), MoneyFlow(whole), MoneyFlow(part);
    AgreeOnShift(a, b, 1, m, 0, hi);
    Weaken(a, b, m, 0, lo, hi);
    Weaken(c, d, m, 0, lo, hi);
    AgreeOnMap3(RisingFlow, c, d, a, b, Shift(a, 1), Shift(b, 1), m, lo, hi);
    AgreeOnMap3(FallingFlow, c, d, a, b, Shift(a, 1), Shift(b, 1), m, lo, hi);
    var e, f := Map3(RisingFlow, c, a, Shift(a, 1)), Map3(RisingFlow, d, b, Shift(b, 1));
    var g, h := Map3(FallingFlow, c, a, Shift(a, 1)), Map3(FallingFlow, d, b, Shift(b, 1));
    AgreeOnRolling(e, f, 14, 14, Sum, m, lo, hi);
    AgreeOnRolling(g, h, 14, 14, Sum, m, lo, hi);
    AgreeOnMap2(Over, Rolling(e, 14, 14, Sum), Rolling(f, 14, 14, Sum), Rolling(g, 14, 14, Sum),
                Rolling(h, 14, 14, Sum), m, Lost(m, 0, 14), hi);
    AgreeOnMap1(Oscillator, Map2(Over, Rolling(e, 14, 14, Sum), Rolling(g, 14, 14, Sum)),
                Map2(Over, Rolling(f, 14, 14, Sum), Rolling(h, 14, 14, Sum)), m, Lost(m, 0, 14), hi);
  }

  lemma AgreeOnVwap(whole: seq<Bar>, part: seq<Bar>, m: nat, hi: nat)
    requires SameBars(whole, part, m, hi)
    ensures Agree(VwapOf(whole), VwapOf(part), m, Lost(m, 0, 13), hi)
  {
    AgreeOnFlows(whole, part, m, hi);
    var a, b, c, d := MoneyFlow(whole), MoneyFlow(part), Volumes(whole), Volumes(part);
    AgreeOnRolling(a, b, 14, 1, Sum, m, 0, hi);
    AgreeOnRolling(c, d, 14, 1, Sum, m, 0, hi);
    AgreeOnMap2(Over, Rolling(a, 14, 1, Sum), Rolling(b, 14, 1, Sum), Rolling(c, 14, 1, Sum), Rolling(d, 14, 1, Sum),
                m, Lost(m, 0, 13), hi);
  }

  lemma AgreeOnYear(whole: seq<Bar>, part: seq<Bar>, m: nat, hi: nat)
    requires SameBars(whole, part, m, hi)
    ensures Agree(High52Of(whole), High52Of(part), m, Lost(m, 0, 251), hi)
    ensures Agree(Low52Of(whole), Low52Of(part), m, Lost(m, 0, 251), hi)
    ensures Agree(PositionOf(whole), PositionOf(part), m, Lost(m, 0, 251), hi)
  {
    AgreeOnFlows(whole, part, m, hi);
    var high, low := (b: Bar) => b.high, (b: Bar) => b.low;
    AgreeOnField(whole, part, m, hi, high);
    AgreeOnField(whole, part, m, hi, low);
    AgreeOnRolling(Field(whole, high), Field(part, high), 252, 20, MaxOf, m, 0, hi);
    AgreeOnRolling(Field(whole, low), Field(part, low), 252, 20, MinOf, m, 0, hi);
    AgreeOnMap3(RangePosition, Closes(whole), Closes(part), Low52Of(whole), Low52Of(part), High52Of(whole),
                High52Of(part), m, Lost(m, 0, 251), hi);
  }

  lemma AgreeOnBollinger(whole: seq<Bar>, part: seq<Bar>, std: seq<real> -> real, m: nat, hi: nat)
    requires SameBars(whole, part, m, hi)
    ensures Agree(BollingerOf(whole, std), BollingerOf(part, std), m, Lost(m, 0, 19), hi)
  {
    AgreeOnFlows(whole, part, m, hi);
    var a, b := Closes(whole), Closes(part);
    AgreeOnRolling(a, b, 20, 20, Mean, m, 0, hi);
    AgreeOnRolling(a, b, 20, 20, std, m, 0, hi);
    Weaken(a, b, m, 0, Lost(m, 0, 19), hi);
    AgreeOnMap3(PercentB, a, b, SmaOf(whole, 20), SmaOf(part, 20), Rolling(a, 20, 20, std), Rolling(b, 20, 20, std),
                m, Lost(m, 0, 19), hi);
  }

  lemma AgreeOnReturn(whole: seq<Bar>, part: seq<Bar>, days: nat, m: nat, hi: nat)
    requires SameBars(whole, part, m, hi)
    ensures Agree(ReturnOf(whole, days), ReturnOf(part, days), m, Lost(m, 0, days), hi)
  {
    AgreeOnFlows(whole, part, m, hi);
    var a, b := Closes(whole), Closes(part);
    AgreeOnShift(a, b, days, m, 0, hi);
    Weaken(a, b, m, 0, Lost(m, 0, days), hi);
    AgreeOnMap2(PctChange, a, b, Shift(a, days), Shift(b, days), m, Lost(m, 0, days), hi);
  }

  /** Splice equivalence: m rows cut off the front change no windowed column from its own look-back on. */
  lemma CutHistoryAgrees(whole: seq<Bar>, part: seq<Bar>, std: seq<real> -> real, x: Indicator, m: nat, hi: nat)
    requires SameBars(whole, part, m, hi) && Windowed(x)
    ensures Agree(Compute(whole, std, x), Compute(part, std, x), m, Lost(m, 0, Lookback(x)), hi)
  {
    AgreeOnFlows(whole, part, m, hi);
    match x
    case Price(c) => AgreeOnField(whole, part, m, hi, (b: Bar) => PriceCell(b, c));
    case Sma(w) => AgreeOnRolling(Closes(whole), Closes(part), w, w, Mean, m, 0, hi);
    case Return(days) => AgreeOnReturn(whole, part, days, m, hi);
    case Rsi => AgreeOnRsi(whole, part, m, hi);
    case Mfi => AgreeOnMfi(whole, part, m, hi);
    case Vwap => AgreeOnVwap(whole, part, m, hi);
    case AvgVolume => AgreeOnRolling(Volumes(whole), Volumes(part), 20, 20, Mean, m, 0, hi);
    case High52 => AgreeOnYear(whole, part, m, hi);
    case Low52 => AgreeOnYear(whole, part, m, hi);
    case Range52 =>
      AgreeOnYear(whole, part, m, hi);
      AgreeOnMap1(Percent, PositionOf(whole), PositionOf(part), m, Lost(m, 0, 251), hi);
    case Bollinger => AgreeOnBollinger(whole, part, std, m, hi);
  }

  lemma AgreeOnMacd(a: seq<Bar>, b: seq<Bar>, hi: nat)
    requires SameBars(a, b, 0, hi)
    ensures Agree(MacdOf(a), MacdOf(b), 0, 0, hi)
    ensures Agree(EwmMean(MacdOf(a), 9), EwmMean(MacdOf(b), 9), 0, 0, hi)
  {
    AgreeOnFlows(a, b, 0, hi);
    AgreeOnEwmMean(Closes(a), Closes(b), 12, hi);
    AgreeOnEwmMean(Closes(a), Closes(b), 26, hi);
    AgreeOnMap2(Minus, EwmMean(Closes(a), 12), EwmMean(Closes(b), 12), EwmMean(Closes(a), 26), EwmMean(Closes(b), 26),
                0, 0, hi);
    AgreeOnEwmMean(MacdOf(a), MacdOf(b), 9, hi);
  }

  lemma AgreeOnScore(a: seq<Bar>, b: seq<Bar>, std: seq<real> -> real, hi: nat)
    requires SameBars(a, b, 0, hi)
    ensures Agree(ScoreOf(a, std), ScoreOf(b, std), 0, 0, hi)
  {
    hide Score, RsiOf, MfiOf, BollingerOf, MacdOf, EwmMean, ReturnOf, PositionOf, Rolling, Closes;
    AgreeOnRsi(a, b, 0, hi);
    AgreeOnMfi(a, b, 0, hi);
    AgreeOnBollinger(a, b, std, 0, hi);
    AgreeOnMacd(a, b, hi);
    AgreeOnFlows(a, b, 0, hi);
    AgreeOnRolling(Closes(a), Closes(b), 50, 50, Mean, 0, 0, hi);
    AgreeOnRolling(Closes(a), Closes(b), 200, 200, Mean, 0, 0, hi);
    AgreeOnReturn(a, b, 63, 0, hi);
    AgreeOnYear(a, b, 0, hi);
  }

  /** No look-ahead: bars after row hi - 1 change no column at rows before hi, recursive means and the
      composite score included. */
  lemma LaterBarsDoNotMatter(a: seq<Bar>, b: seq<Bar>, std: seq<real> -> real, x: Indicator, hi: nat)
    requires SameBars(a, b, 0, hi)
    ensures Agree(Compute(a, std, x), Compute(b, std, x), 0, 0, hi)
  {
    if Windowed(x) {
      CutHistoryAgrees(a, b, std, x, 0, hi);
    } else {
      AgreeOnFlows(a, b, 0, hi);
      AgreeOnMacd(a, b, hi);
      match x
      case Ema(span) => AgreeOnEwmMean(Closes(a), Closes(b), span, hi);
      case MacdDiff =>
        AgreeOnMap2(Minus, MacdOf(a), MacdOf(b), EwmMean(MacdOf(a), 9), EwmMean(MacdOf(b), 9), 0, 0, hi);
      case TechScore => AgreeOnScore(a, b, std, hi);
      case _ =>
    }
  }
}
