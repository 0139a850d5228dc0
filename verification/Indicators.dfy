/** The per-ticker indicator columns (backend/services/data_sync_service.py, _compute_indicator_frame). */
module Indicators {
  import opened Values
  import opened Frames

  datatype Bar = Bar(open: Cell, high: Cell, low: Cell, close: Cell, adjClose: Cell, volume: Cell)

  // ---------- cell arithmetic; anything missing makes the result missing ----------

  function Plus(x: Cell, y: Cell): Cell { if x.Num? && y.Num? then Num(x.v + y.v) else Missing }

  function Minus(x: Cell, y: Cell): Cell { if x.Num? && y.Num? then Num(x.v - y.v) else Missing }

  function Times(x: Cell, y: Cell): Cell { if x.Num? && y.Num? then Num(x.v * y.v) else Missing }

  /** A zero divisor gives Missing, as `.replace(0, nan)` does where the source writes it. */
  function Over(x: Cell, y: Cell): Cell { if x.Num? && y.Num? && y.v != 0.0 then Num(x.v / y.v) else Missing }

  function FillNa(x: Cell, d: real): real { if x.Num? then x.v else d }

  function Clip(x: Cell, lo: real, hi: real): Cell { if x.Num? then Num(Max(lo, Min(hi, x.v))) else Missing }

  // ---------- column operations ----------

  function Map1(f: Cell -> Cell, s: Series): (r: Series)
    ensures |r| == |s|
  {
    seq(|s|, i requires 0 <= i < |s| => f(s[i]))
  }

  function Map2(f: (Cell, Cell) -> Cell, s: Series, t: Series): (r: Series)
    requires |s| == |t|
    ensures |r| == |s|
  {
    seq(|s|, i requires 0 <= i < |s| => f(s[i], t[i]))
  }

  function Map3(f: (Cell, Cell, Cell) -> Cell, s: Series, t: Series, u: Series): (r: Series)
    requires |s| == |t| == |u|
    ensures |r| == |s|
  {
    seq(|s|, i requires 0 <= i < |s| => f(s[i], t[i], u[i]))
  }

  function Field(bars: seq<Bar>, f: Bar -> Cell): (r: Series)
    ensures |r| == |bars|
  {
    seq(|bars|, i requires 0 <= i < |bars| => f(bars[i]))
  }

  function Observed(s: Series): (r: seq<real>)
    ensures |r| <= |s|
  {
    if s == [] then [] else Observed(s[..|s| - 1]) + (if s[|s| - 1].Num? then [s[|s| - 1].v] else [])
  }

  /** The last w rows up to and including row i. */
  function Window(s: Series, i: nat, w: nat): Series
    requires i < |s|
  {
    s[if i + 1 < w then 0 else i + 1 - w..i + 1]
  }

  function RollingAt(s: Series, i: nat, w: nat, minPeriods: nat, agg: seq<real> -> real): Cell
    requires i < |s|
  {
    var seen := Observed(Window(s, i, w));
    if |seen| < minPeriods then Missing else Num(agg(seen))
  }

  /** rolling(window=w, min_periods=minPeriods).agg(): skips missing cells, and is missing itself when the
      window holds fewer than minPeriods observations. */
  function Rolling(s: Series, w: nat, minPeriods: nat, agg: seq<real> -> real): (r: Series)
    ensures |r| == |s|
  {
    seq(|s|, i requires 0 <= i < |s| => RollingAt(s, i, w, minPeriods, agg))
  }

  function Mean(s: seq<real>): real { if s == [] then 0.0 else Sum(s) / |s| as real }

  function MaxOf(s: seq<real>): real {
    if s == [] then 0.0 else if |s| == 1 then s[0] else Max(MaxOf(s[..|s| - 1]), s[|s| - 1])
  }

  function MinOf(s: seq<real>): real {
    if s == [] then 0.0 else if |s| == 1 then s[0] else Min(MinOf(s[..|s| - 1]), s[|s| - 1])
  }

  // ---------- ewm(span, adjust=False).mean() ----------

  type Pos = n: int | n > 0 witness 1

  type Share = r: real | 0.0 <= r <= 1.0

  type Rate = r: real | 0.0 < r <= 1.0 witness 1.0

  function Alpha(span: Pos): Rate {
    var d := span as real + 1.0;
    assert (2.0 / d) * d == 2.0;
    2.0 / d
  }

  lemma NonNegativeProduct(x: real, y: real)
    requires x >= 0.0 && y >= 0.0
    ensures x * y >= 0.0
  {}

  function Decay(weight: Share, alpha: Rate): (r: Share)
    ensures r <= 1.0 - alpha
  {
    NonNegativeProduct(weight, 1.0 - alpha);
    NonNegativeProduct(1.0 - weight, 1.0 - alpha);
    weight * (1.0 - alpha)
  }

  function Blend(weight: Share, alpha: Rate, mean: real, x: real): real {
    (weight * mean + alpha * x) / (weight + alpha)
  }

  /** The running mean and the weight it still carries; gaps let the weight decay. */
  datatype Ewm = Ewm(mean: Cell, weight: Share)

  function EwmStep(e: Ewm, x: Cell, alpha: Rate): Ewm {
    if e.mean.Missing? then if x.Num? then Ewm(x, 1.0) else e
    else
      var w := Decay(e.weight, alpha);
      if x.Missing? then Ewm(e.mean, w) else Ewm(Num(Blend(w, alpha, e.mean.v, x.v)), 1.0)
  }

  function EwmAt(s: Series, alpha: Rate, n: nat): Ewm
    requires n <= |s|
  {
    if n == 0 then Ewm(Missing, 1.0) else EwmStep(EwmAt(s, alpha, n - 1), s[n - 1], alpha)
  }

  function EwmMean(s: Series, span: Pos): (r: Series)
    ensures |r| == |s|
  {
    seq(|s|, i requires 0 <= i < |s| => EwmAt(s, Alpha(span), i + 1).mean)
  }

  // ---------- the columns ----------

  datatype PriceColumn = Open | High | Low | Close | Volume

  function PriceCell(b: Bar, c: PriceColumn): Cell {
    match c
    case Open => b.open
    case High => b.high
    case Low => b.low
    case Close => b.close
    case Volume => b.volume
  }

  datatype Indicator =
    | Price(column: PriceColumn)
    | Sma(window: Pos) | Ema(span: Pos) | Return(days: nat)
    | Rsi | Mfi | Vwap | AvgVolume | High52 | Low52 | Range52 | Bollinger
    | Macd | MacdSignal | MacdDiff | TechScore

  function Volumes(bars: seq<Bar>): (r: Series)
    ensures |r| == |bars|
  {
    Field(bars, (b: Bar) => Num(FillNa(b.volume, 0.0)))
  }

  function Closes(bars: seq<Bar>): (r: Series)
    ensures |r| == |bars|
  {
    Field(bars, (b: Bar) => b.close)
  }

  function TypicalPrice(b: Bar): Cell { Over(Plus(Plus(b.high, b.low), b.close), Num(3.0)) }

  function TypicalPrices(bars: seq<Bar>): (r: Series)
    ensures |r| == |bars|
  {
    Field(bars, TypicalPrice)
  }

  /** 100 - 100 / (1 + ratio), the shape RSI and MFI share. */
  function Oscillator(ratio: Cell): Cell { Minus(Num(100.0), Over(Num(100.0), Plus(Num(1.0), ratio))) }

  function Gain(d: Cell): Cell { if d.Num? then Num(Max(d.v, 0.0)) else Missing }

  function Loss(d: Cell): Cell { if d.Num? then Num(-Min(d.v, 0.0)) else Missing }

  function Delta(s: Series): (r: Series)
    ensures |r| == |s|
  {
    Map2(Minus, s, Shift(s, 1))
  }

  function RsiOf(bars: seq<Bar>): (r: Series)
    ensures |r| == |bars|
  {
    var delta := Delta(Closes(bars));
    Map1(Oscillator, Map2(Over, Rolling(Map1(Gain, delta), 14, 14, Mean), Rolling(Map1(Loss, delta), 14, 14, Mean)))
  }

  /** where(typical >= previous, 0): comparisons with a missing side are false. */
  function RisingFlow(flow: Cell, price: Cell, previous: Cell): Cell {
    if AtMost(previous, price) then flow else Num(0.0)
  }

  function FallingFlow(flow: Cell, price: Cell, previous: Cell): Cell {
    if Above(previous, price) then flow else Num(0.0)
  }

  function MoneyFlow(bars: seq<Bar>): (r: Series)
    ensures |r| == |bars|
  {
    Map2(Times, TypicalPrices(bars), Volumes(bars))
  }

  function MfiOf(bars: seq<Bar>): (r: Series)
    ensures |r| == |bars|
  {
    var price, flow := TypicalPrices(bars), MoneyFlow(bars);
    var previous := Shift(price, 1);
    Map1(Oscillator, Map2(Over, Rolling(Map3(RisingFlow, flow, price, previous), 14, 14, Sum),
                                Rolling(Map3(FallingFlow, flow, price, previous), 14, 14, Sum)))
  }

  function VwapOf(bars: seq<Bar>): (r: Series)
    ensures |r| == |bars|
  {
    Map2(Over, Rolling(MoneyFlow(bars), 14, 1, Sum), Rolling(Volumes(bars), 14, 1, Sum))
  }

  function PctChange(now: Cell, before: Cell): Cell { Times(Minus(Over(now, before), Num(1.0)), Num(100.0)) }

  function High52Of(bars: seq<Bar>): (r: Series)
    ensures |r| == |bars|
  {
    Rolling(Field(bars, (b: Bar) => b.high), 252, 20, MaxOf)
  }

  function Low52Of(bars: seq<Bar>): (r: Series)
    ensures |r| == |bars|
  {
    Rolling(Field(bars, (b: Bar) => b.low), 252, 20, MinOf)
  }

  function RangePosition(close: Cell, low: Cell, high: Cell): Cell { Over(Minus(close, low), Minus(high, low)) }

  function PercentB(close: Cell, mid: Cell, std: Cell): Cell {
    var spread := Times(std, Num(2.0));
    Over(Minus(close, Minus(mid, spread)), Minus(Plus(mid, spread), Minus(mid, spread)))
  }

  function Percent(x: Cell): Cell { Times(x, Num(100.0)) }

  function MacdOf(bars: seq<Bar>): (r: Series)
    ensures |r| == |bars|
  {
    Map2(Minus, EwmMean(Closes(bars), 12), EwmMean(Closes(bars), 26))
  }

  function Flag(b: bool): real { if b then 100.0 else 0.0 }

  /** The weighted composite of one row. */
  function Score(rsi: Cell, macd: Cell, signal: Cell, close: Cell, sma50: Cell, sma200: Cell,
                 percentB: Cell, mfi: Cell, return63: Cell, range: Cell): real {
    FillNa(Clip(rsi, 0.0, 100.0), 50.0) * 0.30
    + Flag(Above(macd, signal)) * 0.20
    + Flag(Above(close, sma50)) * 0.15
    + Flag(Above(close, sma200)) * 0.15
    + FillNa(Clip(percentB, 0.0, 1.0), 0.5) * 100.0 * 0.10
    + FillNa(Clip(mfi, 0.0, 100.0), 50.0) * 0.05
    + (FillNa(Clip(return63, -25.0, 25.0), 0.0) + 25.0) * 2.0
    + FillNa(Clip(range, 0.0, 1.0), 0.5) * 5.0
  }

  function SmaOf(bars: seq<Bar>, w: Pos): (r: Series)
    ensures |r| == |bars|
  {
    Rolling(Closes(bars), w, w, Mean)
  }

  function ReturnOf(bars: seq<Bar>, days: nat): (r: Series)
    ensures |r| == |bars|
  {
    Map2(PctChange, Closes(bars), Shift(Closes(bars), days))
  }

  /** (close - low) / (high - low) over the 52-week window. */
  function PositionOf(bars: seq<Bar>): (r: Series)
    ensures |r| == |bars|
  {
    Map3(RangePosition, Closes(bars), Low52Of(bars), High52Of(bars))
  }

  /** Bollinger %B; the rolling standard deviation is a parameter, no result depends on which one it is. */
  function BollingerOf(bars: seq<Bar>, std: seq<real> -> real): (r: Series)
    ensures |r| == |bars|
  {
    Map3(PercentB, Closes(bars), SmaOf(bars, 20), Rolling(Closes(bars), 20, 20, std))
  }

  function ScoreOf(bars: seq<Bar>, std: seq<real> -> real): (r: Series)
    ensures |r| == |bars|
  {
    var rsi, mfi, percentB := RsiOf(bars), MfiOf(bars), BollingerOf(bars, std);
    var macd, signal := MacdOf(bars), EwmMean(MacdOf(bars), 9);
    var close, sma50, sma200 := Closes(bars), SmaOf(bars, 50), SmaOf(bars, 200);
    var return63, position := ReturnOf(bars, 63), PositionOf(bars);
    seq(|bars|, i requires 0 <= i < |bars| =>
      Num(Score(rsi[i], macd[i], signal[i], close[i], sma50[i], sma200[i], percentB[i], mfi[i],
                return63[i], position[i])))
  }

  /** One column over one ticker's bars in date order. */
  function Compute(bars: seq<Bar>, std: seq<real> -> real, x: Indicator): (r: Series)
    ensures |r| == |bars|
  {
    match x
    case Price(c) => Field(bars, (b: Bar) => PriceCell(b, c))
    case Sma(w) => SmaOf(bars, w)
    case Ema(span) => EwmMean(Closes(bars), span)
    case Return(days) => ReturnOf(bars, days)
    case Rsi => RsiOf(bars)
    case Mfi => MfiOf(bars)
    case Vwap => VwapOf(bars)
    case AvgVolume => Rolling(Volumes(bars), 20, 20, Mean)
    case High52 => High52Of(bars)
    case Low52 => Low52Of(bars)
    case Range52 => Map1(Percent, PositionOf(bars))
    case Bollinger => BollingerOf(bars, std)
    case Macd => MacdOf(bars)
    case MacdSignal => EwmMean(MacdOf(bars), 9)
    case MacdDiff => Map2(Minus, MacdOf(bars), EwmMean(MacdOf(bars), 9))
    case TechScore => ScoreOf(bars, std)
  }

  /** The columns of ticker_data that rules and queries can name. */
  function Named(): map<string, Indicator> {
    map[
    "Open" := Price(Open), "High" := Price(High), "Low" := Price(Low),
    "Close" := Price(Close), "Volume" := Price(Volume),
    "Ticker_SMA_10" := Sma(10), "Ticker_SMA_30" := Sma(30), "Ticker_SMA_50" := Sma(50),
    "Ticker_SMA_100" := Sma(100), "Ticker_SMA_200" := Sma(200), "Ticker_SMA_250" := Sma(250),
    "Ticker_EMA_10" := Ema(10), "Ticker_EMA_30" := Ema(30), "Ticker_EMA_50" := Ema(50),
    "Ticker_EMA_100" := Ema(100), "Ticker_EMA_200" := Ema(200),
    "Ticker_RSI" := Rsi, "Ticker_MACD" := Macd, "Ticker_MACD_Signal" := MacdSignal, "Ticker_MACD_Diff" := MacdDiff,
    "Ticker_Bollinger_PBand" := Bollinger, "Ticker_MFI" := Mfi, "Ticker_VWAP" := Vwap,
    "Ticker_Tech_Score" := TechScore, "Ticker_Return_20D" := Return(20), "Ticker_Return_63D" := Return(63),
    "Ticker_Return_126D" := Return(126), "Ticker_Return_252D" := Return(252),
    "Ticker_52W_High" := High52, "Ticker_52W_Low" := Low52, "Ticker_52W_Range_Pct" := Range52,
    "Ticker_Avg_Volume_20D" := AvgVolume]
  }

  /** All named columns of one ticker. */
  function IndicatorFrame(bars: seq<Bar>, std: seq<real> -> real): (f: Frame)
    ensures f.rows == |bars| && f.columns.Keys == Named().Keys
  {
    Frame(|bars|, map m | m in Named() :: Compute(bars, std, Named()[m]))
  }
}
