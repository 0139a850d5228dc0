/** What the stored indicator columns say about the bars, column by column. */
module IndicatorMeaning {
  import opened Values
  import opened Frames
  import opened Indicators
  import opened IndicatorRanges
  import opened EmaDrift

  /** What a ticker's table shows in a column on row i. */
  ghost function At(bars: seq<Bar>, std: seq<real> -> real, name: string, i: nat): Cell
    requires i < |bars|
  {
    var f := IndicatorFrame(bars, std);
    if name in f.columns then f.columns[name][i] else Missing
  }

  lemma AtIs(bars: seq<Bar>, std: seq<real> -> real, name: string, i: nat)
    requires name in Named() && i < |bars|
    ensures At(bars, std, name, i) == Compute(bars, std, Named()[name])[i]
  {
    hide Compute, Named;
  }

  // ---------- the names of the columns ----------

  ghost predicate Names(name: string, x: Indicator) { name in Named() && Named()[name] == x }

  lemma OpenAndHighNames()
    ensures Names("Open", Price(Open)) && Names("High", Price(High))
  {}

  lemma OtherPriceNames()
    ensures Names("Low", Price(Low)) && Names("Close", Price(Close)) && Names("Volume", Price(Volume))
  {}

  lemma OscillatorNames()
    ensures Names("Ticker_RSI", Rsi) && Names("Ticker_MFI", Mfi) && Names("Ticker_VWAP", Vwap)
    ensures Names("Ticker_Avg_Volume_20D", AvgVolume) && Names("Ticker_Bollinger_PBand", Bollinger)
  {}

  lemma YearNames()
    ensures Names("Ticker_52W_High", High52) && Names("Ticker_52W_Low", Low52)
    ensures Names("Ticker_52W_Range_Pct", Range52)
  {}

  lemma ScoreNames()
    ensures Names("Ticker_MACD", Macd) && Names("Ticker_MACD_Signal", MacdSignal) && Names("Ticker_MACD_Diff", MacdDiff)
    ensures Names("Ticker_Tech_Score", TechScore)
  {}

  ghost predicate SmaWindow(name: string, w: nat) {
    (name, w) in {("Ticker_SMA_10", 10), ("Ticker_SMA_30", 30), ("Ticker_SMA_50", 50), ("Ticker_SMA_100", 100),
                  ("Ticker_SMA_200", 200), ("Ticker_SMA_250", 250)}
  }

  lemma SmaNames(name: string, w: nat)
    requires SmaWindow(name, w)
    ensures w > 0 && Names(name, Sma(w))
  {}

  ghost predicate ReturnDays(name: string, d: nat) {
    (name, d) in {("Ticker_Return_20D", 20), ("Ticker_Return_63D", 63), ("Ticker_Return_126D", 126),
                  ("Ticker_Return_252D", 252)}
  }

  lemma ReturnNames(name: string, d: nat)
    requires ReturnDays(name, d)
    ensures Names(name, Return(d))
  {}

  ghost predicate EmaSpan(name: string, span: nat) {
    (name, span) in {("Ticker_EMA_10", 10), ("Ticker_EMA_30", 30), ("Ticker_EMA_50", 50), ("Ticker_EMA_100", 100),
                     ("Ticker_EMA_200", 200)}
  }

  lemma EmaNames(name: string, span: nat)
    requires EmaSpan(name, span)
    ensures span > 0 && Names(name, Ema(span))
  {}

  // ---------- sums over rows ----------

  /** The sum of what is present in rows lo, .., hi - 1. */
  ghost function Total(s: Series, lo: nat, hi: nat): real
    requires lo <= hi <= |s|
  {
    if lo == hi then 0.0 else Total(s, lo, hi - 1) + (if s[hi - 1].Num? then s[hi - 1].v else 0.0)
  }

  /** How many of these rows hold a value. */
  ghost function Present(s: Series, lo: nat, hi: nat): nat
    requires lo <= hi <= |s|
  {
    if lo == hi then 0 else Present(s, lo, hi - 1) + (if s[hi - 1].Num? then 1 else 0)
  }

  lemma OneMoreObserved(front: Series, x: Cell)
    ensures Sum(Observed(front + [x])) == Sum(Observed(front)) + (if x.Num? then x.v else 0.0)
    ensures |Observed(front + [x])| == |Observed(front)| + (if x.Num? then 1 else 0)
  {
    var win, seen := front + [x], Observed(front);
    assert win[..|win| - 1] == front && win[|win| - 1] == x;
    hide Observed;
    if x.Num? {
      assert (seen + [x.v])[..|seen|] == seen;
    } else {
      assert seen + [] == seen;
    }
  }

  lemma NothingObserved()
    ensures Observed([]) == [] && Sum([]) == 0.0
  {}

  lemma {:induction false} ObservedTotals(s: Series, lo: nat, hi: nat)
    requires lo <= hi <= |s|
    ensures Sum(Observed(s[lo..hi])) == Total(s, lo, hi) && |Observed(s[lo..hi])| == Present(s, lo, hi)
  {
    hide Sum, Observed;
    if lo == hi {
      NothingObserved();
    } else {
      ObservedTotals(s, lo, hi - 1);
      OneMoreObserved(s[lo..hi - 1], s[hi - 1]);
      assert s[lo..hi] == s[lo..hi - 1] + [s[hi - 1]];
    }
  }

  /** The first row of a window of w rows that ends on row i. */
  function WindowStart(i: nat, w: nat): nat { if i + 1 < w then 0 else i + 1 - w }

  lemma RollingSum(s: Series, i: nat, w: nat, minPeriods: nat)
    requires i < |s| && w > 0
    ensures var lo := WindowStart(i, w);
            Rolling(s, w, minPeriods, Sum)[i] ==
            if Present(s, lo, i + 1) < minPeriods then Missing else Num(Total(s, lo, i + 1))
  {
    ObservedTotals(s, WindowStart(i, w), i + 1);
    hide Sum, Observed;
  }

  lemma RollingMean(s: Series, i: nat, w: Pos)
    requires i < |s|
    ensures Rolling(s, w, w, Mean)[i].Num? <==> i + 1 >= w && forall k :: WindowStart(i, w) <= k <= i ==> s[k].Num?
    ensures Rolling(s, w, w, Mean)[i].Num? ==>
              Product(Rolling(s, w, w, Mean)[i].v, w as real) == Total(s, WindowStart(i, w), i + 1)
  {
    hide Sum, Observed, Total, Present, Mean, Rolling, Product;
    var lo := WindowStart(i, w);
    var seen := Observed(s[lo..i + 1]);
    MeanOfWindow(s, i, w);
    ObservedTotals(s, lo, i + 1);
    PresentAtMost(s, lo, i + 1);
    if |seen| >= w {
      MeanTimesCount(seen);
    }
  }

  lemma MeanOfWindow(s: Series, i: nat, w: Pos)
    requires i < |s|
    ensures var seen := Observed(s[WindowStart(i, w)..i + 1]);
            Rolling(s, w, w, Mean)[i] == if |seen| < w then Missing else Num(Mean(seen))
  {
    hide Observed, Mean;
  }

  lemma MeanTimesCount(s: seq<real>)
    requires s != []
    ensures Product(Mean(s), |s| as real) == Sum(s)
  {
    hide Sum;
  }

  lemma {:induction false} PresentAtMost(s: Series, lo: nat, hi: nat)
    requires lo <= hi <= |s|
    ensures Present(s, lo, hi) <= hi - lo
    ensures Present(s, lo, hi) == hi - lo <==> forall k :: lo <= k < hi ==> s[k].Num?
  {
    if lo < hi {
      PresentAtMost(s, lo, hi - 1);
    }
  }

  // ---------- prices and averages ----------

  lemma PricesMean(bars: seq<Bar>, std: seq<real> -> real, i: nat)
    requires i < |bars|
    ensures At(bars, std, "Open", i) == bars[i].open && At(bars, std, "High", i) == bars[i].high
    ensures At(bars, std, "Low", i) == bars[i].low && At(bars, std, "Close", i) == bars[i].close
    ensures At(bars, std, "Volume", i) == bars[i].volume
  {
    hide Named, At;
    OpenAndHighNames();
    OtherPriceNames();
    AtIs(bars, std, "Open", i);
    AtIs(bars, std, "High", i);
    AtIs(bars, std, "Low", i);
    AtIs(bars, std, "Close", i);
    AtIs(bars, std, "Volume", i);
  }

  /** The closes as a column. */
  ghost function CloseSeries(bars: seq<Bar>): (r: Series)
    ensures |r| == |bars|
  {
    seq(|bars|, k requires 0 <= k < |bars| => bars[k].close)
  }

  /** Closes present on rows lo, .., hi. */
  ghost predicate HasCloses(bars: seq<Bar>, lo: int, hi: nat)
    requires hi < |bars|
  {
    lo >= 0 && forall k :: lo <= k <= hi ==> bars[k].close.Num?
  }

  lemma SmaMeans(bars: seq<Bar>, w: Pos, i: nat)
    requires i < |bars|
    ensures SmaOf(bars, w)[i].Num? <==> HasCloses(bars, i + 1 - w, i)
    ensures SmaOf(bars, w)[i].Num? ==>
              SmaOf(bars, w)[i].v * w as real == Total(CloseSeries(bars), i + 1 - w, i + 1)
  {
    var s, lo := CloseSeries(bars), WindowStart(i, w);
    assert s == Closes(bars);
    hide Rolling, Closes, Total;
    RollingMean(s, i, w);
    assert forall k :: lo <= k <= i ==> s[k] == bars[k].close;
  }

  /** A moving average exists when its w closes do, and w times the average is their sum. */
  lemma AveragesMean(bars: seq<Bar>, std: seq<real> -> real, name: string, w: nat, i: nat)
    requires SmaWindow(name, w) && i < |bars|
    ensures At(bars, std, name, i).Num? <==> HasCloses(bars, i + 1 - w, i)
    ensures At(bars, std, name, i).Num? ==>
              At(bars, std, name, i).v * w as real == Total(CloseSeries(bars), i + 1 - w, i + 1)
  {
    hide SmaOf, Named, At, Total, HasCloses, SmaWindow;
    SmaNames(name, w);
    AtIs(bars, std, name, i);
    SmaMeans(bars, w, i);
  }

  lemma ReturnOfMeans(bars: seq<Bar>, d: nat, i: nat)
    requires i < |bars|
    ensures ReturnOf(bars, d)[i].Num? <==>
            i >= d && bars[i].close.Num? && bars[i - d].close.Num? && bars[i - d].close.v != 0.0
    ensures ReturnOf(bars, d)[i].Num? ==>
              bars[i].close.v == bars[i - d].close.v * (1.0 + ReturnOf(bars, d)[i].v / 100.0)
  {
    assert ReturnOf(bars, d)[i] == PctChange(Closes(bars)[i], Shift(Closes(bars), d)[i]);
    if i >= d && bars[i].close.Num? && bars[i - d].close.Num? && bars[i - d].close.v != 0.0 {
      assert (bars[i].close.v / bars[i - d].close.v) * bars[i - d].close.v == bars[i].close.v;
    }
  }

  /** A return exists when both closes do and the earlier one is not 0, and it leads from the earlier to the later. */
  lemma ReturnsMean(bars: seq<Bar>, std: seq<real> -> real, name: string, d: nat, i: nat)
    requires ReturnDays(name, d) && i < |bars|
    ensures var r := At(bars, std, name, i);
            && (r.Num? <==> i >= d && bars[i].close.Num? && bars[i - d].close.Num? && bars[i - d].close.v != 0.0)
            && (r.Num? ==> bars[i].close.v == bars[i - d].close.v * (1.0 + r.v / 100.0))
  {
    hide ReturnOf, Named, At, ReturnDays;
    ReturnNames(name, d);
    AtIs(bars, std, name, i);
    ReturnOfMeans(bars, d, i);
  }

  /** Volumes as a column, a missing one counting as 0. */
  ghost function VolumeSeries(bars: seq<Bar>): (r: Series)
    ensures |r| == |bars|
  {
    seq(|bars|, k requires 0 <= k < |bars| => Num(if bars[k].volume.Num? then bars[k].volume.v else 0.0))
  }

  /** The average volume exists from the twentieth row on, and 20 times it is the volume of the last 20 rows. */
  lemma AverageVolumeMeans(bars: seq<Bar>, std: seq<real> -> real, i: nat)
    requires i < |bars|
    ensures var v := At(bars, std, "Ticker_Avg_Volume_20D", i);
            && (v.Num? <==> i >= 19)
            && (v.Num? ==> v.v * 20.0 == Total(VolumeSeries(bars), i - 19, i + 1))
  {
    var s := VolumeSeries(bars);
    assert s == Volumes(bars);
    OscillatorNames();
    hide Named, At;
    AtIs(bars, std, "Ticker_Avg_Volume_20D", i);
    RollingMean(s, i, 20);
    hide Rolling, Volumes, Total;
  }

  // ---------- RSI ----------

  /** The change of the close on row k, when there is one. */
  ghost predicate Changes(bars: seq<Bar>, k: nat)
    requires k < |bars|
  {
    k > 0 && bars[k].close.Num? && bars[k - 1].close.Num?
  }

  ghost function Rises(bars: seq<Bar>): (r: Series)
    ensures |r| == |bars|
  {
    seq(|bars|, k requires 0 <= k < |bars| =>
      if !Changes(bars, k) then Missing
      else if bars[k].close.v > bars[k - 1].close.v then Num(bars[k].close.v - bars[k - 1].close.v) else Num(0.0))
  }

  ghost function Falls(bars: seq<Bar>): (r: Series)
    ensures |r| == |bars|
  {
    seq(|bars|, k requires 0 <= k < |bars| =>
      if !Changes(bars, k) then Missing
      else if bars[k].close.v < bars[k - 1].close.v then Num(bars[k - 1].close.v - bars[k].close.v) else Num(0.0))
  }

  ghost predicate Falling(bars: seq<Bar>, k: nat)
    requires k < |bars|
  {
    Changes(bars, k) && bars[k].close.v < bars[k - 1].close.v
  }

  /** What row k adds to the rises and the falls. */
  lemma OneChange(bars: seq<Bar>, k: nat)
    requires k < |bars| && Changes(bars, k)
    ensures Rises(bars)[k].Num? && Falls(bars)[k].Num?
    ensures Rises(bars)[k].v - Falls(bars)[k].v == bars[k].close.v - bars[k - 1].close.v
    ensures Rises(bars)[k].v >= 0.0 && Falls(bars)[k].v >= 0.0 && (Falls(bars)[k].v > 0.0 <==> Falling(bars, k))
  {}

  lemma {:induction false} RisesAndFallsTelescope(bars: seq<Bar>, lo: nat, hi: nat)
    requires 0 < lo <= hi <= |bars| && HasCloses(bars, lo - 1, hi - 1)
    ensures Total(Rises(bars), lo, hi) - Total(Falls(bars), lo, hi) == bars[hi - 1].close.v - bars[lo - 1].close.v
    ensures Total(Rises(bars), lo, hi) >= 0.0 && Total(Falls(bars), lo, hi) >= 0.0
    ensures Total(Falls(bars), lo, hi) > 0.0 <==> exists k :: lo <= k < hi && Falling(bars, k)
  {
    hide Rises, Falls, Falling;
    if lo < hi {
      RisesAndFallsTelescope(bars, lo, hi - 1);
      OneChange(bars, hi - 1);
    }
  }

  /** 100 - 100 / (1 + up / down) is 100 times the share of up; it is missing without any down. */
  lemma OscillatorMeans(up: real, down: real)
    ensures var o := Oscillator(Over(Num(up), Num(down)));
            && (o.Num? <==> down != 0.0 && up + down != 0.0)
            && (o.Num? ==> o.v * (up + down) == 100.0 * up)
            && (o.Num? && up >= 0.0 && down >= 0.0 ==> (o.v > 50.0 <==> up > down))
    ensures Oscillator(Over(Missing, Missing)) == Missing
  {
    if down != 0.0 {
      var r := up / down;
      assert r * down == up;
      assert (1.0 + r) * down == up + down;
      if up + down != 0.0 {
        var q := 100.0 / (1.0 + r);
        var o := 100.0 - q;
        assert q * (1.0 + r) == 100.0;
        assert q * ((1.0 + r) * down) == (q * (1.0 + r)) * down;
        assert o * (up + down) == 100.0 * up;
        if up >= 0.0 && down >= 0.0 {
          Halves(o, up, down);
        }
      }
    }
  }

  lemma Halves(o: real, up: real, down: real)
    requires up >= 0.0 && down > 0.0 && o * (up + down) == 100.0 * up
    ensures o > 50.0 <==> up > down
  {
    assert (o - 50.0) * (up + down) == 50.0 * (up - down);
    SignOfProduct(o - 50.0, up + down);
  }

  lemma SignOfProduct(u: real, d: real)
    requires d > 0.0
    ensures u * d > 0.0 <==> u > 0.0
  {
    if u <= 0.0 {
      NonNegativeProduct(-u, d);
      assert -u * d == -(u * d);
    }
  }

  lemma ScaledOscillator(up: real, down: real)
    requires up >= 0.0 && down >= 0.0
    ensures Over(Num(up / 14.0), Num(down / 14.0)) == Over(Num(up), Num(down))
  {
    if down > 0.0 {
      var r, x, y := up / down, up / 14.0, down / 14.0;
      assert r * down == up && x * 14.0 == up && y * 14.0 == down;
      assert r * y == x;
      assert x / y == r;
    }
  }

  /** RSI exists when 15 closes do and one of them is below the one before it. It is then 100 times the rises over
      rises and falls of the last 14 rows, hence above 50 exactly when the close is above the one 14 rows earlier. */
  lemma RsiMeans(bars: seq<Bar>, std: seq<real> -> real, i: nat)
    requires i < |bars|
    ensures var rsi := At(bars, std, "Ticker_RSI", i);
            && (rsi.Num? <==> HasCloses(bars, i - 14, i) && exists k :: i - 14 < k <= i && Falling(bars, k))
            && (rsi.Num? ==>
                  var up, down := Total(Rises(bars), i - 13, i + 1), Total(Falls(bars), i - 13, i + 1);
                  && rsi.v * (up + down) == 100.0 * up
                  && (rsi.v > 50.0 <==> bars[i].close.v > bars[i - 14].close.v))
  {
    hide Oscillator, Over, Total, Rises, Falls, Falling, At, Compute, RsiOf;
    RsiIs(bars, std, i);
    RsiFromTotals(bars, i);
    if HasCloses(bars, i - 14, i) {
      RisesAndFallsTelescope(bars, i - 13, i + 1);
      OscillatorMeans(Total(Rises(bars), i - 13, i + 1), Total(Falls(bars), i - 13, i + 1));
    }
  }

  lemma RsiIs(bars: seq<Bar>, std: seq<real> -> real, i: nat)
    requires i < |bars|
    ensures At(bars, std, "Ticker_RSI", i) == RsiOf(bars)[i]
  {
    OscillatorNames();
    hide Named, At, RsiOf;
    AtIs(bars, std, "Ticker_RSI", i);
  }

  lemma RsiFromTotals(bars: seq<Bar>, i: nat)
    requires i < |bars|
    ensures RsiOf(bars)[i] ==
            if HasCloses(bars, i - 14, i) then
              Oscillator(Over(Num(Total(Rises(bars), i - 13, i + 1)), Num(Total(Falls(bars), i - 13, i + 1))))
            else Missing
  {
    hide Rolling, RsiOf, Oscillator, Over, Total, Rises, Falls;
    RsiFromMoves(bars, i);
    AllMoves(bars, i);
    OscillatorMeans(0.0, 0.0);
    if HasCloses(bars, i - 14, i) {
      RisesAndFallsTelescope(bars, i - 13, i + 1);
      ScaledOscillator(Total(Rises(bars), i - 13, i + 1), Total(Falls(bars), i - 13, i + 1));
    }
  }

  lemma RsiFromMoves(bars: seq<Bar>, i: nat)
    requires i < |bars|
    ensures RsiOf(bars)[i] ==
            Oscillator(Over(Rolling(Rises(bars), 14, 14, Mean)[i], Rolling(Falls(bars), 14, 14, Mean)[i]))
  {
    hide Rolling, Oscillator, Over;
    var delta := Delta(Closes(bars));
    var gain, loss := Map1(Gain, delta), Map1(Loss, delta);
    forall k | 0 <= k < |bars| ensures gain[k] == Rises(bars)[k] && loss[k] == Falls(bars)[k] {
      var d := Minus(bars[k].close, if k < 1 then Missing else bars[k - 1].close);
      assert delta[k] == d;
      assert gain[k] == Gain(d);
      assert loss[k] == Loss(d);
      assert d.Num? <==> Changes(bars, k);
      assert Gain(d) == Rises(bars)[k];
      assert Loss(d) == Falls(bars)[k];
    }
    assert gain == Rises(bars) && loss == Falls(bars);
  }

  /** The means exist when the 15 closes do. */
  lemma AllMoves(bars: seq<Bar>, i: nat)
    requires i < |bars|
    ensures var up, down := Rolling(Rises(bars), 14, 14, Mean)[i], Rolling(Falls(bars), 14, 14, Mean)[i];
            if HasCloses(bars, i - 14, i) then
              && up == Num(Total(Rises(bars), i - 13, i + 1) / 14.0)
              && down == Num(Total(Falls(bars), i - 13, i + 1) / 14.0)
            else up.Missing? && down.Missing?
  {
    hide Rolling, Total, Rises, Falls;
    var lo := WindowStart(i, 14);
    RollingMean(Rises(bars), i, 14);
    RollingMean(Falls(bars), i, 14);
    assert forall k :: lo <= k <= i ==> Rises(bars)[k].Num? == Changes(bars, k) == Falls(bars)[k].Num? by {
      MovesPresent(bars, lo, i);
    }
    AllChange(bars, i);
  }

  lemma MovesPresent(bars: seq<Bar>, lo: nat, i: nat)
    requires i < |bars|
    ensures forall k :: lo <= k <= i ==> Rises(bars)[k].Num? == Changes(bars, k) == Falls(bars)[k].Num?
  {}

  lemma AllChange(bars: seq<Bar>, i: nat)
    requires i < |bars|
    ensures HasCloses(bars, i - 14, i) <==> i >= 13 && forall k :: i - 13 <= k <= i ==> Changes(bars, k)
  {
    if i >= 13 && forall k :: i - 13 <= k <= i ==> Changes(bars, k) {
      assert Changes(bars, i - 13);
      forall k | i - 14 <= k <= i ensures bars[k].close.Num? {
        if k > i - 14 {
          assert Changes(bars, k);
        }
      }
    }
  }

  // ---------- MFI and VWAP ----------

  /** A row with a typical price, the mean of high, low and close. */
  ghost predicate Priced(b: Bar) { b.high.Num? && b.low.Num? && b.close.Num? }

  ghost function Typical(b: Bar): real
    requires Priced(b)
  {
    (b.high.v + b.low.v + b.close.v) / 3.0
  }

  /** Typical price times volume. */
  ghost function Money(b: Bar): real
    requires Priced(b)
  {
    Typical(b) * (if b.volume.Num? then b.volume.v else 0.0)
  }

  ghost function MoneySeries(bars: seq<Bar>): (r: Series)
    ensures |r| == |bars|
  {
    seq(|bars|, k requires 0 <= k < |bars| => if Priced(bars[k]) then Num(Money(bars[k])) else Missing)
  }

  /** Money that moved on row k while the typical price did not fall, or fell, since the row before; 0 when the two
      prices cannot be compared. */
  ghost function Inflow(bars: seq<Bar>, k: nat): real
    requires k < |bars|
  {
    if k > 0 && Priced(bars[k]) && Priced(bars[k - 1]) && Typical(bars[k - 1]) <= Typical(bars[k])
    then Money(bars[k]) else 0.0
  }

  ghost function Outflow(bars: seq<Bar>, k: nat): real
    requires k < |bars|
  {
    if k > 0 && Priced(bars[k]) && Priced(bars[k - 1]) && Typical(bars[k]) < Typical(bars[k - 1])
    then Money(bars[k]) else 0.0
  }

  ghost function Inflows(bars: seq<Bar>): (r: Series)
    ensures |r| == |bars|
  {
    seq(|bars|, k requires 0 <= k < |bars| => Num(Inflow(bars, k)))
  }

  ghost function Outflows(bars: seq<Bar>): (r: Series)
    ensures |r| == |bars|
  {
    seq(|bars|, k requires 0 <= k < |bars| => Num(Outflow(bars, k)))
  }

  lemma TypicalIs(b: Bar)
    ensures TypicalPrice(b) == if Priced(b) then Num(Typical(b)) else Missing
    ensures Times(TypicalPrice(b), Num(FillNa(b.volume, 0.0))) == if Priced(b) then Num(Money(b)) else Missing
  {}

  lemma MoneyIs(bars: seq<Bar>)
    ensures MoneyFlow(bars) == MoneySeries(bars)
  {
    hide TypicalPrice, FillNa, Typical, Money, Times;
    forall k | 0 <= k < |bars| ensures MoneyFlow(bars)[k] == MoneySeries(bars)[k] {
      TypicalIs(bars[k]);
    }
  }

  lemma FlowsAre(bars: seq<Bar>, k: nat)
    requires k < |bars|
    ensures var flow, price, previous := MoneyFlow(bars)[k], TypicalPrices(bars)[k], Shift(TypicalPrices(bars), 1)[k];
            RisingFlow(flow, price, previous) == Num(Inflow(bars, k)) &&
            FallingFlow(flow, price, previous) == Num(Outflow(bars, k))
  {
    hide Times, FillNa, Typical, Money;
    TypicalIs(bars[k]);
    if k > 0 {
      TypicalIs(bars[k - 1]);
    }
    hide TypicalPrice;
  }

  lemma MfiFromFlows(bars: seq<Bar>, i: nat)
    requires i < |bars|
    ensures MfiOf(bars)[i] ==
            Oscillator(Over(Rolling(Inflows(bars), 14, 14, Sum)[i], Rolling(Outflows(bars), 14, 14, Sum)[i]))
  {
    hide Rolling, Oscillator, Over, RisingFlow, FallingFlow, Inflow, Outflow, TypicalPrices, MoneyFlow, Shift;
    var price, flow := TypicalPrices(bars), MoneyFlow(bars);
    var previous := Shift(price, 1);
    forall k | 0 <= k < |bars|
      ensures Map3(RisingFlow, flow, price, previous)[k] == Inflows(bars)[k]
      ensures Map3(FallingFlow, flow, price, previous)[k] == Outflows(bars)[k]
    {
      FlowsAre(bars, k);
    }
    assert Map3(RisingFlow, flow, price, previous) == Inflows(bars);
    assert Map3(FallingFlow, flow, price, previous) == Outflows(bars);
  }

  /** Counting the days of rising and of falling typical price, MFI is 100 times the money that flowed in over all that
      flowed in the last 14 rows, and missing without any outflow or before the fourteenth row. */
  lemma MfiMeans(bars: seq<Bar>, std: seq<real> -> real, i: nat)
    requires i < |bars|
    ensures var mfi := At(bars, std, "Ticker_MFI", i);
            if i < 13 then mfi.Missing?
            else
              var up, down := Total(Inflows(bars), i - 13, i + 1), Total(Outflows(bars), i - 13, i + 1);
              && (mfi.Num? <==> down != 0.0 && up + down != 0.0)
              && (mfi.Num? ==> mfi.v * (up + down) == 100.0 * up)
              && (mfi.Num? && up >= 0.0 && down >= 0.0 ==> (mfi.v > 50.0 <==> up > down))
  {
    hide Oscillator, Over, Total, Inflows, Outflows, At, MfiOf;
    MfiIs(bars, std, i);
    MfiFromTotals(bars, i);
    if i >= 13 {
      OscillatorMeans(Total(Inflows(bars), i - 13, i + 1), Total(Outflows(bars), i - 13, i + 1));
    }
  }

  lemma MfiFromTotals(bars: seq<Bar>, i: nat)
    requires i < |bars|
    ensures MfiOf(bars)[i] ==
            if i < 13 then Missing
            else Oscillator(Over(Num(Total(Inflows(bars), i - 13, i + 1)), Num(Total(Outflows(bars), i - 13, i + 1))))
  {
    hide Oscillator, Over, Total, Present, Inflows, Outflows, MfiOf, Rolling;
    MfiFromFlows(bars, i);
    var lo := WindowStart(i, 14);
    RollingSum(Inflows(bars), i, 14, 14);
    RollingSum(Outflows(bars), i, 14, 14);
    FlowsPresent(bars);
    PresentAtMost(Inflows(bars), lo, i + 1);
    PresentAtMost(Outflows(bars), lo, i + 1);
    OscillatorMeans(0.0, 0.0);
  }

  lemma MfiIs(bars: seq<Bar>, std: seq<real> -> real, i: nat)
    requires i < |bars|
    ensures At(bars, std, "Ticker_MFI", i) == MfiOf(bars)[i]
  {
    OscillatorNames();
    hide Named, At, MfiOf;
    AtIs(bars, std, "Ticker_MFI", i);
  }

  lemma FlowsPresent(bars: seq<Bar>)
    ensures forall k :: 0 <= k < |bars| ==> Inflows(bars)[k].Num? && Outflows(bars)[k].Num?
  {}

  /** VWAP times the volume of the last 14 rows is the money that moved on those of them that have a price; it exists
      when one of them has and their volume is not 0. */
  lemma VwapMeans(bars: seq<Bar>, std: seq<real> -> real, i: nat)
    requires i < |bars|
    ensures var vwap, lo := At(bars, std, "Ticker_VWAP", i), if i < 13 then 0 else i - 13;
            var money, volume := Total(MoneySeries(bars), lo, i + 1), Total(VolumeSeries(bars), lo, i + 1);
            && (vwap.Num? <==> volume != 0.0 && exists k :: lo <= k <= i && Priced(bars[k]))
            && (vwap.Num? ==> vwap.v * volume == money)
  {
    hide Over, Total, At, MoneySeries, VolumeSeries;
    var lo := if i < 13 then 0 else i - 13;
    VwapFromTotals(bars, std, i);
    OverTimes(Total(MoneySeries(bars), lo, i + 1), Total(VolumeSeries(bars), lo, i + 1));
  }

  lemma VwapFromTotals(bars: seq<Bar>, std: seq<real> -> real, i: nat)
    requires i < |bars|
    ensures var lo := if i < 13 then 0 else i - 13;
            At(bars, std, "Ticker_VWAP", i) ==
            if exists k :: lo <= k <= i && Priced(bars[k]) then
              Over(Num(Total(MoneySeries(bars), lo, i + 1)), Num(Total(VolumeSeries(bars), lo, i + 1)))
            else Missing
  {
    VwapIs(bars, std, i);
    hide Over, Total, Present, At, Rolling, Priced, Money;
    var lo := WindowStart(i, 14);
    RollingSum(MoneySeries(bars), i, 14, 1);
    RollingSum(VolumeSeries(bars), i, 14, 1);
    PresentSome(MoneySeries(bars), lo, i + 1);
    PresentSome(VolumeSeries(bars), lo, i + 1);
    assert VolumeSeries(bars)[i].Num?;
    assert forall k :: lo <= k <= i ==> (Priced(bars[k]) <==> MoneySeries(bars)[k].Num?);
    OverTimes(0.0, Total(VolumeSeries(bars), lo, i + 1));
  }

  lemma OverTimes(x: real, y: real)
    ensures Over(Num(x), Num(y)).Num? <==> y != 0.0
    ensures y != 0.0 ==> Over(Num(x), Num(y)).v * y == x
    ensures Over(Missing, Num(y)) == Missing
  {}

  lemma VwapIs(bars: seq<Bar>, std: seq<real> -> real, i: nat)
    requires i < |bars|
    ensures At(bars, std, "Ticker_VWAP", i) ==
            Over(Rolling(MoneySeries(bars), 14, 1, Sum)[i], Rolling(VolumeSeries(bars), 14, 1, Sum)[i])
  {
    OscillatorNames();
    hide Named, At, Rolling, MoneyFlow, Over;
    AtIs(bars, std, "Ticker_VWAP", i);
    MoneyIs(bars);
    assert VolumeSeries(bars) == Volumes(bars);
  }

  lemma {:induction false} PresentSome(s: Series, lo: nat, hi: nat)
    requires lo <= hi <= |s|
    ensures Present(s, lo, hi) >= 1 <==> exists k :: lo <= k < hi && s[k].Num?
  {
    if lo < hi {
      PresentSome(s, lo, hi - 1);
    }
  }

  // ---------- the 52-week columns ----------

  ghost function HighSeries(bars: seq<Bar>): (r: Series)
    ensures |r| == |bars|
  {
    seq(|bars|, k requires 0 <= k < |bars| => bars[k].high)
  }

  ghost function LowSeries(bars: seq<Bar>): (r: Series)
    ensures |r| == |bars|
  {
    seq(|bars|, k requires 0 <= k < |bars| => bars[k].low)
  }

  lemma {:induction false} ExtremesAre(s: seq<real>)
    requires s != []
    ensures MaxOf(s) in s && forall x :: x in s ==> x <= MaxOf(s)
    ensures MinOf(s) in s && forall x :: x in s ==> MinOf(s) <= x
  {
    if |s| > 1 {
      assert s == s[..|s| - 1] + [s[|s| - 1]];
      ExtremesAre(s[..|s| - 1]);
    }
  }

  /** x is the greatest, or the least, of the values present in rows lo, .., hi - 1. */
  ghost predicate IsGreatest(s: Series, lo: nat, hi: nat, x: real)
    requires hi <= |s|
  {
    && (exists k :: lo <= k < hi && s[k] == Num(x))
    && (forall k :: lo <= k < hi && s[k].Num? ==> s[k].v <= x)
  }

  ghost predicate IsLeast(s: Series, lo: nat, hi: nat, x: real)
    requires hi <= |s|
  {
    && (exists k :: lo <= k < hi && s[k] == Num(x))
    && (forall k :: lo <= k < hi && s[k].Num? ==> x <= s[k].v)
  }

  lemma RollingExtremes(s: Series, i: nat)
    requires i < |s|
    ensures var lo, top, bottom := WindowStart(i, 252), Rolling(s, 252, 20, MaxOf)[i], Rolling(s, 252, 20, MinOf)[i];
            && (top.Num? <==> Present(s, lo, i + 1) >= 20) && (bottom.Num? <==> Present(s, lo, i + 1) >= 20)
            && (top.Num? ==> IsGreatest(s, lo, i + 1, top.v)) && (bottom.Num? ==> IsLeast(s, lo, i + 1, bottom.v))
  {
    hide Observed, MaxOf, MinOf, Present, Rolling, IsGreatest, IsLeast, Sum, Total;
    var lo := WindowStart(i, 252);
    var seen := Observed(s[lo..i + 1]);
    ExtremesOfWindow(s, i);
    ObservedTotals(s, lo, i + 1);
    if |seen| >= 20 {
      ExtremesAre(seen);
      GreatestAndLeast(s, lo, i + 1, MaxOf(seen), MinOf(seen));
    }
  }

  lemma ExtremesOfWindow(s: Series, i: nat)
    requires i < |s|
    ensures var seen := Observed(s[WindowStart(i, 252)..i + 1]);
            && Rolling(s, 252, 20, MaxOf)[i] == (if |seen| < 20 then Missing else Num(MaxOf(seen)))
            && Rolling(s, 252, 20, MinOf)[i] == (if |seen| < 20 then Missing else Num(MinOf(seen)))
  {
    hide Observed, MaxOf, MinOf;
  }

  lemma GreatestAndLeast(s: Series, lo: nat, hi: nat, top: real, bottom: real)
    requires lo <= hi <= |s|
    requires var seen := Observed(s[lo..hi]);
             top in seen && bottom in seen && forall x :: x in seen ==> bottom <= x <= top
    ensures IsGreatest(s, lo, hi, top) && IsLeast(s, lo, hi, bottom)
  {
    hide Observed;
    var win := s[lo..hi];
    forall x: real ensures x in Observed(win) <==> exists k :: lo <= k < hi && s[k] == Num(x) {
      ObservedMembers(win, x);
      if Num(x) in win {
        var j :| 0 <= j < |win| && win[j] == Num(x);
        assert s[lo + j] == Num(x);
      }
      if k :| lo <= k < hi && s[k] == Num(x) {
        assert win[k - lo] == Num(x);
      }
    }
    forall k | lo <= k < hi && s[k].Num? ensures bottom <= s[k].v <= top {
      assert s[k] == Num(s[k].v);
    }
  }

  /** The 52-week high and low exist when 20 of the last 252 rows have one, and are the greatest and the least of
      them. */
  lemma ExtremesMean(bars: seq<Bar>, std: seq<real> -> real, i: nat)
    requires i < |bars|
    ensures var lo := if i < 251 then 0 else i - 251;
            var top, bottom := At(bars, std, "Ticker_52W_High", i), At(bars, std, "Ticker_52W_Low", i);
            && (top.Num? <==> Present(HighSeries(bars), lo, i + 1) >= 20)
            && (top.Num? ==> IsGreatest(HighSeries(bars), lo, i + 1, top.v))
            && (bottom.Num? <==> Present(LowSeries(bars), lo, i + 1) >= 20)
            && (bottom.Num? ==> IsLeast(LowSeries(bars), lo, i + 1, bottom.v))
  {
    HighsAndLows(bars, std, i);
    hide At, Rolling, HighSeries, LowSeries, IsGreatest, IsLeast, Present;
    RollingExtremes(HighSeries(bars), i);
    RollingExtremes(LowSeries(bars), i);
  }

  lemma HighsAndLows(bars: seq<Bar>, std: seq<real> -> real, i: nat)
    requires i < |bars|
    ensures At(bars, std, "Ticker_52W_High", i) == Rolling(HighSeries(bars), 252, 20, MaxOf)[i]
    ensures At(bars, std, "Ticker_52W_Low", i) == Rolling(LowSeries(bars), 252, 20, MinOf)[i]
  {
    YearNames();
    hide Named, At, Rolling, MaxOf, MinOf;
    AtIs(bars, std, "Ticker_52W_High", i);
    AtIs(bars, std, "Ticker_52W_Low", i);
    assert Field(bars, (b: Bar) => b.high) == HighSeries(bars);
    assert Field(bars, (b: Bar) => b.low) == LowSeries(bars);
  }

  /** The 52-week position says how far, in percent, the close is on the way from the low to the high; it exists when
      close, low and high do and the last two differ. */
  lemma PositionMeans(bars: seq<Bar>, std: seq<real> -> real, i: nat)
    requires i < |bars|
    ensures var position, close := At(bars, std, "Ticker_52W_Range_Pct", i), bars[i].close;
            var top, bottom := At(bars, std, "Ticker_52W_High", i), At(bars, std, "Ticker_52W_Low", i);
            && (position.Num? <==> close.Num? && top.Num? && bottom.Num? && top.v != bottom.v)
            && (position.Num? ==> close.v == bottom.v + position.v / 100.0 * (top.v - bottom.v))
  {
    hide At, RangePosition, Percent;
    PositionIs(bars, std, i);
    PositionSolves(bars[i].close, At(bars, std, "Ticker_52W_Low", i), At(bars, std, "Ticker_52W_High", i));
  }

  lemma PositionIs(bars: seq<Bar>, std: seq<real> -> real, i: nat)
    requires i < |bars|
    ensures At(bars, std, "Ticker_52W_Range_Pct", i) ==
            Percent(RangePosition(bars[i].close, At(bars, std, "Ticker_52W_Low", i),
                                  At(bars, std, "Ticker_52W_High", i)))
  {
    YearNames();
    hide Named, At, Low52Of, High52Of, RangePosition, Percent;
    AtIs(bars, std, "Ticker_52W_Range_Pct", i);
    AtIs(bars, std, "Ticker_52W_High", i);
    AtIs(bars, std, "Ticker_52W_Low", i);
  }

  lemma PositionSolves(close: Cell, low: Cell, high: Cell)
    ensures var p := Percent(RangePosition(close, low, high));
            && (p.Num? <==> close.Num? && low.Num? && high.Num? && high.v != low.v)
            && (p.Num? ==> close.v == low.v + p.v / 100.0 * (high.v - low.v))
  {
    if close.Num? && low.Num? && high.Num? && high.v != low.v {
      var r := (close.v - low.v) / (high.v - low.v);
      assert r * (high.v - low.v) == close.v - low.v;
      assert r * 100.0 / 100.0 == r;
    }
  }

  // ---------- Bollinger ----------

  /** The last 20 closes. */
  ghost function Last20(bars: seq<Bar>, i: nat): seq<real>
    requires i < |bars| && HasCloses(bars, i - 19, i)
  {
    seq(20, k requires 0 <= k < 20 => bars[i - 19 + k].close.v)
  }

  lemma {:induction false} ObservedAll(s: Series, values: seq<real>)
    requires |s| == |values| && forall k :: 0 <= k < |s| ==> s[k] == Num(values[k])
    ensures Observed(s) == values
  {
    if s != [] {
      var n := |s| - 1;
      ObservedAll(s[..n], values[..n]);
      assert values == values[..n] + [values[n]];
    }
  }

  /** %B is 1/2 at the mean of the last 20 closes and moves by 1 per four deviations; it exists when the 20 closes do
      and deviate. */
  lemma BandMeans(bars: seq<Bar>, std: seq<real> -> real, i: nat)
    requires i < |bars|
    ensures var b := At(bars, std, "Ticker_Bollinger_PBand", i);
            && (b.Num? <==> HasCloses(bars, i - 19, i) && std(Last20(bars, i)) != 0.0)
            && (b.Num? ==>
                  var mean, deviation := Total(CloseSeries(bars), i - 19, i + 1) / 20.0, std(Last20(bars, i));
                  bars[i].close.v == mean + (b.v - 0.5) * 4.0 * deviation)
  {
    hide At, Total, CloseSeries, PercentB, Last20;
    BandIs(bars, std, i);
    NoBand(bars[i].close);
    if HasCloses(bars, i - 19, i) {
      BandSolves(bars[i].close.v, Total(CloseSeries(bars), i - 19, i + 1) / 20.0, std(Last20(bars, i)));
    }
  }

  lemma BandSolves(close: real, mean: real, deviation: real)
    ensures var b := PercentB(Num(close), Num(mean), Num(deviation));
            && (b.Num? <==> deviation != 0.0)
            && (b.Num? ==> close == mean + (b.v - 0.5) * 4.0 * deviation)
  {
    if deviation != 0.0 {
      var b := (close - (mean - deviation * 2.0)) / (mean + deviation * 2.0 - (mean - deviation * 2.0));
      assert b * (4.0 * deviation) == close - (mean - deviation * 2.0);
      assert (b - 0.5) * 4.0 * deviation == b * (4.0 * deviation) - 2.0 * deviation;
    }
  }

  lemma NoBand(close: Cell)
    ensures PercentB(close, Missing, Missing) == Missing
  {}

  lemma BandIs(bars: seq<Bar>, std: seq<real> -> real, i: nat)
    requires i < |bars|
    ensures At(bars, std, "Ticker_Bollinger_PBand", i) ==
            if HasCloses(bars, i - 19, i)
            then PercentB(bars[i].close, Num(Total(CloseSeries(bars), i - 19, i + 1) / 20.0), Num(std(Last20(bars, i))))
            else PercentB(bars[i].close, Missing, Missing)
  {
    OscillatorNames();
    hide Named, At, PercentB, Total, Rolling, SmaOf;
    AtIs(bars, std, "Ticker_Bollinger_PBand", i);
    assert CloseSeries(bars) == Closes(bars);
    DeviationIs(bars, std, i);
    SmaMeans(bars, 20, i);
  }

  lemma DeviationIs(bars: seq<Bar>, std: seq<real> -> real, i: nat)
    requires i < |bars|
    ensures Rolling(CloseSeries(bars), 20, 20, std)[i] ==
            if HasCloses(bars, i - 19, i) then Num(std(Last20(bars, i))) else Missing
  {
    var s, lo := CloseSeries(bars), WindowStart(i, 20);
    ObservedTotals(s, lo, i + 1);
    PresentAtMost(s, lo, i + 1);
    assert forall k :: lo <= k <= i ==> s[k] == bars[k].close;
    if HasCloses(bars, i - 19, i) {
      ObservedAll(s[lo..i + 1], Last20(bars, i));
    }
    hide Total, Present, Observed, Sum;
  }
}
