/** The values indicator columns can take. */
module IndicatorRanges {
  import opened Values
  import opened Frames
  import opened Indicators

  ghost predicate InRange(x: Cell, lo: real, hi: real) { x.Num? ==> lo <= x.v <= hi }

  ghost predicate AllInRange(s: Series, lo: real, hi: real) { forall i :: 0 <= i < |s| ==> InRange(s[i], lo, hi) }

  ghost predicate InHalfOpen(x: Cell, lo: real, hi: real) { x.Num? ==> lo <= x.v < hi }

  ghost predicate AllInHalfOpen(s: Series, lo: real, hi: real) { forall i :: 0 <= i < |s| ==> InHalfOpen(s[i], lo, hi) }

  ghost predicate NonNegative(s: Series) { forall i :: 0 <= i < |s| && s[i].Num? ==> s[i].v >= 0.0 }

  /** A sound daily bar: prices positive with low <= close <= high, volume missing or nonnegative. */
  predicate Sound(b: Bar) {
    && b.high.Num? && b.low.Num? && b.close.Num?
    && 0.0 < b.low.v <= b.close.v <= b.high.v
    && (b.volume.Num? ==> b.volume.v >= 0.0)
  }

  predicate NotNegative(x: Cell) { x.Num? ==> x.v >= 0.0 }

  /** Nothing is required to be present, only what is present must not be negative. */
  predicate NowhereNegative(b: Bar) {
    NotNegative(b.high) && NotNegative(b.low) && NotNegative(b.close) && NotNegative(b.volume)
  }

  ghost predicate AllSound(bars: seq<Bar>) { forall i :: 0 <= i < |bars| ==> Sound(bars[i]) }

  lemma {:induction false} ObservedMembers(s: Series, x: real)
    ensures x in Observed(s) <==> Num(x) in s
  {
    if s != [] {
      var front, last := s[..|s| - 1], s[|s| - 1];
      assert s == front + [last];
      ObservedMembers(front, x);
    }
  }

  lemma {:induction false} SumIsNonNegative(s: seq<real>)
    requires forall k :: 0 <= k < |s| ==> s[k] >= 0.0
    ensures Sum(s) >= 0.0
  {
    if s != [] {
      SumIsNonNegative(s[..|s| - 1]);
    }
  }

  lemma MeanIsNonNegative(s: seq<real>)
    requires forall k :: 0 <= k < |s| ==> s[k] >= 0.0
    ensures Mean(s) >= 0.0
  {
    SumIsNonNegative(s);
    if s != [] {
      hide Sum;
      NonNegativeQuotient(Sum(s), |s| as real);
    }
  }

  lemma NonNegativeQuotient(x: real, n: real)
    requires x >= 0.0 && n > 0.0
    ensures x / n >= 0.0
  {
    NonNegativeFactor(x / n, n);
  }

  lemma WindowObservationsNonNegative(s: Series, i: nat, w: nat) returns (seen: seq<real>)
    requires i < |s| && NonNegative(s)
    ensures seen == Observed(Window(s, i, w))
    ensures forall k :: 0 <= k < |seen| ==> seen[k] >= 0.0
  {
    var win := Window(s, i, w);
    seen := Observed(win);
    forall k | 0 <= k < |seen| ensures seen[k] >= 0.0 {
      ObservedMembers(win, seen[k]);
      assert Observed(win)[k] in Observed(win);
      var j :| 0 <= j < |win| && win[j] == Num(Observed(win)[k]);
      assert win[j] == s[(if i + 1 < w then 0 else i + 1 - w) + j];
    }
  }

  lemma RollingSumNonNegative(s: Series, w: nat, minPeriods: nat)
    requires NonNegative(s)
    ensures NonNegative(Rolling(s, w, minPeriods, Sum))
  {
    forall i | 0 <= i < |s|
      ensures RollingAt(s, i, w, minPeriods, Sum).Num? ==> RollingAt(s, i, w, minPeriods, Sum).v >= 0.0
    {
      var seen := WindowObservationsNonNegative(s, i, w);
      SumIsNonNegative(seen);
    }
  }

  lemma RollingMeanNonNegative(s: Series, w: nat, minPeriods: nat)
    requires NonNegative(s)
    ensures NonNegative(Rolling(s, w, minPeriods, Mean))
  {
    forall i | 0 <= i < |s|
      ensures RollingAt(s, i, w, minPeriods, Mean).Num? ==> RollingAt(s, i, w, minPeriods, Mean).v >= 0.0
    {
      var seen := WindowObservationsNonNegative(s, i, w);
      MeanIsNonNegative(seen);
    }
  }

  lemma OscillatorInRange(up: Cell, down: Cell)
    requires (up.Num? ==> up.v >= 0.0) && (down.Num? ==> down.v >= 0.0)
    ensures InHalfOpen(Oscillator(Over(up, down)), 0.0, 100.0)
  {
    if up.Num? && down.Num? && down.v != 0.0 {
      var r := up.v / down.v;
      assert r * down.v == up.v;
      assert r >= 0.0;
      var q := 100.0 / (1.0 + r);
      assert q * (1.0 + r) == 100.0;
      assert q > 0.0;
      assert q <= 100.0;
    }
  }

  /** RSI is missing or in [0, 100) for all closes: without any loss it is missing, so 100 is never reached. */
  lemma RsiInRange(bars: seq<Bar>)
    ensures AllInHalfOpen(RsiOf(bars), 0.0, 100.0)
  {
    hide Oscillator, Over;
    var delta := Delta(Closes(bars));
    var gain, loss := Map1(Gain, delta), Map1(Loss, delta);
    RollingMeanNonNegative(gain, 14, 14);
    RollingMeanNonNegative(loss, 14, 14);
    var up, down := Rolling(gain, 14, 14, Mean), Rolling(loss, 14, 14, Mean);
    forall i | 0 <= i < |bars| ensures InHalfOpen(RsiOf(bars)[i], 0.0, 100.0) {
      OscillatorInRange(up[i], down[i]);
      assert RsiOf(bars)[i] == Oscillator(Over(up[i], down[i]));
    }
  }

  lemma FlowIsNonNegative(b: Bar)
    requires NowhereNegative(b)
    ensures NotNegative(Times(TypicalPrice(b), Num(FillNa(b.volume, 0.0))))
  {
    if TypicalPrice(b).Num? {
      var price, volume := TypicalPrice(b).v, FillNa(b.volume, 0.0);
      assert price * 3.0 == b.high.v + b.low.v + b.close.v;
      assert price * volume >= 0.0;
    }
  }

  /** MFI is missing or in [0, 100) when nothing present is negative. */
  lemma MfiInRange(bars: seq<Bar>)
    requires forall i :: 0 <= i < |bars| ==> NowhereNegative(bars[i])
    ensures AllInHalfOpen(MfiOf(bars), 0.0, 100.0)
  {
    hide Oscillator, Over, TypicalPrice, FillNa, NowhereNegative;
    var price, flow := TypicalPrices(bars), MoneyFlow(bars);
    var previous := Shift(price, 1);
    assert NonNegative(flow) by {
      forall i | 0 <= i < |flow| && flow[i].Num? ensures flow[i].v >= 0.0 {
        FlowIsNonNegative(bars[i]);
      }
    }
    var rising, falling := Map3(RisingFlow, flow, price, previous), Map3(FallingFlow, flow, price, previous);
    RollingSumNonNegative(rising, 14, 14);
    RollingSumNonNegative(falling, 14, 14);
    var up, down := Rolling(rising, 14, 14, Sum), Rolling(falling, 14, 14, Sum);
    forall i | 0 <= i < |bars| ensures InHalfOpen(MfiOf(bars)[i], 0.0, 100.0) {
      OscillatorInRange(up[i], down[i]);
      assert MfiOf(bars)[i] == Oscillator(Over(up[i], down[i]));
    }
  }

  lemma {:induction false} LastWithinExtremes(s: seq<real>)
    requires s != []
    ensures MinOf(s) <= s[|s| - 1] <= MaxOf(s)
  {}

  lemma LastOfWindow(s: Series, i: nat)
    requires i < |s| && s[i].Num?
    ensures var seen := Observed(Window(s, i, 252)); seen != [] && seen[|seen| - 1] == s[i].v
  {
    var win := Window(s, i, 252);
    assert win[|win| - 1] == s[i];
  }

  lemma PositionInRange(close: real, low: real, high: real)
    requires low <= close <= high
    ensures InRange(RangePosition(Num(close), Num(low), Num(high)), 0.0, 1.0)
    ensures InRange(Percent(RangePosition(Num(close), Num(low), Num(high))), 0.0, 100.0)
  {
    if high != low {
      var r := (close - low) / (high - low);
      assert r * (high - low) == close - low;
      NonNegativeFactor(r, high - low);
      assert (1.0 - r) * (high - low) == high - close;
      NonNegativeFactor(1.0 - r, high - low);
    }
  }

  /** The 52-week position is missing or in [0, 100] on sound bars. */
  lemma Range52InRange(bars: seq<Bar>, std: seq<real> -> real)
    requires AllSound(bars)
    ensures AllInRange(Compute(bars, std, Range52), 0.0, 100.0)
  {
    hide RangePosition, Percent, MinOf, MaxOf;
    var low, high := Field(bars, (b: Bar) => b.low), Field(bars, (b: Bar) => b.high);
    forall i | 0 <= i < |bars| ensures InRange(Compute(bars, std, Range52)[i], 0.0, 100.0) {
      LastOfWindow(low, i);
      LastOfWindow(high, i);
      LastWithinExtremes(Observed(Window(low, i, 252)));
      LastWithinExtremes(Observed(Window(high, i, 252)));
      assert Sound(bars[i]);
      var l, h := Low52Of(bars)[i], High52Of(bars)[i];
      assert Compute(bars, std, Range52)[i] == Percent(RangePosition(bars[i].close, l, h));
      if l.Num? && h.Num? {
        PositionInRange(bars[i].close.v, l.v, h.v);
      } else {
        MissingPosition(bars[i].close, l, h);
      }
    }
  }

  lemma MissingPosition(close: Cell, low: Cell, high: Cell)
    requires low.Missing? || high.Missing?
    ensures Percent(RangePosition(close, low, high)).Missing?
  {}

  lemma ScoreInRange(rsi: Cell, macd: Cell, signal: Cell, close: Cell, sma50: Cell, sma200: Cell,
                     percentB: Cell, mfi: Cell, return63: Cell, range: Cell)
    requires InHalfOpen(rsi, 0.0, 100.0)
    ensures 0.0 <= Score(rsi, macd, signal, close, sma50, sma200, percentB, mfi, return63, range) < 200.0
  {}

  /** The composite score is never missing and stays in [0, 200), whatever the bars hold. */
  lemma TechScoreInRange(bars: seq<Bar>, std: seq<real> -> real)
    ensures forall i :: 0 <= i < |bars| ==>
              Compute(bars, std, TechScore)[i].Num? && InHalfOpen(Compute(bars, std, TechScore)[i], 0.0, 200.0)
  {
    hide Score;
    var rsi, mfi, percentB := RsiOf(bars), MfiOf(bars), BollingerOf(bars, std);
    var macd, signal := MacdOf(bars), EwmMean(MacdOf(bars), 9);
    RsiInRange(bars);
    forall i | 0 <= i < |bars|
      ensures Compute(bars, std, TechScore)[i].Num? && InHalfOpen(Compute(bars, std, TechScore)[i], 0.0, 200.0)
    {
      ScoreInRange(rsi[i], macd[i], signal[i], Closes(bars)[i], SmaOf(bars, 50)[i], SmaOf(bars, 200)[i],
                   percentB[i], mfi[i], ReturnOf(bars, 63)[i], PositionOf(bars)[i]);
    }
  }
}
