/** What the recursive columns and the composite score say about the bars. */
module TrendMeaning {
  import opened Frames
  import opened Indicators
  import opened IndicatorRanges
  import opened IndicatorMeaning
  import opened EmaDrift

  // ---------- exponential means ----------

  /** Rows lo, .., hi - 1 have no value. */
  ghost predicate Empty(s: Series, lo: nat, hi: nat)
    requires hi <= |s|
  {
    forall k :: lo <= k < hi ==> s[k].Missing?
  }

  lemma {:induction false} NoMeanYet(s: Series, alpha: Rate, n: nat)
    requires n <= |s|
    ensures EwmAt(s, alpha, n).mean.Missing? <==> Empty(s, 0, n)
  {
    hide Decay, Blend;
    if n > 0 {
      NoMeanYet(s, alpha, n - 1);
    }
  }

  /** Over a gap the mean stays and its weight decays. */
  lemma {:induction false} MeanOverGap(s: Series, alpha: Rate, j: nat, n: nat)
    requires j < n <= |s| && s[j].Num? && Empty(s, j + 1, n)
    ensures EwmAt(s, alpha, n).mean == EwmAt(s, alpha, j + 1).mean
    ensures EwmAt(s, alpha, n).mean.Num? && EwmAt(s, alpha, n).weight == Pow(1.0 - alpha, n - 1 - j)
  {
    hide Blend;
    if n > j + 1 {
      MeanOverGap(s, alpha, j, n - 1);
    }
  }

  lemma BlendTimes(weight: Share, alpha: Rate, mean: real, x: real)
    ensures Product(Blend(weight, alpha, mean, x), weight + alpha) == Product(weight, mean) + Product(alpha, x)
  {}

  /** The next value after a gap of any length: with p = (1 - alpha) ^ (rows since the last value), the mean is the old
      one weighted by p and the new value weighted by alpha. */
  lemma MeanAfterGap(s: Series, alpha: Rate, j: nat, i: nat)
    requires j < i < |s| && s[j].Num? && s[i].Num? && Empty(s, j + 1, i)
    ensures EwmAt(s, alpha, j + 1).mean.Num? && EwmAt(s, alpha, i + 1).mean.Num?
    ensures var p := Pow(1.0 - alpha, i - j);
            Product(EwmAt(s, alpha, i + 1).mean.v, p + alpha) ==
            Product(p, EwmAt(s, alpha, j + 1).mean.v) + Product(alpha, s[i].v)
  {
    hide Blend, Product, Pow, EwmAt;
    MeanOverGap(s, alpha, j, i);
    StepWithValue(s, alpha, i);
    var before := EwmAt(s, alpha, i);
    DecayedPow(before.weight, alpha, i - j);
    BlendTimes(Decay(before.weight, alpha), alpha, before.mean.v, s[i].v);
  }

  lemma StepWithValue(s: Series, alpha: Rate, i: nat)
    requires i < |s| && s[i].Num? && EwmAt(s, alpha, i).mean.Num?
    ensures var before := EwmAt(s, alpha, i);
            EwmAt(s, alpha, i + 1).mean == Num(Blend(Decay(before.weight, alpha), alpha, before.mean.v, s[i].v))
  {
    hide Blend, Decay;
  }

  lemma DecayedPow(weight: Share, alpha: Rate, n: nat)
    requires n > 0 && weight == Pow(1.0 - alpha, n - 1)
    ensures Decay(weight, alpha) == Pow(1.0 - alpha, n)
  {}

  /** The mean after x was seen `rows` rows after the last value: with a = 2 / (span + 1) the old mean counts (1 - a) to
      that power, and x counts a. */
  ghost predicate Moves(span: nat, rows: nat, before: real, x: real, mean: real) {
    var a := 2.0 / (span as real + 1.0);
    var p := Pow(1.0 - a, rows);
    mean * (p + a) == p * before + a * x
  }

  /** Row i of an exponential mean: missing before the first value, which it starts with; where a value is missing it
      stays; and each further value moves it. */
  ghost predicate FollowsAt(mean: Series, s: Series, span: nat, i: nat)
    requires |mean| == |s| && i < |s|
  {
    && (mean[i].Missing? <==> Empty(s, 0, i + 1))
    && (Empty(s, 0, i) ==> mean[i] == s[i])
    && (i > 0 && s[i].Missing? ==> mean[i] == mean[i - 1])
    && (forall j :: 0 <= j < i && s[j].Num? && s[i].Num? && Empty(s, j + 1, i) ==>
          mean[j].Num? && mean[i].Num? && Moves(span, i - j, mean[j].v, s[i].v, mean[i].v))
  }

  ghost predicate Follows(mean: Series, s: Series, span: nat) {
    |mean| == |s| && forall i :: 0 <= i < |s| ==> FollowsAt(mean, s, span, i)
  }

  lemma EwmFollows(s: Series, span: Pos)
    ensures Follows(EwmMean(s, span), s, span)
  {
    hide Moves;
    forall i | 0 <= i < |s| ensures FollowsAt(EwmMean(s, span), s, span, i) {
      NoMeanYet(s, Alpha(span), i);
      NoMeanYet(s, Alpha(span), i + 1);
      forall j | 0 <= j < i && s[j].Num? && s[i].Num? && Empty(s, j + 1, i)
        ensures var mean := EwmMean(s, span);
                mean[j].Num? && mean[i].Num? && Moves(span, i - j, mean[j].v, s[i].v, mean[i].v)
      {
        MeanMoves(s, span, j, i);
      }
      hide Decay, Blend;
    }
  }

  lemma MeanMoves(s: Series, span: Pos, j: nat, i: nat)
    requires j < i < |s| && s[j].Num? && s[i].Num? && Empty(s, j + 1, i)
    ensures var mean := EwmMean(s, span);
            mean[j].Num? && mean[i].Num? && Moves(span, i - j, mean[j].v, s[i].v, mean[i].v)
  {
    hide EwmAt, Pow;
    MeanAfterGap(s, Alpha(span), j, i);
  }

  lemma {:induction false} LastValue(s: Series, i: nat) returns (j: nat)
    requires i <= |s| && !Empty(s, 0, i)
    ensures j < i && s[j].Num? && Empty(s, j + 1, i)
  {
    if s[i - 1].Num? {
      j := i - 1;
    } else {
      j := LastValue(s, i - 1);
    }
  }

  /** These rules determine the mean. */
  lemma {:induction false} OnlyOneFollows(a: Series, b: Series, s: Series, span: Pos, n: nat)
    requires Follows(a, s, span) && Follows(b, s, span) && n <= |s|
    ensures a[..n] == b[..n]
  {
    if n > 0 {
      hide Moves, Follows;
      OnlyOneFollows(a, b, s, span, n - 1);
      var i := n - 1;
      assert FollowsAt(a, s, span, i) && FollowsAt(b, s, span, i);
      if s[i].Num? && !Empty(s, 0, i) {
        var j := LastValue(s, i);
        assert a[..i][j] == b[..i][j];
        SameMove(span, i - j, a[j].v, s[i].v, a[i].v, b[i].v);
      } else if i > 0 {
        assert a[..i][i - 1] == b[..i][i - 1];
      }
      assert a[..n] == a[..i] + [a[i]] && b[..n] == b[..i] + [b[i]];
    }
  }

  lemma SameMove(span: Pos, rows: nat, before: real, x: real, mean: real, other: real)
    requires Moves(span, rows, before, x, mean) && Moves(span, rows, before, x, other)
    ensures mean == other
  {
    var a := 2.0 / (span as real + 1.0);
    assert a * (span as real + 1.0) == 2.0;
    assert 0.0 < a <= 1.0;
    PowNonNegative(1.0 - a, rows);
    var d := Pow(1.0 - a, rows) + a;
    assert (mean - other) * d == 0.0;
    ZeroFactor(mean - other, d);
  }

  lemma {:induction false} PowNonNegative(x: real, n: nat)
    requires x >= 0.0
    ensures Pow(x, n) >= 0.0
  {
    if n > 0 {
      PowNonNegative(x, n - 1);
    }
  }

  /** What a ticker's table shows in a column. */
  ghost function Column(bars: seq<Bar>, std: seq<real> -> real, name: string): (r: Series)
    ensures |r| == |bars|
  {
    seq(|bars|, k requires 0 <= k < |bars| => At(bars, std, name, k))
  }

  lemma EmaIs(bars: seq<Bar>, std: seq<real> -> real, name: string, span: nat)
    requires EmaSpan(name, span)
    ensures span > 0 && Column(bars, std, name) == EwmMean(CloseSeries(bars), span)
  {
    hide Named, EwmMean, At, EmaSpan;
    EmaNames(name, span);
    forall i | 0 <= i < |bars| ensures At(bars, std, name, i) == Compute(bars, std, Ema(span))[i] {
      AtIs(bars, std, name, i);
    }
    assert CloseSeries(bars) == Closes(bars);
  }

  /** The five EMA columns are the exponential means of the closes. */
  lemma EmaMeans(bars: seq<Bar>, std: seq<real> -> real, name: string, span: nat)
    requires EmaSpan(name, span)
    ensures Follows(Column(bars, std, name), CloseSeries(bars), span)
  {
    hide EmaSpan, Named, EwmMean, Column, Follows;
    EmaIs(bars, std, name, span);
    EwmFollows(CloseSeries(bars), span);
  }

  // ---------- MACD ----------

  /** Row by row the difference of two columns, missing where one of them is. */
  ghost predicate IsDifference(d: Series, a: Series, b: Series) {
    |d| == |a| == |b| &&
    forall i :: 0 <= i < |d| ==>
      (d[i].Num? <==> a[i].Num? && b[i].Num?) && (d[i].Num? ==> d[i].v == a[i].v - b[i].v)
  }

  /** MACD is the 12-day mean of the closes less the 26-day one, its signal the 9-day mean of MACD, and the third column
      their difference. */
  lemma MacdMeans(bars: seq<Bar>, std: seq<real> -> real)
    ensures var closes, macd := CloseSeries(bars), Column(bars, std, "Ticker_MACD");
            var signal, difference := Column(bars, std, "Ticker_MACD_Signal"), Column(bars, std, "Ticker_MACD_Diff");
            && Follows(EwmMean(closes, 12), closes, 12) && Follows(EwmMean(closes, 26), closes, 26)
            && IsDifference(macd, EwmMean(closes, 12), EwmMean(closes, 26))
            && Follows(signal, macd, 9) && IsDifference(difference, macd, signal)
  {
    hide EwmMean, Follows, IsDifference, Column, MacdOf;
    var closes, macd := CloseSeries(bars), Column(bars, std, "Ticker_MACD");
    EwmFollows(closes, 12);
    EwmFollows(closes, 26);
    MacdIs(bars, std);
    EwmFollows(macd, 9);
    MinusIsDifference(EwmMean(closes, 12), EwmMean(closes, 26));
    MinusIsDifference(macd, EwmMean(macd, 9));
  }

  lemma MinusIsDifference(a: Series, b: Series)
    requires |a| == |b|
    ensures IsDifference(Map2(Minus, a, b), a, b)
  {
    assert forall i :: 0 <= i < |a| ==> Map2(Minus, a, b)[i] == Minus(a[i], b[i]);
  }

  lemma MacdIs(bars: seq<Bar>, std: seq<real> -> real)
    ensures var closes, macd := CloseSeries(bars), Column(bars, std, "Ticker_MACD");
            && macd == MacdOf(bars) == Map2(Minus, EwmMean(closes, 12), EwmMean(closes, 26))
            && Column(bars, std, "Ticker_MACD_Signal") == EwmMean(macd, 9)
            && Column(bars, std, "Ticker_MACD_Diff") == Map2(Minus, macd, EwmMean(macd, 9))
  {
    hide EwmMean, At, Named;
    ScoreNames();
    assert CloseSeries(bars) == Closes(bars);
    forall i | 0 <= i < |bars|
      ensures At(bars, std, "Ticker_MACD", i) == MacdOf(bars)[i]
      ensures At(bars, std, "Ticker_MACD_Signal", i) == EwmMean(MacdOf(bars), 9)[i]
      ensures At(bars, std, "Ticker_MACD_Diff", i) == Map2(Minus, MacdOf(bars), EwmMean(MacdOf(bars), 9))[i]
    {
      AtIs(bars, std, "Ticker_MACD", i);
      AtIs(bars, std, "Ticker_MACD_Signal", i);
      AtIs(bars, std, "Ticker_MACD_Diff", i);
    }
    hide MacdOf, CloseSeries, Closes;
  }

  /** The faster mean is the nearer one: in a market that has never fallen MACD is not negative. */
  lemma {:induction false} FasterIsNearer(closes: Series, fast: Series, slow: Series, i: nat)
    requires i < |closes| && Follows(fast, closes, 12) && Follows(slow, closes, 26)
    requires forall k :: 0 <= k <= i ==> closes[k].Num?
    requires forall j, k :: 0 <= j < k <= i ==> closes[j].v <= closes[k].v
    ensures fast[i].Num? && slow[i].Num? && slow[i].v <= fast[i].v <= closes[i].v
  {
    hide Moves, Follows;
    FollowsOn(fast, closes, 12, i);
    FollowsOn(slow, closes, 26, i);
    if i > 0 {
      FasterIsNearer(closes, fast, slow, i - 1);
      assert Empty(closes, i - 1 + 1, i) && closes[i - 1].v <= closes[i].v;
      StaysNearer(fast[i - 1].v, slow[i - 1].v, closes[i].v, fast[i].v, slow[i].v);
    }
  }

  lemma FollowsOn(mean: Series, s: Series, span: nat, i: nat)
    requires Follows(mean, s, span) && i < |s|
    ensures |mean| == |s| && FollowsAt(mean, s, span, i)
  {}

  lemma StaysNearer(fast: real, slow: real, x: real, nextFast: real, nextSlow: real)
    requires slow <= fast <= x && Moves(12, 1, fast, x, nextFast) && Moves(26, 1, slow, x, nextSlow)
    ensures nextSlow <= nextFast <= x
  {
    hide Moves;
    OneRow(12, fast, x, nextFast);
    OneRow(26, slow, x, nextSlow);
  }

  lemma OneRow(span: Pos, before: real, x: real, mean: real)
    requires Moves(span, 1, before, x, mean)
    ensures mean == before + 2.0 / (span as real + 1.0) * (x - before)
  {
    var a := 2.0 / (span as real + 1.0);
    assert Pow(1.0 - a, 0) == 1.0;
    assert Pow(1.0 - a, 1) == 1.0 - a;
  }

  lemma MacdOfARisingMarket(bars: seq<Bar>, std: seq<real> -> real, i: nat)
    requires i < |bars| && HasCloses(bars, 0, i)
    requires forall j, k :: 0 <= j < k <= i ==> bars[j].close.v <= bars[k].close.v
    ensures At(bars, std, "Ticker_MACD", i).Num? && At(bars, std, "Ticker_MACD", i).v >= 0.0
  {
    hide EwmMean, At, Follows;
    var closes := CloseSeries(bars);
    MacdMeans(bars, std);
    FasterIsNearer(closes, EwmMean(closes, 12), EwmMean(closes, 26), i);
    assert Column(bars, std, "Ticker_MACD")[i] == At(bars, std, "Ticker_MACD", i);
  }

  // ---------- the composite score ----------

  /** A value held inside [lo, hi], or the default where there is none. */
  ghost function Held(x: Cell, lo: real, hi: real, default: real): real {
    if x.Missing? then default else if x.v < lo then lo else if x.v > hi then hi else x.v
  }

  ghost predicate IsAbove(x: Cell, y: Cell) { x.Num? && y.Num? && x.v > y.v }

  /** The eight terms of the score in terms of the ticker's other columns. */
  ghost function Points(bars: seq<Bar>, std: seq<real> -> real, i: nat): real
    requires i < |bars|
  {
    0.3 * Held(At(bars, std, "Ticker_RSI", i), 0.0, 100.0, 50.0)
    + (if IsAbove(At(bars, std, "Ticker_MACD", i), At(bars, std, "Ticker_MACD_Signal", i)) then 20.0 else 0.0)
    + (if IsAbove(bars[i].close, At(bars, std, "Ticker_SMA_50", i)) then 15.0 else 0.0)
    + (if IsAbove(bars[i].close, At(bars, std, "Ticker_SMA_200", i)) then 15.0 else 0.0)
    + 10.0 * Held(At(bars, std, "Ticker_Bollinger_PBand", i), 0.0, 1.0, 0.5)
    + 0.05 * Held(At(bars, std, "Ticker_MFI", i), 0.0, 100.0, 50.0)
    + 2.0 * (Held(At(bars, std, "Ticker_Return_63D", i), -25.0, 25.0, 0.0) + 25.0)
    + 0.05 * Held(At(bars, std, "Ticker_52W_Range_Pct", i), 0.0, 100.0, 50.0)
  }

  /** The score is these points: 30 for RSI, 20 for MACD over its signal, 15 for each average below the close, 10 for
      %B, 5 for MFI, 100 for the 63-day return between -25 and 25 percent, 5 for the 52-week position. */
  lemma ScoreMeans(bars: seq<Bar>, std: seq<real> -> real, i: nat)
    requires i < |bars|
    ensures At(bars, std, "Ticker_Tech_Score", i) == Num(Points(bars, std, i))
  {
    hide At, Score, RsiOf, MfiOf, BollingerOf, MacdOf, EwmMean, SmaOf, ReturnOf, PositionOf, Percent;
    ScoredOscillators(bars, std, i);
    ScoredTrends(bars, std, i);
    ScoreOfRow(bars, std, i);
    ScoreIs(RsiOf(bars)[i], MacdOf(bars)[i], EwmMean(MacdOf(bars), 9)[i], bars[i].close, SmaOf(bars, 50)[i],
            SmaOf(bars, 200)[i], BollingerOf(bars, std)[i], MfiOf(bars)[i], ReturnOf(bars, 63)[i], PositionOf(bars)[i]);
    hide Held, IsAbove;
  }

  lemma ScoreIs(rsi: Cell, macd: Cell, signal: Cell, close: Cell, sma50: Cell, sma200: Cell, percentB: Cell, mfi: Cell,
                return63: Cell, range: Cell)
    ensures Score(rsi, macd, signal, close, sma50, sma200, percentB, mfi, return63, range) ==
            0.3 * Held(rsi, 0.0, 100.0, 50.0)
            + (if IsAbove(macd, signal) then 20.0 else 0.0)
            + (if IsAbove(close, sma50) then 15.0 else 0.0)
            + (if IsAbove(close, sma200) then 15.0 else 0.0)
            + 10.0 * Held(percentB, 0.0, 1.0, 0.5)
            + 0.05 * Held(mfi, 0.0, 100.0, 50.0)
            + 2.0 * (Held(return63, -25.0, 25.0, 0.0) + 25.0)
            + 0.05 * Held(Percent(range), 0.0, 100.0, 50.0)
  {
    hide FillNa, Clip, Held, Above, IsAbove, Percent;
    HeldIs(rsi, 0.0, 100.0, 50.0);
    HeldIs(percentB, 0.0, 1.0, 0.5);
    HeldIs(mfi, 0.0, 100.0, 50.0);
    HeldIs(return63, -25.0, 25.0, 0.0);
    HeldPercent(range);
    AboveIs(macd, signal);
    AboveIs(close, sma50);
    AboveIs(close, sma200);
  }

  lemma HeldIs(x: Cell, lo: real, hi: real, default: real)
    requires lo <= hi
    ensures FillNa(Clip(x, lo, hi), default) == Held(x, lo, hi, default)
  {}

  lemma HeldPercent(x: Cell)
    ensures FillNa(Clip(x, 0.0, 1.0), 0.5) * 5.0 == 0.05 * Held(Percent(x), 0.0, 100.0, 50.0)
  {}

  lemma AboveIs(x: Cell, y: Cell)
    ensures Above(x, y) <==> IsAbove(x, y)
  {}

  lemma ScoredOscillators(bars: seq<Bar>, std: seq<real> -> real, i: nat)
    requires i < |bars|
    ensures At(bars, std, "Ticker_RSI", i) == RsiOf(bars)[i] && At(bars, std, "Ticker_MFI", i) == MfiOf(bars)[i]
    ensures At(bars, std, "Ticker_Bollinger_PBand", i) == BollingerOf(bars, std)[i]
    ensures At(bars, std, "Ticker_52W_Range_Pct", i) == Percent(PositionOf(bars)[i])
  {
    hide At, RsiOf, MfiOf, BollingerOf, PositionOf, Percent, Named;
    OscillatorNames();
    YearNames();
    AtIs(bars, std, "Ticker_RSI", i);
    AtIs(bars, std, "Ticker_MFI", i);
    AtIs(bars, std, "Ticker_Bollinger_PBand", i);
    AtIs(bars, std, "Ticker_52W_Range_Pct", i);
  }

  lemma ScoredTrends(bars: seq<Bar>, std: seq<real> -> real, i: nat)
    requires i < |bars|
    ensures At(bars, std, "Ticker_MACD", i) == MacdOf(bars)[i]
    ensures At(bars, std, "Ticker_MACD_Signal", i) == EwmMean(MacdOf(bars), 9)[i]
    ensures At(bars, std, "Ticker_SMA_50", i) == SmaOf(bars, 50)[i]
    ensures At(bars, std, "Ticker_SMA_200", i) == SmaOf(bars, 200)[i]
    ensures At(bars, std, "Ticker_Return_63D", i) == ReturnOf(bars, 63)[i]
  {
    hide At, MacdOf, EwmMean, SmaOf, ReturnOf, Named;
    ScoreNames();
    SmaNames("Ticker_SMA_50", 50);
    SmaNames("Ticker_SMA_200", 200);
    ReturnNames("Ticker_Return_63D", 63);
    AtIs(bars, std, "Ticker_MACD", i);
    AtIs(bars, std, "Ticker_MACD_Signal", i);
    AtIs(bars, std, "Ticker_SMA_50", i);
    AtIs(bars, std, "Ticker_SMA_200", i);
    AtIs(bars, std, "Ticker_Return_63D", i);
  }

  lemma ScoreOfRow(bars: seq<Bar>, std: seq<real> -> real, i: nat)
    requires i < |bars|
    ensures At(bars, std, "Ticker_Tech_Score", i) ==
            Num(Score(RsiOf(bars)[i], MacdOf(bars)[i], EwmMean(MacdOf(bars), 9)[i], bars[i].close, SmaOf(bars, 50)[i],
                      SmaOf(bars, 200)[i], BollingerOf(bars, std)[i], MfiOf(bars)[i], ReturnOf(bars, 63)[i],
                      PositionOf(bars)[i]))
  {
    hide At, Score, RsiOf, MfiOf, BollingerOf, MacdOf, EwmMean, SmaOf, ReturnOf, PositionOf, Named;
    ScoreNames();
    AtIs(bars, std, "Ticker_Tech_Score", i);
  }

  ghost predicate NotBelow(x: Cell, y: Cell) { x.Num? && y.Num? && x.v <= y.v }

  /** If x1 is above y1, x2 is above y2. */
  ghost predicate StillAbove(x1: Cell, y1: Cell, x2: Cell, y2: Cell) { IsAbove(x1, y1) ==> IsAbove(x2, y2) }

  /** No column of the score is lower on row j of b than on row i of a. */
  ghost predicate AllNotBelow(a: seq<Bar>, i: nat, b: seq<Bar>, j: nat, std: seq<real> -> real)
    requires i < |a| && j < |b|
  {
    && NotBelow(At(a, std, "Ticker_RSI", i), At(b, std, "Ticker_RSI", j))
    && StillAbove(At(a, std, "Ticker_MACD", i), At(a, std, "Ticker_MACD_Signal", i),
                  At(b, std, "Ticker_MACD", j), At(b, std, "Ticker_MACD_Signal", j))
    && StillAbove(a[i].close, At(a, std, "Ticker_SMA_50", i), b[j].close, At(b, std, "Ticker_SMA_50", j))
    && StillAbove(a[i].close, At(a, std, "Ticker_SMA_200", i), b[j].close, At(b, std, "Ticker_SMA_200", j))
    && NotBelow(At(a, std, "Ticker_Bollinger_PBand", i), At(b, std, "Ticker_Bollinger_PBand", j))
    && NotBelow(At(a, std, "Ticker_MFI", i), At(b, std, "Ticker_MFI", j))
    && NotBelow(At(a, std, "Ticker_Return_63D", i), At(b, std, "Ticker_Return_63D", j))
    && NotBelow(At(a, std, "Ticker_52W_Range_Pct", i), At(b, std, "Ticker_52W_Range_Pct", j))
  }

  /** The score rises with each of its columns, with RSI by three tenths of a point per point. */
  lemma ScoreIsMonotone(a: seq<Bar>, i: nat, b: seq<Bar>, j: nat, std: seq<real> -> real)
    requires i < |a| && j < |b| && AllNotBelow(a, i, b, j, std)
    ensures At(a, std, "Ticker_Tech_Score", i).Num? && At(b, std, "Ticker_Tech_Score", j).Num?
    ensures At(b, std, "Ticker_Tech_Score", j).v >= At(a, std, "Ticker_Tech_Score", i).v +
            0.3 * (At(b, std, "Ticker_RSI", j).v - At(a, std, "Ticker_RSI", i).v)
  {
    hide At, Held, Named;
    ScoreMeans(a, std, i);
    ScoreMeans(b, std, j);
    RsiHeld(a, std, i);
    RsiHeld(b, std, j);
    HeldRises(At(a, std, "Ticker_Bollinger_PBand", i), At(b, std, "Ticker_Bollinger_PBand", j), 0.0, 1.0, 0.5);
    HeldRises(At(a, std, "Ticker_MFI", i), At(b, std, "Ticker_MFI", j), 0.0, 100.0, 50.0);
    HeldRises(At(a, std, "Ticker_Return_63D", i), At(b, std, "Ticker_Return_63D", j), -25.0, 25.0, 0.0);
    HeldRises(At(a, std, "Ticker_52W_Range_Pct", i), At(b, std, "Ticker_52W_Range_Pct", j), 0.0, 100.0, 50.0);
    hide IsAbove;
  }

  lemma HeldRises(x: Cell, y: Cell, lo: real, hi: real, default: real)
    requires lo <= hi && NotBelow(x, y)
    ensures Held(x, lo, hi, default) <= Held(y, lo, hi, default)
  {}

  /** RSI never needs to be held inside its range. */
  lemma RsiHeld(bars: seq<Bar>, std: seq<real> -> real, i: nat)
    requires i < |bars|
    ensures var rsi := At(bars, std, "Ticker_RSI", i); rsi.Num? ==> Held(rsi, 0.0, 100.0, 50.0) == rsi.v
  {
    hide At, RsiOf;
    RsiIs(bars, std, i);
    RsiInRange(bars);
  }
}
