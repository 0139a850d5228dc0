/** What moving the seed of a recursive mean does to later values. */
module EmaDrift {
  import opened Values
  import opened Frames
  import opened Indicators

  function Pow(x: real, n: nat): real { if n == 0 then 1.0 else Pow(x, n - 1) * x }

  function Abs(x: real): real { if x >= 0.0 then x else -x }

  function Product(x: real, y: real): real { x * y }

  lemma OrderedProducts(a: real, b: real, x: real, y: real)
    requires 0.0 <= a <= b && 0.0 <= x <= y
    ensures 0.0 <= Product(a, x) <= Product(b, y)
  {
    ProductMonotone(a, b, x, y);
  }

  /** The part of an old mean that survives one more observation. */
  function Survival(weight: Share, alpha: Rate): (r: real)
  {
    weight / (weight + alpha)
  }

  lemma SurvivalAtMost(w: Share, alpha: Rate)
    requires w <= 1.0 - alpha
    ensures 0.0 <= Survival(w, alpha) <= 1.0 - alpha
  {
    var d, r, k := w + alpha, Survival(w, alpha), 1.0 - alpha;
    assert r * d == w;
    NonNegativeFactor(r, d);
    assert k * d == k * w + k * alpha;
    assert (k - r) * d == alpha * (k - w);
    NonNegativeProduct(alpha, k - w);
    NonNegativeFactor(k - r, d);
  }

  /** How much of the mean after row m is left in the mean after row n - 1. */
  function Retained(s: Series, alpha: Rate, m: nat, n: nat): real
    requires m < n <= |s|
  {
    if n == m + 1 then 1.0
    else if s[n - 1].Missing? then Retained(s, alpha, m, n - 1)
    else Product(Retained(s, alpha, m, n - 1), Survival(Decay(EwmAt(s, alpha, n - 1).weight, alpha), alpha))
  }

  lemma BlendsDiffer(w: Share, alpha: Rate, f: real, c: real, x: real)
    ensures Blend(w, alpha, f, x) - Blend(w, alpha, c, x) == Product(Survival(w, alpha), f - c)
  {
    var d := w + alpha;
    var p, q, r := Blend(w, alpha, f, x), Blend(w, alpha, c, x), Survival(w, alpha);
    assert p * d == w * f + alpha * x && q * d == w * c + alpha * x && r * d == w;
    assert (p - q) * d == w * (f - c);
    assert r * (f - c) * d == (r * d) * (f - c);
    ZeroFactor(p - q - r * (f - c), d);
  }

  lemma ZeroFactor(u: real, d: real)
    requires d > 0.0 && u * d == 0.0
    ensures u == 0.0
  {}

  /** The mean after n rows when the history starts at row m. */
  function CutMean(s: Series, alpha: Rate, m: nat, n: nat): Ewm
    requires m <= n <= |s|
  {
    EwmAt(s[m..], alpha, n - m)
  }

  lemma CutStep(s: Series, alpha: Rate, m: nat, n: nat)
    requires m < n <= |s|
    ensures CutMean(s, alpha, m, n) == EwmStep(CutMean(s, alpha, m, n - 1), s[n - 1], alpha)
  {
    assert s[m..][n - m - 1] == s[n - 1];
  }

  lemma CutSeed(s: Series, alpha: Rate, m: nat)
    requires m < |s| && s[m].Num?
    ensures CutMean(s, alpha, m, m + 1) == Ewm(s[m], 1.0)
    ensures EwmAt(s, alpha, m + 1).weight == 1.0 && EwmAt(s, alpha, m + 1).mean.Num?
  {
    hide Decay, Blend;
    CutStep(s, alpha, m, m + 1);
    assert CutMean(s, alpha, m, m) == Ewm(Missing, 1.0);
  }

  /** The weight sequence does not depend on the means, so both runs carry the same one from the cut on. */
  lemma {:induction false} SameWeights(s: Series, alpha: Rate, m: nat, n: nat)
    requires m < n <= |s| && s[m].Num?
    ensures var whole, cut := EwmAt(s, alpha, n), CutMean(s, alpha, m, n);
            whole.mean.Num? && cut.mean.Num? && whole.weight == cut.weight
  {
    hide Decay, Blend, CutMean;
    if n == m + 1 {
      CutSeed(s, alpha, m);
    } else {
      SameWeights(s, alpha, m, n - 1);
      CutStep(s, alpha, m, n);
    }
  }

  /** The gap between the two runs after n rows. */
  function Gap(s: Series, alpha: Rate, m: nat, n: nat): real
    requires m < n <= |s| && s[m].Num?
  {
    SameWeights(s, alpha, m, n);
    EwmAt(s, alpha, n).mean.v - CutMean(s, alpha, m, n).mean.v
  }

  lemma GapStep(s: Series, alpha: Rate, m: nat, n: nat)
    requires m + 1 < n <= |s| && s[m].Num?
    ensures Gap(s, alpha, m, n) ==
            if s[n - 1].Missing? then Gap(s, alpha, m, n - 1)
            else Product(Survival(Decay(EwmAt(s, alpha, n - 1).weight, alpha), alpha), Gap(s, alpha, m, n - 1))
  {
    hide Decay, Blend, CutMean, Survival, Product;
    SameWeights(s, alpha, m, n - 1);
    SameWeights(s, alpha, m, n);
    CutStep(s, alpha, m, n);
    var whole, cut, x := EwmAt(s, alpha, n - 1), CutMean(s, alpha, m, n - 1), s[n - 1];
    if x.Num? {
      BlendsDiffer(Decay(whole.weight, alpha), alpha, whole.mean.v, cut.mean.v, x.v);
    }
  }

  lemma ProductsAssociate(x: real, y: real, z: real)
    ensures Product(x, Product(y, z)) == Product(Product(y, x), z)
  {}

  /** Exact drift: a mean restarted at row m differs from the full-history mean by the retained part of the
      difference at the restart. */
  lemma {:induction false} DriftIsRetained(s: Series, alpha: Rate, m: nat, n: nat)
    requires m < n <= |s| && s[m].Num?
    ensures Gap(s, alpha, m, n) == Product(Retained(s, alpha, m, n), Gap(s, alpha, m, m + 1))
  {
    if n == m + 1 {
      assert Product(1.0, Gap(s, alpha, m, m + 1)) == Gap(s, alpha, m, m + 1);
    } else {
      hide Gap, Survival, Product, Decay;
      DriftIsRetained(s, alpha, m, n - 1);
      GapStep(s, alpha, m, n);
      if s[n - 1].Num? {
        ProductsAssociate(Survival(Decay(EwmAt(s, alpha, n - 1).weight, alpha), alpha),
                          Retained(s, alpha, m, n - 1), Gap(s, alpha, m, m + 1));
      }
    }
  }

  /** Without gaps the retained part is a plain power of 1 - alpha. */
  lemma {:induction false} RetainedWithoutGaps(s: Series, alpha: Rate, m: nat, n: nat)
    requires m < n <= |s| && forall i :: m <= i < n ==> s[i].Num?
    ensures Retained(s, alpha, m, n) == Pow(1.0 - alpha, n - 1 - m)
    ensures EwmAt(s, alpha, n).weight == 1.0
  {
    hide Blend;
    if n == m + 1 {
      CutSeed(s, alpha, m);
    } else {
      RetainedWithoutGaps(s, alpha, m, n - 1);
      SurvivalOfFullWeight(alpha);
    }
  }

  lemma SurvivalOfFullWeight(alpha: Rate)
    ensures Survival(Decay(1.0, alpha), alpha) == 1.0 - alpha
  {}

  /** Rows m + 1, .., n - 1 that hold a value. */
  function ValuesBetween(s: Series, m: nat, n: nat): nat
    requires m < n <= |s|
  {
    if n == m + 1 then 0 else ValuesBetween(s, m, n - 1) + (if s[n - 1].Num? then 1 else 0)
  }

  /** Gaps only make the old seed fade faster: every observation keeps at most 1 - alpha of it. */
  lemma {:induction false} RetainedFades(s: Series, alpha: Rate, m: nat, n: nat)
    requires m < n <= |s|
    ensures 0.0 <= Retained(s, alpha, m, n) <= Pow(1.0 - alpha, ValuesBetween(s, m, n))
  {
    if n > m + 1 {
      RetainedFades(s, alpha, m, n - 1);
      if s[n - 1].Num? {
        var w := Decay(EwmAt(s, alpha, n - 1).weight, alpha);
        hide Decay, Survival, Product, EwmAt;
        SurvivalAtMost(w, alpha);
        OrderedProducts(Retained(s, alpha, m, n - 1), Pow(1.0 - alpha, ValuesBetween(s, m, n - 1)),
                        Survival(w, alpha), 1.0 - alpha);
      }
    }
  }

  // ---------- bounds ----------

  ghost predicate Inside(s: Series, n: nat, lo: real, hi: real)
    requires n <= |s|
  {
    forall i :: 0 <= i < n && s[i].Num? ==> lo <= s[i].v <= hi
  }

  lemma InsidePrefix(s: Series, m: nat, n: nat, lo: real, hi: real)
    requires m <= n <= |s| && Inside(s, n, lo, hi)
    ensures Inside(s, m, lo, hi)
  {}

  lemma BlendStaysInside(w: Share, alpha: Rate, mean: real, x: real, lo: real, hi: real)
    requires lo <= mean <= hi && lo <= x <= hi
    ensures lo <= Blend(w, alpha, mean, x) <= hi
  {
    var d, r := w + alpha, Blend(w, alpha, mean, x);
    assert r * d == w * mean + alpha * x;
    NonNegativeProduct(w, mean - lo);
    NonNegativeProduct(w, hi - mean);
    NonNegativeProduct(alpha, x - lo);
    NonNegativeProduct(alpha, hi - x);
    assert (r - lo) * d == w * (mean - lo) + alpha * (x - lo);
    assert (hi - r) * d == w * (hi - mean) + alpha * (hi - x);
    NonNegativeFactor(r - lo, d);
    NonNegativeFactor(hi - r, d);
  }

  /** A mean never leaves the range of the values it has seen. */
  lemma {:induction false} MeanStaysInside(s: Series, alpha: Rate, n: nat, lo: real, hi: real)
    requires n <= |s| && Inside(s, n, lo, hi)
    ensures EwmAt(s, alpha, n).mean.Num? ==> lo <= EwmAt(s, alpha, n).mean.v <= hi
  {
    if n > 0 {
      hide Decay, Blend;
      MeanStaysInside(s, alpha, n - 1, lo, hi);
      var e := EwmAt(s, alpha, n - 1);
      if e.mean.Num? && s[n - 1].Num? {
        BlendStaysInside(Decay(e.weight, alpha), alpha, e.mean.v, s[n - 1].v, lo, hi);
      }
    }
  }

  lemma AbsOfProduct(r: real, d: real, bound: real)
    requires r >= 0.0 && -bound <= d <= bound
    ensures Abs(Product(r, d)) <= Product(r, bound)
  {
    assert r * d <= r * bound && r * (-bound) <= r * d;
  }

  /** The drift of a restarted mean is at most the retained part of the price range. */
  lemma DriftIsBounded(s: Series, alpha: Rate, m: nat, n: nat, lo: real, hi: real)
    requires m < n <= |s| && s[m].Num? && Inside(s, n, lo, hi)
    ensures Abs(Gap(s, alpha, m, n)) <= Product(Retained(s, alpha, m, n), hi - lo)
  {
    hide EwmAt, Product, Retained, Abs;
    DriftIsRetained(s, alpha, m, n);
    RetainedFades(s, alpha, m, n);
    MeanStaysInside(s, alpha, m + 1, lo, hi);
    CutSeed(s, alpha, m);
    AbsOfProduct(Retained(s, alpha, m, n), Gap(s, alpha, m, m + 1), hi - lo);
  }

  /** The EMA column of a spliced history: row n - 1 drifts from the full-history column by exactly the
      retained part of the seed difference, hence by at most that part of the price range, and without gaps
      that part is (1 - alpha) to the number of rows since the cut. */
  lemma SplicedEmaDrift(whole: seq<Bar>, std: seq<real> -> real, span: Pos, m: nat, n: nat, lo: real, hi: real)
    requires m < n <= |whole| && whole[m].close.Num? && Inside(Closes(whole), n, lo, hi)
    ensures var a, b := Compute(whole, std, Ema(span)), Compute(whole[m..], std, Ema(span));
            var r := Retained(Closes(whole), Alpha(span), m, n);
            && a[n - 1].Num? && b[n - 1 - m].Num? && a[m].Num?
            && a[n - 1].v - b[n - 1 - m].v == Product(r, a[m].v - whole[m].close.v)
            && Abs(a[n - 1].v - b[n - 1 - m].v) <= Product(r, hi - lo)
            && 0.0 <= r <= Pow(1.0 - Alpha(span), ValuesBetween(Closes(whole), m, n))
            && ((forall i :: m <= i < n ==> whole[i].close.Num?) ==> r == Pow(1.0 - Alpha(span), n - 1 - m))
  {
    hide EwmAt, Product, Retained, Abs, Alpha, Pow, ValuesBetween;
    var s, alpha := Closes(whole), Alpha(span);
    assert Closes(whole[m..]) == s[m..];
    DriftIsRetained(s, alpha, m, n);
    DriftIsBounded(s, alpha, m, n, lo, hi);
    RetainedFades(s, alpha, m, n);
    SameWeights(s, alpha, m, n);
    CutSeed(s, alpha, m);
    if forall i :: m <= i < n ==> whole[i].close.Num? {
      RetainedWithoutGaps(s, alpha, m, n);
    }
  }

  lemma AbsOfDifference(a: real, b: real, x: real, y: real)
    requires Abs(a) <= x && Abs(b) <= y
    ensures Abs(a - b) <= x + y
  {}

  /** MACD is a difference of two EMAs, so its drift is at most the sum of theirs. */
  lemma SplicedMacdDrift(whole: seq<Bar>, std: seq<real> -> real, m: nat, n: nat, lo: real, hi: real)
    requires m < n <= |whole| && whole[m].close.Num? && Inside(Closes(whole), n, lo, hi)
    ensures var a, b := Compute(whole, std, Macd), Compute(whole[m..], std, Macd);
            && a[n - 1].Num? && b[n - 1 - m].Num?
            && Abs(a[n - 1].v - b[n - 1 - m].v) <= Product(Retained(Closes(whole), Alpha(12), m, n), hi - lo) +
                                                  Product(Retained(Closes(whole), Alpha(26), m, n), hi - lo)
  {
    hide EwmAt, Product, Retained, Abs, Alpha, Pow, ValuesBetween;
    SplicedEmaDrift(whole, std, 12, m, n, lo, hi);
    SplicedEmaDrift(whole, std, 26, m, n, lo, hi);
    var p, q := Compute(whole, std, Ema(12)), Compute(whole, std, Ema(26));
    var f, g := Compute(whole[m..], std, Ema(12)), Compute(whole[m..], std, Ema(26));
    var i, j := n - 1, n - 1 - m;
    assert Compute(whole, std, Macd)[i] == Minus(p[i], q[i]);
    assert Compute(whole[m..], std, Macd)[j] == Minus(f[j], g[j]);
    AbsOfDifference(p[i].v - f[j].v, q[i].v - g[j].v,
                    Product(Retained(Closes(whole), Alpha(12), m, n), hi - lo),
                    Product(Retained(Closes(whole), Alpha(26), m, n), hi - lo));
  }

  // ---------- the signal line ----------

  /** What the slower of the two MACD means keeps of an old seed per value: 1 - 2 / 27. */
  function Fade(): real { 25.0 / 27.0 }

  /** The part of the price range that a seed at row m may still move the MACD mean by at row n - 1. */
  function Faded(s: Series, m: nat, n: nat, range: real): real
    requires m < n <= |s|
  {
    Product(Pow(Fade(), ValuesBetween(s, m, n)), range)
  }

  lemma {:induction false} PowersOrder(x: real, y: real, n: nat)
    requires 0.0 <= x <= y
    ensures 0.0 <= Pow(x, n) <= Pow(y, n)
  {
    if n > 0 {
      PowersOrder(x, y, n - 1);
      OrderedProducts(Pow(x, n - 1), Pow(y, n - 1), x, y);
    }
  }

  lemma Rates()
    ensures 1.0 - Alpha(26) == Fade() && 0.0 <= 1.0 - Alpha(12) <= Fade() && Alpha(9) == 0.2
  {}

  lemma FadesAtMost(s: Series, alpha: Rate, m: nat, n: nat, range: real)
    requires m < n <= |s| && 1.0 - alpha <= Fade() && range >= 0.0
    ensures 0.0 <= Product(Retained(s, alpha, m, n), range) <= Faded(s, m, n, range)
  {
    hide Retained, Pow, Product, ValuesBetween, Fade;
    RetainedFades(s, alpha, m, n);
    PowersOrder(1.0 - alpha, Fade(), ValuesBetween(s, m, n));
    OrderedProducts(Retained(s, alpha, m, n), Pow(Fade(), ValuesBetween(s, m, n)), range, range);
  }

  lemma MacdFades(whole: seq<Bar>, std: seq<real> -> real, m: nat, n: nat, lo: real, hi: real)
    requires m < n <= |whole| && whole[m].close.Num? && Inside(Closes(whole), n, lo, hi)
    ensures var a, b := MacdOf(whole), MacdOf(whole[m..]);
            a[n - 1].Num? && b[n - 1 - m].Num? &&
            Abs(a[n - 1].v - b[n - 1 - m].v) <= 2.0 * Faded(Closes(whole), m, n, hi - lo)
  {
    hide Retained, Product, Abs, Faded, MacdOf, Alpha;
    assert lo <= hi by { RangeIsProper(whole, m, n, lo, hi); }
    SplicedMacdDrift(whole, std, m, n, lo, hi);
    Rates();
    FadesAtMost(Closes(whole), Alpha(12), m, n, hi - lo);
    FadesAtMost(Closes(whole), Alpha(26), m, n, hi - lo);
  }

  lemma RangeIsProper(whole: seq<Bar>, m: nat, n: nat, lo: real, hi: real)
    requires m < n <= |whole| && whole[m].close.Num? && Inside(Closes(whole), n, lo, hi)
    ensures lo <= hi
  {
    assert Closes(whole)[m].Num?;
  }

  /** One more value may cost the bound a factor of Fade, a gap costs nothing. */
  lemma FadedStep(s: Series, m: nat, n: nat, range: real)
    requires m + 1 < n <= |s| && range >= 0.0
    ensures 0.0 <= Faded(s, m, n - 1, range) <= 27.0 / 25.0 * Faded(s, m, n, range)
  {
    var v := ValuesBetween(s, m, n - 1);
    PowersOrder(0.0, Fade(), v);
    OrderedProducts(0.0, Pow(Fade(), v), range, range);
    if s[n - 1].Num? {
      assert ValuesBetween(s, m, n) == v + 1;
      assert Product(Pow(Fade(), v) * Fade(), range) == Product(Pow(Fade(), v), range) * Fade();
    }
  }

  lemma FullBlend(alpha: Rate, v: real, x: real)
    ensures Blend(Decay(1.0, alpha), alpha, v, x) == (1.0 - alpha) * v + alpha * x
  {
    assert Decay(1.0, alpha) + alpha == 1.0;
  }

  /** Over a series without gaps from row m on, the mean moves by the plain recurrence. */
  lemma PlainStep(s: Series, alpha: Rate, m: nat, n: nat)
    requires m + 1 < n <= |s| && forall i :: m <= i < n ==> s[i].Num?
    ensures var before, after := EwmAt(s, alpha, n - 1).mean, EwmAt(s, alpha, n).mean;
            before.Num? && after.Num? && after.v == (1.0 - alpha) * before.v + alpha * s[n - 1].v
  {
    hide Decay, Blend, CutMean, Retained;
    RetainedWithoutGaps(s, alpha, m, n - 1);
    SameWeights(s, alpha, m, n - 1);
    FullBlend(alpha, EwmAt(s, alpha, n - 1).mean.v, s[n - 1].v);
  }

  lemma MacdIsPresent(whole: seq<Bar>, std: seq<real> -> real, m: nat, n: nat, lo: real, hi: real)
    requires m < n <= |whole| && whole[m].close.Num? && Inside(Closes(whole), n, lo, hi)
    ensures forall i :: m <= i < n ==> MacdOf(whole)[i].Num?
    ensures forall i :: 0 <= i < n - m ==> MacdOf(whole[m..])[i].Num?
  {
    hide MacdOf, Faded, Abs;
    forall i | m <= i < n ensures MacdOf(whole)[i].Num? {
      MacdFades(whole, std, m, i + 1, lo, hi);
    }
    forall i | 0 <= i < n - m ensures MacdOf(whole[m..])[i].Num? {
      MacdFades(whole, std, m, m + i + 1, lo, hi);
    }
  }

  lemma SignalStep(s: Series, m: nat, n: nat)
    requires m + 1 < n <= |s| && forall i :: m <= i < n ==> s[i].Num?
    ensures var before, after := EwmAt(s, Alpha(9), n - 1).mean, EwmAt(s, Alpha(9), n).mean;
            before.Num? && after.Num? && after.v == 0.8 * before.v + 0.2 * s[n - 1].v
  {
    hide EwmAt, Alpha;
    PlainStep(s, Alpha(9), m, n);
    Rates();
  }

  /** MACD lies within the price range on either side of 0, and starts at 0. */
  lemma MacdInRange(whole: seq<Bar>, n: nat, lo: real, hi: real)
    requires n <= |whole| && Inside(Closes(whole), n, lo, hi)
    ensures Inside(MacdOf(whole), n, lo - hi, hi - lo)
  {
    hide EwmAt, Alpha;
    forall i | 0 <= i < n && MacdOf(whole)[i].Num? ensures lo - hi <= MacdOf(whole)[i].v <= hi - lo {
      MeanStaysInside(Closes(whole), Alpha(12), i + 1, lo, hi);
      MeanStaysInside(Closes(whole), Alpha(26), i + 1, lo, hi);
      assert MacdOf(whole)[i] == Minus(EwmAt(Closes(whole), Alpha(12), i + 1).mean,
                                       EwmAt(Closes(whole), Alpha(26), i + 1).mean);
    }
  }

  lemma SignalSeed(whole: seq<Bar>, std: seq<real> -> real, m: nat, lo: real, hi: real)
    requires m < |whole| && whole[m].close.Num? && Inside(Closes(whole), m + 1, lo, hi)
    ensures var a, b := EwmAt(MacdOf(whole), Alpha(9), m + 1).mean, EwmAt(MacdOf(whole[m..]), Alpha(9), 1).mean;
            a.Num? && b.Num? && Abs(a.v - b.v) <= 3.0 * Faded(Closes(whole), m, m + 1, hi - lo)
  {
    var part, s := whole[m..], MacdOf(whole);
    MacdIsPresent(whole, std, m, m + 1, lo, hi);
    RangeIsProper(whole, m, m + 1, lo, hi);
    MacdInRange(whole, m + 1, lo, hi);
    CutSeed(s, Alpha(9), m);
    MeanStaysInside(s, Alpha(9), m + 1, lo - hi, hi - lo);
    CutSeed(Closes(part), Alpha(12), 0);
    CutSeed(Closes(part), Alpha(26), 0);
    assert Closes(part)[0..] == Closes(part) && MacdOf(part)[0..] == MacdOf(part);
    CutSeed(MacdOf(part), Alpha(9), 0);
    hide EwmAt, Alpha, Blend, Decay;
    assert MacdOf(part)[0] == Minus(Closes(part)[0], Closes(part)[0]);
    assert EwmAt(MacdOf(part), Alpha(9), 1).mean == Num(0.0);
    assert Faded(Closes(whole), m, m + 1, hi - lo) == hi - lo;
  }

  /** The arithmetic of one step: 0.8 of the old drift, 0.2 of the new MACD drift. */
  lemma DriftStep(f: real, g: real, x: real, y: real, before: real, bound: real)
    requires Abs(f - g) <= 3.0 * before && Abs(x - y) <= 2.0 * bound && 0.0 <= before <= 27.0 / 25.0 * bound
    ensures Abs((0.8 * f + 0.2 * x) - (0.8 * g + 0.2 * y)) <= 3.0 * bound
  {}

  /** The signal lines of the whole and the cut history after n rows. */
  ghost predicate SignalsNear(whole: seq<Bar>, m: nat, n: nat, range: real) {
    && m < n <= |whole|
    && var a, b := EwmAt(MacdOf(whole), Alpha(9), n).mean, EwmAt(MacdOf(whole[m..]), Alpha(9), n - m).mean;
       a.Num? && b.Num? && Abs(a.v - b.v) <= 3.0 * Faded(Closes(whole), m, n, range)
  }

  lemma SignalNext(whole: seq<Bar>, std: seq<real> -> real, m: nat, n: nat, lo: real, hi: real)
    requires m + 1 < n <= |whole| && whole[m].close.Num? && Inside(Closes(whole), n, lo, hi)
    requires SignalsNear(whole, m, n - 1, hi - lo)
    ensures SignalsNear(whole, m, n, hi - lo)
  {
    hide EwmAt, Alpha, Abs, Faded, MacdOf, Closes, Inside;
    RangeIsProper(whole, m, n, lo, hi);
    MacdIsPresent(whole, std, m, n, lo, hi);
    MacdFades(whole, std, m, n, lo, hi);
    FadedStep(Closes(whole), m, n, hi - lo);
    var f, g := MacdOf(whole), MacdOf(whole[m..]);
    SignalStep(f, m, n);
    SignalStep(g, 0, n - m);
    DriftStep(EwmAt(f, Alpha(9), n - 1).mean.v, EwmAt(g, Alpha(9), n - m - 1).mean.v, f[n - 1].v, g[n - 1 - m].v,
              Faded(Closes(whole), m, n - 1, hi - lo), Faded(Closes(whole), m, n, hi - lo));
  }

  lemma {:induction false} SignalFades(whole: seq<Bar>, std: seq<real> -> real, m: nat, n: nat, lo: real, hi: real)
    requires m < n <= |whole| && whole[m].close.Num? && Inside(Closes(whole), n, lo, hi)
    ensures SignalsNear(whole, m, n, hi - lo)
  {
    if n == m + 1 {
      SignalSeed(whole, std, m, lo, hi);
    } else {
      hide SignalsNear, Inside;
      InsidePrefix(Closes(whole), n - 1, n, lo, hi);
      SignalFades(whole, std, m, n - 1, lo, hi);
      SignalNext(whole, std, m, n, lo, hi);
    }
  }

  /** The signal line, a mean of a drifting mean, and the histogram: after v more values a cut history moves them
      by at most 3 and 5 times (25 / 27) to the v of the price range. */
  lemma SplicedSignalDrift(whole: seq<Bar>, std: seq<real> -> real, m: nat, n: nat, lo: real, hi: real)
    requires m < n <= |whole| && whole[m].close.Num? && Inside(Closes(whole), n, lo, hi)
    ensures var a, b := Compute(whole, std, MacdSignal), Compute(whole[m..], std, MacdSignal);
            a[n - 1].Num? && b[n - 1 - m].Num? &&
            Abs(a[n - 1].v - b[n - 1 - m].v) <= 3.0 * Faded(Closes(whole), m, n, hi - lo)
    ensures var a, b := Compute(whole, std, MacdDiff), Compute(whole[m..], std, MacdDiff);
            a[n - 1].Num? && b[n - 1 - m].Num? &&
            Abs(a[n - 1].v - b[n - 1 - m].v) <= 5.0 * Faded(Closes(whole), m, n, hi - lo)
  {
    hide EwmAt, Alpha, Faded, MacdOf;
    SignalFades(whole, std, m, n, lo, hi);
    MacdFades(whole, std, m, n, lo, hi);
    var f, g, i, j := MacdOf(whole), MacdOf(whole[m..]), n - 1, n - 1 - m;
    assert Compute(whole, std, MacdDiff)[i] == Minus(f[i], EwmMean(f, 9)[i]);
    assert Compute(whole[m..], std, MacdDiff)[j] == Minus(g[j], EwmMean(g, 9)[j]);
  }

  // ---------- histories that begin with gaps ----------

  lemma {:induction false} NoMeanYet(s: Series, alpha: Rate, n: nat)
    requires n <= |s| && forall i :: 0 <= i < n ==> s[i].Missing?
    ensures EwmAt(s, alpha, n) == Ewm(Missing, 1.0)
  {
    if n > 0 {
      NoMeanYet(s, alpha, n - 1);
    }
  }

  /** Leading gaps leave no trace: the mean starts with the first value. */
  lemma {:induction false} MeanSkipsGaps(s: Series, alpha: Rate, f: nat, n: nat)
    requires f <= n <= |s| && forall i :: 0 <= i < f ==> s[i].Missing?
    ensures EwmAt(s, alpha, n) == EwmAt(s[f..], alpha, n - f)
  {
    if n == f {
      NoMeanYet(s, alpha, f);
    } else {
      MeanSkipsGaps(s, alpha, f, n - 1);
      assert s[f..][n - 1 - f] == s[n - 1];
    }
  }

  lemma MacdSkipsGaps(bars: seq<Bar>, f: nat)
    requires f <= |bars| && forall i :: 0 <= i < f ==> bars[i].close.Missing?
    ensures MacdOf(bars)[f..] == MacdOf(bars[f..])
    ensures forall i :: 0 <= i < f ==> MacdOf(bars)[i].Missing?
  {
    hide EwmAt, Alpha;
    var s := Closes(bars);
    assert Closes(bars[f..]) == s[f..];
    forall i | f <= i < |bars| ensures MacdOf(bars)[i] == MacdOf(bars[f..])[i - f] {
      MeanSkipsGaps(s, Alpha(12), f, i + 1);
      MeanSkipsGaps(s, Alpha(26), f, i + 1);
    }
    forall i | 0 <= i < f ensures MacdOf(bars)[i].Missing? {
      NoMeanYet(s, Alpha(12), i + 1);
      NoMeanYet(s, Alpha(26), i + 1);
      assert MacdOf(bars)[i] == Minus(EwmMean(s, 12)[i], EwmMean(s, 26)[i]);
    }
  }

  predicate Recursive(x: Indicator) { x.Ema? || x.Macd? || x.MacdSignal? || x.MacdDiff? }

  lemma RecursiveSkipsGaps(bars: seq<Bar>, std: seq<real> -> real, x: Indicator, f: nat, i: nat)
    requires Recursive(x) && f <= i < |bars| && forall k :: 0 <= k < f ==> bars[k].close.Missing?
    ensures Compute(bars, std, x)[i] == Compute(bars[f..], std, x)[i - f]
  {
    hide EwmAt, Alpha, MacdOf;
    var s, m := Closes(bars), MacdOf(bars);
    assert Closes(bars[f..]) == s[f..];
    MacdSkipsGaps(bars, f);
    assert m[f..][i - f] == m[i];
    MeanSkipsGaps(m, Alpha(9), f, i + 1);
    if x.Ema? {
      MeanSkipsGaps(s, Alpha(x.span), f, i + 1);
    }
  }

  /** Before the first close the recursive columns are missing. */
  lemma NothingToAverage(bars: seq<Bar>, std: seq<real> -> real, x: Indicator, i: nat)
    requires Recursive(x) && i < |bars| && forall k :: 0 <= k <= i ==> bars[k].close.Missing?
    ensures Compute(bars, std, x)[i].Missing?
  {
    hide EwmAt, Alpha, MacdOf;
    var m := MacdOf(bars);
    MacdSkipsGaps(bars, i + 1);
    NoMeanYet(m, Alpha(9), i + 1);
    assert Map2(Minus, m, EwmMean(m, 9))[i] == Minus(m[i], EwmMean(m, 9)[i]);
    if x.Ema? {
      NoMeanYet(Closes(bars), Alpha(x.span), i + 1);
    }
  }
}
