/** How far the recursive columns that a spliced sync writes are from what a rebuild would compute. */
module SpliceDrift {
  import opened Indicators
  import opened Tables
  import opened MarketSync
  import opened MarketSafety
  import opened EmaDrift
  import opened SpliceEquivalence

  /** Written row j against the rebuilt row of its date in one column: rebuilt minus written. */
  ghost predicate DriftsBy(written: seq<Row<Columns>>, rebuilt: seq<Row<Columns>>, j: nat, m: string, drift: real) {
    && j < |written| <= |rebuilt|
    && var x, y := Cells(written[j].cells, m), Cells(rebuilt[|rebuilt| - |written| + j].cells, m);
       x.Num? && y.Num? && y.v - x.v == drift
  }

  ghost predicate DriftsAtMost(written: seq<Row<Columns>>, rebuilt: seq<Row<Columns>>, j: nat, m: string, bound: real) {
    exists d: real :: DriftsBy(written, rebuilt, j, m, d) && Abs(d) <= bound
  }

  lemma CutColumn(beyond: seq<Row<Bar>>, part: seq<Row<Bar>>, std: seq<real> -> real, w: nat, j: nat, m: string,
                  d: real)
    requires w + j < |part| && m in Named()
    requires var a, b := Compute(Bars(beyond + part), std, Named()[m]), Compute(Bars(part), std, Named()[m]);
             a[|beyond| + w + j].Num? && b[w + j].Num? && d == a[|beyond| + w + j].v - b[w + j].v
    ensures DriftsBy(IndicatorRows(part, std)[w..], IndicatorRows(beyond + part, std), j, m, d)
  {
    hide Compute, Named;
    assert (beyond + part)[|beyond| + (w + j)] == part[w + j];
    var rows, whole := IndicatorRows(part, std), IndicatorRows(beyond + part, std);
    assert rows[w..][j] == rows[w + j] && |whole| - |rows[w..]| + j == |beyond| + w + j;
  }

  /** An EMA that was restarted at row b of the history: row k drifts by exactly the retained part of the seed
      difference at b, hence by at most that part of the price range. */
  ghost predicate EmaDrifts(written: seq<Row<Columns>>, rebuilt: seq<Row<Columns>>, j: nat, m: string,
                            h: seq<Bar>, std: seq<real> -> real, span: Pos, b: nat, k: nat, range: real) {
    && b <= k < |h| && h[b].close.Num? && Compute(h, std, Ema(span))[b].Num?
    && var r := Retained(Closes(h), Alpha(span), b, k + 1);
       var drift := Product(r, Compute(h, std, Ema(span))[b].v - h[b].close.v);
       && DriftsBy(written, rebuilt, j, m, drift) && Abs(drift) <= Product(r, range)
       && 0.0 <= r <= Pow(1.0 - Alpha(span), ValuesBetween(Closes(h), b, k + 1))
  }

  /** The MACD columns restarted at row b: 2, 3 and 5 times what 25 / 27 per value leaves of the price range. */
  ghost predicate MacdDrifts(written: seq<Row<Columns>>, rebuilt: seq<Row<Columns>>, j: nat,
                             h: seq<Bar>, b: nat, k: nat, range: real) {
    && b <= k < |h|
    && var fade := Faded(Closes(h), b, k + 1, range);
       && DriftsAtMost(written, rebuilt, j, "Ticker_MACD", 2.0 * fade)
       && DriftsAtMost(written, rebuilt, j, "Ticker_MACD_Signal", 3.0 * fade)
       && DriftsAtMost(written, rebuilt, j, "Ticker_MACD_Diff", 5.0 * fade)
  }

  /** The first row with a close, where the means of a cut history start. */
  predicate FirstClose(h: seq<Row<Bar>>, f: nat) {
    f < |h| && h[f].cells.close.Num? && forall i :: 0 <= i < f ==> h[i].cells.close.Missing?
  }

  lemma BarsOfParts(beyond: seq<Row<Bar>>, part: seq<Row<Bar>>, f: nat)
    requires f < |part|
    ensures Bars(beyond + part)[|beyond| + f..] == Bars(part)[f..]
    ensures Bars(beyond + part)[|beyond| + f] == part[f].cells
  {}

  /** From its first close on, a column of the splice is that column of the bars from there. */
  lemma SpliceColumnFrom(beyond: seq<Row<Bar>>, part: seq<Row<Bar>>, std: seq<real> -> real, x: Indicator, f: nat,
                         i: nat)
    requires Recursive(x) && FirstClose(part, f) && f <= i < |part|
    ensures Compute(Bars(part), std, x)[i] == Compute(Bars(beyond + part)[|beyond| + f..], std, x)[i - f]
  {
    hide Compute;
    BarsOfParts(beyond, part, f);
    RecursiveSkipsGaps(Bars(part), std, x, f, i);
  }

  lemma PartsEmaDrift(beyond: seq<Row<Bar>>, part: seq<Row<Bar>>, std: seq<real> -> real, w: nat, j: nat, m: string,
                      span: Pos, f: nat, lo: real, hi: real)
    requires f <= w + j < |part| && m in Named() && Named()[m] == Ema(span)
    requires FirstClose(part, f) && Inside(Closes(Bars(beyond + part)), |beyond| + |part|, lo, hi)
    ensures EmaDrifts(IndicatorRows(part, std)[w..], IndicatorRows(beyond + part, std), j, m,
                      Bars(beyond + part), std, span, |beyond| + f, |beyond| + w + j, hi - lo)
  {
    hide Compute, Named, Retained, Pow, ValuesBetween, Product, Abs, DriftsBy, IndicatorRows, Alpha, Inside;
    var h, b, k := Bars(beyond + part), |beyond| + f, |beyond| + w + j;
    BarsOfParts(beyond, part, f);
    SpliceColumnFrom(beyond, part, std, Ema(span), f, w + j);
    assert Inside(Closes(h), k + 1, lo, hi) by { InsidePrefix(Closes(h), k + 1, |h|, lo, hi); }
    SplicedEmaDrift(h, std, span, b, k + 1, lo, hi);
    CutColumn(beyond, part, std, w, j, m,
              Compute(h, std, Ema(span))[k].v - Compute(Bars(part), std, Ema(span))[w + j].v);
  }

  /** The EMA columns: what a spliced sync writes drifts from the rebuilt value by exactly the retained part of the
      seed difference at the first row of the splice that has a close, hence by at most that part of the price range. */
  lemma WrittenEmaDrift(db: Database, q: Request, std: seq<real> -> real, t: string, j: nat, m: string, span: Pos,
                        f: nat, lo: real, hi: real)
    requires SplicesTicker(db, q, t) && NothingSkipped(db, q, t) && j < |Written(db, q, std, t)|
    requires m in Named() && Named()[m] == Ema(span)
    requires var h := BarsAfter(db, q, std, t); Inside(Closes(h), |h|, lo, hi)
    requires FirstClose(Spliced(db, q, t), f) && f <= |Of(Warmup(db, q), t)| + j
    ensures EmaDrifts(Written(db, q, std, t), RebuiltAfter(db, q, std, t), j, m, BarsAfter(db, q, std, t), std, span,
                      |Beyond(db, q, t)| + f, |Beyond(db, q, t)| + |Of(Warmup(db, q), t)| + j, hi - lo)
  {
    hide Synced, Written, RebuiltAfter, SplicesTicker, NothingSkipped, Spliced, Warmup, Beyond, Of, History,
         IndicatorRows, SortByDate, Named, EmaDrifts, Inside;
    WrittenAgainstRebuilt(db, q, std, t);
    var beyond, part := SortByDate(Beyond(db, q, t)), Spliced(db, q, t);
    assert BarsAfter(db, q, std, t) == Bars(beyond + part) && |Bars(beyond + part)| == |beyond| + |part|;
    PartsEmaDrift(beyond, part, std, |Of(Warmup(db, q), t)|, j, m, span, f, lo, hi);
  }

  lemma PartsMacdDrift(beyond: seq<Row<Bar>>, part: seq<Row<Bar>>, std: seq<real> -> real, w: nat, j: nat,
                       f: nat, lo: real, hi: real)
    requires f <= w + j < |part| && FirstClose(part, f)
    requires Inside(Closes(Bars(beyond + part)), |beyond| + |part|, lo, hi)
    ensures MacdDrifts(IndicatorRows(part, std)[w..], IndicatorRows(beyond + part, std), j,
                       Bars(beyond + part), |beyond| + f, |beyond| + w + j, hi - lo)
  {
    hide Faded, DriftsAtMost, IndicatorRows, Bars, FirstClose, Inside;
    var h, b, k := Bars(beyond + part), |beyond| + f, |beyond| + w + j;
    var fade := Faded(Closes(h), b, k + 1, hi - lo);
    PartsColumnDrift(beyond, part, std, w, j, "Ticker_MACD", 2.0 * fade, f, lo, hi);
    PartsColumnDrift(beyond, part, std, w, j, "Ticker_MACD_Signal", 3.0 * fade, f, lo, hi);
    PartsColumnDrift(beyond, part, std, w, j, "Ticker_MACD_Diff", 5.0 * fade, f, lo, hi);
  }

  lemma PartsColumnDrift(beyond: seq<Row<Bar>>, part: seq<Row<Bar>>, std: seq<real> -> real, w: nat, j: nat,
                         m: string, bound: real, f: nat, lo: real, hi: real)
    requires f <= w + j < |part| && FirstClose(part, f)
    requires Inside(Closes(Bars(beyond + part)), |beyond| + |part|, lo, hi)
    requires m in {"Ticker_MACD", "Ticker_MACD_Signal", "Ticker_MACD_Diff"}
    requires var fade := Faded(Closes(Bars(beyond + part)), |beyond| + f, |beyond| + w + j + 1, hi - lo);
             bound == if m == "Ticker_MACD" then 2.0 * fade
                      else if m == "Ticker_MACD_Signal" then 3.0 * fade
                      else 5.0 * fade
    ensures DriftsAtMost(IndicatorRows(part, std)[w..], IndicatorRows(beyond + part, std), j, m, bound)
  {
    hide Named, Faded, Abs, DriftsAtMost, IndicatorRows, Compute, Inside;
    var h, b, k := Bars(beyond + part), |beyond| + f, |beyond| + w + j;
    MacdNames();
    BarsOfParts(beyond, part, f);
    SpliceColumnFrom(beyond, part, std, Named()[m], f, w + j);
    assert Inside(Closes(h), k + 1, lo, hi) by { InsidePrefix(Closes(h), k + 1, |h|, lo, hi); }
    MacdColumn(h, std, b, k + 1, lo, hi);
    SplicedSignalDrift(h, std, b, k + 1, lo, hi);
    CutColumnAtMost(beyond, part, std, w, j, m, bound);
  }

  lemma MacdNames()
    ensures "Ticker_MACD" in Named() && Named()["Ticker_MACD"] == Macd
    ensures "Ticker_MACD_Signal" in Named() && Named()["Ticker_MACD_Signal"] == MacdSignal
    ensures "Ticker_MACD_Diff" in Named() && Named()["Ticker_MACD_Diff"] == MacdDiff
  {}

  lemma MacdColumn(whole: seq<Bar>, std: seq<real> -> real, m: nat, n: nat, lo: real, hi: real)
    requires m < n <= |whole| && whole[m].close.Num? && Inside(Closes(whole), n, lo, hi)
    ensures var a, b := Compute(whole, std, Macd), Compute(whole[m..], std, Macd);
            a[n - 1].Num? && b[n - 1 - m].Num? &&
            Abs(a[n - 1].v - b[n - 1 - m].v) <= 2.0 * Faded(Closes(whole), m, n, hi - lo)
  {
    hide MacdOf, Faded, Abs;
    MacdFades(whole, std, m, n, lo, hi);
  }

  lemma CutColumnAtMost(beyond: seq<Row<Bar>>, part: seq<Row<Bar>>, std: seq<real> -> real, w: nat, j: nat, m: string,
                        bound: real)
    requires w + j < |part| && m in Named()
    requires var a, b := Compute(Bars(beyond + part), std, Named()[m]), Compute(Bars(part), std, Named()[m]);
             && a[|beyond| + w + j].Num? && b[w + j].Num?
             && Abs(a[|beyond| + w + j].v - b[w + j].v) <= bound
    ensures DriftsAtMost(IndicatorRows(part, std)[w..], IndicatorRows(beyond + part, std), j, m, bound)
  {
    hide Compute, Named, IndicatorRows, DriftsBy;
    var a, b := Compute(Bars(beyond + part), std, Named()[m]), Compute(Bars(part), std, Named()[m]);
    CutColumn(beyond, part, std, w, j, m, a[|beyond| + w + j].v - b[w + j].v);
  }

  /** The MACD columns: the drift is at most 2, 3 and 5 times what 25 / 27 per value leaves of the price range. */
  lemma WrittenMacdDrift(db: Database, q: Request, std: seq<real> -> real, t: string, j: nat, f: nat, lo: real,
                         hi: real)
    requires SplicesTicker(db, q, t) && NothingSkipped(db, q, t) && j < |Written(db, q, std, t)|
    requires var h := BarsAfter(db, q, std, t); Inside(Closes(h), |h|, lo, hi)
    requires FirstClose(Spliced(db, q, t), f) && f <= |Of(Warmup(db, q), t)| + j
    ensures MacdDrifts(Written(db, q, std, t), RebuiltAfter(db, q, std, t), j, BarsAfter(db, q, std, t),
                       |Beyond(db, q, t)| + f, |Beyond(db, q, t)| + |Of(Warmup(db, q), t)| + j, hi - lo)
  {
    hide Synced, Written, RebuiltAfter, SplicesTicker, NothingSkipped, Spliced, Warmup, Beyond, Of, History,
         IndicatorRows, SortByDate, MacdDrifts, Inside;
    WrittenAgainstRebuilt(db, q, std, t);
    var beyond, part := SortByDate(Beyond(db, q, t)), Spliced(db, q, t);
    assert BarsAfter(db, q, std, t) == Bars(beyond + part) && |Bars(beyond + part)| == |beyond| + |part|;
    PartsMacdDrift(beyond, part, std, |Of(Warmup(db, q), t)|, j, f, lo, hi);
  }

  /** Up to the first close of the splice the recursive columns it writes are missing. */
  lemma NoMeanWithoutAClose(db: Database, q: Request, std: seq<real> -> real, t: string, j: nat, m: string)
    requires SplicesTicker(db, q, t) && j < |Written(db, q, std, t)| && m in Named() && Recursive(Named()[m])
    requires var part := Spliced(db, q, t);
             forall i :: 0 <= i < |part| && i <= |Of(Warmup(db, q), t)| + j ==> part[i].cells.close.Missing?
    ensures Cells(Written(db, q, std, t)[j].cells, m).Missing?
  {
    hide Written, SplicesTicker, Spliced, Warmup, Of, IndicatorRows, Named, Cells;
    WrittenAreTheSuffix(db, q, std, t);
    SuffixWithoutMean(Written(db, q, std, t), Spliced(db, q, t), std, |Of(Warmup(db, q), t)|, j, m);
  }

  lemma SuffixWithoutMean(written: seq<Row<Columns>>, part: seq<Row<Bar>>, std: seq<real> -> real, w: nat, j: nat,
                          m: string)
    requires w + j < |part| && written == IndicatorRows(part, std)[w..] && m in Named() && Recursive(Named()[m])
    requires forall i :: 0 <= i <= w + j ==> part[i].cells.close.Missing?
    ensures Cells(written[j].cells, m).Missing?
  {
    hide Named, Compute;
    NothingToAverage(Bars(part), std, Named()[m], w + j);
    assert written[j] == IndicatorRows(part, std)[w + j];
  }
}
