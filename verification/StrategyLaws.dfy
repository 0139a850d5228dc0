/** What rules, stacks and the match list mean on the cells of a frame. */
module StrategyLaws {
  import opened Values
  import opened Frames
  import opened Strategy

  // ---------- one rule ----------

  /** The right-hand side of a leg: the column it names, if it names one, and otherwise its constant. */
  ghost predicate ComparesTo(f: Frame, leg: Leg, right: Series) {
    if leg.compareTo.Some? && leg.compareTo.value != "" then
      leg.compareTo.value in f.columns && right == f.columns[leg.compareTo.value]
    else
      && leg.threshold.Some? && |right| == f.rows
      && forall i :: 0 <= i < f.rows ==> right[i] == Num(leg.threshold.value)
  }

  /** The four conditions on the cells themselves. A missing cell never fires, and a crossing also needs the
      row before, on the other side or level. */
  lemma ConditionMeans(f: Frame, leg: Leg, right: Series, i: nat)
    requires EvaluateRule(f, leg).Ok? && ComparesTo(f, leg, right) && i < f.rows
    ensures leg.metric in f.columns
    ensures var fires, left := EvaluateRule(f, leg).value[i], f.columns[leg.metric];
            var above := left[i].Num? && right[i].Num? && left[i].v > right[i].v;
            var below := left[i].Num? && right[i].Num? && left[i].v < right[i].v;
            var known := i > 0 && left[i - 1].Num? && right[i - 1].Num?;
            || (leg.condition == "above" && (fires <==> above))
            || (leg.condition == "below" && (fires <==> below))
            || (leg.condition == "crosses_above" && (fires <==> above && known && left[i - 1].v <= right[i - 1].v))
            || (leg.condition == "crosses_below" && (fires <==> below && known && right[i - 1].v <= left[i - 1].v))
  {
    assert ResolveThreshold(f, leg).value == right;
  }

  /** A rule can be evaluated exactly when it compares with something, on a known metric, by a known condition;
      of several faults the first in that order is reported. */
  lemma RuleFailsExactlyWhen(f: Frame, leg: Leg)
    ensures var r := EvaluateRule(f, leg);
            var named := leg.compareTo.Some? && leg.compareTo.value != "";
            if named && leg.compareTo.value !in f.columns then r == Err(UnsupportedComparison(leg.compareTo.value))
            else if !named && leg.threshold.None? then r == Err(MissingThreshold)
            else if leg.metric !in f.columns then r == Err(UnsupportedMetric(leg.metric))
            else if leg.condition == "above" || leg.condition == "below" || leg.condition == "crosses_above" ||
                    leg.condition == "crosses_below" then r.Ok? && exists right :: ComparesTo(f, leg, right)
            else r == Err(UnsupportedCondition(leg.condition))
  {
    var right := ResolveThreshold(f, leg);
    if right.Ok? {
      assert ComparesTo(f, leg, right.value);
    }
  }

  /** No change of side goes unnoticed: where both sides are known on rows a, .., b, a metric that is at most
      level on row a and above on row b fires a crossing in between; likewise downwards. */
  lemma {:induction false} CrossingIsNoticed(f: Frame, leg: Leg, right: Series, a: nat, b: nat)
    requires EvaluateRule(f, leg).Ok? && ComparesTo(f, leg, right) && a < b < f.rows
    requires leg.metric in f.columns && leg.condition in {"crosses_above", "crosses_below"}
    requires forall i :: a <= i <= b ==> f.columns[leg.metric][i].Num? && right[i].Num?
    requires var left := f.columns[leg.metric];
             if leg.condition == "crosses_above" then left[a].v <= right[a].v && left[b].v > right[b].v
             else left[a].v >= right[a].v && left[b].v < right[b].v
    ensures exists i :: a < i <= b && EvaluateRule(f, leg).value[i]
  {
    ConditionMeans(f, leg, right, b);
    var left := f.columns[leg.metric];
    if a + 1 < b && !EvaluateRule(f, leg).value[b] {
      CrossingIsNoticed(f, leg, right, a, b - 1);
    }
  }

  // ---------- a stack ----------

  predicate IsAnd(s: string) {
    |s| == 3 && (s[0] == 'a' || s[0] == 'A') && (s[1] == 'n' || s[1] == 'N') && (s[2] == 'd' || s[2] == 'D')
  }

  predicate IsOr(s: string) { |s| == 2 && (s[0] == 'o' || s[0] == 'O') && (s[1] == 'r' || s[1] == 'R') }

  lemma LowerMeans(s: string)
    ensures Lower(s) == "and" <==> IsAnd(s)
    ensures Lower(s) == "or" <==> IsOr(s)
  {
    var r := Lower(s);
    if |s| == 3 {
      assert r == [r[0], r[1], r[2]];
    } else if |s| == 2 {
      assert r == [r[0], r[1]];
    }
  }

  /** A stack fails on an operator that is neither "and" nor "or", in any case of letters, or else with the first
      of its rules that fails. Otherwise a row of an "and" stack fires when all rules fire there, of an "or" stack
      when one does. */
  lemma StackMeans(f: Frame, rules: seq<Leg>, operator: string)
    ensures var r := StackSignal(f, rules, operator);
            if !IsAnd(operator) && !IsOr(operator) then r == Err(UnsupportedOperator(operator))
            else if exists k :: 0 <= k < |rules| && EvaluateRule(f, rules[k]).Err? then
              exists k :: 0 <= k < |rules| && EvaluateRule(f, rules[k]).Err? &&
                          (forall j :: 0 <= j < k ==> EvaluateRule(f, rules[j]).Ok?) &&
                          r == Err(EvaluateRule(f, rules[k]).error)
            else
              && r.Ok? && |r.value| == f.rows
              && forall i :: 0 <= i < f.rows ==> (r.value[i] <==>
                   if IsAnd(operator) then forall k :: 0 <= k < |rules| ==> EvaluateRule(f, rules[k]).value[i]
                   else exists k :: 0 <= k < |rules| && EvaluateRule(f, rules[k]).value[i])
  {
    LowerMeans(operator);
    hide Lower, EvaluateRule;
    if exists k :: 0 <= k < |rules| && EvaluateRule(f, rules[k]).Err? {
      FirstErrorExists(f, rules);
    } else if IsAnd(operator) || IsOr(operator) {
      var r := StackSignal(f, rules, operator);
      assert forall i, k :: 0 <= i < f.rows && 0 <= k < |rules| ==>
               (Fires(f, rules[k], i) <==> EvaluateRule(f, rules[k]).value[i]);
    }
  }

  lemma {:induction false} FirstErrorExists(f: Frame, rules: seq<Leg>)
    requires exists k :: 0 <= k < |rules| && EvaluateRule(f, rules[k]).Err?
    ensures exists k :: 0 <= k < |rules| && EvaluateRule(f, rules[k]).Err? &&
                        (forall j :: 0 <= j < k ==> EvaluateRule(f, rules[j]).Ok?) &&
                        FirstError(f, rules) == Some(EvaluateRule(f, rules[k]).error)
  {
    hide EvaluateRule;
    if EvaluateRule(f, rules[0]).Ok? {
      var rest := rules[1..];
      assert forall k :: 0 < k < |rules| ==> rest[k - 1] == rules[k];
      FirstErrorExists(f, rest);
      var k :| 0 <= k < |rest| && EvaluateRule(f, rest[k]).Err? &&
               (forall j :: 0 <= j < k ==> EvaluateRule(f, rest[j]).Ok?) &&
               FirstError(f, rest) == Some(EvaluateRule(f, rest[k]).error);
      assert rules[k + 1] == rest[k];
      assert forall j :: 0 < j < k + 1 ==> rules[j] == rest[j - 1];
    }
  }

  // ---------- signals of a definition ----------

  /** On row i the stack of a base rule and its filters holds. */
  ghost predicate StackHolds(f: Frame, base: Leg, filters: seq<Leg>, operator: string, i: nat)
    requires i < f.rows
  {
    var rules := [base] + filters;
    && (IsAnd(operator) || IsOr(operator))
    && (forall k :: 0 <= k < |rules| ==> EvaluateRule(f, rules[k]).Ok?)
    && if IsAnd(operator) then forall k :: 0 <= k < |rules| ==> EvaluateRule(f, rules[k]).value[i]
       else exists k :: 0 <= k < |rules| && EvaluateRule(f, rules[k]).value[i]
  }

  /** The entry signal comes from the entry rules, the exit signal from the exit rules. */
  lemma SignalsMean(f: Frame, d: Definition, i: nat)
    requires i < f.rows
    ensures EntrySignal(f, d).Ok? ==>
              (EntrySignal(f, d).value[i] <==> StackHolds(f, d.entry, d.entryFilters, d.entryOperator, i))
    ensures ExitSignal(f, d).Ok? ==>
              (ExitSignal(f, d).value[i] <==> StackHolds(f, d.exit, d.exitFilters, d.exitOperator, i))
  {
    StackMeans(f, [d.entry] + d.entryFilters, d.entryOperator);
    StackMeans(f, [d.exit] + d.exitFilters, d.exitOperator);
    hide StackSignal, EvaluateRule;
  }

  // ---------- the match list ----------

  ghost predicate ShowsNewest(f: Frame, name: string, c: Cell)
    requires f.rows > 0
  {
    c == if name in f.columns then f.columns[name][f.rows - 1] else Missing
  }

  /** The match a ticker is listed with: its entry rules hold on its newest row, and the match shows that row. */
  ghost predicate Matches(g: Group, d: Definition, m: Match) {
    && g.frame.rows > 0
    && var f, last := g.frame, g.frame.rows - 1;
    && StackHolds(f, d.entry, d.entryFilters, d.entryOperator, last)
    && m.ticker == g.ticker && m.name == g.company.name && m.sector == g.company.sector
    && ShowsNewest(f, "Close", m.close) && ShowsNewest(f, "Volume", m.volume)
    && ShowsNewest(f, "Ticker_RSI", m.rsi) && ShowsNewest(f, "Ticker_Tech_Score", m.techScore)
    && ShowsNewest(f, "Ticker_Return_20D", m.return20)
    && m.signalState == if StackHolds(f, d.exit, d.exitFilters, d.exitOperator, last)
                        then "entry / exit overlap" else "entry"
  }

  /** The entry stack holds on the newest row exactly when it can be evaluated and its signal is set there. */
  lemma EntryMeans(f: Frame, d: Definition)
    requires f.rows > 0
    ensures StackHolds(f, d.entry, d.entryFilters, d.entryOperator, f.rows - 1) <==>
            EntrySignal(f, d).Ok? && EntrySignal(f, d).value[f.rows - 1]
  {
    SignalsMean(f, d, f.rows - 1);
    StackMeans(f, [d.entry] + d.entryFilters, d.entryOperator);
    hide StackSignal, EvaluateRule;
  }

  lemma ContributionMeans(g: Group, d: Definition)
    requires Contribution(g, d).Ok?
    ensures |Contribution(g, d).value| <= 1
    ensures forall m :: m in Contribution(g, d).value <==> Matches(g, d, m)
  {
    hide EntrySignal, ExitSignal, StackHolds;
    if g.frame.rows > 0 {
      EntryMeans(g.frame, d);
      SignalsMean(g.frame, d, g.frame.rows - 1);
    }
  }

  /** The listed matches are exactly those of the tickers whose entry rules hold on their newest row. */
  lemma MatchesMean(groups: seq<Group>, d: Definition, m: Match)
    requires Candidates(groups, d).Ok?
    ensures m in Ranking(Candidates(groups, d).value) <==> exists g :: g in groups && Matches(g, d, m)
  {
    hide Matches;
    var found := Candidates(groups, d).value;
    CandidatesMean(groups, d, m);
    RankingSorts(found);
    assert m in Ranking(found) <==> m in multiset(Ranking(found));
    assert m in found <==> m in multiset(found);
  }

  lemma {:induction false} CandidatesMean(groups: seq<Group>, d: Definition, m: Match)
    requires Candidates(groups, d).Ok?
    ensures m in Candidates(groups, d).value <==> exists g :: g in groups && Matches(g, d, m)
  {
    if groups != [] {
      hide Contribution, Matches;
      var front, last := groups[..|groups| - 1], groups[|groups| - 1];
      assert groups == front + [last];
      CandidatesMean(front, d, m);
      ContributionMeans(last, d);
      assert last in groups && forall g :: g in front ==> g in groups;
    }
  }

  /** Each ticker is listed at most once. */
  lemma {:induction false} NoTickerTwice(groups: seq<Group>, d: Definition)
    requires Candidates(groups, d).Ok?
    requires forall i, j :: 0 <= i < j < |groups| ==> groups[i].ticker != groups[j].ticker
    ensures var found := Candidates(groups, d).value;
            forall i, j :: 0 <= i < j < |found| ==> found[i].ticker != found[j].ticker
  {
    if groups != [] {
      hide Contribution;
      var n := |groups| - 1;
      var front, last := groups[..n], groups[n];
      NoTickerTwice(front, d);
      ContributionMeans(last, d);
      var before, more := Candidates(front, d).value, Contribution(last, d).value;
      forall i, j | 0 <= i < |before| && 0 <= j < |more| ensures before[i].ticker != more[j].ticker {
        CandidatesMean(front, d, before[i]);
        var g :| g in front && Matches(g, d, before[i]);
        assert Matches(last, d, more[j]);
      }
    }
  }

  /** What a ticker fails with: its entry stack fails, or its entry rules hold on the newest row and its exit stack
      fails. */
  ghost predicate Fails(g: Group, d: Definition, e: RuleError) {
    && g.frame.rows > 0
    && (|| EntrySignal(g.frame, d) == Err(e)
        || (&& EntrySignal(g.frame, d).Ok?
            && StackHolds(g.frame, d.entry, d.entryFilters, d.entryOperator, g.frame.rows - 1)
            && ExitSignal(g.frame, d) == Err(e)))
  }

  lemma FailureOf(g: Group, d: Definition, e: RuleError)
    ensures Contribution(g, d) == Err(e) <==> Fails(g, d, e)
  {
    hide StackHolds, StackSignal;
    if g.frame.rows > 0 {
      SignalsMean(g.frame, d, g.frame.rows - 1);
    }
  }

  lemma {:induction false} AllContribute(groups: seq<Group>, d: Definition)
    requires Candidates(groups, d).Ok?
    ensures forall k :: 0 <= k < |groups| ==> Contribution(groups[k], d).Ok?
  {
    hide Contribution;
    if groups != [] {
      AllContribute(groups[..|groups| - 1], d);
    }
  }

  /** The screener fails exactly when some ticker does, and with the first one's error. */
  lemma {:induction false} ScreenFailsExactlyWhen(groups: seq<Group>, d: Definition, e: RuleError)
    ensures Candidates(groups, d) == Err(e) <==>
            exists n :: 0 <= n < |groups| && Fails(groups[n], d, e) &&
                        forall k, other :: 0 <= k < n ==> !Fails(groups[k], d, other)
  {
    hide Contribution, Fails;
    if groups != [] {
      var n := |groups| - 1;
      var front := groups[..n];
      FailureOf(groups[n], d, e);
      if Candidates(front, d).Ok? {
        AllContribute(front, d);
        forall k, other | 0 <= k < n ensures !Fails(groups[k], d, other) {
          FailureOf(front[k], d, other);
        }
      } else {
        var first := Candidates(front, d).error;
        ScreenFailsExactlyWhen(front, d, first);
        ScreenFailsExactlyWhen(front, d, e);
        var k :| 0 <= k < n && Fails(front[k], d, first) &&
                 forall j, other :: 0 <= j < k ==> !Fails(front[j], d, other);
        if e == first {
          assert forall j, other :: 0 <= j < k ==> !Fails(groups[j], d, other);
        }
      }
    }
  }

  // ---------- the order of the list ----------

  /** The list descends by 20-day return, equal returns by tech score, equal scores by volume; a missing value never
      comes before a known one. */
  lemma RankingDescends(s: seq<Match>, i: nat, j: nat)
    requires i < j < |s|
    ensures var a, b := Ranking(s)[i], Ranking(s)[j];
            && (b.return20.Num? ==> a.return20.Num? && a.return20.v >= b.return20.v)
            && (a.return20 == b.return20 && b.techScore.Num? ==> a.techScore.Num? && a.techScore.v >= b.techScore.v)
            && (a.return20 == b.return20 && a.techScore == b.techScore && b.volume.Num? ==>
                  a.volume.Num? && a.volume.v >= b.volume.v)
  {
    RankingSorts(s);
    assert !Outranks(Ranking(s)[j], Ranking(s)[i]);
  }
}
