/** The rule language shared by the screener and the backtest (backend/queries/strategy.py). */
module Strategy {
  import opened Values
  import opened Frames

  datatype Leg = Leg(metric: string, condition: string, threshold: Option<real>, compareTo: Option<string>)

  datatype RuleError =
    | UnsupportedComparison(name: string)
    | MissingThreshold
    | UnsupportedMetric(name: string)
    | UnsupportedCondition(name: string)
    | UnsupportedOperator(name: string)

  datatype Definition = Definition(
    entry: Leg, entryFilters: seq<Leg>, entryOperator: string,
    exit: Leg, exitFilters: seq<Leg>, exitOperator: string,
    initialCapital: real, positionSizePct: real, stopLossPct: Option<real>, feeBps: real, slippageBps: real)

  // ---------- one leg ----------

  function ResolveThreshold(f: Frame, leg: Leg): (r: Result<Series, RuleError>)
    ensures r.Ok? ==> |r.value| == f.rows
  {
    if leg.compareTo.Some? && leg.compareTo.value != "" then
      if leg.compareTo.value in f.columns then Ok(f.columns[leg.compareTo.value])
      else Err(UnsupportedComparison(leg.compareTo.value))
    else if leg.threshold.None? then Err(MissingThreshold)
    else Ok(seq(f.rows, i => Num(leg.threshold.value)))
  }

  /** What a condition says about one row; the previous row only matters to the crossing conditions. */
  predicate Triggers(condition: string, left: Cell, right: Cell, prevLeft: Cell, prevRight: Cell) {
    if condition == "above" then Above(left, right)
    else if condition == "below" then Above(right, left)
    else if condition == "crosses_above" then Above(left, right) && AtMost(prevLeft, prevRight)
    else Above(right, left) && AtMost(prevRight, prevLeft)
  }

  function EvaluateLeg(f: Frame, metric: string, condition: string, threshold: Series)
    : (r: Result<seq<bool>, RuleError>)
    requires |threshold| == f.rows
    ensures r.Ok? ==> |r.value| == f.rows
  {
    if metric !in f.columns then Err(UnsupportedMetric(metric))
    else if condition !in {"above", "below", "crosses_above", "crosses_below"} then
      Err(UnsupportedCondition(condition))
    else
      var left := f.columns[metric];
      var prevLeft, prevRight := Shift(left, 1), Shift(threshold, 1);
      Ok(seq(f.rows, i requires 0 <= i < f.rows =>
        Triggers(condition, left[i], threshold[i], prevLeft[i], prevRight[i])))
  }

  function EvaluateRule(f: Frame, leg: Leg): (r: Result<seq<bool>, RuleError>)
    ensures r.Ok? ==> |r.value| == f.rows
  {
    match ResolveThreshold(f, leg)
    case Err(e) => Err(e)
    case Ok(t) => EvaluateLeg(f, leg.metric, leg.condition, t)
  }

  /** A rule evaluated on rows lo, .., hi - 1 alone fails exactly as on the whole frame, and otherwise
      gives the same signal on every row but the first (on that one too when the slice starts the frame). */
  lemma RuleOnWindow(f: Frame, leg: Leg, lo: nat, hi: nat)
    requires lo <= hi <= f.rows
    ensures var part, whole := EvaluateRule(Rows(f, lo, hi), leg), EvaluateRule(f, leg);
            (part.Err? <==> whole.Err?) && (part.Err? ==> part == whole) &&
            (part.Ok? ==> forall i :: 0 <= i < hi - lo && (lo == 0 || i > 0) ==>
                            part.value[i] == whole.value[lo + i])
  {
    var g := Rows(f, lo, hi);
    var p, w := ResolveThreshold(g, leg), ResolveThreshold(f, leg);
    if p.Ok? {
      assert p.value == w.value[lo..hi];
      assert leg.metric in f.columns ==> g.columns[leg.metric] == f.columns[leg.metric][lo..hi];
    }
  }

  // ---------- a stack of rules ----------

  function Lower(s: string): (r: string)
    ensures |r| == |s|
  {
    seq(|s|, i requires 0 <= i < |s| => if 'A' <= s[i] <= 'Z' then s[i] + 32 as char else s[i])
  }

  /** The first rule that cannot be evaluated decides the error of the whole stack. */
  function FirstError(f: Frame, rules: seq<Leg>): (r: Option<RuleError>)
    ensures r.None? <==> forall k :: 0 <= k < |rules| ==> EvaluateRule(f, rules[k]).Ok?
  {
    if rules == [] then None
    else if EvaluateRule(f, rules[0]).Err? then Some(EvaluateRule(f, rules[0]).error)
    else FirstError(f, rules[1..])
  }

  predicate Fires(f: Frame, leg: Leg, i: nat)
    requires i < f.rows && EvaluateRule(f, leg).Ok?
  {
    EvaluateRule(f, leg).value[i]
  }

  /** The meaning of a stack: "and" wants every rule, "or" wants any rule. */
  function StackSignal(f: Frame, rules: seq<Leg>, operator: string): (r: Result<seq<bool>, RuleError>)
    ensures r.Ok? ==> |r.value| == f.rows
  {
    if Lower(operator) != "and" && Lower(operator) != "or" then Err(UnsupportedOperator(operator))
    else if FirstError(f, rules).Some? then Err(FirstError(f, rules).value)
    else if Lower(operator) == "and" then
      Ok(seq(f.rows, i requires 0 <= i < f.rows => forall k :: 0 <= k < |rules| ==> Fires(f, rules[k], i)))
    else
      Ok(seq(f.rows, i requires 0 <= i < f.rows => exists k :: 0 <= k < |rules| && Fires(f, rules[k], i)))
  }

  lemma FirstErrorAt(f: Frame, rules: seq<Leg>, k: nat)
    requires k < |rules| && EvaluateRule(f, rules[k]).Err?
    requires forall j :: 0 <= j < k ==> EvaluateRule(f, rules[j]).Ok?
    ensures FirstError(f, rules) == Some(EvaluateRule(f, rules[k]).error)
  {
    if k > 0 {
      FirstErrorAt(f, rules[1..], k - 1);
    }
  }

  /** Evaluates each rule in turn and folds the signals into `combined`. */
  method CombineRuleStack(f: Frame, baseLeg: Leg, filters: seq<Leg>, operator: string)
    returns (r: Result<seq<bool>, RuleError>)
    ensures r == StackSignal(f, [baseLeg] + filters, operator)
  {
    var op := Lower(operator);
    if op !in {"and", "or"} {
      return Err(UnsupportedOperator(operator));
    }
    ghost var rules := [baseLeg] + filters;
    var base := EvaluateRule(f, baseLeg);
    if base.Err? {
      FirstErrorAt(f, rules, 0);
      return Err(base.error);
    }
    var signals := [base.value];
    for n := 0 to |filters|
      invariant |signals| == n + 1
      invariant forall k :: 0 <= k <= n ==> EvaluateRule(f, rules[k]) == Ok(signals[k])
    {
      var signal := EvaluateRule(f, filters[n]);
      if signal.Err? {
        FirstErrorAt(f, rules, n + 1);
        return Err(signal.error);
      }
      signals := signals + [signal.value];
    }
    var combined := signals[0];
    for n := 1 to |signals|
      invariant |combined| == f.rows
      invariant op == "and" ==> forall i :: 0 <= i < f.rows ==>
                  (combined[i] <==> forall k :: 0 <= k < n ==> signals[k][i])
      invariant op == "or" ==> forall i :: 0 <= i < f.rows ==>
                  (combined[i] <==> exists k :: 0 <= k < n && signals[k][i])
    {
      var was := combined;
      combined := seq(f.rows, i requires 0 <= i < f.rows && |was| == f.rows && |signals[n]| == f.rows =>
        if op == "and" then was[i] && signals[n][i] else was[i] || signals[n][i]);
      forall i | 0 <= i < f.rows && op == "or"
        ensures combined[i] <==> exists k :: 0 <= k < n + 1 && signals[k][i]
      {
        if signals[n][i] {
        } else if combined[i] {
          var k :| 0 <= k < n && signals[k][i];
        }
      }
    }
    assert forall i, k :: 0 <= i < f.rows && 0 <= k < |rules| ==> (Fires(f, rules[k], i) <==> signals[k][i]);
    assert combined == StackSignal(f, rules, operator).value;
    return Ok(combined);
  }

  lemma FirstErrorOnWindow(f: Frame, rules: seq<Leg>, lo: nat, hi: nat)
    requires lo <= hi <= f.rows
    ensures FirstError(Rows(f, lo, hi), rules) == FirstError(f, rules)
  {
    if rules != [] {
      RuleOnWindow(f, rules[0], lo, hi);
      FirstErrorOnWindow(f, rules[1..], lo, hi);
    }
  }

  /** A stack looks back one row and never ahead: on rows lo, .., hi - 1 it fails as on the whole frame
      and otherwise agrees with it on every row that has its predecessor. */
  lemma StackOnWindow(f: Frame, rules: seq<Leg>, operator: string, lo: nat, hi: nat)
    requires lo <= hi <= f.rows
    ensures var part, whole := StackSignal(Rows(f, lo, hi), rules, operator), StackSignal(f, rules, operator);
            (part.Err? <==> whole.Err?) && (part.Err? ==> part == whole) &&
            (part.Ok? ==> forall i :: 0 <= i < hi - lo && (lo == 0 || i > 0) ==>
                            part.value[i] == whole.value[lo + i])
  {
    var g := Rows(f, lo, hi);
    FirstErrorOnWindow(f, rules, lo, hi);
    if FirstError(f, rules).None? {
      forall k, i | 0 <= k < |rules| && 0 <= i < hi - lo && (lo == 0 || i > 0)
        ensures Fires(g, rules[k], i) == Fires(f, rules[k], lo + i)
      {
        RuleOnWindow(f, rules[k], lo, hi);
      }
    }
  }

  // ---------- the screener ----------

  /** One ticker's rows, oldest first, as the group-by hands them over. */
  datatype Group = Group(ticker: string, company: Company, frame: Frame)

  /** What the join with stock_information adds to every row of a ticker. */
  datatype Company = Company(name: Option<string>, sector: Option<string>)

  datatype Match = Match(ticker: string, close: Cell, rsi: Cell, techScore: Cell, return20: Cell,
                         volume: Cell, name: Option<string>, sector: Option<string>, signalState: string)

  function EntrySignal(f: Frame, d: Definition): (r: Result<seq<bool>, RuleError>)
    ensures r.Ok? ==> |r.value| == f.rows
  {
    StackSignal(f, [d.entry] + d.entryFilters, d.entryOperator)
  }

  function ExitSignal(f: Frame, d: Definition): (r: Result<seq<bool>, RuleError>)
    ensures r.Ok? ==> |r.value| == f.rows
  {
    StackSignal(f, [d.exit] + d.exitFilters, d.exitOperator)
  }

  function SignalState(overlap: bool): string { if overlap then "entry / exit overlap" else "entry" }

  function MatchOf(g: Group, overlap: bool): Match
    requires g.frame.rows > 0
  {
    Match(g.ticker, Latest(g.frame, "Close"), Latest(g.frame, "Ticker_RSI"), Latest(g.frame, "Ticker_Tech_Score"),
          Latest(g.frame, "Ticker_Return_20D"), Latest(g.frame, "Volume"),
          g.company.name, g.company.sector, SignalState(overlap))
  }

  /** What one ticker contributes: nothing, one match, or the error of a stack that cannot be evaluated.
      The exit stack is only looked at when the entry signal holds. */
  function Contribution(g: Group, d: Definition): Result<seq<Match>, RuleError> {
    if g.frame.rows == 0 then Ok([])
    else
      match EntrySignal(g.frame, d)
      case Err(e) => Err(e)
      case Ok(enter) =>
        if !enter[g.frame.rows - 1] then Ok([])
        else
          match ExitSignal(g.frame, d)
          case Err(e) => Err(e)
          case Ok(leave) => Ok([MatchOf(g, leave[g.frame.rows - 1])])
  }

  function Candidates(groups: seq<Group>, d: Definition): Result<seq<Match>, RuleError> {
    if groups == [] then Ok([])
    else
      var n := |groups| - 1;
      match Candidates(groups[..n], d)
      case Err(e) => Err(e)
      case Ok(found) =>
        match Contribution(groups[n], d)
        case Err(e) => Err(e)
        case Ok(more) => Ok(found + more)
  }

  /** Descending order of one ranking key, missing values last. */
  predicate KeyBefore(x: Cell, y: Cell) { x.Num? && (y.Missing? || x.v > y.v) }

  /** Strictly better rank: 20-day return, then tech score, then volume. */
  predicate Outranks(a: Match, b: Match) {
    || KeyBefore(a.return20, b.return20)
    || (a.return20 == b.return20 &&
        (|| KeyBefore(a.techScore, b.techScore)
         || (a.techScore == b.techScore && KeyBefore(a.volume, b.volume))))
  }

  predicate SameRank(a: Match, b: Match) {
    a.return20 == b.return20 && a.techScore == b.techScore && a.volume == b.volume
  }

  ghost predicate RankedOrder(s: seq<Match>) {
    forall i, j :: 0 <= i < j < |s| ==> !Outranks(s[j], s[i])
  }

  /** The members of s that rank exactly like m, in order. */
  function Ties(s: seq<Match>, m: Match): seq<Match> {
    if s == [] then []
    else Ties(s[..|s| - 1], m) + (if SameRank(s[|s| - 1], m) then [s[|s| - 1]] else [])
  }

  function Place(s: seq<Match>, m: Match): (r: seq<Match>)
    ensures |r| == |s| + 1
  {
    if s == [] || !Outranks(m, s[|s| - 1]) then s + [m]
    else Place(s[..|s| - 1], m) + [s[|s| - 1]]
  }

  /** The stable sort by rank. */
  function Ranking(s: seq<Match>): (r: seq<Match>)
    ensures |r| == |s|
  {
    if s == [] then [] else Place(Ranking(s[..|s| - 1]), s[|s| - 1])
  }

  lemma OutranksIsAsymmetric(a: Match, b: Match)
    ensures !(Outranks(a, b) && Outranks(b, a))
  {}

  lemma OutranksIsNegativelyTransitive(a: Match, b: Match, c: Match)
    requires !Outranks(a, b) && !Outranks(b, c)
    ensures !Outranks(a, c)
  {}

  lemma {:induction false} PlaceKeepsMembers(s: seq<Match>, m: Match)
    ensures multiset(Place(s, m)) == multiset(s) + multiset{m}
  {
    if s != [] && Outranks(m, s[|s| - 1]) {
      PlaceKeepsMembers(s[..|s| - 1], m);
      assert s == s[..|s| - 1] + [s[|s| - 1]];
    }
  }

  lemma {:induction false} PlaceKeepsOrder(s: seq<Match>, m: Match)
    requires RankedOrder(s)
    ensures RankedOrder(Place(s, m))
  {
    if s != [] && Outranks(m, s[|s| - 1]) {
      var front, last := s[..|s| - 1], s[|s| - 1];
      PlaceKeepsOrder(front, m);
      var placed := Place(front, m);
      forall i | 0 <= i < |placed|
        ensures !Outranks(last, placed[i])
      {
        PlaceKeepsMembers(front, m);
        assert placed[i] in multiset(placed);
        OutranksIsAsymmetric(m, last);
      }
    } else {
      forall i | 0 <= i < |s|
        ensures !Outranks(m, s[i])
      {
        if i < |s| - 1 {
          OutranksIsNegativelyTransitive(m, s[|s| - 1], s[i]);
        }
      }
    }
  }

  lemma {:induction false} PlaceKeepsTies(s: seq<Match>, m: Match, k: Match)
    ensures Ties(Place(s, m), k) == Ties(s, k) + (if SameRank(m, k) then [m] else [])
  {
    if s != [] && Outranks(m, s[|s| - 1]) {
      var front, last := s[..|s| - 1], s[|s| - 1];
      PlaceKeepsTies(front, m, k);
      assert Place(s, m)[..|s|] == Place(front, m);
      assert !(SameRank(m, k) && SameRank(last, k));
    } else {
      assert (s + [m])[..|s|] == s;
    }
  }

  /** Ranking is a sort: nothing is lost or invented, no match outranks an earlier one, and equally
      ranked matches keep the order they were found in. */
  lemma {:induction false} RankingSorts(s: seq<Match>)
    ensures multiset(Ranking(s)) == multiset(s)
    ensures RankedOrder(Ranking(s))
    ensures forall k :: Ties(Ranking(s), k) == Ties(s, k)
  {
    if s != [] {
      var front, last := s[..|s| - 1], s[|s| - 1];
      assert s == front + [last];
      RankingSorts(front);
      PlaceKeepsMembers(Ranking(front), last);
      PlaceKeepsOrder(Ranking(front), last);
      forall k ensures Ties(Ranking(s), k) == Ties(s, k) {
        PlaceKeepsTies(Ranking(front), last, k);
      }
    }
  }

  method EvaluateStrategyMatches(groups: seq<Group>, d: Definition) returns (r: Result<seq<Match>, RuleError>)
    ensures r.Err? ==> r == Candidates(groups, d)
    ensures r.Ok? ==> Candidates(groups, d).Ok? && r.value == Ranking(Candidates(groups, d).value)
  {
    var candidates: seq<Match> := [];
    for n := 0 to |groups|
      invariant Candidates(groups[..n], d) == Ok(candidates)
    {
      assert groups[..n + 1][..n] == groups[..n];
      ghost var before := candidates;
      var g := groups[n];
      if g.frame.rows > 0 {
        var enter := CombineRuleStack(g.frame, d.entry, d.entryFilters, d.entryOperator);
        if enter.Err? {
          CandidatesFailEarly(groups, d, n);
          return Err(enter.error);
        }
        if enter.value[g.frame.rows - 1] {
          var leave := CombineRuleStack(g.frame, d.exit, d.exitFilters, d.exitOperator);
          if leave.Err? {
            CandidatesFailEarly(groups, d, n);
            return Err(leave.error);
          }
          candidates := candidates + [MatchOf(g, leave.value[g.frame.rows - 1])];
        }
      }
      assert candidates == before + Contribution(g, d).value;
    }
    assert groups[..|groups|] == groups;
    var ranked: seq<Match> := [];
    for n := 0 to |candidates|
      invariant ranked == Ranking(candidates[..n])
    {
      assert candidates[..n + 1][..n] == candidates[..n];
      ranked := Place(ranked, candidates[n]);
    }
    assert candidates[..|candidates|] == candidates;
    return Ok(ranked);
  }

  lemma CandidatesFailEarly(groups: seq<Group>, d: Definition, n: nat)
    requires n < |groups| && Candidates(groups[..n], d).Ok? && Contribution(groups[n], d).Err?
    ensures Candidates(groups, d) == Err(Contribution(groups[n], d).error)
    decreases |groups|
  {
    var m := |groups| - 1;
    if n < m {
      assert groups[..m][..n] == groups[..n];
      CandidatesFailEarly(groups[..m], d, n);
    }
  }

  /** The two newest rows of a ticker, which is all the screener loads. */
  function LastTwo(g: Group): Group {
    g.(frame := Rows(g.frame, if g.frame.rows < 2 then 0 else g.frame.rows - 2, g.frame.rows))
  }

  function NewestRows(groups: seq<Group>): (r: seq<Group>)
    ensures |r| == |groups|
  {
    seq(|groups|, i requires 0 <= i < |groups| => LastTwo(groups[i]))
  }

  /** Two rows are enough: every ticker contributes from its two newest rows what it would from its
      whole history, errors included. */
  lemma LastTwoSuffice(g: Group, d: Definition)
    ensures Contribution(LastTwo(g), d) == Contribution(g, d)
  {
    hide StackSignal, Lower, FirstError;
    var lo := if g.frame.rows < 2 then 0 else g.frame.rows - 2;
    StackOnWindow(g.frame, [d.entry] + d.entryFilters, d.entryOperator, lo, g.frame.rows);
    StackOnWindow(g.frame, [d.exit] + d.exitFilters, d.exitOperator, lo, g.frame.rows);
  }

  /** The screener over two rows per ticker answers exactly what it would answer over whole histories. */
  lemma {:induction false} ScreenerAgreesWithHistory(groups: seq<Group>, d: Definition)
    ensures Candidates(NewestRows(groups), d) == Candidates(groups, d)
  {
    if groups != [] {
      var n := |groups| - 1;
      assert NewestRows(groups)[..n] == NewestRows(groups[..n]);
      ScreenerAgreesWithHistory(groups[..n], d);
      LastTwoSuffice(groups[n], d);
    }
  }
}
