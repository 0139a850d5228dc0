/** What the store's values mean, character by character and property by property. */
module WorkspaceMeaning {
  import opened Values
  import opened Lists
  import opened Workspace
  import opened WorkspaceLaws

  // ---------- strings ----------

  /** Upper-casing keeps a character, or moves a letter to the same place of the other alphabet. */
  lemma UpperMeans(s: string, i: nat)
    requires i < |s|
    ensures if 'a' <= s[i] <= 'z'
            then 'A' <= Upper(s)[i] <= 'Z' && Upper(s)[i] as int - 'A' as int == s[i] as int - 'a' as int
            else Upper(s)[i] == s[i]
  {}

  lemma SpacesMean(c: char)
    ensures IsSpace(c) <==>
            c in ['\t', '\n', '\U{000B}', '\U{000C}', '\r', ' ', '\U{00A0}', '\U{1680}', '\U{2000}', '\U{2001}',
                  '\U{2002}', '\U{2003}', '\U{2004}', '\U{2005}', '\U{2006}', '\U{2007}', '\U{2008}', '\U{2009}',
                  '\U{200A}', '\U{2028}', '\U{2029}', '\U{202F}', '\U{205F}', '\U{3000}', '\U{FEFF}']
  {}

  ghost predicate AllSpace(s: string) { forall i :: 0 <= i < |s| ==> IsSpace(s[i]) }

  lemma {:induction false} TrimStartMeans(s: string) returns (left: string)
    ensures s == left + TrimStart(s) && AllSpace(left)
  {
    if s != "" && IsSpace(s[0]) {
      var rest := TrimStartMeans(s[1..]);
      left := [s[0]] + rest;
      assert s == [s[0]] + s[1..];
    } else {
      left := "";
    }
  }

  lemma {:induction false} TrimEndMeans(s: string) returns (right: string)
    ensures s == TrimEnd(s) + right && AllSpace(right)
  {
    if s != "" && IsSpace(s[|s| - 1]) {
      var rest := TrimEndMeans(s[..|s| - 1]);
      right := rest + [s[|s| - 1]];
      assert s == s[..|s| - 1] + [s[|s| - 1]];
    } else {
      right := "";
    }
  }

  /** Trimming takes spaces off both ends, and all of them. */
  lemma TrimMeans(s: string)
    ensures exists left, right :: s == left + Trim(s) + right && AllSpace(left) && AllSpace(right)
    ensures Trim(s) != "" ==> !IsSpace(Trim(s)[0]) && !IsSpace(Trim(s)[|Trim(s)| - 1])
  {
    hide IsSpace;
    var left := TrimStartMeans(s);
    var right := TrimEndMeans(TrimStart(s));
    TrimTrims(s);
    assert s == left + Trim(s) + right;
  }

  /** The number a string of digits denotes. */
  ghost function ValueOf(s: string): int {
    if s == "" then 0 else 10 * ValueOf(s[..|s| - 1]) + (s[|s| - 1] as int - '0' as int)
  }

  /** Decimal notation: digits only, no leading zero, and the number itself. */
  lemma {:induction false} DecimalMeans(n: nat)
    ensures ValueOf(Decimal(n)) == n && |Decimal(n)| > 0
    ensures forall i :: 0 <= i < |Decimal(n)| ==> '0' <= Decimal(n)[i] <= '9'
    ensures n > 0 ==> Decimal(n)[0] != '0'
  {
    if n < 10 {
      assert [Digit(n)][..0] == "";
    } else {
      DecimalMeans(n / 10);
      var front := Decimal(n / 10);
      assert (front + [Digit(n % 10)])[..|front|] == front;
    }
  }

  /** join: the items with the separator between every two. */
  lemma {:induction false} JoinMeans(a: seq<string>, b: seq<string>, separator: string)
    ensures Join([], separator) == ""
    ensures |a| == 1 ==> Join(a, separator) == a[0]
    ensures a != [] && b != [] ==> Join(a + b, separator) == Join(a, separator) + separator + Join(b, separator)
  {
    if |a| == 1 && b != [] {
      assert (a + b)[1..] == b;
    } else if |a| > 1 && b != [] {
      assert (a + b)[1..] == a[1..] + b;
      JoinMeans(a[1..], b, separator);
    }
  }

  // ---------- lists ----------

  /** uniqHead: the first `limit` of the items that are the first of their spelling, upper-cased. */
  lemma UniqHeadMeans(items: seq<string>, limit: nat)
    ensures exists at ::
              && Firsts(items, Upper, at)
              && |UniqHead(items, limit)| == (if |at| < limit then |at| else limit)
              && forall a :: 0 <= a < |UniqHead(items, limit)| ==>
                   at[a] < |items| && UniqHead(items, limit)[a] == Upper(items[at[a]])
  {
    hide Upper;
    var mapped := MapSeq(items, Upper);
    var at := DedupMeans(mapped, Same);
    forall i: nat ensures IsFirst(mapped, Same, i) <==> IsFirst(items, Upper, i) {}
    assert Firsts(items, Upper, at);
  }

  /** uniqCommands: the same for the items that are not blank, trimmed. */
  lemma UniqCommandsMean(items: seq<string>, limit: nat)
    ensures var kept := Keep(items, IsCommand);
            exists at ::
              && Firsts(kept, CommandKey, at)
              && |UniqCommands(items, limit)| == (if |at| < limit then |at| else limit)
              && forall a :: 0 <= a < |UniqCommands(items, limit)| ==>
                   at[a] < |kept| && UniqCommands(items, limit)[a] == Trim(kept[at[a]])
  {
    hide CommandKey, IsCommand, Trim;
    var at := DedupMeans(Keep(items, IsCommand), CommandKey);
  }

  /** The letters agree up to case. */
  predicate SameUpToCase(c: char, d: char) {
    c == d || ('a' <= c <= 'z' && d as int + 32 == c as int) || ('a' <= d <= 'z' && c as int + 32 == d as int)
  }

  /** Two commands are the same when they agree after trimming, up to case. */
  lemma CommandKeyMeans(a: string, b: string)
    ensures CommandKey(a) == CommandKey(b) <==>
            |Trim(a)| == |Trim(b)| && forall i :: 0 <= i < |Trim(a)| ==> SameUpToCase(Trim(a)[i], Trim(b)[i])
  {
    hide Trim;
    var p, q := Trim(a), Trim(b);
    if |p| == |q| {
      forall i | 0 <= i < |p| ensures Upper(p)[i] == Upper(q)[i] <==> SameUpToCase(p[i], q[i]) {}
    }
  }

  // ---------- what actions record ----------

  /** The name given, or the default when it is blank. */
  ghost predicate Named(name: string, given: string, default: string) {
    name == if AllSpace(given) then default else Trim(given)
  }

  /** A new watchlist comes last, empty and active. */
  lemma NewListIsRecorded(s: Store, name: string, id: string)
    ensures var created := Do(s, CreateWatchlist(name, id));
            && created.activeWatchlistId == id && |created.watchlists| == |s.watchlists| + 1
            && created.watchlists[..|s.watchlists|] == s.watchlists
            && var w := created.watchlists[|s.watchlists|];
               w.id == id && w.symbols == [] && Named(w.name, name, "Watchlist " + Decimal(|s.watchlists| + 1))
  {
    BlankMeansSpaces(name);
    hide Trim, Decimal, IsSpace;
  }

  /** A new saved item comes first; without a name it gets that of its draft, or a default one. */
  lemma SavedItemsAreRecorded(s: Store, name: string, tickers: seq<string>, draft: Json, id: string, at: string)
    ensures var saved := Do(s, SaveCompareSet(name, tickers, id, at)).savedCompareSets;
            && saved != [] && saved[0].id == id && saved[0].createdAt == at && saved[0].tickers == UniqHead(tickers, 8)
            && Named(saved[0].name, name, "Compare " + Join(tickers, " / "))
    ensures var own := if draft.Obj? && "name" in draft.fields && draft.fields["name"].Str? then draft.fields["name"].s
                       else "";
            var screens := Do(s, SaveScreen(name, draft, id, at)).savedScreens;
            var backtests := Do(s, SaveBacktest(name, draft, id, at)).savedBacktests;
            && screens != [] && IsDraft(screens[0], name, draft, id, at, if own != "" then own else "Saved Screen")
            && backtests != []
            && IsDraft(backtests[0], name, draft, id, at, if own != "" then own else "Saved Backtest")
  {
    BlankMeansSpaces(name);
    hide Trim, Join, UniqHead, IsSpace;
  }

  ghost predicate IsDraft(d: Draft, name: string, draft: Json, id: string, at: string, default: string) {
    d.id == id && d.createdAt == at && d.draft == draft && Named(d.name, name, default)
  }

  /** A rename gives every list with the id the trimmed name. */
  lemma RenamedIsNamed(s: Store, id: string, name: string, i: nat)
    requires i < |s.watchlists| && s.watchlists[i].id == id
    ensures Do(s, RenameWatchlist(id, name)).watchlists[i].name ==
            if AllSpace(name) then s.watchlists[i].name else Trim(name)
  {
    BlankMeansSpaces(name);
    hide Trim, IsSpace;
  }

  /** An annotation is found under its key, and the others stay. */
  lemma AnnotationIsKept(s: Store, key: string, annotation: Json, other: string)
    ensures var after := Do(s, SetAnnotation(key, annotation)).annotations;
            && after.Obj? && key in after.fields && after.fields[key] == annotation
            && (other != key && s.annotations.Obj? ==>
                  (other in after.fields <==> other in s.annotations.fields) &&
                  (other in after.fields ==> after.fields[other] == s.annotations.fields[other]))
  {}

  /** Annotations persisted as an array turn into an object keyed by the positions. */
  lemma {:induction false} ArrayBecomesObject(items: seq<Json>, n: nat, i: nat)
    requires n <= |items|
    ensures Decimal(i) in SpreadItems(items, n) <==> i < n
    ensures i < n ==> SpreadItems(items, n)[Decimal(i)] == items[i]
  {
    hide Decimal;
    if n > 0 {
      ArrayBecomesObject(items, n - 1, i);
      DecimalMeans(i);
      DecimalMeans(n - 1);
    }
  }

  // ---------- what a reload reads ----------

  /** A property that is a string. */
  ghost predicate HasString(j: Json, name: string) { j.Obj? && name in j.fields && j.fields[name].Str? }

  ghost function StringAt(j: Json, name: string): string
    requires HasString(j, name)
  {
    j.fields[name].s
  }

  /** A string that is not blank, kept as it is, or the default. */
  ghost predicate KeptOr(text: string, j: Json, name: string, default: string) {
    text == if HasString(j, name) && !AllSpace(StringAt(j, name)) then StringAt(j, name) else default
  }

  lemma KeptText(j: Json, name: string, default: string)
    ensures KeptOr(if HasText(Field(j, name)) then TextOf(Field(j, name), "") else default, j, name, default)
  {
    if HasString(j, name) {
      BlankMeansSpaces(StringAt(j, name));
    }
    hide Trim, IsSpace;
  }

  /** Items without a usable id or name are numbered from 1, and undated ones are as of 1970. */
  lemma RepairedItems(j: Json, i: nat)
    ensures var w := SanitizeWatchlist(j, i);
            && KeptOr(w.id, j, "id", "watchlist-" + Decimal(i + 1))
            && KeptOr(w.name, j, "name", "Watchlist " + Decimal(i + 1))
    ensures var c := SanitizeCompareSet(j, i);
            && KeptOr(c.id, j, "id", "compare-" + Decimal(i + 1)) && KeptOr(c.name, j, "name", "Saved Compare")
            && c.createdAt == if HasString(j, "createdAt") then StringAt(j, "createdAt") else "1970-01-01T00:00:00.000Z"
    ensures var d := SanitizeDraft(j, i);
            && KeptOr(d.id, j, "id", "draft-" + Decimal(i + 1)) && KeptOr(d.name, j, "name", "Saved Draft")
            && d.createdAt == (if HasString(j, "createdAt") then StringAt(j, "createdAt")
                               else "1970-01-01T00:00:00.000Z")
            && d.draft == if j.Obj? && "draft" in j.fields then j.fields["draft"] else Null
  {
    KeptText(j, "id", "watchlist-" + Decimal(i + 1));
    KeptText(j, "name", "Watchlist " + Decimal(i + 1));
    KeptText(j, "id", "compare-" + Decimal(i + 1));
    KeptText(j, "name", "Saved Compare");
    KeptText(j, "id", "draft-" + Decimal(i + 1));
    KeptText(j, "name", "Saved Draft");
    hide KeptOr, HasText, Decimal, SanitizeStrings;
  }

  /** A reload keeps the ticker when it is not blank, the route when it is a path, and the active list when it is still
      there; otherwise it takes the current ticker and route and the first list. Annotations are kept unless they are
      neither object nor array. */
  lemma MergeReads(persisted: Json, current: Store)
    ensures var r := Merge(persisted, current);
            && r.watchlists != []
            && r.activeTicker == (if HasString(persisted, "activeTicker") &&
                                     !AllSpace(StringAt(persisted, "activeTicker"))
                                  then Upper(StringAt(persisted, "activeTicker")) else current.activeTicker)
            && r.lastRoute == (if HasString(persisted, "lastRoute") && "/" <= StringAt(persisted, "lastRoute")
                               then StringAt(persisted, "lastRoute") else current.lastRoute)
            && r.activeWatchlistId == (if HasString(persisted, "activeWatchlistId") &&
                                          StringAt(persisted, "activeWatchlistId") in Ids(r.watchlists)
                                       then StringAt(persisted, "activeWatchlistId") else r.watchlists[0].id)
            && (var kept := persisted.Obj? && "watchlistAnnotations" in persisted.fields &&
                            (persisted.fields["watchlistAnnotations"].Obj? ||
                             persisted.fields["watchlistAnnotations"].Arr?);
                r.annotations == if kept then persisted.fields["watchlistAnnotations"] else Obj(map[]))
  {
    if HasString(persisted, "activeTicker") {
      BlankMeansSpaces(StringAt(persisted, "activeTicker"));
    }
    hide SanitizeWatchlists, SanitizeStrings, SanitizeCompareSets, SanitizeCommands, SanitizeDrafts, Trim, IsSpace,
         Upper;
    SanitizedWatchlistsExist(Field(persisted, "watchlists"));
    NoEmptyId(Field(persisted, "watchlists"));
  }

  lemma NoEmptyId(value: Option<Json>)
    ensures "" !in Ids(SanitizeWatchlists(value))
  {
    SanitizedWatchlists(value);
    hide SanitizeWatchlists, Clean, TickerList;
    var ws := SanitizeWatchlists(value);
    forall i | 0 <= i < |ws| ensures Ids(ws)[i] != "" {
      assert ws[i] in ws && CleanWatchlist(ws[i]);
    }
  }

  /** What is shown when nothing usable is persisted. */
  lemma FirstStart(persisted: Json)
    requires !persisted.Obj?
    ensures Merge(persisted, Initial()) == Initial()
    ensures Initial().watchlists == [Watchlist("core", "Core", ["SPY", "QQQ", "AAPL", "MSFT"]),
                                     Watchlist("macro", "Macro", ["TLT", "GLD", "XLF", "IWM"])]
    ensures Initial().activeTicker == "SPY" && Initial().activeWatchlistId == "core" && Initial().lastRoute == "/"
    ensures Initial().recentTickers == ["SPY"] && Initial().compareTickers == ["SPY", "QQQ"]
  {
    assert Ids(DefaultWatchlists())[0] == "core";
  }

  /** Settings take effect and survive a reload: the ticker upper-cased unless it is blank, the compared tickers unless
      they need trimming, the route when it is a path. */
  lemma SettingsSurviveReload(s: Store, current: Store, ticker: string, tickers: seq<string>, route: string)
    requires forall t :: t in tickers ==> Trimmed(t) && t != ""
    ensures var r := Merge(Partialize(Do(s, SetActiveTicker(ticker))), current);
            r.activeTicker == if AllSpace(ticker) then current.activeTicker else Upper(ticker)
    ensures Merge(Partialize(Do(s, SetCompareTickers(tickers))), current).compareTickers == UniqHead(tickers, 8)
    ensures Merge(Partialize(Do(s, SetLastRoute(route))), current).lastRoute ==
            if "/" <= route then route else current.lastRoute
  {
    TickerSurvives(s, current, ticker);
    ComparedSurvive(s, current, tickers);
    RouteSurvives(s, current, route);
    hide Merge, Partialize;
  }

  lemma TickerSurvives(s: Store, current: Store, ticker: string)
    ensures var r := Merge(Partialize(Do(s, SetActiveTicker(ticker))), current);
            r.activeTicker == if AllSpace(ticker) then current.activeTicker else Upper(ticker)
  {
    var after := Do(s, SetActiveTicker(ticker));
    hide Merge, Upper, IsSpace, Partialize;
    MergeReads(Partialize(after), current);
    StringStored(after);
    SpacesStay(ticker);
    UpperIsIdempotent(ticker);
  }

  lemma RouteSurvives(s: Store, current: Store, route: string)
    ensures Merge(Partialize(Do(s, SetLastRoute(route))), current).lastRoute ==
            if "/" <= route then route else current.lastRoute
  {
    var after := Do(s, SetLastRoute(route));
    hide Merge, Partialize;
    MergeReads(Partialize(after), current);
    StringStored(after);
  }

  lemma StringStored(s: Store)
    ensures var p := Partialize(s);
            && HasString(p, "activeTicker") && StringAt(p, "activeTicker") == s.activeTicker
            && HasString(p, "lastRoute") && StringAt(p, "lastRoute") == s.lastRoute
  {
    hide MapSeq, Strings;
  }

  lemma SpacesStay(s: string)
    ensures AllSpace(Upper(s)) <==> AllSpace(s)
  {
    BlankMeansSpaces(s);
    BlankMeansSpaces(Upper(s));
    UpperKeepsBlank(s);
    hide IsSpace, Upper, Trim;
  }

  lemma ComparedSurvive(s: Store, current: Store, tickers: seq<string>)
    requires forall t :: t in tickers ==> Trimmed(t) && t != ""
    ensures Merge(Partialize(Do(s, SetCompareTickers(tickers))), current).compareTickers == UniqHead(tickers, 8)
  {
    hide Field, Partialize, SanitizeWatchlists, SanitizeStrings, SanitizeCompareSets, SanitizeCommands, SanitizeDrafts,
         UniqHead, Upper, Ids, Strings, Trimmed, TickerList;
    var after := Do(s, SetCompareTickers(tickers));
    PersistedFields(after);
    UniqHeadIsClean(tickers, 8);
    UniqHeadIsAList(tickers, 8);
    StringsRoundTrip(UniqHead(tickers, 8), 8, current.compareTickers);
  }
}
