/** What the workspace store keeps, and what survives a reload. */
module WorkspaceLaws {
  import opened Values
  import opened Lists
  import opened Workspace

  // ---------- strings ----------

  predicate Trimmed(s: string) { s == "" || (!IsSpace(s[0]) && !IsSpace(s[|s| - 1])) }

  lemma {:induction false} TrimStartStrips(s: string)
    ensures TrimStart(s) == "" || !IsSpace(TrimStart(s)[0])
  {
    if s != "" && IsSpace(s[0]) {
      TrimStartStrips(s[1..]);
    }
  }

  lemma {:induction false} TrimEndStrips(s: string)
    ensures TrimEnd(s) <= s
    ensures TrimEnd(s) == "" || !IsSpace(TrimEnd(s)[|TrimEnd(s)| - 1])
  {
    if s != "" && IsSpace(s[|s| - 1]) {
      TrimEndStrips(s[..|s| - 1]);
    }
  }

  lemma TrimTrims(s: string)
    ensures Trimmed(Trim(s))
  {
    TrimStartStrips(s);
    TrimEndStrips(TrimStart(s));
  }

  lemma TrimOfTrimmed(s: string)
    requires Trimmed(s)
    ensures Trim(s) == s
  {}

  lemma UpperIsIdempotent(s: string)
    ensures Upper(Upper(s)) == Upper(s)
  {}

  lemma UpperKeepsTrimmed(s: string)
    ensures Trimmed(Upper(s)) <==> Trimmed(s)
    ensures Upper(s) == "" <==> s == ""
  {}

  /** Upper-casing never turns text into blanks. */
  lemma {:induction false} UpperKeepsBlank(s: string)
    ensures Blank(Upper(s)) <==> Blank(s)
  {
    BlankMeansSpaces(s);
    BlankMeansSpaces(Upper(s));
    assert forall i :: 0 <= i < |s| ==> (IsSpace(Upper(s)[i]) <==> IsSpace(s[i]));
  }

  lemma {:induction false} TrimStartOfSpaces(s: string)
    ensures (forall i :: 0 <= i < |s| ==> IsSpace(s[i])) <==> TrimStart(s) == ""
  {
    if s != "" && IsSpace(s[0]) {
      TrimStartOfSpaces(s[1..]);
      assert forall i :: 1 <= i < |s| ==> s[i] == s[1..][i - 1];
    }
  }

  lemma BlankMeansSpaces(s: string)
    ensures Blank(s) <==> forall i :: 0 <= i < |s| ==> IsSpace(s[i])
  {
    TrimStartOfSpaces(s);
    TrimStartStrips(s);
    KeptByTrimEnd(TrimStart(s));
  }

  lemma {:induction false} KeptByTrimEnd(s: string)
    requires s == "" || !IsSpace(s[0])
    ensures TrimEnd(s) == "" <==> s == ""
  {
    if s != "" && IsSpace(s[|s| - 1]) {
      KeptByTrimEnd(s[..|s| - 1]);
    }
  }

  lemma CommandKeyOfTrimmed(s: string)
    ensures CommandKey(Trim(s)) == CommandKey(s) && (Blank(Trim(s)) <==> Blank(s))
  {
    TrimTrims(s);
    TrimOfTrimmed(Trim(s));
  }

  // ---------- the lists of a valid store ----------

  ghost predicate TickerList(l: seq<string>, limit: nat) {
    |l| <= limit && DistinctBy(l, Same) && forall x :: x in l ==> Upper(x) == x
  }

  ghost predicate CommandList(l: seq<string>, limit: nat) {
    |l| <= limit && DistinctBy(l, CommandKey) && forall x :: x in l ==> Trimmed(x) && x != ""
  }

  lemma MapMembers<T(!new), U(!new)>(s: seq<T>, f: T -> U)
    ensures forall y :: y in MapSeq(s, f) <==> exists x :: x in s && f(x) == y
  {
    forall x | x in s ensures f(x) in MapSeq(s, f) {
      var i :| 0 <= i < |s| && s[i] == x;
      assert MapSeq(s, f)[i] == f(x);
    }
  }

  lemma {:induction false} UppersAreFixed(s: seq<string>)
    requires forall x :: x in s ==> Upper(x) == x
    ensures MapSeq(s, Upper) == s
  {}

  /** uniqHead returns upper-cased, distinct, bounded tickers. */
  lemma UniqHeadIsAList(items: seq<string>, limit: nat)
    ensures TickerList(UniqHead(items, limit), limit)
  {
    hide Upper;
    var upper := MapSeq(items, Upper);
    DedupIsDistinct(upper, Same);
    PrefixDistinct(Dedup(upper, Same), Same, limit);
    MapMembers(items, Upper);
    forall x | x in UniqHead(items, limit) ensures Upper(x) == x {
      assert x in Dedup(upper, Same);
      var y :| y in items && Upper(y) == x;
      UpperIsIdempotent(y);
    }
  }

  lemma {:induction false} DedupCommutesWithMap(s: seq<string>, f: string -> string, key: string -> string)
    requires forall x :: key(f(x)) == key(x)
    ensures MapSeq(Dedup(s, key), f) == Dedup(MapSeq(s, f), key)
  {
    if s != [] {
      DedupCommutesWithMap(s[1..], f, key);
      assert MapSeq(s, f)[1..] == MapSeq(s[1..], f);
      var d := Dedup(s[1..], key);
      WithoutCommutesWithMap(d, f, key, key(s[0]));
      assert MapSeq([s[0]] + Without(d, key, key(s[0])), f) == [f(s[0])] + MapSeq(Without(d, key, key(s[0])), f);
    }
  }

  lemma {:induction false} WithoutCommutesWithMap(s: seq<string>, f: string -> string, key: string -> string, k: string)
    requires forall x :: key(f(x)) == key(x)
    ensures MapSeq(Without(s, key, k), f) == Without(MapSeq(s, f), key, k)
  {
    if s != [] {
      WithoutCommutesWithMap(s[1..], f, key, k);
      assert MapSeq(s, f)[1..] == MapSeq(s[1..], f);
      if key(s[0]) == k {
        assert Without(s, key, k) == Without(s[1..], key, k);
      } else {
        assert MapSeq([s[0]] + Without(s[1..], key, k), f) == [f(s[0])] + MapSeq(Without(s[1..], key, k), f);
      }
    }
  }

  /** The commands of a list, trimmed. */
  function Commands(items: seq<string>): seq<string> { MapSeq(Keep(items, IsCommand), Trim) }

  lemma UniqCommandsOfTrimmed(items: seq<string>, limit: nat)
    ensures UniqCommands(items, limit) == Take(Dedup(Commands(items), CommandKey), limit)
  {
    hide Trim, Upper, CommandKey;
    forall x ensures CommandKey(Trim(x)) == CommandKey(x) {
      CommandKeyOfTrimmed(x);
    }
    DedupCommutesWithMap(Keep(items, IsCommand), Trim, CommandKey);
  }

  lemma CommandsAreCommands(items: seq<string>)
    ensures forall x :: x in Commands(items) ==> Trimmed(x) && x != ""
  {
    KeepMembers(items, IsCommand);
    MapMembers(Keep(items, IsCommand), Trim);
    hide Trim;
    forall x | x in Commands(items) ensures Trimmed(x) && x != "" {
      var y :| y in Keep(items, IsCommand) && Trim(y) == x;
      TrimTrims(y);
    }
  }

  /** uniqCommands returns trimmed, nonblank, bounded commands, distinct up to case. */
  lemma UniqCommandsIsAList(items: seq<string>, limit: nat)
    ensures CommandList(UniqCommands(items, limit), limit)
  {
    UniqCommandsOfTrimmed(items, limit);
    CommandsAreCommands(items);
    DedupIsDistinct(Commands(items), CommandKey);
    PrefixDistinct(Dedup(Commands(items), CommandKey), CommandKey, limit);
  }

  ghost predicate Valid(s: Store) {
    && Upper(s.activeTicker) == s.activeTicker
    && s.watchlists != [] && (forall w :: w in s.watchlists ==> TickerList(w.symbols, 40))
    && TickerList(s.recentTickers, 12) && TickerList(s.compareTickers, 8)
    && |s.savedCompareSets| <= 12 && (forall c :: c in s.savedCompareSets ==> TickerList(c.tickers, 8))
    && CommandList(s.recentCommands, 12)
    && |s.savedScreens| <= 12 && |s.savedBacktests| <= 12
    && IsRecord(s.annotations)
  }

  // ---------- what survives a reload ----------

  ghost predicate Clean(l: seq<string>) { forall x :: x in l ==> Trimmed(x) && x != "" }

  ghost predicate CleanWatchlist(w: Watchlist) {
    !Blank(w.id) && !Blank(w.name) && w.symbols != [] && Clean(w.symbols) && TickerList(w.symbols, 40)
  }

  ghost predicate CleanCompareSet(c: CompareSet) {
    !Blank(c.id) && !Blank(c.name) && c.tickers != [] && Clean(c.tickers) && TickerList(c.tickers, 8)
  }

  ghost predicate CleanDraft(d: Draft) { !Blank(d.id) && !Blank(d.name) && d.draft != Null }

  /** Names and ids nonblank, tickers trimmed and nonblank, nothing empty, the active id known, the route a
      path. */
  ghost predicate Persistable(s: Store) {
    && !Blank(s.activeTicker)
    && (forall w :: w in s.watchlists ==> CleanWatchlist(w)) && s.activeWatchlistId in Ids(s.watchlists)
    && Clean(s.recentTickers) && Clean(s.compareTickers)
    && (forall c :: c in s.savedCompareSets ==> CleanCompareSet(c))
    && (forall d :: d in s.savedScreens ==> CleanDraft(d)) && (forall d :: d in s.savedBacktests ==> CleanDraft(d))
    && s.lastRoute != "" && s.lastRoute[0] == '/'
  }

  // ---------- merge reaches a valid, persistable store ----------

  lemma UniqHeadIsClean(items: seq<string>, limit: nat)
    requires Clean(items)
    ensures Clean(UniqHead(items, limit))
  {
    hide Upper, Trimmed;
    var upper := MapSeq(items, Upper);
    DedupIsDistinct(upper, Same);
    MapMembers(items, Upper);
    forall x | x in UniqHead(items, limit) ensures Trimmed(x) && x != "" {
      assert x in Dedup(upper, Same);
      var y :| y in items && Upper(y) == x;
      UpperKeepsTrimmed(y);
    }
  }

  lemma SanitizedStrings(value: Option<Json>, limit: nat, fallback: seq<string>)
    requires TickerList(fallback, limit) && Clean(fallback)
    ensures TickerList(SanitizeStrings(value, limit, fallback), limit) && Clean(SanitizeStrings(value, limit, fallback))
  {
    if value.Some? && value.value.Arr? {
      var texts := Keep(value.value.items, IsText);
      var items := Keep(MapSeq(texts, TrimText), NonEmpty);
      KeepMembers(MapSeq(texts, TrimText), NonEmpty);
      MapMembers(texts, TrimText);
      forall x | x in items ensures Trimmed(x) && x != "" {
        var j :| j in texts && TrimText(j) == x;
        TrimTrims(Text(j));
      }
      UniqHeadIsAList(items, limit);
      UniqHeadIsClean(items, limit);
    }
  }

  lemma {:induction false} DecimalHasDigits(n: nat)
    ensures Decimal(n) != "" && !IsSpace(Decimal(n)[|Decimal(n)| - 1])
  {
    DigitIsNoSpace(n % 10);
  }

  lemma DigitIsNoSpace(n: nat)
    requires n < 10
    ensures !IsSpace(Digit(n))
  {
    assert Digit(n) in "0123456789";
  }

  lemma NumberedIsNotBlank(prefix: string, n: nat)
    ensures !Blank(prefix + Decimal(n))
  {
    DecimalHasDigits(n);
    var s := prefix + Decimal(n);
    BlankMeansSpaces(s);
    assert s[|s| - 1] == Decimal(n)[|Decimal(n)| - 1];
  }

  lemma StartsWithText(s: string)
    requires s != "" && !IsSpace(s[0])
    ensures !Blank(s)
  {
    BlankMeansSpaces(s);
  }

  lemma EmptyIsClean(limit: nat)
    ensures TickerList([], limit) && Clean([])
  {}

  lemma SanitizedWatchlistIsClean(j: Json, i: nat)
    requires SanitizeWatchlist(j, i).symbols != []
    ensures CleanWatchlist(SanitizeWatchlist(j, i))
  {
    hide Blank, Decimal, SanitizeStrings;
    EmptyIsClean(40);
    SanitizedStrings(Field(j, "symbols"), 40, []);
    NumberedIsNotBlank("watchlist-", i + 1);
    NumberedIsNotBlank("Watchlist ", i + 1);
  }

  lemma SanitizedCompareSetIsClean(j: Json, i: nat)
    requires SanitizeCompareSet(j, i).tickers != []
    ensures CleanCompareSet(SanitizeCompareSet(j, i))
  {
    hide Blank, Decimal, SanitizeStrings;
    EmptyIsClean(8);
    SanitizedStrings(Field(j, "tickers"), 8, []);
    NumberedIsNotBlank("compare-", i + 1);
    StartsWithText("Saved Compare");
  }

  lemma SanitizedDraftIsClean(j: Json, i: nat)
    requires SanitizeDraft(j, i).draft != Null
    ensures CleanDraft(SanitizeDraft(j, i))
  {
    hide Blank, Decimal;
    NumberedIsNotBlank("draft-", i + 1);
    StartsWithText("Saved Draft");
  }

  lemma LettersAreATicker(s: string)
    requires s != "" && forall i :: 0 <= i < |s| ==> 'A' <= s[i] <= 'Z'
    ensures Upper(s) == s && Trimmed(s)
  {}

  lemma FourTickers(a: string, b: string, c: string, d: string)
    requires Upper(a) == a && Upper(b) == b && Upper(c) == c && Upper(d) == d
    requires Trimmed(a) && Trimmed(b) && Trimmed(c) && Trimmed(d) && a != "" && b != "" && c != "" && d != ""
    requires a != b && a != c && a != d && b != c && b != d && c != d
    ensures TickerList([a, b, c, d], 40) && Clean([a, b, c, d])
  {
    hide Upper, Trimmed;
  }

  lemma DefaultsAreClean()
    ensures forall w :: w in DefaultWatchlists() ==> CleanWatchlist(w)
  {
    StartsWithText("core");
    StartsWithText("Core");
    StartsWithText("macro");
    StartsWithText("Macro");
    CoreTickers();
    MacroTickers();
    hide Blank, TickerList, Clean;
    var ws := DefaultWatchlists();
    assert CleanWatchlist(ws[0]) && CleanWatchlist(ws[1]);
  }

  lemma CoreTickers()
    ensures TickerList(["SPY", "QQQ", "AAPL", "MSFT"], 40) && Clean(["SPY", "QQQ", "AAPL", "MSFT"])
  {
    LettersAreATicker("SPY");
    LettersAreATicker("QQQ");
    LettersAreATicker("AAPL");
    LettersAreATicker("MSFT");
    assert "SPY"[0] != "QQQ"[0] && "AAPL"[0] != "MSFT"[0];
    hide TickerList, Clean;
    FourTickers("SPY", "QQQ", "AAPL", "MSFT");
  }

  lemma MacroTickers()
    ensures TickerList(["TLT", "GLD", "XLF", "IWM"], 40) && Clean(["TLT", "GLD", "XLF", "IWM"])
  {
    LettersAreATicker("TLT");
    LettersAreATicker("GLD");
    LettersAreATicker("XLF");
    LettersAreATicker("IWM");
    assert "TLT"[0] == 'T' && "GLD"[0] == 'G' && "XLF"[0] == 'X' && "IWM"[0] == 'I';
    hide TickerList, Clean;
    FourTickers("TLT", "GLD", "XLF", "IWM");
  }

  lemma SanitizedWatchlists(value: Option<Json>)
    ensures SanitizeWatchlists(value) != []
    ensures forall w :: w in SanitizeWatchlists(value) ==> CleanWatchlist(w)
  {
    hide CleanWatchlist, SanitizeWatchlist;
    DefaultsAreClean();
    if value.Some? && value.value.Arr? {
      var records := Keep(value.value.items, IsRecord);
      var all := Indexed(records, SanitizeWatchlist);
      KeepMembers(all, HasSymbols);
      forall w | w in Keep(all, HasSymbols) ensures CleanWatchlist(w) {
        var i :| 0 <= i < |all| && all[i] == w;
        SanitizedWatchlistIsClean(records[i], i);
      }
    }
  }

  lemma SanitizedCompareSets(value: Option<Json>)
    ensures |SanitizeCompareSets(value)| <= 12
    ensures forall c :: c in SanitizeCompareSets(value) ==> CleanCompareSet(c)
  {
    hide CleanCompareSet, SanitizeCompareSet;
    if value.Some? && value.value.Arr? {
      var records := Keep(value.value.items, IsRecord);
      var all := Indexed(records, SanitizeCompareSet);
      KeepMembers(all, HasTickers);
      forall c | c in Keep(all, HasTickers) ensures CleanCompareSet(c) {
        var i :| 0 <= i < |all| && all[i] == c;
        SanitizedCompareSetIsClean(records[i], i);
      }
    }
  }

  lemma SanitizedDrafts(value: Option<Json>)
    ensures |SanitizeDrafts(value)| <= 12
    ensures forall d :: d in SanitizeDrafts(value) ==> CleanDraft(d)
  {
    hide CleanDraft, SanitizeDraft;
    if value.Some? && value.value.Arr? {
      var records := Keep(value.value.items, IsRecord);
      var all := Indexed(records, SanitizeDraft);
      KeepMembers(all, HasDraft);
      forall d | d in Keep(all, HasDraft) ensures CleanDraft(d) {
        var i :| 0 <= i < |all| && all[i] == d;
        SanitizedDraftIsClean(records[i], i);
      }
    }
  }

  lemma SanitizedCommands(value: Option<Json>, fallback: seq<string>)
    requires CommandList(fallback, 12)
    ensures CommandList(SanitizeCommands(value, fallback), 12)
  {
    hide CommandList;
    if value.Some? && value.value.Arr? {
      UniqCommandsIsAList(MapSeq(Keep(value.value.items, IsText), Text), 12);
    }
  }

  lemma CleanListsAreTickerLists(s: Store)
    requires forall w :: w in s.watchlists ==> CleanWatchlist(w)
    requires forall c :: c in s.savedCompareSets ==> CleanCompareSet(c)
    ensures forall w :: w in s.watchlists ==> TickerList(w.symbols, 40)
    ensures forall c :: c in s.savedCompareSets ==> TickerList(c.tickers, 8)
  {}

  lemma FirstIdIsKnown(ws: seq<Watchlist>)
    requires ws != []
    ensures ws[0].id in Ids(ws)
  {
    assert Ids(ws)[0] == ws[0].id;
  }

  /** From any persisted value whatever, merge reaches a store that is valid and would survive a reload. */
  lemma MergeSanitizes(persisted: Json, current: Store)
    requires Valid(current) && Persistable(current)
    ensures Valid(Merge(persisted, current)) && Persistable(Merge(persisted, current))
  {
    hide Field, CleanWatchlist, CleanCompareSet, CleanDraft, TickerList, CommandList, Clean, Blank, Upper,
         SanitizeWatchlists, SanitizeCompareSets, SanitizeDrafts, SanitizeStrings, SanitizeCommands;
    SanitizedWatchlists(Field(persisted, "watchlists"));
    SanitizedCompareSets(Field(persisted, "savedCompareSets"));
    SanitizedDrafts(Field(persisted, "savedScreens"));
    SanitizedDrafts(Field(persisted, "savedBacktests"));
    SanitizedStrings(Field(persisted, "recentTickers"), 12, current.recentTickers);
    SanitizedStrings(Field(persisted, "compareTickers"), 8, current.compareTickers);
    SanitizedCommands(Field(persisted, "recentCommands"), current.recentCommands);
    var next := Merge(persisted, current);
    FirstIdIsKnown(next.watchlists);
    CleanListsAreTickerLists(next);
    UpperIsIdempotent(TextOf(Field(persisted, "activeTicker"), ""));
    UpperKeepsBlank(TextOf(Field(persisted, "activeTicker"), ""));
  }

  lemma InitialIsSound()
    ensures Valid(Initial()) && Persistable(Initial())
  {
    hide TickerList, Clean, CleanWatchlist, Blank, CommandList;
    DefaultsAreClean();
    CleanListsAreTickerLists(Initial());
    FirstIdIsKnown(DefaultWatchlists());
    StartsWithText("SPY");
    ShortLists();
    assert Upper("SPY") == "SPY";
  }

  lemma ShortLists()
    ensures TickerList(["SPY"], 12) && TickerList(["SPY", "QQQ"], 8) && Clean(["SPY"]) && Clean(["SPY", "QQQ"])
    ensures CommandList([], 12)
  {
    assert Upper("SPY") == "SPY" && Upper("QQQ") == "QQQ";
  }

  // ---------- merge after partialize ----------

  lemma {:induction false} AllTexts(l: seq<string>)
    ensures Keep(MapSeq(l, ToStr), IsText) == MapSeq(l, ToStr)
  {
    KeepAll(MapSeq(l, ToStr), IsText);
  }

  lemma StringsRoundTrip(l: seq<string>, limit: nat, fallback: seq<string>)
    requires TickerList(l, limit) && Clean(l)
    ensures SanitizeStrings(Some(Strings(l)), limit, fallback) == l
  {
    AllTexts(l);
    var texts := MapSeq(l, ToStr);
    forall i | 0 <= i < |l| ensures MapSeq(texts, TrimText)[i] == l[i] {
      assert texts[i] == Str(l[i]) && l[i] in l;
      TrimOfTrimmed(l[i]);
    }
    assert MapSeq(texts, TrimText) == l;
    hide Trim, Upper, Trimmed;
    KeepAll(l, NonEmpty);
    UppersAreFixed(l);
    DedupOfDistinct(l, Same);
  }

  lemma TextsOf(l: seq<string>)
    ensures MapSeq(MapSeq(l, ToStr), Text) == l
  {
    var texts := MapSeq(l, ToStr);
    forall i | 0 <= i < |l| ensures MapSeq(texts, Text)[i] == l[i] {
      assert texts[i] == Str(l[i]);
    }
  }

  lemma CommandsRoundTrip(l: seq<string>, fallback: seq<string>)
    requires CommandList(l, 12)
    ensures SanitizeCommands(Some(Strings(l)), fallback) == l
  {
    AllTexts(l);
    TextsOf(l);
    forall x | x in l ensures IsCommand(x) && Trim(x) == x {
      TrimOfTrimmed(x);
    }
    KeepAll(l, IsCommand);
    DedupOfDistinct(l, CommandKey);
    assert MapSeq(l, Trim) == l;
  }

  lemma WatchlistRoundTrip(w: Watchlist, i: nat)
    requires CleanWatchlist(w)
    ensures SanitizeWatchlist(WatchlistJson(w), i) == w
  {
    hide Blank, SanitizeStrings, Decimal;
    StringsRoundTrip(w.symbols, 40, []);
  }

  lemma CompareSetRoundTrip(c: CompareSet, i: nat)
    requires CleanCompareSet(c)
    ensures SanitizeCompareSet(CompareSetJson(c), i) == c
  {
    hide Blank, SanitizeStrings, Decimal;
    StringsRoundTrip(c.tickers, 8, []);
  }

  lemma DraftRoundTrip(d: Draft, i: nat)
    requires CleanDraft(d)
    ensures SanitizeDraft(DraftJson(d), i) == d
  {
    hide Blank, Decimal;
  }

  lemma AllRecords<T>(s: seq<T>, f: T -> Json)
    requires forall i :: 0 <= i < |s| ==> IsRecord(f(s[i]))
    ensures Keep(MapSeq(s, f), IsRecord) == MapSeq(s, f)
  {
    KeepAll(MapSeq(s, f), IsRecord);
  }

  lemma WatchlistsRoundTrip(ws: seq<Watchlist>)
    requires ws != [] && forall w :: w in ws ==> CleanWatchlist(w)
    ensures SanitizeWatchlists(Some(Arr(MapSeq(ws, WatchlistJson)))) == ws
  {
    AllRecords(ws, WatchlistJson);
    forall i | 0 <= i < |ws| ensures SanitizeWatchlist(WatchlistJson(ws[i]), i) == ws[i] && HasSymbols(ws[i]) {
      assert ws[i] in ws;
      WatchlistRoundTrip(ws[i], i);
    }
    hide SanitizeWatchlist, WatchlistJson;
    assert Indexed(MapSeq(ws, WatchlistJson), SanitizeWatchlist) == ws;
    KeepAll(ws, HasSymbols);
  }

  lemma CompareSetsRoundTrip(cs: seq<CompareSet>)
    requires |cs| <= 12 && forall c :: c in cs ==> CleanCompareSet(c)
    ensures SanitizeCompareSets(Some(Arr(MapSeq(cs, CompareSetJson)))) == cs
  {
    AllRecords(cs, CompareSetJson);
    forall i | 0 <= i < |cs| ensures SanitizeCompareSet(CompareSetJson(cs[i]), i) == cs[i] && HasTickers(cs[i]) {
      assert cs[i] in cs;
      CompareSetRoundTrip(cs[i], i);
    }
    hide SanitizeCompareSet, CompareSetJson;
    assert Indexed(MapSeq(cs, CompareSetJson), SanitizeCompareSet) == cs;
    KeepAll(cs, HasTickers);
  }

  lemma DraftsRoundTrip(ds: seq<Draft>)
    requires |ds| <= 12 && forall d :: d in ds ==> CleanDraft(d)
    ensures SanitizeDrafts(Some(Arr(MapSeq(ds, DraftJson)))) == ds
  {
    AllRecords(ds, DraftJson);
    forall i | 0 <= i < |ds| ensures SanitizeDraft(DraftJson(ds[i]), i) == ds[i] && HasDraft(ds[i]) {
      assert ds[i] in ds;
      DraftRoundTrip(ds[i], i);
    }
    hide SanitizeDraft, DraftJson;
    assert Indexed(MapSeq(ds, DraftJson), SanitizeDraft) == ds;
    KeepAll(ds, HasDraft);
  }

  lemma PersistedFields(s: Store)
    ensures var p := Partialize(s);
            && Field(p, "activeTicker") == Some(Str(s.activeTicker))
            && Field(p, "watchlists") == Some(Arr(MapSeq(s.watchlists, WatchlistJson)))
            && Field(p, "activeWatchlistId") == Some(Str(s.activeWatchlistId))
            && Field(p, "recentTickers") == Some(Strings(s.recentTickers))
            && Field(p, "compareTickers") == Some(Strings(s.compareTickers))
            && Field(p, "savedCompareSets") == Some(Arr(MapSeq(s.savedCompareSets, CompareSetJson)))
            && Field(p, "recentCommands") == Some(Strings(s.recentCommands))
            && Field(p, "savedScreens") == Some(Arr(MapSeq(s.savedScreens, DraftJson)))
            && Field(p, "savedBacktests") == Some(Arr(MapSeq(s.savedBacktests, DraftJson)))
            && Field(p, "watchlistAnnotations") == Some(s.annotations)
            && Field(p, "lastRoute") == Some(Str(s.lastRoute))
  {
    hide MapSeq, Strings;
  }

  lemma ReloadRestores(s: Store, current: Store)
    requires Valid(s) && Persistable(s)
    ensures Merge(Partialize(s), current) == s
  {
    hide Field, Partialize, CleanWatchlist, CleanCompareSet, CleanDraft, TickerList, CommandList, Clean, Blank, Upper,
        Ids,
         SanitizeWatchlists, SanitizeCompareSets, SanitizeDrafts, SanitizeStrings, SanitizeCommands, MapSeq, Strings;
    PersistedFields(s);
    WatchlistsRoundTrip(s.watchlists);
    CompareSetsRoundTrip(s.savedCompareSets);
    DraftsRoundTrip(s.savedScreens);
    DraftsRoundTrip(s.savedBacktests);
    StringsRoundTrip(s.recentTickers, 12, current.recentTickers);
    StringsRoundTrip(s.compareTickers, 8, current.compareTickers);
    CommandsRoundTrip(s.recentCommands, current.recentCommands);
  }

  /** A valid store comes back unchanged from a reload exactly when it is persistable. */
  lemma ReloadIsIdentityExactlyWhen(s: Store, current: Store)
    requires Valid(s) && Valid(current) && Persistable(current)
    ensures Merge(Partialize(s), current) == s <==> Persistable(s)
  {
    hide Merge, Valid, Persistable;
    MergeSanitizes(Partialize(s), current);
    if Persistable(s) {
      ReloadRestores(s, current);
    }
  }

  /** Reloading once more changes nothing. */
  lemma ReloadIsIdempotent(persisted: Json, current: Store)
    requires Valid(current) && Persistable(current)
    ensures Merge(Partialize(Merge(persisted, current)), current) == Merge(persisted, current)
  {
    hide Merge, Valid, Persistable;
    MergeSanitizes(persisted, current);
    ReloadRestores(Merge(persisted, current), current);
  }

  /** A watchlist that was created and left empty does not survive a reload. */
  lemma EmptyWatchlistIsLost(s: Store, current: Store, name: string, id: string)
    requires Valid(s) && Valid(current) && Persistable(current)
    ensures var created := Do(s, CreateWatchlist(name, id));
            && created.watchlists[|s.watchlists|].symbols == []
            && created.watchlists[|s.watchlists|] !in Merge(Partialize(created), current).watchlists
            && Merge(Partialize(created), current) != created
  {
    hide Merge, Valid, Persistable, Partialize, Trim, Decimal;
    var created := Do(s, CreateWatchlist(name, id));
    assert created.watchlists[|s.watchlists|] in created.watchlists;
    MergeSanitizes(Partialize(created), current);
    NoEmptyWatchlist(Merge(Partialize(created), current));
  }

  lemma NoEmptyWatchlist(s: Store)
    requires Persistable(s)
    ensures forall w :: w in s.watchlists ==> w.symbols != []
  {}

  // ---------- actions ----------

  lemma WithoutKeepsTickers(l: seq<string>, x: string, limit: nat)
    requires TickerList(l, limit)
    ensures TickerList(Without(l, Same, x), limit)
  {
    hide Upper;
    WithoutDistinct(l, Same, x);
    WithoutMembers(l, Same, x);
  }

  lemma ToggleKeepsTickers(l: seq<string>, t: string, limit: nat)
    requires TickerList(l, limit)
    ensures TickerList(Toggle(l, Upper(t), limit), limit)
  {
    hide TickerList;
    WithoutKeepsTickers(l, Upper(t), limit);
    UniqHeadIsAList([Upper(t)] + l, limit);
  }

  ghost predicate ListsValid(ws: seq<Watchlist>) { ws != [] && forall w :: w in ws ==> TickerList(w.symbols, 40) }

  lemma MapKeepsLists(ws: seq<Watchlist>, f: Watchlist -> Watchlist)
    requires ListsValid(ws) && forall w: Watchlist :: TickerList(w.symbols, 40) ==> TickerList(f(w).symbols, 40)
    ensures ListsValid(MapSeq(ws, f))
  {
    MapMembers(ws, f);
  }

  lemma CreatingKeepsLists(s: Store, name: string, id: string)
    requires ListsValid(s.watchlists)
    ensures ListsValid(Do(s, CreateWatchlist(name, id)).watchlists)
  {
    hide TickerList, Trim, Decimal;
    EmptyIsClean(40);
  }

  lemma RenamingKeepsLists(s: Store, name: string, id: string)
    requires ListsValid(s.watchlists)
    ensures ListsValid(Do(s, RenameWatchlist(id, name)).watchlists)
  {
    hide TickerList, ListsValid, Trim, MapSeq;
    MapKeepsLists(s.watchlists, (w: Watchlist) => if w.id == id then w.(name := OrElse(Trim(name), w.name)) else w);
  }

  lemma DeletingKeepsLists(s: Store, id: string)
    requires ListsValid(s.watchlists)
    ensures ListsValid(Do(s, DeleteWatchlist(id)).watchlists)
  {
    hide TickerList, CleanWatchlist;
    KeepMembers(s.watchlists, (w: Watchlist) => w.id != id);
    DefaultsAreClean();
    assert forall w :: w in DefaultWatchlists() ==> TickerList(w.symbols, 40) by {
      CleanMeansTickers(DefaultWatchlists());
    }
  }

  lemma CleanMeansTickers(ws: seq<Watchlist>)
    requires forall w :: w in ws ==> CleanWatchlist(w)
    ensures forall w :: w in ws ==> TickerList(w.symbols, 40)
  {
    hide TickerList;
  }

  lemma TogglingKeepsLists(s: Store, t: string, target: Option<string>)
    requires ListsValid(s.watchlists)
    ensures ListsValid(Do(s, ToggleWatchlist(t, target)).watchlists)
  {
    hide TickerList, Toggle, ListsValid, Upper, MapSeq;
    var id := if target.Some? then target.value else s.activeWatchlistId;
    forall w: Watchlist | TickerList(w.symbols, 40) ensures TickerList(Toggle(w.symbols, Upper(t), 40), 40) {
      ToggleKeepsTickers(w.symbols, t, 40);
    }
    MapKeepsLists(s.watchlists, (w: Watchlist) =>
      if w.id == id then w.(symbols := Toggle(w.symbols, Upper(t), 40)) else w);
  }

  /** Every action keeps the store valid. */
  lemma ActionsKeepValid(s: Store, a: Action)
    requires Valid(s)
    ensures Valid(Do(s, a))
  {
    hide TickerList, CommandList, UniqHead, UniqCommands, Toggle, Deleted, Upper, Trim, Decimal, Join, OrElse,
        Without, Spread, NewDraft;
    match a
    case SetActiveTicker(t) => UpperIsIdempotent(t);
    case AddRecentTicker(t) => UniqHeadIsAList([t] + s.recentTickers, 12);
    case AddRecentCommand(c) => UniqCommandsIsAList([c] + s.recentCommands, 12);
    case CreateWatchlist(name, id) => CreatingKeepsLists(s, name, id);
    case RenameWatchlist(id, name) => RenamingKeepsLists(s, name, id);
    case DeleteWatchlist(id) => DeletingKeepsLists(s, id);
    case ToggleWatchlist(t, target) => TogglingKeepsLists(s, t, target);
    case SetCompareTickers(ts) => UniqHeadIsAList(ts, 8);
    case ToggleCompareTicker(t) => ToggleKeepsTickers(s.compareTickers, t, 8);
    case RemoveCompareTicker(t) => WithoutKeepsTickers(s.compareTickers, Upper(t), 8);
    case SaveCompareSet(name, ts, id, at) => UniqHeadIsAList(ts, 8);
    case DeleteCompareSet(id) => KeepMembers(s.savedCompareSets, (c: CompareSet) => c.id != id);
    case _ =>
  }

  function Run(s: Store, actions: seq<Action>): Store
    decreases |actions|
  {
    if actions == [] then s else Do(Run(s, actions[..|actions| - 1]), actions[|actions| - 1])
  }

  /** Whatever was persisted and whatever is done next, the store stays valid, so there always is an active
      watchlist, and it is one of the store's. */
  lemma {:induction false} StoreStaysValid(persisted: Json, actions: seq<Action>)
    ensures var s := Run(Merge(persisted, Initial()), actions);
            Valid(s) && s.watchlists != [] && ActiveWatchlist(s) in s.watchlists
    decreases |actions|
  {
    hide Valid, Do, Merge, Persistable;
    if actions == [] {
      InitialIsSound();
      MergeSanitizes(persisted, Initial());
    } else {
      StoreStaysValid(persisted, actions[..|actions| - 1]);
      ActionsKeepValid(Run(Merge(persisted, Initial()), actions[..|actions| - 1]), actions[|actions| - 1]);
    }
    ActiveIsListed(Run(Merge(persisted, Initial()), actions));
  }

  lemma ActiveIsListed(s: Store)
    requires Valid(s)
    ensures s.watchlists != [] && ActiveWatchlist(s) in s.watchlists
  {
    FoundIsListed(s.watchlists, s.activeWatchlistId);
  }

  lemma {:induction false} FoundIsListed(ws: seq<Watchlist>, id: string)
    ensures Find(ws, id).Some? ==> Find(ws, id).value in ws && Find(ws, id).value.id == id
    ensures Find(ws, id).None? ==> forall w :: w in ws ==> w.id != id
  {
    if ws != [] {
      assert ws == [ws[0]] + ws[1..];
      FoundIsListed(ws[1..], id);
    }
  }

  // ---------- recent lists over whole runs ----------

  /** The tickers added in a run, newest first. */
  function AddedTickers(actions: seq<Action>): seq<string>
    decreases |actions|
  {
    if actions == [] then []
    else (if actions[|actions| - 1].AddRecentTicker? then [actions[|actions| - 1].ticker] else []) +
         AddedTickers(actions[..|actions| - 1])
  }

  function AddedCommands(actions: seq<Action>): seq<string>
    decreases |actions|
  {
    if actions == [] then []
    else (if actions[|actions| - 1].AddRecentCommand? then [actions[|actions| - 1].command] else []) +
         AddedCommands(actions[..|actions| - 1])
  }

  lemma OnlyAddsMatter(s: Store, a: Action)
    ensures !a.AddRecentTicker? ==> Do(s, a).recentTickers == s.recentTickers
    ensures !a.AddRecentCommand? ==> Do(s, a).recentCommands == s.recentCommands
  {}

  lemma UniqHeadAfterTruncation(t: string, older: seq<string>, limit: nat)
    requires limit > 0
    ensures UniqHead([t] + UniqHead(older, limit), limit) == UniqHead([t] + older, limit)
  {
    hide Upper, Dedup, Take;
    var upper, newest := MapSeq(older, Upper), UniqHead(older, limit);
    UniqHeadIsAList(older, limit);
    UppersAreFixed(newest);
    assert MapSeq([t] + newest, Upper) == [Upper(t)] + MapSeq(newest, Upper);
    assert MapSeq([t] + older, Upper) == [Upper(t)] + upper;
    TruncationIsHarmless(Upper(t), upper, Same, limit);
  }

  lemma CommandsOfCons(c: string, rest: seq<string>)
    ensures Commands([c] + rest) == (if Blank(c) then [] else [Trim(c)]) + Commands(rest)
  {
    assert ([c] + rest)[1..] == rest;
    hide Trim;
    assert MapSeq([c] + Keep(rest, IsCommand), Trim) == [Trim(c)] + MapSeq(Keep(rest, IsCommand), Trim);
  }

  lemma CommandsOfList(l: seq<string>, limit: nat)
    requires CommandList(l, limit)
    ensures Commands(l) == l && Take(Dedup(l, CommandKey), limit) == l
  {
    forall x | x in l ensures IsCommand(x) && Trim(x) == x {
      TrimOfTrimmed(x);
    }
    KeepAll(l, IsCommand);
    DedupOfDistinct(l, CommandKey);
    assert MapSeq(l, Trim) == l;
  }

  lemma UniqCommandsAfterTruncation(c: string, older: seq<string>, limit: nat)
    requires limit > 0
    ensures UniqCommands([c] + UniqCommands(older, limit), limit) == UniqCommands([c] + older, limit)
  {
    hide Trim, Dedup, Take, CommandKey, Keep, CommandList;
    var newest := UniqCommands(older, limit);
    UniqCommandsIsAList(older, limit);
    CommandsOfList(newest, limit);
    UniqCommandsOfTrimmed(older, limit);
    UniqCommandsOfTrimmed([c] + newest, limit);
    UniqCommandsOfTrimmed([c] + older, limit);
    CommandsOfCons(c, newest);
    CommandsOfCons(c, older);
    if Blank(c) {
      assert [] + newest == newest && [] + Commands(older) == Commands(older);
    } else {
      TruncationIsHarmless(Trim(c), Commands(older), CommandKey, limit);
    }
  }

  /** After any run the recent tickers are the 12 most recent distinct tickers of the whole history of
      additions, although every step had already truncated the list. */
  lemma {:induction false} RecentTickersAreTheNewest(s: Store, actions: seq<Action>)
    requires Valid(s)
    ensures Run(s, actions).recentTickers == UniqHead(AddedTickers(actions) + s.recentTickers, 12)
    decreases |actions|
  {
    hide UniqHead, Do, Valid;
    if actions == [] {
      ListIsItsOwnHead(s);
      assert [] + s.recentTickers == s.recentTickers;
    } else {
      var front, a := actions[..|actions| - 1], actions[|actions| - 1];
      RecentTickersAreTheNewest(s, front);
      OnlyAddsMatter(Run(s, front), a);
      var older := AddedTickers(front) + s.recentTickers;
      if a.AddRecentTicker? {
        DoAdds(Run(s, front), a.ticker, "");
        UniqHeadAfterTruncation(a.ticker, older, 12);
        assert [a.ticker] + older == AddedTickers(actions) + s.recentTickers;
      } else {
        assert AddedTickers(actions) == AddedTickers(front);
      }
    }
  }

  lemma DoAdds(s: Store, t: string, c: string)
    ensures Do(s, AddRecentTicker(t)).recentTickers == UniqHead([t] + s.recentTickers, 12)
    ensures Do(s, AddRecentCommand(c)).recentCommands == UniqCommands([c] + s.recentCommands, 12)
  {}

  lemma ListIsItsOwnHead(s: Store)
    requires Valid(s)
    ensures UniqHead(s.recentTickers, 12) == s.recentTickers
  {
    UppersAreFixed(s.recentTickers);
    DedupOfDistinct(s.recentTickers, Same);
  }

  /** Likewise for the recent commands, compared after trimming and up to case. */
  lemma {:induction false} RecentCommandsAreTheNewest(s: Store, actions: seq<Action>)
    requires Valid(s)
    ensures Run(s, actions).recentCommands == UniqCommands(AddedCommands(actions) + s.recentCommands, 12)
    decreases |actions|
  {
    hide UniqCommands, Do;
    if actions == [] {
      CommandsOfList(s.recentCommands, 12);
      UniqCommandsOfTrimmed(s.recentCommands, 12);
      assert [] + s.recentCommands == s.recentCommands;
    } else {
      var front, a := actions[..|actions| - 1], actions[|actions| - 1];
      RecentCommandsAreTheNewest(s, front);
      OnlyAddsMatter(Run(s, front), a);
      var older := AddedCommands(front) + s.recentCommands;
      if a.AddRecentCommand? {
        DoAdds(Run(s, front), "", a.command);
        UniqCommandsAfterTruncation(a.command, older, 12);
        assert [a.command] + older == AddedCommands(actions) + s.recentCommands;
      } else {
        assert AddedCommands(actions) == AddedCommands(front);
      }
    }
  }
}
