/** What the store's actions do to each other and what they leave alone (frontend/src/state/terminalStore.ts). */
module WorkspaceActions {
  import opened Values
  import opened Lists
  import opened Workspace
  import opened WorkspaceLaws

  // ---------- toggling ----------

  /** Two toggles of a ticker give back the list exactly when it headed the list already, or was
      absent and there was room for it. */
  lemma ToggleTwiceRestoresExactlyWhen(l: seq<string>, t: string, limit: nat)
    requires TickerList(l, limit) && limit > 0
    ensures var symbol := Upper(t);
            Toggle(Toggle(l, symbol, limit), symbol, limit) == l <==>
            (l != [] && l[0] == symbol) || (symbol !in l && |l| < limit)
  {
    hide Upper, Toggle;
    var symbol := Upper(t);
    ToggleOnce(l, t, limit);
    WithoutMembers(l, Same, symbol);
    if symbol in l {
      var rest := Without(l, Same, symbol);
      WithoutKeepsTickers(l, symbol, limit);
      ToggleOnce(rest, t, limit);
      if l[0] == symbol {
        DistinctTail(l, Same);
        WithoutAbsent(l[1..], Same, symbol);
      }
    } else {
      var next, kept := Toggle(l, symbol, limit), Take(l, limit - 1);
      assert next == [symbol] + kept && next[1..] == kept;
      UpperIsIdempotent(t);
      PrefixDistinct(l, Same, limit - 1);
      ConsDistinct(symbol, kept, Same);
      ToggleOnce(next, t, limit);
      WithoutAbsent(kept, Same, symbol);
    }
  }

  /** One toggle of a valid list, without the re-normalisation it goes through. */
  lemma ToggleOnce(l: seq<string>, t: string, limit: nat)
    requires TickerList(l, limit) && limit > 0
    ensures Upper(t) in l ==> Toggle(l, Upper(t), limit) == Without(l, Same, Upper(t))
    ensures Upper(t) !in l ==> Toggle(l, Upper(t), limit) == [Upper(t)] + Take(l, limit - 1)
  {
    var symbol := Upper(t);
    if symbol !in l {
      UpperIsIdempotent(t);
      var whole := [symbol] + l;
      UppersAreFixed(whole);
      ConsDistinct(symbol, l, Same);
      DedupOfDistinct(whole, Same);
      assert Take(whole, limit) == [symbol] + Take(l, limit - 1);
    }
  }

  // ---------- watchlists ----------

  function Target(s: Store, target: Option<string>): string {
    if target.Some? then target.value else s.activeWatchlistId
  }

  /** A toggle changes the symbols of the lists with the target id, by membership of the ticker, and
      nothing else in the store. */
  lemma ToggleChangesOnlyTheTarget(s: Store, t: string, target: Option<string>)
    ensures var after := Do(s, ToggleWatchlist(t, target));
            && after == s.(watchlists := after.watchlists) && Ids(after.watchlists) == Ids(s.watchlists)
            && forall i :: 0 <= i < |s.watchlists| ==>
                 var w, v := s.watchlists[i], after.watchlists[i];
                 && v.name == w.name
                 && (w.id != Target(s, target) ==> v == w)
                 && (w.id == Target(s, target) ==> (Upper(t) in v.symbols <==> Upper(t) !in w.symbols))
  {
    hide Upper, Toggle;
    var after := Do(s, ToggleWatchlist(t, target));
    forall i | 0 <= i < |s.watchlists| && s.watchlists[i].id == Target(s, target)
      ensures Upper(t) in after.watchlists[i].symbols <==> Upper(t) !in s.watchlists[i].symbols
    {
      ToggleFlips(s.watchlists[i].symbols, t, 40);
    }
  }

  lemma ToggleFlips(l: seq<string>, t: string, limit: nat)
    requires limit > 0
    ensures Upper(t) in Toggle(l, Upper(t), limit) <==> Upper(t) !in l
  {
    WithoutMembers(l, Same, Upper(t));
    UpperIsIdempotent(t);
    if Upper(t) !in l {
      var whole := [Upper(t)] + l;
      var upper := MapSeq(whole, Upper);
      assert upper[0] == Upper(t);
      assert UniqHead(whole, limit)[0] == Upper(t);
    }
  }

  /** The list shown as active follows a toggle without a target exactly when the active id is known:
      with an unknown id the first list is shown, yet no list is changed. */
  lemma ToggleReachesTheShownListExactlyWhen(s: Store, t: string)
    requires Valid(s)
    ensures var after := Do(s, ToggleWatchlist(t, None));
            && after.watchlists != []
            && (ActiveWatchlist(after) != ActiveWatchlist(s) <==> s.activeWatchlistId in Ids(s.watchlists))
            && (s.activeWatchlistId !in Ids(s.watchlists) ==> after == s)
  {
    hide Upper, Toggle, Valid;
    assert s.watchlists != [] by {
      ActiveIsListed(s);
    }
    var after := Do(s, ToggleWatchlist(t, None));
    ToggleChangesOnlyTheTarget(s, t, None);
    FirstWithId(s.watchlists, s.activeWatchlistId);
    FirstWithId(after.watchlists, s.activeWatchlistId);
    if s.activeWatchlistId !in Ids(s.watchlists) {
      assert after.watchlists == s.watchlists;
    }
  }

  /** The first position of an id, which Find returns. */
  lemma {:induction false} FirstWithId(ws: seq<Watchlist>, id: string)
    ensures Find(ws, id).Some? <==> id in Ids(ws)
    ensures id in Ids(ws) ==>
              exists i :: 0 <= i < |ws| && Find(ws, id) == Some(ws[i]) && ws[i].id == id &&
                          forall j :: 0 <= j < i ==> ws[j].id != id
  {
    if ws != [] {
      assert Ids(ws)[0] == ws[0].id;
      if ws[0].id != id {
        FirstWithId(ws[1..], id);
        assert Ids(ws)[1..] == Ids(ws[1..]);
        if id in Ids(ws[1..]) {
          var i :| 0 <= i < |ws[1..]| && Find(ws[1..], id) == Some(ws[1..][i]) && ws[1..][i].id == id &&
                   forall j :: 0 <= j < i ==> ws[1..][j].id != id;
          assert forall j :: 1 <= j < i + 1 ==> ws[j] == ws[1..][j - 1];
          assert ws[i + 1] == ws[1..][i];
        }
      }
    }
  }

  /** Selecting a listed id shows a list with that id. */
  lemma SelectedIsShown(s: Store, id: string)
    requires s.watchlists != []
    ensures ActiveWatchlist(Do(s, SetActiveWatchlist(id))).id == id <==> id in Ids(s.watchlists)
  {
    FirstWithId(s.watchlists, id);
    if id !in Ids(s.watchlists) {
      assert Ids(s.watchlists)[0] == s.watchlists[0].id;
    }
  }

  /** A deletion keeps exactly the lists with other ids, in order, or falls back to the first default
      list; the active id is known afterwards, and it only moves when its own list went away. */
  lemma DeletionKeepsTheOthers(s: Store, id: string)
    ensures var after := Do(s, DeleteWatchlist(id));
            && after == s.(watchlists := after.watchlists, activeWatchlistId := after.activeWatchlistId)
            && (if exists w :: w in s.watchlists && w.id != id
                then forall w :: w in after.watchlists <==> w in s.watchlists && w.id != id
                else after.watchlists == DefaultWatchlists()[..1])
            && after.activeWatchlistId in Ids(after.watchlists)
            && (s.activeWatchlistId in Ids(after.watchlists) ==> after.activeWatchlistId == s.activeWatchlistId)
  {
    var p := (w: Watchlist) => w.id != id;
    KeepMembers(s.watchlists, p);
    var after := Do(s, DeleteWatchlist(id));
    assert Ids(after.watchlists)[0] == after.watchlists[0].id;
  }

  /** Deleting a list just created gives the old lists back, but not the old selection: the first list
      becomes active, so the store is restored exactly when that one was active before. */
  lemma DeletionUndoesCreation(s: Store, name: string, id: string)
    requires s.watchlists != [] && id !in Ids(s.watchlists)
    ensures var after := Do(Do(s, CreateWatchlist(name, id)), DeleteWatchlist(id));
            && after == s.(activeWatchlistId := s.watchlists[0].id)
            && (after == s <==> s.activeWatchlistId == s.watchlists[0].id)
  {
    hide Trim, Decimal, Keep;
    var created := Do(s, CreateWatchlist(name, id));
    var added := created.watchlists[|s.watchlists|];
    forall w | w in s.watchlists ensures w.id != id {
      var i :| 0 <= i < |s.watchlists| && s.watchlists[i] == w;
      assert Ids(s.watchlists)[i] == w.id;
    }
    LastAddedThenDropped(s.watchlists, added, (w: Watchlist) => w.id != id);
  }

  lemma LastAddedThenDropped<T(!new)>(l: seq<T>, x: T, p: T -> bool)
    requires !p(x) && forall y :: y in l ==> p(y)
    ensures Keep(l + [x], p) == l
  {
    KeepAppends(l, [x], p);
    KeepOne(x, p);
    KeepAll(l, p);
    hide Keep;
    assert l + [] == l;
  }

  /** Renaming touches names only, and only those of the given id; a blank name changes nothing. */
  lemma RenamingTouchesNamesOnly(s: Store, id: string, name: string)
    ensures var after := Do(s, RenameWatchlist(id, name));
            && after == s.(watchlists := after.watchlists) && Ids(after.watchlists) == Ids(s.watchlists)
            && (forall i :: 0 <= i < |s.watchlists| ==>
                  && after.watchlists[i].symbols == s.watchlists[i].symbols
                  && (after.watchlists[i].name != s.watchlists[i].name ==>
                        s.watchlists[i].id == id && after.watchlists[i].name == Trim(name) != ""))
            && (Blank(name) ==> after == s)
  {
    hide Trim;
    var after := Do(s, RenameWatchlist(id, name));
    if Blank(name) {
      assert after.watchlists == s.watchlists;
    }
  }

  // ---------- saved items ----------

  /** Deleting what was just put in front of a capped list gives back the list without the item that
      the cap pushed out. */
  lemma FrontAddedThenDropped<T(!new)>(x: T, l: seq<T>, cap: nat, p: T -> bool)
    requires cap > 0 && !p(x) && forall y :: y in l ==> p(y)
    ensures Keep(Take([x] + l, cap), p) == Take(l, cap - 1)
  {
    var kept := Take(l, cap - 1);
    assert Take([x] + l, cap) == [x] + kept;
    assert ([x] + kept)[1..] == kept;
    KeepAll(kept, p);
  }

  lemma ShelvesFit(s: Store)
    requires Valid(s)
    ensures |s.savedCompareSets| <= 12 && |s.savedScreens| <= 12 && |s.savedBacktests| <= 12
  {}

  lemma TakeIsAll<T>(l: seq<T>, n: nat)
    ensures Take(l, n) == l <==> |l| <= n
  {}

  /** Saving under a new id and deleting it again loses a thirteenth item and nothing else: the store is restored
      exactly when there was room on the shelf. */
  lemma DeletionUndoesSaving(s: Store, name: string, tickers: seq<string>, draft: Json, id: string, at: string)
    requires Valid(s) && forall c :: c in s.savedCompareSets ==> c.id != id
    requires forall d :: d in s.savedScreens || d in s.savedBacktests ==> d.id != id
    ensures var after := Do(Do(s, SaveCompareSet(name, tickers, id, at)), DeleteCompareSet(id));
            after == s.(savedCompareSets := Take(s.savedCompareSets, 11)) && (after == s <==> |s.savedCompareSets| < 12)
    ensures var after := Do(Do(s, SaveScreen(name, draft, id, at)), DeleteScreen(id));
            after == s.(savedScreens := Take(s.savedScreens, 11)) && (after == s <==> |s.savedScreens| < 12)
    ensures var after := Do(Do(s, SaveBacktest(name, draft, id, at)), DeleteBacktest(id));
            after == s.(savedBacktests := Take(s.savedBacktests, 11)) && (after == s <==> |s.savedBacktests| < 12)
  {
    hide Valid, Do, Take;
    ShelvesFit(s);
    ComparingUndone(s, name, tickers, id, at);
    DraftingUndone(s, name, draft, id, at);
    TakeIsAll(s.savedCompareSets, 11);
    TakeIsAll(s.savedScreens, 11);
    TakeIsAll(s.savedBacktests, 11);
  }

  lemma ComparingUndone(s: Store, name: string, tickers: seq<string>, id: string, at: string)
    requires forall c :: c in s.savedCompareSets ==> c.id != id
    ensures Do(Do(s, SaveCompareSet(name, tickers, id, at)), DeleteCompareSet(id)) ==
            s.(savedCompareSets := Take(s.savedCompareSets, 11))
  {
    hide Take, Keep, Trim, Join, OrElse, UniqHead;
    var saved := CompareSet(id, OrElse(Trim(name), "Compare " + Join(tickers, " / ")), UniqHead(tickers, 8), at);
    FrontAddedThenDropped(saved, s.savedCompareSets, 12, (c: CompareSet) => c.id != id);
  }

  lemma DraftingUndone(s: Store, name: string, draft: Json, id: string, at: string)
    requires forall d :: d in s.savedScreens || d in s.savedBacktests ==> d.id != id
    ensures Do(Do(s, SaveScreen(name, draft, id, at)), DeleteScreen(id)) == s.(savedScreens := Take(s.savedScreens, 11))
    ensures Do(Do(s, SaveBacktest(name, draft, id, at)), DeleteBacktest(id)) ==
            s.(savedBacktests := Take(s.savedBacktests, 11))
  {
    hide Take, Keep, NewDraft;
    DraftAddedThenDropped(s.savedScreens, name, draft, id, at, "Saved Screen");
    DraftAddedThenDropped(s.savedBacktests, name, draft, id, at, "Saved Backtest");
  }

  lemma DraftAddedThenDropped(l: seq<Draft>, name: string, draft: Json, id: string, at: string, default: string)
    requires forall d :: d in l ==> d.id != id
    ensures Keep(Take([NewDraft(name, draft, id, at, default)] + l, 12), (d: Draft) => d.id != id) == Take(l, 11)
  {
    hide Keep, Take, Trim, OrElse;
    FrontAddedThenDropped(NewDraft(name, draft, id, at, default), l, 12, (d: Draft) => d.id != id);
  }

  /** Clearing an annotation undoes setting it exactly when it was new, and the annotations were no array. */
  lemma ClearingUndoesAnnotating(s: Store, key: string, annotation: Json)
    ensures var after := Do(Do(s, SetAnnotation(key, annotation)), ClearAnnotation(key));
            after == s <==> s.annotations.Obj? && key !in Spread(s.annotations)
  {
    var fields := Spread(s.annotations);
    assert key !in fields ==> fields[key := annotation] - {key} == fields;
    assert key in fields ==> key !in fields[key := annotation] - {key};
  }

  /** The compare list toggles like a watchlist, and removing is the toggle of a listed ticker. */
  lemma RemovingIsTogglingOff(s: Store, t: string)
    requires Valid(s)
    ensures var removed := Do(s, RemoveCompareTicker(t));
            && removed == Do(removed, RemoveCompareTicker(t))
            && (Upper(t) in s.compareTickers <==> removed == Do(s, ToggleCompareTicker(t)))
            && Upper(t) !in removed.compareTickers
  {
    hide Upper, TickerList, Toggle, Without;
    var l, symbol := s.compareTickers, Upper(t);
    WithoutMembers(l, Same, symbol);
    WithoutAbsent(Without(l, Same, symbol), Same, symbol);
    ToggleFlips(l, t, 8);
    if symbol in l {
      ToggleOff(l, symbol, 8);
    }
  }

  lemma ToggleOff(l: seq<string>, symbol: string, limit: nat)
    requires symbol in l
    ensures Toggle(l, symbol, limit) == Without(l, Same, symbol)
  {}
}
