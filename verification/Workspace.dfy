/** The persisted workspace store: actions, persistence and the sanitising merge
    (frontend/src/state/terminalStore.ts). */
module Workspace {
  import opened Values
  import opened Lists

  // ---------- strings ----------

  function UpperChar(c: char): char { if 'a' <= c <= 'z' then c - 32 as char else c }

  function Upper(s: string): (r: string)
    ensures |r| == |s|
  {
    seq(|s|, i requires 0 <= i < |s| => UpperChar(s[i]))
  }

  /** The characters trim() strips. */
  predicate IsSpace(c: char) {
    var n := c as int;
    9 <= n <= 13 || n == 32 || n == 160 || n == 0x1680 || 0x2000 <= n <= 0x200a || n == 0x2028 || n == 0x2029
    || n == 0x202f || n == 0x205f || n == 0x3000 || n == 0xfeff
  }

  function TrimStart(s: string): (r: string)
    ensures |r| <= |s|
  {
    if s != "" && IsSpace(s[0]) then TrimStart(s[1..]) else s
  }

  function TrimEnd(s: string): (r: string)
    ensures |r| <= |s|
  {
    if s != "" && IsSpace(s[|s| - 1]) then TrimEnd(s[..|s| - 1]) else s
  }

  function Trim(s: string): string { TrimEnd(TrimStart(s)) }

  predicate Blank(s: string) { Trim(s) == "" }

  function Digit(n: nat): char
    requires n < 10
  {
    "0123456789"[n]
  }

  function Decimal(n: nat): string { if n < 10 then [Digit(n)] else Decimal(n / 10) + [Digit(n % 10)] }

  function Same(s: string): string { s }

  // ---------- persisted values ----------

  datatype Json =
    | Null | Bool(b: bool) | Number(n: real) | Str(s: string) | Arr(items: seq<Json>) | Obj(fields: map<string, Json>)

  /** typeof value === 'object' && value !== null */
  predicate IsRecord(j: Json) { j.Arr? || j.Obj? }

  /** A property read; the properties read here exist on objects only. */
  function Field(j: Json, name: string): Option<Json> {
    if j.Obj? && name in j.fields then Some(j.fields[name]) else None
  }

  function TextOf(j: Option<Json>, orElse: string): string {
    if j.Some? && j.value.Str? then j.value.s else orElse
  }

  predicate HasText(j: Option<Json>) { j.Some? && j.value.Str? && !Blank(j.value.s) }

  // ---------- list helpers ----------

  function UniqHead(items: seq<string>, limit: nat): (r: seq<string>)
    ensures |r| <= limit
  {
    Take(Dedup(MapSeq(items, Upper), Same), limit)
  }

  /** Commands are the same when they agree after trimming, up to case. */
  function CommandKey(s: string): string { Upper(Trim(s)) }

  predicate IsCommand(s: string) { !Blank(s) }

  function UniqCommands(items: seq<string>, limit: nat): seq<string> {
    Take(MapSeq(Dedup(Keep(items, IsCommand), CommandKey), Trim), limit)
  }

  lemma TakeOfMore(s: seq<string>, t: seq<string>, n: nat)
    requires |s| >= n
    ensures Take(s + t, n) == Take(s, n)
  {}

  lemma {:induction false} DedupGrows(s: seq<string>, t: seq<string>, key: string -> string)
    ensures Dedup(s, key) <= Dedup(s + t, key)
  {
    if t == [] {
      assert s + t == s;
    } else {
      var front, last := t[..|t| - 1], t[|t| - 1];
      assert s + t == (s + front) + [last];
      DedupGrows(s, front, key);
      DedupOneMore(s + front, last, key);
    }
  }

  lemma CommandsStopEarly(items: seq<string>, n: nat, limit: nat)
    requires n <= |items| && |Dedup(Keep(items[..n], IsCommand), CommandKey)| >= limit
    ensures UniqCommands(items, limit) == Take(MapSeq(Dedup(Keep(items[..n], IsCommand), CommandKey), Trim), limit)
  {
    assert items == items[..n] + items[n..];
    KeepAppends(items[..n], items[n..], IsCommand);
    DedupGrows(Keep(items[..n], IsCommand), Keep(items[n..], IsCommand), CommandKey);
    var d, e := Dedup(Keep(items[..n], IsCommand), CommandKey), Dedup(Keep(items, IsCommand), CommandKey);
    assert MapSeq(e, Trim) == MapSeq(d, Trim) + MapSeq(e[|d|..], Trim);
    TakeOfMore(MapSeq(d, Trim), MapSeq(e[|d|..], Trim), limit);
  }

  function KeysOf(s: seq<string>): set<string> { set y | y in s :: CommandKey(y) }

  /** What the scan has collected after n items. */
  function Collected(items: seq<string>, n: nat): seq<string>
    requires n <= |items|
  {
    MapSeq(Dedup(Keep(items[..n], IsCommand), CommandKey), Trim)
  }

  function SeenKeys(items: seq<string>, n: nat): set<string>
    requires n <= |items|
  {
    KeysOf(Keep(items[..n], IsCommand))
  }

  lemma ScanOneMore(items: seq<string>, n: nat)
    requires n < |items|
    ensures Blank(items[n]) ==>
              Collected(items, n + 1) == Collected(items, n) && SeenKeys(items, n + 1) == SeenKeys(items, n)
    ensures !Blank(items[n]) ==>
              && SeenKeys(items, n + 1) == SeenKeys(items, n) + {CommandKey(items[n])}
              && Collected(items, n + 1) ==
                 Collected(items, n) + (if CommandKey(items[n]) in SeenKeys(items, n) then [] else [Trim(items[n])])
  {
    hide Keep, Dedup, Trim, Upper;
    var item, kept := items[n], Keep(items[..n], IsCommand);
    assert items[..n + 1] == items[..n] + [item];
    KeepAppends(items[..n], [item], IsCommand);
    KeepOne(item, IsCommand);
    assert kept + [] == kept;
    if !Blank(item) {
      DedupOneMore(kept, item, CommandKey);
      var before := Dedup(kept, CommandKey);
      assert before + [] == before;
      assert MapSeq(before + [item], Trim) == MapSeq(before, Trim) + [Trim(item)];
      assert CommandKey(item) in KeysOf(kept) <==> exists y :: y in kept && CommandKey(y) == CommandKey(item);
      assert forall y :: y in kept + [item] <==> y in kept || y == item;
    }
  }

  /** uniqCommands: scans the items, growing the set of seen keys and the result, until the limit. */
  method CollectCommands(items: seq<string>, limit: nat) returns (r: seq<string>)
    requires limit > 0
    ensures r == UniqCommands(items, limit)
  {
    hide Keep, Dedup, Trim, KeysOf;
    var seen: set<string> := {};
    r := [];
    NothingScanned(items);
    for n := 0 to |items|
      invariant r == Collected(items, n) && |r| < limit && seen == SeenKeys(items, n)
    {
      var item := items[n];
      ScanOneMore(items, n);
      var key := Upper(Trim(item));
      if key != "" && key !in seen {
        seen := seen + {key};
        r := r + [Trim(item)];
        if |r| >= limit {
          CommandsStopEarly(items, n + 1, limit);
          return;
        }
      }
    }
    assert items[..|items|] == items;
  }

  lemma NothingScanned(items: seq<string>)
    ensures Collected(items, 0) == [] && SeenKeys(items, 0) == {}
  {}

  // ---------- state ----------

  datatype Watchlist = Watchlist(id: string, name: string, symbols: seq<string>)

  datatype CompareSet = CompareSet(id: string, name: string, tickers: seq<string>, createdAt: string)

  datatype Draft = Draft(id: string, name: string, createdAt: string, draft: Json)

  /** The persisted part of the store. */
  datatype Store = Store(activeTicker: string, watchlists: seq<Watchlist>, activeWatchlistId: string,
                         recentTickers: seq<string>, compareTickers: seq<string>, savedCompareSets: seq<CompareSet>,
                         recentCommands: seq<string>, savedScreens: seq<Draft>, savedBacktests: seq<Draft>,
                         annotations: Json, lastRoute: string)

  const EPOCH := "1970-01-01T00:00:00.000Z"

  function DefaultWatchlists(): seq<Watchlist> {
    [Watchlist("core", "Core", ["SPY", "QQQ", "AAPL", "MSFT"]),
     Watchlist("macro", "Macro", ["TLT", "GLD", "XLF", "IWM"])]
  }

  function Initial(): Store {
    Store("SPY", DefaultWatchlists(), "core", ["SPY"], ["SPY", "QQQ"], [], [], [], [], Obj(map[]), "/")
  }

  // ---------- sanitising ----------

  function IsText(j: Json): bool { j.Str? }

  function TrimText(j: Json): string { if j.Str? then Trim(j.s) else "" }

  predicate NonEmpty(s: string) { s != "" }

  function SanitizeStrings(value: Option<Json>, limit: nat, fallback: seq<string>): seq<string> {
    if value.None? || !value.value.Arr? then fallback
    else UniqHead(Keep(MapSeq(Keep(value.value.items, IsText), TrimText), NonEmpty), limit)
  }

  function SanitizeWatchlist(j: Json, index: nat): Watchlist {
    Watchlist(if HasText(Field(j, "id")) then TextOf(Field(j, "id"), "") else "watchlist-" + Decimal(index + 1),
              if HasText(Field(j, "name")) then TextOf(Field(j, "name"), "") else "Watchlist " + Decimal(index + 1),
              SanitizeStrings(Field(j, "symbols"), 40, []))
  }

  function SanitizeCompareSet(j: Json, index: nat): CompareSet {
    CompareSet(if HasText(Field(j, "id")) then TextOf(Field(j, "id"), "") else "compare-" + Decimal(index + 1),
               if HasText(Field(j, "name")) then TextOf(Field(j, "name"), "") else "Saved Compare",
               SanitizeStrings(Field(j, "tickers"), 8, []),
               TextOf(Field(j, "createdAt"), EPOCH))
  }

  function SanitizeDraft(j: Json, index: nat): Draft {
    Draft(if HasText(Field(j, "id")) then TextOf(Field(j, "id"), "") else "draft-" + Decimal(index + 1),
          if HasText(Field(j, "name")) then TextOf(Field(j, "name"), "") else "Saved Draft",
          TextOf(Field(j, "createdAt"), EPOCH),
          if Field(j, "draft").Some? then Field(j, "draft").value else Null)
  }

  predicate HasSymbols(w: Watchlist) { w.symbols != [] }

  predicate HasTickers(c: CompareSet) { c.tickers != [] }

  predicate HasDraft(d: Draft) { d.draft != Null }

  /** map((item, index) => ...) */
  function Indexed<T>(s: seq<Json>, f: (Json, nat) -> T): (r: seq<T>)
    ensures |r| == |s|
  {
    seq(|s|, i requires 0 <= i < |s| => f(s[i], i))
  }

  function SanitizeWatchlists(value: Option<Json>): seq<Watchlist> {
    if value.None? || !value.value.Arr? then DefaultWatchlists()
    else
      var kept := Keep(Indexed(Keep(value.value.items, IsRecord), SanitizeWatchlist), HasSymbols);
      if kept != [] then kept else DefaultWatchlists()
  }

  function SanitizeCompareSets(value: Option<Json>): seq<CompareSet> {
    if value.None? || !value.value.Arr? then []
    else Take(Keep(Indexed(Keep(value.value.items, IsRecord), SanitizeCompareSet), HasTickers), 12)
  }

  function SanitizeDrafts(value: Option<Json>): seq<Draft> {
    if value.None? || !value.value.Arr? then []
    else Take(Keep(Indexed(Keep(value.value.items, IsRecord), SanitizeDraft), HasDraft), 12)
  }

  function Text(j: Json): string { if j.Str? then j.s else "" }

  function SanitizeCommands(value: Option<Json>, fallback: seq<string>): seq<string> {
    if value.None? || !value.value.Arr? then fallback
    else UniqCommands(MapSeq(Keep(value.value.items, IsText), Text), 12)
  }

  function Ids(ws: seq<Watchlist>): (r: seq<string>)
    ensures |r| == |ws|
  {
    MapSeq(ws, (w: Watchlist) => w.id)
  }

  function IsRoute(j: Option<Json>): bool { j.Some? && j.value.Str? && j.value.s != "" && j.value.s[0] == '/' }

  lemma SanitizedWatchlistsExist(value: Option<Json>)
    ensures SanitizeWatchlists(value) != []
  {}

  function Merge(persisted: Json, current: Store): Store {
    var watchlists := SanitizeWatchlists(Field(persisted, "watchlists"));
    var active := TextOf(Field(persisted, "activeWatchlistId"), "");
    SanitizedWatchlistsExist(Field(persisted, "watchlists"));
    Store(
      if HasText(Field(persisted, "activeTicker")) then Upper(TextOf(Field(persisted, "activeTicker"), ""))
      else current.activeTicker,
      watchlists,
      if active in Ids(watchlists) then active else watchlists[0].id,
      SanitizeStrings(Field(persisted, "recentTickers"), 12, current.recentTickers),
      SanitizeStrings(Field(persisted, "compareTickers"), 8, current.compareTickers),
      SanitizeCompareSets(Field(persisted, "savedCompareSets")),
      SanitizeCommands(Field(persisted, "recentCommands"), current.recentCommands),
      SanitizeDrafts(Field(persisted, "savedScreens")),
      SanitizeDrafts(Field(persisted, "savedBacktests")),
      if Field(persisted, "watchlistAnnotations").Some? && IsRecord(Field(persisted, "watchlistAnnotations").value)
      then Field(persisted, "watchlistAnnotations").value else Obj(map[]),
      if IsRoute(Field(persisted, "lastRoute")) then TextOf(Field(persisted, "lastRoute"), "") else current.lastRoute)
  }

  // ---------- partialize ----------

  function ToStr(s: string): Json { Str(s) }

  function Strings(s: seq<string>): Json { Arr(MapSeq(s, ToStr)) }

  function WatchlistJson(w: Watchlist): Json {
    Obj(map["id" := Str(w.id), "name" := Str(w.name), "symbols" := Strings(w.symbols)])
  }

  function CompareSetJson(c: CompareSet): Json {
    Obj(map["id" := Str(c.id), "name" := Str(c.name), "tickers" := Strings(c.tickers), "createdAt" := Str(c.createdAt)])
  }

  function DraftJson(d: Draft): Json {
    Obj(map["id" := Str(d.id), "name" := Str(d.name), "createdAt" := Str(d.createdAt), "draft" := d.draft])
  }

  function Partialize(s: Store): Json {
    Obj(map["activeTicker" := Str(s.activeTicker),
            "watchlists" := Arr(MapSeq(s.watchlists, WatchlistJson)),
            "activeWatchlistId" := Str(s.activeWatchlistId),
            "recentTickers" := Strings(s.recentTickers),
            "compareTickers" := Strings(s.compareTickers),
            "savedCompareSets" := Arr(MapSeq(s.savedCompareSets, CompareSetJson)),
            "recentCommands" := Strings(s.recentCommands),
            "savedScreens" := Arr(MapSeq(s.savedScreens, DraftJson)),
            "savedBacktests" := Arr(MapSeq(s.savedBacktests, DraftJson)),
            "watchlistAnnotations" := s.annotations,
            "lastRoute" := Str(s.lastRoute)])
  }

  // ---------- actions ----------

  /** Random ids and the clock are parameters. */
  datatype Action =
    | SetActiveTicker(ticker: string)
    | AddRecentTicker(ticker: string)
    | AddRecentCommand(command: string)
    | SetActiveWatchlist(id: string)
    | CreateWatchlist(name: string, id: string)
    | RenameWatchlist(id: string, name: string)
    | DeleteWatchlist(id: string)
    | ToggleWatchlist(ticker: string, watchlistId: Option<string>)
    | SetCompareTickers(tickers: seq<string>)
    | ToggleCompareTicker(ticker: string)
    | RemoveCompareTicker(ticker: string)
    | SaveCompareSet(name: string, tickers: seq<string>, id: string, at: string)
    | DeleteCompareSet(id: string)
    | SaveScreen(name: string, draft: Json, id: string, at: string)
    | DeleteScreen(id: string)
    | SaveBacktest(name: string, draft: Json, id: string, at: string)
    | DeleteBacktest(id: string)
    | SetAnnotation(key: string, annotation: Json)
    | ClearAnnotation(key: string)
    | SetLastRoute(route: string)

  function Toggle(symbols: seq<string>, symbol: string, limit: nat): seq<string> {
    if symbol in symbols then Without(symbols, Same, symbol) else UniqHead([symbol] + symbols, limit)
  }

  function Join(s: seq<string>, separator: string): string {
    if s == [] then "" else if |s| == 1 then s[0] else s[0] + separator + Join(s[1..], separator)
  }

  function OrElse(s: string, other: string): string { if s != "" then s else other }

  function NewDraft(name: string, draft: Json, id: string, at: string, default: string): Draft {
    Draft(id, OrElse(Trim(name), OrElse(TextOf(Field(draft, "name"), ""), default)), at, draft)
  }

  function Deleted(ws: seq<Watchlist>, id: string): (r: seq<Watchlist>)
    ensures r != []
  {
    var remaining := Keep(ws, (w: Watchlist) => w.id != id);
    if remaining != [] then remaining else DefaultWatchlists()[..1]
  }

  /** { ...value }: the fields of an object; an array spreads into its indices. */
  function Spread(j: Json): map<string, Json> {
    match j
    case Obj(fields) => fields
    case Arr(items) => SpreadItems(items, |items|)
    case _ => map[]
  }

  function SpreadItems(items: seq<Json>, n: nat): map<string, Json>
    requires n <= |items|
  {
    if n == 0 then map[] else SpreadItems(items, n - 1)[Decimal(n - 1) := items[n - 1]]
  }

  function Do(s: Store, a: Action): Store {
    match a
    case SetActiveTicker(t) => s.(activeTicker := Upper(t))
    case AddRecentTicker(t) => s.(recentTickers := UniqHead([t] + s.recentTickers, 12))
    case AddRecentCommand(c) => s.(recentCommands := UniqCommands([c] + s.recentCommands, 12))
    case SetActiveWatchlist(id) => s.(activeWatchlistId := id)
    case CreateWatchlist(name, id) =>
      s.(watchlists := s.watchlists +
                       [Watchlist(id, OrElse(Trim(name), "Watchlist " + Decimal(|s.watchlists| + 1)), [])],
         activeWatchlistId := id)
    case RenameWatchlist(id, name) =>
      s.(watchlists := MapSeq(s.watchlists, (w: Watchlist) =>
           if w.id == id then w.(name := OrElse(Trim(name), w.name)) else w))
    case DeleteWatchlist(id) =>
      var next := Deleted(s.watchlists, id);
      s.(watchlists := next,
         activeWatchlistId := if s.activeWatchlistId in Ids(next) then s.activeWatchlistId else next[0].id)
    case ToggleWatchlist(t, target) =>
      var id := if target.Some? then target.value else s.activeWatchlistId;
      s.(watchlists := MapSeq(s.watchlists, (w: Watchlist) =>
           if w.id == id then w.(symbols := Toggle(w.symbols, Upper(t), 40)) else w))
    case SetCompareTickers(ts) => s.(compareTickers := UniqHead(ts, 8))
    case ToggleCompareTicker(t) => s.(compareTickers := Toggle(s.compareTickers, Upper(t), 8))
    case RemoveCompareTicker(t) => s.(compareTickers := Without(s.compareTickers, Same, Upper(t)))
    case SaveCompareSet(name, ts, id, at) =>
      var saved := CompareSet(id, OrElse(Trim(name), "Compare " + Join(ts, " / ")), UniqHead(ts, 8), at);
      s.(savedCompareSets := Take([saved] + s.savedCompareSets, 12))
    case DeleteCompareSet(id) => s.(savedCompareSets := Keep(s.savedCompareSets, (c: CompareSet) => c.id != id))
    case SaveScreen(name, draft, id, at) =>
      s.(savedScreens := Take([NewDraft(name, draft, id, at, "Saved Screen")] + s.savedScreens, 12))
    case DeleteScreen(id) => s.(savedScreens := Keep(s.savedScreens, (d: Draft) => d.id != id))
    case SaveBacktest(name, draft, id, at) =>
      s.(savedBacktests := Take([NewDraft(name, draft, id, at, "Saved Backtest")] + s.savedBacktests, 12))
    case DeleteBacktest(id) => s.(savedBacktests := Keep(s.savedBacktests, (d: Draft) => d.id != id))
    case SetAnnotation(key, annotation) => s.(annotations := Obj(Spread(s.annotations)[key := annotation]))
    case ClearAnnotation(key) => s.(annotations := Obj(Spread(s.annotations) - {key}))
    case SetLastRoute(route) => s.(lastRoute := route)
  }

  function Find(ws: seq<Watchlist>, id: string): Option<Watchlist> {
    if ws == [] then None else if ws[0].id == id then Some(ws[0]) else Find(ws[1..], id)
  }

  /** The active watchlist, or the first one when the active id is unknown. */
  function ActiveWatchlist(s: Store): Watchlist
    requires s.watchlists != []
  {
    var found := Find(s.watchlists, s.activeWatchlistId);
    if found.Some? then found.value else s.watchlists[0]
  }
}
