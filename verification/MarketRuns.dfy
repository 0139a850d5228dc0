/** Runs of syncs and rebuilds whose critical sections interleave: a sync writes ticker by ticker and gives the
    database up in between, a rebuild reads, swaps and refreshes without ever holding the sync lock. */
module MarketRuns {
  import opened Values
  import opened Indicators
  import opened Tables
  import opened LatestCache
  import opened MarketSync
  import opened MarketSafety

  /** A sync that knows its targets and start and is downloading, or one that has loaded its warmup, computed, and dealt
      with its first `next` targets. */
  datatype SyncJob =
    | Downloading(targets: seq<string>, feed: seq<Row<Bar>>, start: Option<int>)
    | Writing(targets: seq<string>, feed: seq<Row<Bar>>, prepared: seq<Row<Columns>>, next: nat)

  /** A rebuild that has read its rows, and perhaps swapped the table. */
  datatype RebuildJob = RebuildJob(universe: seq<string>, read: seq<Row<Bar>>, swapped: bool)

  /** The tables, the jobs under way, and the tickers whose cache rows may be out of date. */
  datatype System = System(db: Database, sync: Option<SyncJob>, rebuilds: map<nat, RebuildJob>, dirty: set<string>)

  datatype Step =
    | StartSync(q: Request) | LoadWarmup | WriteNext | FinishSync | AbortSync | FailSyncRefresh
    | StartRebuild(id: nat, universe: seq<string>) | Swap(id: nat) | FinishRebuild(id: nat)
    | AbortRebuild(id: nat) | FailRebuildRefresh(id: nat)

  predicate IsWriting(s: System) { s.sync.Some? && s.sync.value.Writing? }

  /** One sync at a time holds the lock; rebuilds are not limited. */
  predicate Enabled(s: System, e: Step) {
    match e
    case StartSync(_) => s.sync.None?
    case LoadWarmup => s.sync.Some? && s.sync.value.Downloading?
    case WriteNext => IsWriting(s) && s.sync.value.next < |s.sync.value.targets|
    case FinishSync => IsWriting(s) && s.sync.value.next == |s.sync.value.targets|
    case FailSyncRefresh => IsWriting(s) && s.sync.value.next == |s.sync.value.targets|
    case AbortSync => s.sync.Some?
    case StartRebuild(id, _) => id !in s.rebuilds
    case Swap(id) => id in s.rebuilds && !s.rebuilds[id].swapped
    case FinishRebuild(id) => id in s.rebuilds && s.rebuilds[id].swapped
    case FailRebuildRefresh(id) => id in s.rebuilds && s.rebuilds[id].swapped
    case AbortRebuild(id) => id in s.rebuilds
  }

  function Unlisted(dirty: set<string>, universe: seq<string>): set<string> {
    set t | t in dirty && !Listed(universe, t)
  }

  function Refresh(s: System, universe: seq<string>): System {
    s.(db := s.db.(latest := Refreshed(s.db.latest, s.db.data, universe)), dirty := Unlisted(s.dirty, universe))
  }

  /** The DELETE of a refresh without its INSERT. */
  function Empty(s: System, universe: seq<string>): System {
    s.(db := s.db.(latest := NotIn(s.db.latest, universe)), dirty := s.dirty + Emptied(s.db.data, universe))
  }

  function Write(s: System, j: SyncJob): System
    requires j.Writing? && j.next < |j.targets|
  {
    var t := j.targets[j.next];
    var after := s.(sync := Some(j.(next := j.next + 1)));
    if IsWritten(j.feed, j.prepared, t)
    then after.(db := Sliced(s.db, t, Of(j.feed, t), Of(j.prepared, t)), dirty := s.dirty + {t})
    else after
  }

  function Next(s: System, e: Step, std: seq<real> -> real): System
    requires Enabled(s, e)
  {
    match e
    case StartSync(q) =>
      if Writes(s.db, q) then s.(sync := Some(Downloading(Targets(s.db, q), q.feed, StartDate(s.db, q)))) else s
    case LoadWarmup =>
      var j := s.sync.value;
      s.(sync := Some(Writing(j.targets, j.feed, PreparedFrom(s.db.ohlcv, j.targets, j.start, j.feed, std), 0)))
    case WriteNext => Write(s, s.sync.value)
    case FinishSync => Refresh(s, s.sync.value.targets).(sync := None)
    case FailSyncRefresh => Empty(s, s.sync.value.targets).(sync := None)
    case AbortSync => s.(sync := None)
    case StartRebuild(id, universe) =>
      var read := In(s.db.ohlcv, universe);
      if read == [] then s else s.(rebuilds := s.rebuilds[id := RebuildJob(universe, read, false)])
    case Swap(id) =>
      var r := s.rebuilds[id];
      s.(db := Swapped(s.db, r.universe, r.read, std), rebuilds := s.rebuilds[id := r.(swapped := true)],
         dirty := s.dirty + TickersIn(r.read))
    case FinishRebuild(id) => Refresh(s, s.rebuilds[id].universe).(rebuilds := s.rebuilds - {id})
    case FailRebuildRefresh(id) => Empty(s, s.rebuilds[id].universe).(rebuilds := s.rebuilds - {id})
    case AbortRebuild(id) => s.(rebuilds := s.rebuilds - {id})
  }

  /** What is asked of the outside: a provider that repeats no key and honours the start, and that the keys a
      rebuild has read are still the stored ones when it swaps. */
  ghost predicate Legal(s: System, e: Step) {
    match e
    case StartSync(q) => ProviderSound(s.db, q) && Distinct(Targets(s.db, q))
    case Swap(id) =>
      id in s.rebuilds ==> KeySet(s.rebuilds[id].read) == KeySet(In(s.db.ohlcv, s.rebuilds[id].universe))
    case _ => true
  }

  /** The state after a run; None once a step is not enabled or not legal. */
  ghost function Play(s: System, steps: seq<Step>, std: seq<real> -> real): Option<System>
    decreases |steps|
  {
    if steps == [] then Some(s)
    else
      var before, e := Play(s, steps[..|steps| - 1], std), steps[|steps| - 1];
      if before.None? || !Enabled(before.value, e) || !Legal(before.value, e) then None
      else Some(Next(before.value, e, std))
  }

  function Idle(db: Database): System { System(db, None, map[], {}) }

  // ---------- the invariant ----------

  ghost predicate SyncFits(j: SyncJob) {
    match j
    case Downloading(targets, feed, start) => UniqueKeys(feed) && Honours(targets, start, feed)
    case Writing(targets, feed, prepared, next) =>
      next <= |targets| && forall t :: t in targets && IsWritten(feed, prepared, t) ==> TargetFits(j, t)
  }

  ghost predicate TargetFits(j: SyncJob, t: string)
    requires j.Writing?
  {
    FitsSlice(t, Of(j.feed, t), Of(j.prepared, t)) && KeySet(Of(j.feed, t)) == KeySet(Of(j.prepared, t))
  }

  ghost predicate Safe(s: System) {
    && Aligned(s.db) && CacheRight(s.db, s.dirty)
    && (s.sync.Some? ==> SyncFits(s.sync.value))
    && forall id :: id in s.rebuilds ==> WasRead(s.rebuilds[id].universe, s.rebuilds[id].read)
  }

  lemma LoadFits(ohlcv: seq<Row<Bar>>, j: SyncJob, std: seq<real> -> real)
    requires j.Downloading? && SyncFits(j)
    ensures SyncFits(Writing(j.targets, j.feed, PreparedFrom(ohlcv, j.targets, j.start, j.feed, std), 0))
  {
    hide PreparedFrom, Of, FitsSlice, Honours, KeySet, UniqueKeys;
    var k := Writing(j.targets, j.feed, PreparedFrom(ohlcv, j.targets, j.start, j.feed, std), 0);
    forall t | t in k.targets && IsWritten(k.feed, k.prepared, t) ensures TargetFits(k, t) {
      HonouredSliceFits(ohlcv, j.targets, j.start, j.feed, std, t);
    }
  }

  lemma WriteIsSafe(s: System)
    requires Safe(s) && Enabled(s, WriteNext)
    ensures Safe(Write(s, s.sync.value))
  {
    hide Sliced, Of, Aligned, FitsSlice, LatestOf, KeySet, WasRead;
    var j := s.sync.value;
    var t := j.targets[j.next];
    if IsWritten(j.feed, j.prepared, t) {
      assert TargetFits(j, t);
      SliceAlignsExactlyWhen(s.db, t, Of(j.feed, t), Of(j.prepared, t));
      SliceKeepsCacheRight(s.db, t, Of(j.feed, t), Of(j.prepared, t), s.dirty);
    }
    var k := j.(next := j.next + 1);
    forall u | u in k.targets && IsWritten(k.feed, k.prepared, u) ensures TargetFits(k, u) {
      assert TargetFits(j, u);
    }
  }

  lemma SliceKeepsCacheRight(db: Database, t: string, raw: seq<Row<Bar>>, prepared: seq<Row<Columns>>,
                             dirty: set<string>)
    requires FitsSlice(t, raw, prepared) && CacheRight(db, dirty)
    ensures CacheRight(Sliced(db, t, raw, prepared), dirty + {t})
  {
    hide Sliced, Of, LatestOf, MinDate, UniqueKeys;
    var after := Sliced(db, t, raw, prepared);
    forall u | u !in dirty + {t} ensures Shows(after.latest, after.data, u) {
      SlicedOf(db, t, raw, prepared, u);
      LatestDependsOnOwnRows(db.data, after.data, u);
    }
  }

  lemma RefreshIsSafe(s: System, universe: seq<string>)
    requires Safe(s)
    ensures Safe(Refresh(s, universe))
  {
    hide Refreshed, Of, LatestOf, KeySet, SyncFits, WasRead;
    AlignedIsUnique(s.db);
    var after := Refresh(s, universe);
    forall t | t !in after.dirty ensures Shows(after.db.latest, after.db.data, t) {
      RefreshOf(s.db.latest, s.db.data, universe, t);
    }
  }

  lemma EmptyIsSafe(s: System, universe: seq<string>)
    requires Safe(s)
    ensures Safe(Empty(s, universe))
  {
    hide NotIn, Of, LatestOf, KeySet, SyncFits, WasRead, UniqueKeys, TickersIn;
    var after := Empty(s, universe);
    forall t | t !in after.dirty ensures Shows(after.db.latest, after.db.data, t) {
      OfIn(s.db.latest, universe, t);
      if t !in TickersIn(s.db.data) {
        NothingToShow(s.db.data, t);
      }
    }
  }

  lemma ReadIsSafe(db: Database, universe: seq<string>)
    requires Aligned(db) && In(db.ohlcv, universe) != []
    ensures WasRead(universe, In(db.ohlcv, universe))
  {
    hide In, NotIn;
    NotInKeepsUnique(db.ohlcv, universe);
  }

  lemma SwapIsSafe(s: System, id: nat, std: seq<real> -> real)
    requires Safe(s) && Enabled(s, Swap(id)) && Legal(s, Swap(id))
    ensures Safe(Next(s, Swap(id), std))
  {
    hide Aligned, CacheRight, Swapped, In, WasRead, SyncFits, KeySet, TickersIn;
    var r := s.rebuilds[id];
    SwapAlignsExactlyWhen(s.db, r.universe, r.read, std);
    SwapKeepsCacheRight(s.db, r.universe, r.read, std, s.dirty);
  }

  lemma StartIsSafe(s: System, e: Step, std: seq<real> -> real)
    requires Safe(s) && Enabled(s, e) && Legal(s, e) && (e.StartSync? || e.LoadWarmup? || e.StartRebuild?)
    ensures Safe(Next(s, e, std))
  {
    hide Aligned, CacheRight, In, WasRead, UniqueKeys, Honours, PreparedFrom, Targets, StartDate, Writes, TargetFits;
    if e.LoadWarmup? {
      LoadFits(s.db.ohlcv, s.sync.value, std);
    } else if e.StartRebuild? && In(s.db.ohlcv, e.universe) != [] {
      ReadIsSafe(s.db, e.universe);
    }
  }

  lemma EndIsSafe(s: System, e: Step, std: seq<real> -> real)
    requires Safe(s) && Enabled(s, e)
    requires e.FinishSync? || e.FailSyncRefresh? || e.FinishRebuild? || e.FailRebuildRefresh?
    ensures Safe(Next(s, e, std))
  {
    hide Aligned, CacheRight, WasRead, SyncFits, Refresh, Empty;
    var universe := if e.FinishSync? || e.FailSyncRefresh? then s.sync.value.targets else s.rebuilds[e.id].universe;
    if e.FinishSync? || e.FinishRebuild? {
      RefreshIsSafe(s, universe);
    } else {
      EmptyIsSafe(s, universe);
    }
  }

  lemma AbortIsSafe(s: System, e: Step, std: seq<real> -> real)
    requires Safe(s) && Enabled(s, e) && (e.AbortSync? || e.AbortRebuild?)
    ensures Safe(Next(s, e, std))
  {
    hide Aligned, CacheRight, WasRead, SyncFits;
  }

  lemma StepIsSafe(s: System, e: Step, std: seq<real> -> real)
    requires Safe(s) && Enabled(s, e) && Legal(s, e)
    ensures Safe(Next(s, e, std))
  {
    hide Safe, Write;
    match e
    case WriteNext => WriteIsSafe(s);
    case Swap(id) => SwapIsSafe(s, id, std);
    case StartSync(_) => StartIsSafe(s, e, std);
    case LoadWarmup => StartIsSafe(s, e, std);
    case StartRebuild(_, _) => StartIsSafe(s, e, std);
    case AbortSync => AbortIsSafe(s, e, std);
    case AbortRebuild(_) => AbortIsSafe(s, e, std);
    case FinishSync => EndIsSafe(s, e, std);
    case FailSyncRefresh => EndIsSafe(s, e, std);
    case FinishRebuild(_) => EndIsSafe(s, e, std);
    case FailRebuildRefresh(_) => EndIsSafe(s, e, std);
  }

  /** Safety over all runs: however the steps of syncs and rebuilds interleave and wherever they stop, both tables
      keep unique and equal keys, and the cache is right for every ticker outside the dirty ones. */
  lemma {:induction false} RunsAreSafe(s: System, steps: seq<Step>, std: seq<real> -> real)
    requires Safe(s) && Play(s, steps, std).Some?
    ensures Safe(Play(s, steps, std).value)
    decreases |steps|
  {
    hide Safe, Next, Legal, Enabled;
    if steps != [] {
      var front, e := steps[..|steps| - 1], steps[|steps| - 1];
      RunsAreSafe(s, front, std);
      StepIsSafe(Play(s, front, std).value, e, std);
    }
  }

  /** In particular every run that starts from an empty database is safe. */
  lemma RunsFromEmptyAreSafe(steps: seq<Step>, std: seq<real> -> real)
    requires Play(Idle(Database([], [], [])), steps, std).Some?
    ensures Safe(Play(Idle(Database([], [], [])), steps, std).value)
  {
    hide Play, Aligned, CacheRight;
    EmptyIsSound();
    RunsAreSafe(Idle(Database([], [], [])), steps, std);
  }

  // ---------- runs in which nothing fails ----------

  predicate Fails(e: Step) { e.AbortSync? || e.FailSyncRefresh? || e.AbortRebuild? || e.FailRebuildRefresh? }

  predicate IsWrittenBy(sync: Option<SyncJob>, t: string) {
    && sync.Some? && sync.value.Writing? && sync.value.next <= |sync.value.targets|
    && t in sync.value.targets[..sync.value.next]
  }

  /** Tickers already written by the sync under way, or swapped by a rebuild that has not refreshed yet. */
  ghost predicate IsPending(s: System, t: string) {
    || IsWrittenBy(s.sync, t)
    || exists id :: id in s.rebuilds && s.rebuilds[id].swapped && t in TickersIn(s.rebuilds[id].read)
  }

  ghost predicate OnlyPendingDirty(s: System) { forall t :: t in s.dirty ==> IsPending(s, t) }

  lemma ReadIsListed(s: System, id: nat)
    requires Safe(s) && id in s.rebuilds
    ensures forall t :: t in TickersIn(s.rebuilds[id].read) ==> Listed(s.rebuilds[id].universe, t)
  {
    assert WasRead(s.rebuilds[id].universe, s.rebuilds[id].read);
  }

  /** Another job does not make a pending ticker less pending. */
  lemma StillPending(s: System, after: System, t: string, gone: Option<nat>)
    requires IsPending(s, t) && (IsWrittenBy(s.sync, t) ==> IsWrittenBy(after.sync, t))
    requires forall id :: id in s.rebuilds && gone != Some(id) ==>
               id in after.rebuilds && after.rebuilds[id] == s.rebuilds[id]
    requires gone.Some? && gone.value in s.rebuilds && s.rebuilds[gone.value].swapped ==>
               t !in TickersIn(s.rebuilds[gone.value].read)
    ensures IsPending(after, t)
  {
    if !IsWrittenBy(s.sync, t) {
      var id :| id in s.rebuilds && s.rebuilds[id].swapped && t in TickersIn(s.rebuilds[id].read);
      assert id in after.rebuilds && after.rebuilds[id].swapped && t in TickersIn(after.rebuilds[id].read);
    }
  }

  lemma StepKeepsPending(s: System, e: Step, std: seq<real> -> real)
    requires Safe(s) && OnlyPendingDirty(s) && Enabled(s, e) && !Fails(e)
    ensures OnlyPendingDirty(Next(s, e, std))
  {
    hide Aligned, CacheRight, WasRead, SyncFits, Prepared, Targets, Writes, Swapped, Refreshed, In, Of, Sliced,
         IsWritten, Safe, TickersIn;
    var after := Next(s, e, std);
    forall t | t in after.dirty ensures IsPending(after, t) {
      match e
      case StartSync(_) => StillPending(s, after, t, None);
      case LoadWarmup => StillPending(s, after, t, None);
      case WriteNext => WriteKeepsPending(s, t);
      case FinishSync =>
        var j := s.sync.value;
        assert j.targets[..j.next] == j.targets;
      case StartRebuild(id, _) => StillPending(s, after, t, None);
      case Swap(id) => SwapKeepsPending(s, id, std, t);
      case FinishRebuild(id) =>
        ReadIsListed(s, id);
        StillPending(s, after, t, Some(id));
    }
  }

  lemma WriteKeepsPending(s: System, t: string)
    requires OnlyPendingDirty(s) && Enabled(s, WriteNext) && t in Write(s, s.sync.value).dirty
    ensures IsPending(Write(s, s.sync.value), t)
  {
    hide Sliced, Of, IsWritten, TickersIn;
    var j, after := s.sync.value, Write(s, s.sync.value);
    assert j.targets[..j.next + 1] == j.targets[..j.next] + [j.targets[j.next]];
    if t !in j.targets[..j.next + 1] {
      assert IsPending(s, t);
      var id :| id in s.rebuilds && s.rebuilds[id].swapped && t in TickersIn(s.rebuilds[id].read);
      assert id in after.rebuilds && after.rebuilds[id].swapped && t in TickersIn(after.rebuilds[id].read);
    }
  }

  lemma SwapKeepsPending(s: System, id: nat, std: seq<real> -> real, t: string)
    requires OnlyPendingDirty(s) && Enabled(s, Swap(id)) && t in Next(s, Swap(id), std).dirty
    ensures IsPending(Next(s, Swap(id), std), t)
  {
    hide Swapped, TickersIn;
    var after := Next(s, Swap(id), std);
    if t in TickersIn(s.rebuilds[id].read) {
      assert id in after.rebuilds && after.rebuilds[id].swapped && t in TickersIn(after.rebuilds[id].read);
    } else {
      assert IsPending(s, t);
      if !IsWrittenBy(s.sync, t) {
        var other :| other in s.rebuilds && s.rebuilds[other].swapped && t in TickersIn(s.rebuilds[other].read);
        assert other in after.rebuilds && after.rebuilds[other].swapped && t in TickersIn(after.rebuilds[other].read);
      }
    }
  }

  /** In a run without failures nothing stays dirty beyond the jobs under way: once they are all finished, the
      cache is right for every ticker. */
  lemma {:induction false} CleanRunsLeaveTheCacheRight(s: System, steps: seq<Step>, std: seq<real> -> real)
    requires Safe(s) && OnlyPendingDirty(s) && Play(s, steps, std).Some? && forall e :: e in steps ==> !Fails(e)
    ensures var after := Play(s, steps, std).value;
            OnlyPendingDirty(after) && (after.sync.None? && after.rebuilds == map[] ==> CacheRight(after.db, {}))
    decreases |steps|
  {
    hide Next, Legal, Enabled, CacheRight, Aligned;
    RunsAreSafe(s, steps, std);
    if steps != [] {
      var front, e := steps[..|steps| - 1], steps[|steps| - 1];
      assert steps == front + [e] && e in steps;
      CleanRunsLeaveTheCacheRight(s, front, std);
      RunsAreSafe(s, front, std);
      StepKeepsPending(Play(s, front, std).value, e, std);
    }
    var after := Play(s, steps, std).value;
    if after.sync.None? && after.rebuilds == map[] {
      assert after.dirty == {};
    }
  }

  // ---------- a sync by itself ----------

  function WriteSteps(n: nat): (r: seq<Step>)
    ensures |r| == n
  {
    seq(n, i => WriteNext)
  }

  /** The first steps of a sync, up to its n-th write. */
  function FirstSteps(q: Request, n: nat): (r: seq<Step>)
    ensures |r| == n + 2
  {
    [StartSync(q), LoadWarmup] + WriteSteps(n)
  }

  lemma PlayOne(s: System, e: Step, std: seq<real> -> real)
    requires Enabled(s, e) && Legal(s, e)
    ensures Play(s, [e], std) == Some(Next(s, e, std))
  {
    hide Next, Enabled, Legal;
    assert [e][..0] == [];
    assert Play(s, [], std) == Some(s);
  }

  lemma SyncLoads(s: System, q: Request, std: seq<real> -> real)
    requires s.sync.None? && ProviderSound(s.db, q) && Distinct(Targets(s.db, q)) && Writes(s.db, q)
    ensures Play(s, FirstSteps(q, 0), std) ==
            Some(s.(sync := Some(Writing(Targets(s.db, q), q.feed, Prepared(s.db, q, std), 0))))
  {
    hide ProviderSound, Distinct, Writes, PreparedFrom, Targets, StartDate;
    var steps := FirstSteps(q, 0);
    assert steps == [StartSync(q), LoadWarmup] && steps[..1] == [StartSync(q)];
    PlayOne(s, StartSync(q), std);
  }

  lemma {:induction false} SyncSoFar(s: System, q: Request, std: seq<real> -> real, n: nat)
    requires s.sync.None? && ProviderSound(s.db, q) && Distinct(Targets(s.db, q)) && Writes(s.db, q)
    requires n <= |Targets(s.db, q)|
    ensures var after := Play(s, FirstSteps(q, n), std);
            && after.Some? && after.value.rebuilds == s.rebuilds
            && after.value.db == AfterTargets(s.db, q.feed, Prepared(s.db, q, std), Targets(s.db, q), n)
            && after.value.sync == Some(Writing(Targets(s.db, q), q.feed, Prepared(s.db, q, std), n))
  {
    hide ProviderSound, Distinct, Writes, Prepared, Targets, IsWritten, Sliced, Of;
    if n == 0 {
      SyncLoads(s, q, std);
    } else {
      SyncSoFar(s, q, std, n - 1);
      var steps := FirstSteps(q, n);
      assert steps[..n + 1] == FirstSteps(q, n - 1) && steps[n + 1] == WriteNext;
    }
  }

  /** The step that ends a sync which has written n targets. */
  function LastStep(q: Request, n: nat, targets: seq<string>): Step {
    if n < |targets| || q.failure.FailsAfterWrites? then AbortSync
    else if q.failure.RefreshFails? then FailSyncRefresh
    else FinishSync
  }

  /** A sync that nothing interleaves with does what the whole method does, however it ends, and leaves the rebuilds
      under way alone. */
  lemma SyncIsItsSteps(s: System, q: Request, std: seq<real> -> real)
    requires s.sync.None? && ProviderSound(s.db, q) && Distinct(Targets(s.db, q)) && Writes(s.db, q)
    ensures var targets := Targets(s.db, q);
            var n := Reached(q, Prepared(s.db, q, std), targets);
            var after := Play(s, FirstSteps(q, n) + [LastStep(q, n, targets)], std);
            && after.Some? && after.value.db == Synced(s.db, q, std).db
            && after.value.sync.None? && after.value.rebuilds == s.rebuilds
  {
    hide ProviderSound, Distinct, Prepared, Targets, AfterTargets, Refreshed, Reached, FirstSteps, RowsWritten;
    var targets := Targets(s.db, q);
    var n := Reached(q, Prepared(s.db, q, std), targets);
    SyncSoFar(s, q, std, n);
    var front, last := FirstSteps(q, n), LastStep(q, n, targets);
    var steps := front + [last];
    assert steps[..|steps| - 1] == front && steps[|steps| - 1] == last;
  }

  /** A sync that does not get as far as its write loop is over at once and has changed nothing. */
  lemma IdleSyncIsOneStep(s: System, q: Request, std: seq<real> -> real)
    requires s.sync.None? && !Writes(s.db, q)
    ensures Enabled(s, StartSync(q)) && Next(s, StartSync(q), std) == s && Synced(s.db, q, std).db == s.db
  {
    hide Targets, Prepared;
  }

  lemma PlayOneMore(s: System, steps: seq<Step>, e: Step, std: seq<real> -> real)
    ensures Play(s, steps + [e], std) ==
            var before := Play(s, steps, std);
            if before.None? || !Enabled(before.value, e) || !Legal(before.value, e) then None
            else Some(Next(before.value, e, std))
  {
    hide Next, Enabled, Legal;
    assert (steps + [e])[..|steps|] == steps;
  }

  /** The state of a rebuild that has read and swapped. */
  function AfterSwap(s: System, id: nat, universe: seq<string>, std: seq<real> -> real): System {
    var read := In(s.db.ohlcv, universe);
    s.(db := Swapped(s.db, universe, read, std), rebuilds := s.rebuilds[id := RebuildJob(universe, read, true)],
       dirty := s.dirty + TickersIn(read))
  }

  /** The state of a rebuild that has read. */
  function AfterRead(s: System, id: nat, universe: seq<string>): System {
    s.(rebuilds := s.rebuilds[id := RebuildJob(universe, In(s.db.ohlcv, universe), false)])
  }

  lemma ReadAndSwap(s: System, id: nat, universe: seq<string>, std: seq<real> -> real)
    requires id !in s.rebuilds && In(s.db.ohlcv, universe) != []
    ensures Play(s, [StartRebuild(id, universe)], std) == Some(AfterRead(s, id, universe))
    ensures Play(s, [StartRebuild(id, universe), Swap(id)], std) == Some(AfterSwap(s, id, universe, std))
  {
    hide Swapped, In, Play, KeySet, TickersIn;
    PlayOne(s, StartRebuild(id, universe), std);
    assert [StartRebuild(id, universe), Swap(id)] == [StartRebuild(id, universe)] + [Swap(id)];
    PlayOneMore(s, [StartRebuild(id, universe)], Swap(id), std);
    SwapAfterRead(s, id, universe, std);
    hide Next, Enabled, Legal, AfterRead, AfterSwap;
  }

  lemma SwapAfterRead(s: System, id: nat, universe: seq<string>, std: seq<real> -> real)
    ensures var read := AfterRead(s, id, universe);
            Enabled(read, Swap(id)) && Legal(read, Swap(id)) &&
            Next(read, Swap(id), std) == AfterSwap(s, id, universe, std)
  {
    hide Swapped, In, KeySet, TickersIn;
    var job := RebuildJob(universe, In(s.db.ohlcv, universe), false);
    assert s.rebuilds[id := job][id := job.(swapped := true)] == s.rebuilds[id := job.(swapped := true)];
  }

  lemma JobIsOver(rebuilds: map<nat, RebuildJob>, id: nat, job: RebuildJob)
    requires id !in rebuilds
    ensures rebuilds[id := job] - {id} == rebuilds
  {}

  /** A rebuild that nothing interleaves with does what the whole method does; cut short after its read it leaves the
      tables, after its swap the swapped table, and in the middle of its refresh the cache without the listed rows. It
      is over in each case, and the other jobs are left alone. */
  lemma RebuildIsItsSteps(s: System, id: nat, universe: seq<string>, std: seq<real> -> real)
    requires id !in s.rebuilds && In(s.db.ohlcv, universe) != []
    ensures var read, start := In(s.db.ohlcv, universe), StartRebuild(id, universe);
            var swapped := Swapped(s.db, universe, read, std);
            && EndsWith(s, [start, Swap(id), FinishRebuild(id)], std, Rebuilt(s.db, universe, read, std))
            && EndsWith(s, [start, AbortRebuild(id)], std, s.db)
            && EndsWith(s, [start, Swap(id), AbortRebuild(id)], std, swapped)
            && EndsWith(s, [start, Swap(id), FailRebuildRefresh(id)], std,
                        swapped.(latest := NotIn(s.db.latest, universe)))
  {
    hide Swapped, In, NotIn, Play, KeySet, TickersIn, Refreshed, Emptied, Unlisted;
    var start := StartRebuild(id, universe);
    ReadAndSwap(s, id, universe, std);
    assert [start, AbortRebuild(id)] == [start] + [AbortRebuild(id)];
    PlayOneMore(s, [start], AbortRebuild(id), std);
    forall e | e in {FinishRebuild(id), AbortRebuild(id), FailRebuildRefresh(id)}
      ensures [start, Swap(id), e] == [start, Swap(id)] + [e]
      ensures Play(s, [start, Swap(id), e], std) == Some(Next(AfterSwap(s, id, universe, std), e, std))
    {
      assert [start, Swap(id), e] == [start, Swap(id)] + [e];
      PlayOneMore(s, [start, Swap(id)], e, std);
    }
    JobIsOver(s.rebuilds, id, RebuildJob(universe, In(s.db.ohlcv, universe), false));
    JobIsOver(s.rebuilds, id, RebuildJob(universe, In(s.db.ohlcv, universe), true));
    SwapKeepsLatest(s.db, universe, In(s.db.ohlcv, universe), std);
  }

  lemma SwapKeepsLatest(db: Database, universe: seq<string>, read: seq<Row<Bar>>, std: seq<real> -> real)
    ensures Swapped(db, universe, read, std).latest == db.latest
  {}

  /** The run ends in these tables, with the jobs that were under way before. */
  ghost predicate EndsWith(s: System, steps: seq<Step>, std: seq<real> -> real, db: Database) {
    var after := Play(s, steps, std);
    after.Some? && after.value.db == db && after.value.sync == s.sync && after.value.rebuilds == s.rebuilds
  }

  /** A run in two parts. */
  lemma {:induction false} PlayAppends(s: System, a: seq<Step>, b: seq<Step>, std: seq<real> -> real)
    requires Play(s, a, std).Some?
    ensures Play(s, a + b, std) == Play(Play(s, a, std).value, b, std)
    decreases |b|
  {
    hide Next, Legal, Enabled;
    if b == [] {
      assert a + b == a;
    } else {
      var front, last, steps := b[..|b| - 1], b[|b| - 1], a + b;
      assert steps[..|steps| - 1] == a + front && steps[|steps| - 1] == last;
      PlayAppends(s, a, front, std);
    }
  }

  // ---------- when a swap is legal ----------

  /** In aligned tables a swap keeps them aligned exactly when it is legal. */
  lemma SwapAlignsExactlyWhenLegal(s: System, id: nat, std: seq<real> -> real)
    requires Aligned(s.db) && Enabled(s, Swap(id)) && WasRead(s.rebuilds[id].universe, s.rebuilds[id].read)
    ensures Aligned(Next(s, Swap(id), std).db) <==> Legal(s, Swap(id))
  {
    hide Aligned, Swapped, In, KeySet, WasRead, TickersIn;
    SwapAlignsExactlyWhen(s.db, s.rebuilds[id].universe, s.rebuilds[id].read, std);
  }

  /** The keys a rebuild of the universe would read now. */
  ghost function ListedKeys(db: Database, universe: seq<string>): set<(string, int)> { KeySet(In(db.ohlcv, universe)) }

  /** A step that writes rows of a listed ticker. */
  ghost predicate WritesListed(s: System, e: Step, universe: seq<string>) {
    e.WriteNext? && Enabled(s, e) && Listed(universe, s.sync.value.targets[s.sync.value.next])
  }

  /** No step of the run writes rows of a listed ticker. */
  ghost predicate Quiet(s: System, steps: seq<Step>, universe: seq<string>, std: seq<real> -> real)
    decreases |steps|
  {
    steps == [] ||
    (var front := steps[..|steps| - 1];
     Quiet(s, front, universe, std) && Play(s, front, std).Some? &&
     !WritesListed(Play(s, front, std).value, steps[|steps| - 1], universe))
  }

  lemma SliceKeepsListedKeys(db: Database, t: string, raw: seq<Row<Bar>>, prepared: seq<Row<Columns>>,
                             universe: seq<string>)
    requires raw != [] && AllOf(raw, t) && !Listed(universe, t)
    ensures ListedKeys(Sliced(db, t, raw, prepared), universe) == ListedKeys(db, universe)
  {
    hide In, NotIn, DeleteFrom, KeySet, MinDate;
    var after := Sliced(db, t, raw, prepared);
    KeySetOfIn(db.ohlcv, universe);
    KeySetOfIn(after.ohlcv, universe);
    KeySetOfDelete(db.ohlcv, t, MinDate(raw));
    KeySetAppends(DeleteFrom(db.ohlcv, t, MinDate(raw)), raw);
    forall k | k in KeySet(raw) ensures k.0 == t {
      KeyTicker(raw, t, k);
    }
  }

  lemma KeyTicker(raw: seq<Row<Bar>>, t: string, k: (string, int))
    requires AllOf(raw, t) && k in KeySet(raw)
    ensures k.0 == t
  {}

  lemma StepKeepsListedKeys(s: System, e: Step, universe: seq<string>, std: seq<real> -> real)
    requires Enabled(s, e) && !WritesListed(s, e, universe)
    ensures ListedKeys(Next(s, e, std).db, universe) == ListedKeys(s.db, universe)
  {
    hide ListedKeys, Sliced, ComputeFrame, Refreshed, PreparedFrom, Targets, StartDate, Writes, In, NotIn;
    if e.WriteNext? {
      var j := s.sync.value;
      var t := j.targets[j.next];
      if IsWritten(j.feed, j.prepared, t) {
        SliceKeepsListedKeys(s.db, t, Of(j.feed, t), Of(j.prepared, t), universe);
      }
    } else {
      SameBarsSameKeys(s.db, Next(s, e, std).db, universe);
    }
  }

  lemma SameBarsSameKeys(a: Database, b: Database, universe: seq<string>)
    requires a.ohlcv == b.ohlcv
    ensures ListedKeys(a, universe) == ListedKeys(b, universe)
  {}

  /** A job that has read its rows and has neither been restarted nor ended. */
  predicate StillReading(s: System, id: nat, r: RebuildJob) { id in s.rebuilds && s.rebuilds[id] == r }

  lemma {:induction false} QuietKeepsListedKeys(s: System, steps: seq<Step>, universe: seq<string>,
                                                std: seq<real> -> real)
    requires Play(s, steps, std).Some? && Quiet(s, steps, universe, std)
    ensures ListedKeys(Play(s, steps, std).value.db, universe) == ListedKeys(s.db, universe)
    decreases |steps|
  {
    hide Next, Legal, ListedKeys, WritesListed;
    if steps != [] {
      var front, e := steps[..|steps| - 1], steps[|steps| - 1];
      QuietKeepsListedKeys(s, front, universe, std);
      StepKeepsListedKeys(Play(s, front, std).value, e, universe, std);
    }
  }

  /** A swap is legal when no row of a listed ticker was written since the rebuild read its rows, whatever else
      happened in between. */
  lemma QuietSwapIsLegal(s: System, id: nat, universe: seq<string>, steps: seq<Step>, std: seq<real> -> real)
    requires Enabled(s, StartRebuild(id, universe)) && In(s.db.ohlcv, universe) != []
    requires var reading := Next(s, StartRebuild(id, universe), std);
             Play(reading, steps, std).Some? && Quiet(reading, steps, universe, std)
    ensures var after := Play(Next(s, StartRebuild(id, universe), std), steps, std).value;
            StillReading(after, id, RebuildJob(universe, In(s.db.ohlcv, universe), false)) ==>
              Enabled(after, Swap(id)) && Legal(after, Swap(id))
  {
    hide Play, Quiet, In, KeySet;
    QuietKeepsListedKeys(Next(s, StartRebuild(id, universe), std), steps, universe, std);
  }
}
