/** The TTL/LRU response cache as interleaved critical sections (backend/services/response_cache.py). */
module ResponseCache {
  import opened Values
  import opened OrderedDicts

  type Key = string

  datatype Stored<V> = Stored(expiresAt: real, value: V)

  type Cache<V> = seq<Item<Key, Stored<V>>>

  // ---------- the critical sections ----------

  function Live<V>(c: Cache<V>, now: real): (r: Cache<V>)
    ensures |r| <= |c|
  {
    if c == [] then []
    else Live(c[..|c| - 1], now) + (if c[|c| - 1].value.expiresAt <= now then [] else [c[|c| - 1]])
  }

  /** Drops what has expired, then the least recent entries until there is room for one more. */
  function Pruned<V>(c: Cache<V>, now: real, max: nat): Cache<V>
    requires max >= 1
  {
    KeepLast(Live(c, now), max - 1)
  }

  /** The entry a lookup may serve. */
  function Fresh<V>(c: Cache<V>, k: Key, now: real): Option<Stored<V>> {
    var e := Get(c, k);
    if e.Some? && e.value.expiresAt > now then e else None
  }

  /** A hit moves the entry to the end; a stale entry is removed. */
  function LookedUp<V>(c: Cache<V>, k: Key, now: real): Cache<V> {
    var hit := Fresh(c, k, now);
    if hit.Some? then PutLast(c, k, hit.value) else Pop(c, k)
  }

  function WithStored<V>(c: Cache<V>, k: Key, v: V, ttl: real, at: real, max: nat): Cache<V>
    requires max >= 1
  {
    PutLast(Pruned(c, at, max), k, Stored(at + ttl, v))
  }

  class SharedCache<V(!new)> {
    const maxEntries: nat
    var entries: Cache<V>

    constructor (maxEntries: nat)
      requires maxEntries >= 1
      ensures this.maxEntries == maxEntries && entries == []
    {
      this.maxEntries := maxEntries;
      entries := [];
    }

    /** Collects the expired keys, pops them, then pops from the old end while the cache is full. */
    method Prune(now: real)
      requires maxEntries >= 1 && Distinct(Keys(entries))
      modifies this
      ensures entries == Pruned(old(entries), now, maxEntries)
    {
      var expired: seq<Key> := [];
      for n := 0 to |entries|
        invariant expired == Expired(entries[..n], now)
      {
        assert entries[..n + 1][..n] == entries[..n];
        if entries[n].value.expiresAt <= now {
          expired := expired + [entries[n].key];
        }
      }
      assert entries[..|entries|] == entries;
      for n := 0 to |expired|
        invariant entries == PopAll(old(entries), expired[..n])
      {
        assert expired[..n + 1][..n] == expired[..n];
        entries := Pop(entries, expired[n]);
      }
      assert expired[..|expired|] == expired;
      PopAllExpired(old(entries), now);
      ghost var live, dropped := entries, 0;
      while |entries| >= maxEntries
        invariant dropped <= |live| && entries == live[dropped..]
        invariant dropped > 0 ==> |entries| >= maxEntries - 1
      {
        assert live[dropped..][1..] == live[dropped + 1..];
        entries := entries[1..];
        dropped := dropped + 1;
      }
    }

    /** The first critical section of get_or_compute. */
    method Lookup(k: Key, now: real) returns (hit: Option<V>)
      modifies this
      ensures entries == LookedUp(old(entries), k, now)
      ensures hit == (var e := Fresh(old(entries), k, now); if e.Some? then Some(e.value.value) else None)
    {
      var cached := Get(entries, k);
      if cached.Some? {
        if cached.value.expiresAt > now {
          entries := PutLast(entries, k, cached.value);
          return Some(cached.value.value);
        }
      } else {
        PopAbsent(entries, k);
        return None;
      }
      entries := Pop(entries, k);
      return None;
    }

    /** The second critical section: prune, then insert at the recent end. */
    method Store(k: Key, v: V, ttl: real, storedAt: real)
      requires maxEntries >= 1 && Distinct(Keys(entries))
      modifies this
      ensures entries == WithStored(old(entries), k, v, ttl, storedAt, maxEntries)
    {
      Prune(storedAt);
      entries := PutLast(entries, k, Stored(storedAt + ttl, v));
    }

    method Clear()
      modifies this
      ensures entries == []
    {
      entries := [];
    }
  }

  function Expired<V>(c: Cache<V>, now: real): seq<Key> {
    if c == [] then []
    else Expired(c[..|c| - 1], now) + (if c[|c| - 1].value.expiresAt <= now then [c[|c| - 1].key] else [])
  }

  function PopAll<V>(c: Cache<V>, keys: seq<Key>): Cache<V> {
    if keys == [] then c else Pop(PopAll(c, keys[..|keys| - 1]), keys[|keys| - 1])
  }

  lemma {:induction false} PopAbsent<V(!new)>(c: Cache<V>, k: Key)
    requires Get(c, k).None?
    ensures Pop(c, k) == c
  {
    if c != [] {
      PopAbsent(c[..|c| - 1], k);
      assert c == c[..|c| - 1] + [c[|c| - 1]];
    }
  }

  lemma {:induction false} PopAllOfMore<V(!new)>(c: Cache<V>, last: Item<Key, Stored<V>>, keys: seq<Key>)
    ensures PopAll(c + [last], keys) == PopAll(c, keys) + (if last.key in keys then [] else [last])
  {
    if keys == [] {
    } else {
      var front, k := keys[..|keys| - 1], keys[|keys| - 1];
      assert keys == front + [k];
      PopAllOfMore(c, last, front);
      var p := PopAll(c, front);
      if last.key in front {
        assert p + [] == p;
        assert Pop(p, k) + [] == Pop(p, k);
      } else {
        assert (p + [last])[..|p|] == p;
        assert Pop(p, k) + [] == Pop(p, k);
      }
    }
  }

  lemma {:induction false} ExpiredAreKeys<V(!new)>(c: Cache<V>, now: real)
    ensures forall k :: k in Expired(c, now) ==> k in Keys(c)
  {
    if c != [] {
      ExpiredAreKeys(c[..|c| - 1], now);
      assert Keys(c) == Keys(c[..|c| - 1]) + [c[|c| - 1].key];
    }
  }

  /** Popping the expired keys one by one leaves the live entries in order. */
  lemma {:induction false} PopAllExpired<V(!new)>(c: Cache<V>, now: real)
    requires Distinct(Keys(c))
    ensures PopAll(c, Expired(c, now)) == Live(c, now)
  {
    if c == [] {
      assert Expired(c, now) == [];
    } else {
      var front, last := c[..|c| - 1], c[|c| - 1];
      assert c == front + [last] && Keys(c) == Keys(front) + [last.key];
      DistinctFront(Keys(front), last.key);
      PopAllExpired(front, now);
      ExpiredAreKeys(front, now);
      var e := Expired(front, now);
      PopAllOfMore(front, last, e);
      if last.value.expiresAt <= now {
        assert (e + [last.key])[..|e|] == e;
        var live := Live(front, now);
        assert PopAll(c, e + [last.key]) == Pop(live + [last], last.key);
        assert (live + [last])[..|live|] == live;
        LiveMembers(front, now);
        NotAKey(live, front, last.key);
        GetIsMembership(live, last.key);
        PopAbsent(live, last.key);
        assert live + [] == live;
      } else {
        assert e + [] == e;
      }
    }
  }

  lemma NotAKey<V(!new)>(live: Cache<V>, front: Cache<V>, k: Key)
    requires k !in Keys(front) && forall x :: x in live ==> x in front
    ensures k !in Keys(live)
  {
    forall i | 0 <= i < |live| ensures Keys(live)[i] != k {
      assert live[i] in front;
      var j :| 0 <= j < |front| && front[j] == live[i];
      assert Keys(front)[j] == live[i].key;
    }
  }

  lemma {:induction false} LiveMembers<V(!new)>(c: Cache<V>, now: real)
    requires Distinct(Keys(c))
    ensures Distinct(Keys(Live(c, now)))
    ensures forall x :: x in Live(c, now) <==> x in c && x.value.expiresAt > now
  {
    if c != [] {
      var front, last := c[..|c| - 1], c[|c| - 1];
      assert c == front + [last] && Keys(c) == Keys(front) + [last.key];
      DistinctFront(Keys(front), last.key);
      LiveMembers(front, now);
      var live := Live(front, now);
      assert Keys(live + [last]) == Keys(live) + [last.key];
      NotAKey(live, front, last.key);
      assert live + [] == live;
    }
  }

  lemma {:induction false} LiveKeepsRecency<V(!new)>(c: Cache<V>, now: real, log: seq<Key>)
    requires ByRecency(Keys(c), log)
    ensures ByRecency(Keys(Live(c, now)), log)
    ensures forall i :: 0 <= i < |Live(c, now)| ==> Live(c, now)[i] in c
  {
    if c != [] {
      var front, last := c[..|c| - 1], c[|c| - 1];
      assert c == front + [last] && Keys(c) == Keys(front) + [last.key];
      FrontByRecency(Keys(front), last.key, log);
      LiveKeepsRecency(front, now, log);
      var live := Live(front, now);
      if last.value.expiresAt > now {
        assert Keys(live + [last]) == Keys(live) + [last.key];
        forall i | 0 <= i < |live| ensures Keys(live)[i] in Keys(front) {
          assert live[i] in front;
          var j :| 0 <= j < |front| && front[j] == live[i];
          assert Keys(front)[j] == live[i].key;
        }
        LaterKeyExtends(Keys(live), Keys(front), last.key, log);
      } else {
        assert live + [] == live;
      }
    }
  }

  // ---------- calls of get_or_compute, interleaved ----------

  /** Where a call stands: clock read, missed and computing outside the lock, or about to store. */
  datatype Call<V> =
    | Looking(key: Key, ttl: real, now: real)
    | Computing(key: Key, ttl: real)
    | Storing(key: Key, ttl: real, value: V)

  datatype StoreRecord<V> = StoreRecord(key: Key, value: V, at: real, ttl: real)

  /** What a call returned: the value it computed, or the one a hit served at its clock reading. */
  datatype Return<V> = Computed(key: Key, value: V) | Hit(key: Key, now: real, value: V)

  /** The cache, the calls under way and the history of the run; `touched` logs every hit and store. */
  datatype System<V> = System(cache: Cache<V>, calls: map<nat, Call<V>>, computed: seq<(Key, V)>,
                              stores: seq<StoreRecord<V>>, returned: seq<Return<V>>, touched: seq<Key>)

  datatype Event<V> =
    | Enter(id: nat, key: Key, ttl: real, now: real)
    | Look(id: nat)
    | Finish(id: nat, value: V)
    | Raise(id: nat)
    | Save(id: nat, at: real)
    | Clear

  predicate Enabled<V>(s: System<V>, e: Event<V>) {
    match e
    case Enter(id, _, _, _) => id !in s.calls
    case Look(id) => id in s.calls && s.calls[id].Looking?
    case Finish(id, _) => id in s.calls && s.calls[id].Computing?
    case Raise(id) => id in s.calls && s.calls[id].Computing?
    case Save(id, _) => id in s.calls && s.calls[id].Storing?
    case Clear => true
  }

  /** The last store of a key. */
  function LatestStore<V>(stores: seq<StoreRecord<V>>, k: Key): (r: Option<StoreRecord<V>>)
    ensures r.Some? ==> r.value in stores && r.value.key == k
  {
    if stores == [] then None
    else if stores[|stores| - 1].key == k then Some(stores[|stores| - 1])
    else
      assert stores == stores[..|stores| - 1] + [stores[|stores| - 1]];
      LatestStore(stores[..|stores| - 1], k)
  }

  function Next<V>(s: System<V>, e: Event<V>, max: nat): System<V>
    requires max >= 1 && Enabled(s, e)
  {
    match e
    case Enter(id, key, ttl, now) => s.(calls := s.calls[id := Looking(key, ttl, now)])
    case Look(id) =>
      var c := s.calls[id];
      var hit := Fresh(s.cache, c.key, c.now);
      var after := s.(cache := LookedUp(s.cache, c.key, c.now));
      if hit.Some? then
        after.(calls := s.calls - {id}, touched := s.touched + [c.key],
               returned := s.returned + [Hit(c.key, c.now, hit.value.value)])
      else after.(calls := s.calls[id := Computing(c.key, c.ttl)])
    case Finish(id, value) =>
      var c := s.calls[id];
      s.(calls := s.calls[id := Storing(c.key, c.ttl, value)], computed := s.computed + [(c.key, value)])
    case Raise(id) => s.(calls := s.calls - {id})
    case Save(id, at) =>
      var c := s.calls[id];
      s.(cache := WithStored(s.cache, c.key, c.value, c.ttl, at, max), calls := s.calls - {id},
         stores := s.stores + [StoreRecord(c.key, c.value, at, c.ttl)],
         returned := s.returned + [Computed(c.key, c.value)], touched := s.touched + [c.key])
    case Clear => s.(cache := [])
  }

  // ---------- what every interleaving keeps ----------

  /** An entry is exactly what the latest store of its key put there. */
  ghost predicate Backed<V(!new)>(stores: seq<StoreRecord<V>>, x: Item<Key, Stored<V>>) {
    var r := LatestStore(stores, x.key);
    r.Some? && x.value == Stored(r.value.at + r.value.ttl, r.value.value)
  }

  ghost predicate Honest<V(!new)>(s: System<V>, r: Return<V>) {
    match r
    case Computed(key, value) => (key, value) in s.computed
    case Hit(key, now, value) =>
      (key, value) in s.computed &&
      exists r :: r in s.stores && r.key == key && r.value == value && now < r.at + r.ttl
  }

  ghost predicate SoundCache<V(!new)>(c: Cache<V>, stores: seq<StoreRecord<V>>, touched: seq<Key>, max: nat) {
    && |c| <= max
    && ByRecency(Keys(c), touched)
    && (forall x :: x in c ==> Backed(stores, x))
  }

  ghost predicate Traced<V(!new)>(s: System<V>) {
    && (forall r :: r in s.stores ==> (r.key, r.value) in s.computed)
    && (forall id :: id in s.calls && s.calls[id].Storing? ==> (s.calls[id].key, s.calls[id].value) in s.computed)
    && (forall r :: r in s.returned ==> Honest(s, r))
  }

  ghost predicate Invariant<V(!new)>(s: System<V>, max: nat) {
    SoundCache(s.cache, s.stores, s.touched, max) && Traced(s)
  }

  lemma HonestStays<V(!new)>(s: System<V>, t: System<V>)
    requires (forall p :: p in s.computed ==> p in t.computed) && (forall r :: r in s.stores ==> r in t.stores)
    requires forall r :: r in s.returned ==> Honest(s, r)
    ensures forall r :: r in s.returned ==> Honest(t, r)
  {}

  lemma LookupStaysSound<V(!new)>(c: Cache<V>, stores: seq<StoreRecord<V>>, touched: seq<Key>, max: nat, k: Key,
                           now: real)
    requires SoundCache(c, stores, touched, max)
    ensures SoundCache(LookedUp(c, k, now), stores, if Fresh(c, k, now).Some? then touched + [k] else touched, max)
  {
    hide LatestStore, LastTouch;
    GetIsMembership(c, k);
    PopRemoves(c, k);
    var hit := Fresh(c, k, now);
    if hit.Some? {
      PutLastKeepsRecency(c, k, hit.value, touched);
      PutLastKeepsDistinct(c, k, hit.value);
    } else {
      PopKeepsRecency(c, k, touched);
    }
  }

  lemma StoreStaysBacked<V(!new)>(stores: seq<StoreRecord<V>>, r: StoreRecord<V>, x: Item<Key, Stored<V>>)
    requires x == Item(r.key, Stored(r.at + r.ttl, r.value)) || (x.key != r.key && Backed(stores, x))
    ensures Backed(stores + [r], x)
  {
    assert (stores + [r])[..|stores|] == stores;
  }

  lemma StoreStaysSound<V(!new)>(c: Cache<V>, stores: seq<StoreRecord<V>>, touched: seq<Key>, max: nat,
                          r: StoreRecord<V>)
    requires max >= 1 && SoundCache(c, stores, touched, max)
    ensures SoundCache(WithStored(c, r.key, r.value, r.ttl, r.at, max), stores + [r], touched + [r.key], max)
  {
    hide LatestStore, LastTouch, Backed;
    var live, pruned, entry := Live(c, r.at), Pruned(c, r.at, max), Stored(r.at + r.ttl, r.value);
    LiveMembers(c, r.at);
    LiveKeepsRecency(c, r.at, touched);
    KeepLastIsSuffix(live, max - 1);
    KeepLastKeepsRecency(live, max - 1, touched);
    PutLastKeepsRecency(pruned, r.key, entry, touched);
    PutLastKeepsDistinct(pruned, r.key, entry);
    forall x | x in PutLast(pruned, r.key, entry) ensures Backed(stores + [r], x) {
      StoreStaysBacked(stores, r, x);
    }
  }

  lemma LookKeepsInvariant<V(!new)>(s: System<V>, id: nat, max: nat)
    requires max >= 1 && Invariant(s, max) && Enabled(s, Look(id))
    ensures Invariant(Next(s, Look(id), max), max)
  {
    hide ByRecency, PutLast, Pop;
    var c, t := s.calls[id], Next(s, Look(id), max);
    LookupStaysSound(s.cache, s.stores, s.touched, max, c.key, c.now);
    if Fresh(s.cache, c.key, c.now).Some? {
      FreshIsBacked(s.cache, s.stores, s.touched, max, c.key, c.now);
    }
    HonestStays(s, t);
  }

  lemma FreshIsBacked<V(!new)>(c: Cache<V>, stores: seq<StoreRecord<V>>, touched: seq<Key>, max: nat, k: Key, now: real)
    requires SoundCache(c, stores, touched, max) && Fresh(c, k, now).Some?
    ensures var r := LatestStore(stores, k);
            r.Some? && Fresh(c, k, now).value == Stored(r.value.at + r.value.ttl, r.value.value) && r.value in stores
  {
    GetIsMembership(c, k);
    assert Backed(stores, Item(k, Get(c, k).value));
  }

  lemma SaveKeepsInvariant<V(!new)>(s: System<V>, id: nat, at: real, max: nat)
    requires max >= 1 && Invariant(s, max) && Enabled(s, Save(id, at))
    ensures Invariant(Next(s, Save(id, at), max), max)
  {
    hide SoundCache, WithStored;
    var c, t := s.calls[id], Next(s, Save(id, at), max);
    StoreStaysSound(s.cache, s.stores, s.touched, max, StoreRecord(c.key, c.value, at, c.ttl));
    HonestStays(s, t);
  }

  lemma StepKeepsInvariant<V(!new)>(s: System<V>, e: Event<V>, max: nat)
    requires max >= 1 && Invariant(s, max) && Enabled(s, e)
    ensures Invariant(Next(s, e, max), max)
  {
    match e
    case Look(id) => LookKeepsInvariant(s, id, max);
    case Save(id, at) => SaveKeepsInvariant(s, id, at, max);
    case _ =>
      hide Live, KeepLast;
      HonestStays(s, Next(s, e, max));
  }

  function Play<V>(s: System<V>, events: seq<Event<V>>, max: nat): Option<System<V>>
    requires max >= 1
    decreases |events|
  {
    if events == [] then Some(s)
    else
      var before := Play(s, events[..|events| - 1], max);
      if before.Some? && Enabled(before.value, events[|events| - 1])
      then Some(Next(before.value, events[|events| - 1], max)) else None
  }

  function Initial<V>(): System<V> { System([], map[], [], [], [], []) }

  /** Every interleaving of lookups, computations, stores, failures and clears keeps the cache bounded with
      distinct keys in recency order, serves each key only values computed for that key, and hits only a
      store younger than its own ttl at the clock reading of the call. */
  lemma {:induction false} AllInterleavingsAreSafe<V(!new)>(events: seq<Event<V>>, max: nat)
    requires max >= 1 && Play(Initial<V>(), events, max).Some?
    ensures Invariant(Play(Initial<V>(), events, max).value, max)
    decreases |events|
  {
    if events != [] {
      AllInterleavingsAreSafe(events[..|events| - 1], max);
      hide Invariant, Next, Enabled;
      StepKeepsInvariant(Play(Initial<V>(), events[..|events| - 1], max).value, events[|events| - 1], max);
    }
  }

  /** A hit is the latest store of its key, and the value served is the one that store held. */
  lemma HitServesTheLatestStore<V(!new)>(s: System<V>, id: nat, max: nat)
    requires max >= 1 && Invariant(s, max) && Enabled(s, Look(id))
    requires Fresh(s.cache, s.calls[id].key, s.calls[id].now).Some?
    ensures var c := s.calls[id];
            var r := LatestStore(s.stores, c.key);
            && r.Some? && c.now < r.value.at + r.value.ttl
            && Next(s, Look(id), max).returned == s.returned + [Hit(c.key, c.now, r.value.value)]
  {
    FreshIsBacked(s.cache, s.stores, s.touched, max, s.calls[id].key, s.calls[id].now);
  }

  /** A store drops an entry of another key only when it has expired, or when no expired entry is left and
      the cache is full of live entries; then it is one of the least recently used: max - 1 other keys, all
      kept, were touched after its last touch. */
  lemma EvictionIsLeastRecent<V(!new)>(s: System<V>, id: nat, at: real, max: nat, x: Item<Key, Stored<V>>)
    requires max >= 1 && Invariant(s, max) && Enabled(s, Save(id, at))
    requires x in s.cache && x.key != s.calls[id].key && x !in Next(s, Save(id, at), max).cache
    ensures x.value.expiresAt <= at ||
            (var kept := Pruned(s.cache, at, max);
             && (forall y :: y in kept ==> y in s.cache && y.value.expiresAt > at)
             && |kept| == max - 1 && Distinct(Keys(kept)) && |Live(s.cache, at)| >= max
             && x.key in s.touched
             && forall k :: k in Keys(kept) ==>
                  k in s.touched && k != x.key && LastTouch(s.touched, x.key) < LastTouch(s.touched, k))
  {
    hide LastTouch, Live, KeepLast, Backed, Traced;
    var c, live, kept := s.calls[id], Live(s.cache, at), Pruned(s.cache, at, max);
    LiveMembers(s.cache, at);
    LiveKeepsRecency(s.cache, at, s.touched);
    KeepLastIsSuffix(live, max - 1);
    PutLastKeepsDistinct(kept, c.key, Stored(at + c.ttl, c.value));
    if x.value.expiresAt > at {
      assert x in live && x !in kept;
      DroppedAreLeastRecent(live, max - 1, s.touched, x);
      KeptMeansFull(live, max - 1, x);
    }
  }

  lemma KeptMeansFull<T>(d: seq<T>, n: nat, x: T)
    requires x in d && x !in KeepLast(d, n)
    ensures |d| > n
  {}

  // ---------- one call ----------

  lemma PlayOneMore<V(!new)>(s: System<V>, events: seq<Event<V>>, e: Event<V>, max: nat)
    requires max >= 1
    ensures Play(s, events + [e], max) ==
            var before := Play(s, events, max);
            if before.Some? && Enabled(before.value, e) then Some(Next(before.value, e, max)) else None
  {
    assert (events + [e])[..|events|] == events;
  }

  /** The state after a call of k has looked: it is over after a hit, computing after a miss. */
  function AfterLook<V>(s: System<V>, id: nat, k: Key, ttl: real, now: real): System<V> {
    var hit := Fresh(s.cache, k, now);
    if hit.Some? then
      s.(cache := Pop(s.cache, k) + [Item(k, hit.value)], touched := s.touched + [k],
         returned := s.returned + [Hit(k, now, hit.value.value)])
    else s.(cache := Pop(s.cache, k), calls := s.calls[id := Computing(k, ttl)])
  }

  lemma EnterAndLook<V(!new)>(s: System<V>, id: nat, k: Key, ttl: real, now: real, max: nat)
    requires max >= 1 && id !in s.calls
    ensures Play(s, [Enter(id, k, ttl, now), Look(id)], max) == Some(AfterLook(s, id, k, ttl, now))
  {
    hide Pop, Play, Get;
    var enter, look := Enter(id, k, ttl, now), Look(id);
    assert [enter] == [] + [enter] && [enter, look] == [enter] + [look];
    PlayNothing(s, max);
    PlayOneMore(s, [], enter, max);
    PlayOneMore(s, [enter], look, max);
    assert s.calls[id := Looking(k, ttl, now)] - {id} == s.calls;
    assert s.calls[id := Looking(k, ttl, now)][id := Computing(k, ttl)] == s.calls[id := Computing(k, ttl)];
  }

  /** The cached entry a call at that clock reading may serve. */
  ghost predicate Serves<V(!new)>(c: Cache<V>, k: Key, now: real, x: Item<Key, Stored<V>>) {
    x in c && x.key == k && now < x.value.expiresAt
  }

  /** A call that nothing interleaves with: if an unexpired entry is cached it returns that value and leaves the entry
      at the recent end; otherwise it drops what is there and computes. */
  lemma LookMeans<V(!new)>(s: System<V>, id: nat, k: Key, ttl: real, now: real, max: nat)
    requires max >= 1 && id !in s.calls && Distinct(Keys(s.cache))
    ensures var looked := Play(s, [Enter(id, k, ttl, now), Look(id)], max);
            && looked.Some?
            && (forall x :: Serves(s.cache, k, now, x) ==>
                  && looked.value.returned == s.returned + [Hit(k, now, x.value.value)]
                  && looked.value.cache == Pop(s.cache, k) + [x] && looked.value.calls == s.calls)
            && ((forall x :: !Serves(s.cache, k, now, x)) ==>
                  && looked.value.returned == s.returned && looked.value.cache == Pop(s.cache, k)
                  && looked.value.calls == s.calls[id := Computing(k, ttl)])
  {
    hide Pop, Play;
    EnterAndLook(s, id, k, ttl, now, max);
    GetIsMembership(s.cache, k);
    var e := Fresh(s.cache, k, now);
    assert e.Some? ==> Serves(s.cache, k, now, Item(k, e.value));
  }

  /** A call that computes stores the value at its second clock reading and returns it; one that raises stores and
      returns nothing. Either way it is over and no other call is touched. */
  lemma ComputingEnds<V(!new)>(s: System<V>, id: nat, k: Key, ttl: real, value: V, at: real, max: nat)
    requires max >= 1 && id in s.calls && s.calls[id] == Computing(k, ttl)
    ensures var saved := Play(s, [Finish(id, value), Save(id, at)], max);
            && saved.Some? && saved.value.calls == s.calls - {id}
            && saved.value.returned == s.returned + [Computed(k, value)]
            && saved.value.cache == WithStored(s.cache, k, value, ttl, at, max)
    ensures var raised := Play(s, [Raise(id)], max);
            raised.Some? && raised.value == s.(calls := s.calls - {id})
  {
    hide Play, WithStored;
    var raise: Event<V>, finish, save := Raise(id), Finish(id, value), Save(id, at);
    assert [raise] == [] + [raise] && [finish] == [] + [finish] && [finish, save] == [finish] + [save];
    PlayNothing(s, max);
    PlayOneMore(s, [], raise, max);
    PlayOneMore(s, [], finish, max);
    PlayOneMore(s, [finish], save, max);
    assert s.calls[id := Storing(k, ttl, value)] - {id} == s.calls - {id};
  }

  /** Clearing leaves nothing to serve. */
  lemma ClearedServesNothing<V(!new)>(s: System<V>, k: Key, now: real, max: nat)
    requires max >= 1
    ensures Enabled(s, Clear)
    ensures forall x :: !Serves(Next(s, Clear, max).cache, k, now, x)
  {}

  lemma PlayNothing<V(!new)>(s: System<V>, max: nat)
    requires max >= 1
    ensures Play(s, [], max) == Some(s)
  {}

  // ---------- how long a stored value is served ----------

  /** A step that leaves the entry x of a cache alone: no clear, no other store of its key, no look at it and no store
      that finds it expired, and at a store fewer than max - 1 other keys touched since it was. */
  ghost predicate Spares<V(!new)>(s: System<V>, e: Event<V>, max: nat, x: Item<Key, Stored<V>>)
    requires Enabled(s, e)
  {
    match e
    case Clear => false
    case Look(id) => s.calls[id].key == x.key ==> s.calls[id].now < x.value.expiresAt
    case Save(id, at) =>
      && s.calls[id].key != x.key && at < x.value.expiresAt
      && x.key in s.touched && |Since(s.touched, x.key)| < max - 1
    case _ => true
  }

  lemma SparedEntryStays<V(!new)>(s: System<V>, e: Event<V>, max: nat, x: Item<Key, Stored<V>>)
    requires max >= 1 && Invariant(s, max) && Enabled(s, e) && x in s.cache && Spares(s, e, max, x)
    ensures x in Next(s, e, max).cache
  {
    hide Pruned, Live, Traced, Backed, LastTouch;
    match e
    case Look(id) =>
      var c := s.calls[id];
      GetIsMembership(s.cache, c.key);
      PopRemoves(s.cache, c.key);
    case Save(id, at) =>
      hide Since, LookedUp;
      if x !in Next(s, e, max).cache {
        EvictionIsLeastRecent(s, id, at, max, x);
        NewerThan(s.touched, Keys(Pruned(s.cache, at, max)), x.key);
      }
    case _ =>
  }

  /** Keys touched after x was are keys touched since. */
  lemma NewerThan(touched: seq<Key>, keys: seq<Key>, k: Key)
    requires k in touched && Distinct(keys)
    requires forall x :: x in keys ==> x in touched && x != k && LastTouch(touched, k) < LastTouch(touched, x)
    ensures |Since(touched, k)| >= |keys|
  {
    hide LastTouch;
    DistinctSize(keys);
    forall x | x in keys ensures x in Since(touched, k) {
      TouchedSince(touched, k, x);
    }
    SmallerSet(Members(keys), Since(touched, k));
  }

  /** Every step of a run from s spares x. */
  ghost predicate AllSpare<V(!new)>(s: System<V>, events: seq<Event<V>>, max: nat, x: Item<Key, Stored<V>>)
    requires max >= 1
    decreases |events|
  {
    events == [] ||
    (var front, last := events[..|events| - 1], events[|events| - 1];
     var before := Play(s, front, max);
     AllSpare(s, front, max, x) && (before.Some? && Enabled(before.value, last) ==> Spares(before.value, last, max, x)))
  }

  lemma {:induction false} SparedThroughout<V(!new)>(s: System<V>, events: seq<Event<V>>, max: nat,
                                             x: Item<Key, Stored<V>>)
    requires max >= 1 && Invariant(s, max) && x in s.cache
    requires Play(s, events, max).Some? && AllSpare(s, events, max, x)
    ensures Invariant(Play(s, events, max).value, max) && x in Play(s, events, max).value.cache
    decreases |events|
  {
    if events != [] {
      hide Invariant, Next, Spares, Enabled;
      var front, last := events[..|events| - 1], events[|events| - 1];
      SparedThroughout(s, front, max, x);
      var before := Play(s, front, max).value;
      StepKeepsInvariant(before, last, max);
      SparedEntryStays(before, last, max, x);
    }
  }

  /** A stored value is served: after a call stores it at a clock reading, and whatever other calls do, every look at
      the key before the ttl has passed is a hit on that value, unless the cache was cleared, the key was stored again,
      or max - 1 other keys were touched in between. */
  lemma StoredIsServed<V(!new)>(s: System<V>, id: nat, at: real, events: seq<Event<V>>, look: nat, max: nat)
    requires max >= 1 && Invariant(s, max) && Enabled(s, Save(id, at))
    requires var c := s.calls[id];
             var saved := Next(s, Save(id, at), max);
             var late := Play(saved, events, max);
             && AllSpare(saved, events, max, Item(c.key, Stored(at + c.ttl, c.value)))
             && late.Some? && Enabled(late.value, Look(look))
             && late.value.calls[look].key == c.key && late.value.calls[look].now < at + c.ttl
    ensures var late := Play(Next(s, Save(id, at), max), events, max).value;
            Next(late, Look(look), max).returned ==
            late.returned + [Hit(s.calls[id].key, late.calls[look].now, s.calls[id].value)]
  {
    var c := s.calls[id];
    var saved, x := Next(s, Save(id, at), max), Item(c.key, Stored(at + c.ttl, c.value));
    assert x in saved.cache;
    SaveKeepsInvariant(s, id, at, max);
    SparedThroughout(saved, events, max, x);
    hide Next, AllSpare;
    var late := Play(saved, events, max).value;
    HitOn(late, look, max, x);
  }

  lemma HitOn<V(!new)>(s: System<V>, id: nat, max: nat, x: Item<Key, Stored<V>>)
    requires max >= 1 && Invariant(s, max) && Enabled(s, Look(id)) && x in s.cache
    requires s.calls[id].key == x.key && s.calls[id].now < x.value.expiresAt
    ensures Next(s, Look(id), max).returned == s.returned + [Hit(x.key, s.calls[id].now, x.value.value)]
  {
    GetIsMembership(s.cache, x.key);
  }
}
