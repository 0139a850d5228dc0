/** The fixed-window rate limiter over whole traces of checks (backend/core/security.py). */
module RateLimiter {
  import opened Values
  import opened OrderedDicts

  datatype Key = Key(client: string, bucket: string)

  /** Admissions counted so far and the clock reading that opened the window. */
  datatype Window = Window(count: int, start: real)

  type Windows = seq<Item<Key, Window>>

  datatype Verdict = Verdict(allowed: bool, limit: int, remaining: int, retryAfter: int)

  /** One call of check with the clock reading it takes. */
  datatype Check = Check(key: Key, limit: int, window: int, now: real)

  /** int(): truncation towards zero. */
  function Truncate(x: real): int { if x >= 0.0 then x.Floor else -((-x).Floor) }

  function RetryAfter(window: int, elapsed: real): int {
    var wait := Truncate(window as real - elapsed + 0.999);
    if wait > 1 then wait else 1
  }

  /** The window a check runs in: the stored one, or a new one when none is stored or it has run out. */
  function CurrentWindow(w: Windows, c: Check): Window {
    var stored := Get(w, c.key);
    if stored.None? || c.now - stored.value.start >= c.window as real then Window(0, c.now) else stored.value
  }

  predicate Allows(w: Windows, c: Check) { CurrentWindow(w, c).count < c.limit }

  function Counted(w: Windows, c: Check): Window {
    var current := CurrentWindow(w, c);
    if Allows(w, c) then current.(count := current.count + 1) else current
  }

  function VerdictOf(w: Windows, c: Check): Verdict {
    var counted := Counted(w, c);
    Verdict(Allows(w, c), c.limit, Remaining(c.limit, counted.count), RetryAfter(c.window, c.now - counted.start))
  }

  /** The table after a check: the key's window moves to the recent end, the oldest keys make room. */
  function Checked(w: Windows, c: Check, maxKeys: nat): Windows {
    KeepLast(PutLast(w, c.key, Counted(w, c)), maxKeys)
  }

  lemma KeptBySuffix(all: Windows, kept: Windows, n: nat)
    requires |kept| <= |all| && kept == all[|all| - |kept|..] && |kept| <= n && (|kept| < n ==> kept == all)
    ensures kept == KeepLast(all, n)
  {}

  function Remaining(limit: int, count: int): int { if limit - count > 0 then limit - count else 0 }

  lemma VerdictIs(w: Windows, c: Check, allowed: bool, count: int, start: real, elapsed: real)
    requires Window(count, start) == Counted(w, c) && allowed == Allows(w, c) && elapsed == c.now - start
    ensures Verdict(allowed, c.limit, Remaining(c.limit, count), RetryAfter(c.window, elapsed)) == VerdictOf(w, c)
  {
    hide RetryAfter, Counted, Allows;
  }

  class FixedWindowRateLimiter {
    const maxKeys: nat
    var windows: Windows

    constructor (maxKeys: nat)
      ensures this.maxKeys == maxKeys && windows == []
    {
      this.maxKeys := maxKeys;
      windows := [];
    }

    method CheckKey(c: Check) returns (r: Verdict)
      modifies this
      ensures windows == Checked(old(windows), c, maxKeys) && r == VerdictOf(old(windows), c)
    {
      hide RetryAfter, Get, Pop;
      var popped := Get(windows, c.key);
      windows := Pop(windows, c.key);
      var count, windowStart := 0, c.now;
      if popped.Some? {
        count, windowStart := popped.value.count, popped.value.start;
      }
      var elapsed := c.now - windowStart;
      if elapsed >= c.window as real {
        count, windowStart, elapsed := 0, c.now, 0.0;
      }
      assert Window(count, windowStart) == CurrentWindow(old(windows), c) && elapsed == c.now - windowStart;
      var allowed := count < c.limit;
      if allowed {
        count := count + 1;
      }
      windows := windows + [Item(c.key, Window(count, windowStart))];
      assert windows == PutLast(old(windows), c.key, Window(count, windowStart));
      assert Window(count, windowStart) == Counted(old(windows), c) && allowed == Allows(old(windows), c);
      VerdictIs(old(windows), c, allowed, count, windowStart, elapsed);
      hide CurrentWindow, Allows, Counted, VerdictOf, PutLast, KeepLast;
      ghost var full, dropped := windows, 0;
      while |windows| > maxKeys
        invariant dropped <= |full| && windows == full[dropped..]
        invariant dropped > 0 ==> |windows| >= maxKeys
      {
        assert full[dropped..][1..] == full[dropped + 1..];
        windows := windows[1..];
        dropped := dropped + 1;
      }
      KeptBySuffix(full, windows, maxKeys);
      r := Verdict(allowed, c.limit, Remaining(c.limit, count), RetryAfter(c.window, elapsed));
    }
  }

  // ---------- traces ----------

  /** The table before check n of a trace. */
  function Table(trace: seq<Check>, n: nat, maxKeys: nat): Windows
    requires n <= |trace|
  {
    if n == 0 then [] else Checked(Table(trace, n - 1, maxKeys), trace[n - 1], maxKeys)
  }

  /** The answer check n of a trace gets. */
  function Answer(trace: seq<Check>, n: nat, maxKeys: nat): Verdict
    requires n < |trace|
  {
    VerdictOf(Table(trace, n, maxKeys), trace[n])
  }

  predicate Admitted(trace: seq<Check>, n: nat, maxKeys: nat)
    requires n < |trace|
  {
    Answer(trace, n, maxKeys).allowed
  }

  function KeyLog(trace: seq<Check>, n: nat): (r: seq<Key>)
    requires n <= |trace|
    ensures |r| == n
  {
    seq(n, i requires 0 <= i < n => trace[i].key)
  }

  /** The table is bounded and lists its keys by their last check. */
  lemma {:induction false} TableIsBounded(trace: seq<Check>, n: nat, maxKeys: nat)
    requires n <= |trace|
    ensures |Table(trace, n, maxKeys)| <= maxKeys
    ensures ByRecency(Keys(Table(trace, n, maxKeys)), KeyLog(trace, n))
  {
    if n > 0 {
      TableIsBounded(trace, n - 1, maxKeys);
      var w, c := Table(trace, n - 1, maxKeys), trace[n - 1];
      PutLastKeepsRecency(w, c.key, Counted(w, c), KeyLog(trace, n - 1));
      assert KeyLog(trace, n) == KeyLog(trace, n - 1) + [c.key];
      KeepLastKeepsRecency(PutLast(w, c.key, Counted(w, c)), maxKeys, KeyLog(trace, n));
    }
  }

  /** The table holds the last maxKeys distinct keys that were checked, in the order of their last checks. */
  lemma {:induction false} TableHoldsTheLastKeys(trace: seq<Check>, n: nat, maxKeys: nat)
    requires n <= |trace|
    ensures Keys(Table(trace, n, maxKeys)) == KeepLast(LastSeen(KeyLog(trace, n)), maxKeys)
  {
    hide Counted, LastSeen, Remove, KeepLast, Pop, ByRecency;
    if n == 0 {
      NothingChecked(trace, maxKeys);
    } else {
      TableHoldsTheLastKeys(trace, n - 1, maxKeys);
      var w, c, log := Table(trace, n - 1, maxKeys), trace[n - 1], KeyLog(trace, n - 1);
      KeysOfPop(w, c.key);
      assert Keys(PutLast(w, c.key, Counted(w, c))) == Remove(Keys(w), c.key) + [c.key];
      KeysOfKeepLast(PutLast(w, c.key, Counted(w, c)), maxKeys);
      LastSeenByRecency(log);
      TruncatedTouch(LastSeen(log), c.key, maxKeys, log);
      assert KeyLog(trace, n) == log + [c.key];
      OneMoreTouch(log, c.key);
    }
  }

  lemma NothingChecked(trace: seq<Check>, maxKeys: nat)
    ensures Keys(Table(trace, 0, maxKeys)) == KeepLast(LastSeen(KeyLog(trace, 0)), maxKeys)
  {}

  lemma OneMoreTouch(log: seq<Key>, k: Key)
    ensures LastSeen(log + [k]) == Remove(LastSeen(log), k) + [k]
  {
    assert (log + [k])[..|log|] == log;
  }

  /** A key has a window in the table exactly when it was checked and fewer than maxKeys other distinct keys were
      checked since. */
  lemma HeldExactlyWhen(trace: seq<Check>, n: nat, maxKeys: nat, k: Key)
    requires n <= |trace|
    ensures var log := KeyLog(trace, n);
            Get(Table(trace, n, maxKeys), k).Some? <==> k in log && |Since(log, k)| < maxKeys
  {
    hide ByRecency, KeepLast, LastSeen, Since;
    TableHoldsTheLastKeys(trace, n, maxKeys);
    TableKeysDistinct(trace, n, maxKeys);
    GetIsMembership(Table(trace, n, maxKeys), k);
    RecentExactlyWhen(KeyLog(trace, n), k, maxKeys);
  }

  // ---------- how much one key gets ----------

  /** All checks of k use one limit and one positive window, and the clock never runs back. */
  ghost predicate Steady(trace: seq<Check>, k: Key, limit: int, window: int) {
    && window > 0
    && (forall i :: 0 <= i < |trace| && trace[i].key == k ==> trace[i].limit == limit && trace[i].window == window)
    && (forall i, j :: 0 <= i < j < |trace| ==> trace[i].now <= trace[j].now)
  }

  /** At no point have maxKeys other keys been checked since the last check of k. */
  ghost predicate Frequent(trace: seq<Check>, k: Key, maxKeys: nat) {
    forall n :: 0 < n <= |trace| && k in KeyLog(trace, n) ==> |Since(KeyLog(trace, n), k)| < maxKeys
  }

  /** Once checked, k stays in the table. */
  ghost predicate NeverEvicted(trace: seq<Check>, k: Key, maxKeys: nat) {
    forall n :: 0 < n <= |trace| && k in KeyLog(trace, n) ==> Get(Table(trace, n, maxKeys), k).Some?
  }

  lemma FrequentMeansNeverEvicted(trace: seq<Check>, k: Key, maxKeys: nat)
    ensures Frequent(trace, k, maxKeys) <==> NeverEvicted(trace, k, maxKeys)
  {
    forall n | 0 < n <= |trace| && k in KeyLog(trace, n)
      ensures |Since(KeyLog(trace, n), k)| < maxKeys <==> Get(Table(trace, n, maxKeys), k).Some?
    {
      HeldExactlyWhen(trace, n, maxKeys, k);
    }
  }

  /** An admission of k: when, and in the window opened when. */
  datatype Admission = Admission(at: real, start: real)

  function Admissions(trace: seq<Check>, n: nat, maxKeys: nat, k: Key): (r: seq<Admission>)
    requires n <= |trace|
    ensures |r| <= n
  {
    if n == 0 then []
    else
      var before, w, c := Admissions(trace, n - 1, maxKeys, k), Table(trace, n - 1, maxKeys), trace[n - 1];
      if c.key == k && Admitted(trace, n - 1, maxKeys) then before + [Admission(c.now, Counted(w, c).start)] else before
  }

  function InWindow(adm: seq<Admission>, start: real): (n: nat)
    ensures n <= |adm|
  {
    if adm == [] then 0
    else InWindow(adm[..|adm| - 1], start) + (if adm[|adm| - 1].start == start then 1 else 0)
  }

  function InInterval(adm: seq<Admission>, from: real, length: real): (n: nat)
    ensures n <= |adm|
  {
    if adm == [] then 0
    else InInterval(adm[..|adm| - 1], from, length) +
         (if from <= adm[|adm| - 1].at <= from + length then 1 else 0)
  }

  /** Windows are disjoint and hold their admissions. */
  ghost predicate Spaced(adm: seq<Admission>, length: real) {
    && (forall p :: 0 <= p < |adm| ==> adm[p].start <= adm[p].at < adm[p].start + length)
    && (forall p, q :: 0 <= p < q < |adm| ==> adm[p].start == adm[q].start || adm[p].start + length <= adm[q].start)
  }

  function AtMost(limit: int): nat { if limit > 0 then limit else 0 }

  /** The stored window of k agrees with the admissions so far. */
  ghost predicate Tracks(adm: seq<Admission>, w: Window, limit: int, length: real) {
    && 0 <= w.count <= AtMost(limit) && w.count == InWindow(adm, w.start)
    && forall p :: 0 <= p < |adm| ==> adm[p].start == w.start || adm[p].start + length <= w.start
  }

  ghost predicate Bounded(adm: seq<Admission>, limit: int) { forall s :: InWindow(adm, s) <= AtMost(limit) }

  lemma {:induction false} NewWindowIsEmpty(adm: seq<Admission>, s: real)
    requires forall p :: 0 <= p < |adm| ==> adm[p].start != s
    ensures InWindow(adm, s) == 0
  {
    if adm != [] {
      NewWindowIsEmpty(adm[..|adm| - 1], s);
    }
  }

  lemma OneMore(adm: seq<Admission>, a: Admission, s: real)
    ensures InWindow(adm + [a], s) == InWindow(adm, s) + (if a.start == s then 1 else 0)
  {
    assert (adm + [a])[..|adm|] == adm;
  }

  /** One check of k in a window that tracks its admissions. */
  lemma CheckTracks(adm: seq<Admission>, w: Windows, c: Check, limit: int, length: real)
    requires c.limit == limit && c.window as real == length && length > 0.0
    requires Spaced(adm, length) && Bounded(adm, limit)
    requires forall p :: 0 <= p < |adm| ==> adm[p].at <= c.now
    requires var stored := Get(w, c.key);
             if stored.Some? then Tracks(adm, stored.value, limit, length) && stored.value.start <= c.now else adm == []
    ensures var counted := Counted(w, c);
            var after := if Allows(w, c) then adm + [Admission(c.now, counted.start)] else adm;
            Spaced(after, length) && Bounded(after, limit) && Tracks(after, counted, limit, length)
                && counted.start <= c.now
  {
    hide Get, InWindow;
    var current := CurrentWindow(w, c);
    var stored := Get(w, c.key);
    if stored.None? || c.now - stored.value.start >= length {
      NewWindowIsEmpty(adm, c.now);
    }
    assert Tracks(adm, current, limit, length);
    if Allows(w, c) {
      AdmissionTracks(adm, current, c.now, limit, length);
    }
  }

  lemma AdmissionTracks(adm: seq<Admission>, w: Window, now: real, limit: int, length: real)
    requires Spaced(adm, length) && Bounded(adm, limit) && Tracks(adm, w, limit, length)
    requires w.start <= now < w.start + length && w.count < limit
    ensures var after := adm + [Admission(now, w.start)];
            Spaced(after, length) && Bounded(after, limit) && Tracks(after, w.(count := w.count + 1), limit, length)
  {
    hide InWindow;
    var a := Admission(now, w.start);
    forall s ensures InWindow(adm + [a], s) <= AtMost(limit) {
      OneMore(adm, a, s);
    }
    OneMore(adm, a, w.start);
  }

  ghost predicate KeyInvariant(trace: seq<Check>, n: nat, maxKeys: nat, k: Key, limit: int, window: int)
    requires n <= |trace|
  {
    var adm, length, stored := Admissions(trace, n, maxKeys, k), window as real, Get(Table(trace, n, maxKeys), k);
    && Spaced(adm, length) && Bounded(adm, limit)
    && (forall p :: 0 <= p < |adm| ==> exists i :: 0 <= i < n && trace[i].now == adm[p].at)
    && (if stored.Some?
        then Tracks(adm, stored.value, limit, length) && exists i :: 0 <= i < n && trace[i].now == stored.value.start
        else adm == [])
  }

  lemma OtherKeysAreKept(w: Windows, c: Check, maxKeys: nat, k: Key)
    requires Distinct(Keys(w)) && k != c.key && Get(Checked(w, c, maxKeys), k).Some?
    ensures Get(Checked(w, c, maxKeys), k) == Get(w, k)
  {
    var all := PutLast(w, c.key, Counted(w, c));
    PutLastKeepsDistinct(w, c.key, Counted(w, c));
    KeepLastIsSuffix(all, maxKeys);
    GetIsMembership(KeepLast(all, maxKeys), k);
    GetIsMembership(w, k);
  }

  lemma OwnKeyIsCounted(w: Windows, c: Check, maxKeys: nat)
    requires Distinct(Keys(w)) && Get(Checked(w, c, maxKeys), c.key).Some?
    ensures Get(Checked(w, c, maxKeys), c.key) == Some(Counted(w, c))
  {
    var all := PutLast(w, c.key, Counted(w, c));
    PutLastKeepsDistinct(w, c.key, Counted(w, c));
    KeepLastIsSuffix(all, maxKeys);
    GetIsMembership(KeepLast(all, maxKeys), c.key);
    GetIsMembership(all, c.key);
  }

  lemma AbsentKeyHasNoWindow(trace: seq<Check>, n: nat, maxKeys: nat, k: Key)
    requires n <= |trace| && k !in KeyLog(trace, n)
    ensures Get(Table(trace, n, maxKeys), k).None?
  {
    TableIsBounded(trace, n, maxKeys);
    GetIsMembership(Table(trace, n, maxKeys), k);
  }

  lemma {:induction false} KeyStaysInvariant(trace: seq<Check>, n: nat, maxKeys: nat, k: Key, limit: int, window: int)
    requires Steady(trace, k, limit, window) && NeverEvicted(trace, k, maxKeys) && n <= |trace|
    ensures KeyInvariant(trace, n, maxKeys, k, limit, window)
  {
    hide ByRecency, Checked, Counted, Allows, CurrentWindow, InWindow, Steady;
    if n == 0 {
      NothingYet(trace, maxKeys, k, limit, window);
    } else {
      KeyStaysInvariant(trace, n - 1, maxKeys, k, limit, window);
      TableKeysDistinct(trace, n - 1, maxKeys);
      if trace[n - 1].key == k {
        OwnCheck(trace, n, maxKeys, k, limit, window);
      } else {
        OtherCheck(trace, n, maxKeys, k, limit, window);
      }
    }
  }

  lemma NothingYet(trace: seq<Check>, maxKeys: nat, k: Key, limit: int, window: int)
    ensures KeyInvariant(trace, 0, maxKeys, k, limit, window)
  {}

  lemma TableKeysDistinct(trace: seq<Check>, n: nat, maxKeys: nat)
    requires n <= |trace|
    ensures Distinct(Keys(Table(trace, n, maxKeys)))
  {
    TableIsBounded(trace, n, maxKeys);
  }

  lemma OwnCheck(trace: seq<Check>, n: nat, maxKeys: nat, k: Key, limit: int, window: int)
    requires Steady(trace, k, limit, window) && NeverEvicted(trace, k, maxKeys) && 0 < n <= |trace|
    requires KeyInvariant(trace, n - 1, maxKeys, k, limit, window) && trace[n - 1].key == k
    requires Distinct(Keys(Table(trace, n - 1, maxKeys)))
    ensures KeyInvariant(trace, n, maxKeys, k, limit, window)
  {
    hide Checked, Counted, Allows, InWindow, Spaced, Bounded, Tracks;
    var adm, w, c := Admissions(trace, n - 1, maxKeys, k), Table(trace, n - 1, maxKeys), trace[n - 1];
    CheckTracks(adm, w, c, limit, window as real);
    assert KeyLog(trace, n)[n - 1] == k;
    OwnKeyIsCounted(w, c, maxKeys);
    StartIsAReading(trace, n, w, k);
  }

  lemma StartIsAReading(trace: seq<Check>, n: nat, w: Windows, k: Key)
    requires 0 < n <= |trace| && trace[n - 1].key == k
    requires Get(w, k).Some? ==> exists i :: 0 <= i < n - 1 && trace[i].now == Get(w, k).value.start
    ensures exists i :: 0 <= i < n && trace[i].now == Counted(w, trace[n - 1]).start
  {
    if Get(w, k).Some? {
      var i :| 0 <= i < n - 1 && trace[i].now == Get(w, k).value.start;
    }
  }

  lemma OtherCheck(trace: seq<Check>, n: nat, maxKeys: nat, k: Key, limit: int, window: int)
    requires NeverEvicted(trace, k, maxKeys) && 0 < n <= |trace|
    requires KeyInvariant(trace, n - 1, maxKeys, k, limit, window) && trace[n - 1].key != k
    requires Distinct(Keys(Table(trace, n - 1, maxKeys)))
    ensures KeyInvariant(trace, n, maxKeys, k, limit, window)
  {
    hide Checked, InWindow, Spaced, Bounded, Tracks;
    var w, c := Table(trace, n - 1, maxKeys), trace[n - 1];
    if Get(w, k).Some? {
      assert k in KeyLog(trace, n - 1) by {
        if k !in KeyLog(trace, n - 1) {
          AbsentKeyHasNoWindow(trace, n - 1, maxKeys, k);
        }
      }
      assert KeyLog(trace, n) == KeyLog(trace, n - 1) + [c.key];
      OtherKeysAreKept(w, c, maxKeys, k);
    } else if Get(Checked(w, c, maxKeys), k).Some? {
      OtherKeysAreKept(w, c, maxKeys, k);
    }
  }

  // ---------- the interval bound ----------

  /** Admissions inside an interval but outside window s. */
  function Elsewhere(adm: seq<Admission>, from: real, length: real, s: real): nat {
    if adm == [] then 0
    else
      var last := adm[|adm| - 1];
      Elsewhere(adm[..|adm| - 1], from, length, s) +
      (if from <= last.at <= from + length && last.start != s then 1 else 0)
  }

  lemma {:induction false} IntervalSplits(adm: seq<Admission>, from: real, length: real, s: real)
    ensures InInterval(adm, from, length) <= InWindow(adm, s) + Elsewhere(adm, from, length, s)
  {
    if adm != [] {
      IntervalSplits(adm[..|adm| - 1], from, length, s);
    }
  }

  /** When everything in the interval outside s lies in one window r, it is no more than r holds. */
  lemma {:induction false} ElsewhereIsOneWindow(adm: seq<Admission>, from: real, length: real, s: real, r: real)
    requires forall p :: 0 <= p < |adm| && from <= adm[p].at <= from + length && adm[p].start != s ==> adm[p].start == r
    ensures Elsewhere(adm, from, length, s) <= InWindow(adm, r)
  {
    if adm != [] {
      ElsewhereIsOneWindow(adm[..|adm| - 1], from, length, s, r);
    }
  }

  lemma {:induction false} ElsewhereIsNowhere(adm: seq<Admission>, from: real, length: real, s: real)
    requires forall p :: 0 <= p < |adm| && from <= adm[p].at <= from + length ==> adm[p].start == s
    ensures Elsewhere(adm, from, length, s) == 0
  {
    if adm != [] {
      ElsewhereIsNowhere(adm[..|adm| - 1], from, length, s);
    }
  }

  /** An interval of one window length meets at most two windows. */
  lemma {:induction false} IntervalMeetsTwoWindows(adm: seq<Admission>, from: real, length: real, limit: int)
    requires Spaced(adm, length) && Bounded(adm, limit)
    ensures InInterval(adm, from, length) <= 2 * AtMost(limit)
  {
    hide InWindow, Elsewhere;
    if p :| 0 <= p < |adm| && from <= adm[p].at <= from + length {
      var s := adm[p].start;
      IntervalSplits(adm, from, length, s);
      if q :| 0 <= q < |adm| && from <= adm[q].at <= from + length && adm[q].start != s {
        var r := adm[q].start;
        forall m | 0 <= m < |adm| && from <= adm[m].at <= from + length && adm[m].start != s
          ensures adm[m].start == r
        {
          ThreeWindowsAreTooMany(adm, length, p, q, m, from);
        }
        ElsewhereIsOneWindow(adm, from, length, s, r);
        assert InWindow(adm, s) <= AtMost(limit) && InWindow(adm, r) <= AtMost(limit);
      } else {
        ElsewhereIsNowhere(adm, from, length, s);
        assert InWindow(adm, s) <= AtMost(limit);
      }
    } else {
      NothingInInterval(adm, from, length);
    }
  }

  lemma Apart(adm: seq<Admission>, length: real, p: nat, q: nat)
    requires Spaced(adm, length) && p < |adm| && q < |adm|
    ensures adm[p].start == adm[q].start || adm[p].start + length <= adm[q].start
            || adm[q].start + length <= adm[p].start
  {
    if p < q {
    } else if q < p {
    }
  }

  lemma ThreeWindowsAreTooMany(adm: seq<Admission>, length: real, p: nat, q: nat, m: nat, from: real)
    requires Spaced(adm, length) && p < |adm| && q < |adm| && m < |adm|
    requires from <= adm[p].at <= from + length && from <= adm[q].at <= from + length
             && from <= adm[m].at <= from + length
    requires adm[q].start != adm[p].start && adm[m].start != adm[p].start
    ensures adm[m].start == adm[q].start
  {
    Apart(adm, length, p, q);
    Apart(adm, length, p, m);
    Apart(adm, length, q, m);
  }

  lemma {:induction false} NothingInInterval(adm: seq<Admission>, from: real, length: real)
    requires forall p :: 0 <= p < |adm| ==> !(from <= adm[p].at <= from + length)
    ensures InInterval(adm, from, length) == 0
  {
    if adm != [] {
      NothingInInterval(adm[..|adm| - 1], from, length);
    }
  }

  /** A key that keeps coming back before maxKeys others do gets at most `limit` admissions in each of its windows
      and at most twice that in any closed interval one window long. */
  lemma AdmissionsAreBounded(trace: seq<Check>, maxKeys: nat, k: Key, limit: int, window: int, from: real, start: real)
    requires Steady(trace, k, limit, window) && Frequent(trace, k, maxKeys)
    ensures var adm := Admissions(trace, |trace|, maxKeys, k);
            && InWindow(adm, start) <= AtMost(limit)
            && InInterval(adm, from, window as real) <= 2 * AtMost(limit)
  {
    hide Frequent, NeverEvicted;
    FrequentMeansNeverEvicted(trace, k, maxKeys);
    KeyStaysInvariant(trace, |trace|, maxKeys, k, limit, window);
    IntervalMeetsTwoWindows(Admissions(trace, |trace|, maxKeys, k), from, window as real, limit);
  }

  // ---------- what the verdict promises ----------

  /** The checks of k among checks lo, .., hi - 1. */
  function ChecksOf(trace: seq<Check>, lo: nat, hi: nat, k: Key): nat
    requires lo <= hi <= |trace|
  {
    if lo == hi then 0 else ChecksOf(trace, lo, hi - 1, k) + (if trace[hi - 1].key == k then 1 else 0)
  }

  /** The window of check i of k as the table holds it after n checks: used by every check of k since. */
  ghost predicate UsedSince(trace: seq<Check>, i: nat, n: nat, maxKeys: nat, k: Key)
    requires i < n <= |trace|
  {
    var entry, first, r := Get(Table(trace, n, maxKeys), k), Counted(Table(trace, i, maxKeys), trace[i]),
                           Answer(trace, i, maxKeys).remaining;
    var used := ChecksOf(trace, i + 1, n, k);
    entry.Some? && entry.value.start == first.start &&
    Remaining(trace[i].limit, entry.value.count) == if used < r then r - used else 0
  }

  lemma {:induction false} WindowIsUsed(trace: seq<Check>, i: nat, n: nat, maxKeys: nat, k: Key, limit: int,
                                        window: int)
    requires Steady(trace, k, limit, window) && NeverEvicted(trace, k, maxKeys)
    requires i < n <= |trace| && trace[i].key == k
    requires trace[n - 1].now - Counted(Table(trace, i, maxKeys), trace[i]).start < window as real
    ensures UsedSince(trace, i, n, maxKeys, k)
  {
    hide Checked, Get, Table, ByRecency, NeverEvicted;
    HeldAfter(trace, i, n, maxKeys, k);
    TableKeysDistinct(trace, n - 1, maxKeys);
    TableStep(trace, n - 1, maxKeys);
    if n == i + 1 {
      OwnKeyIsCounted(Table(trace, i, maxKeys), trace[i], maxKeys);
    } else {
      WindowIsUsed(trace, i, n - 1, maxKeys, k, limit, window);
      if trace[n - 1].key == k {
        OwnKeyIsCounted(Table(trace, n - 1, maxKeys), trace[n - 1], maxKeys);
      } else {
        OtherKeysAreKept(Table(trace, n - 1, maxKeys), trace[n - 1], maxKeys, k);
      }
    }
  }

  lemma HeldAfter(trace: seq<Check>, i: nat, n: nat, maxKeys: nat, k: Key)
    requires NeverEvicted(trace, k, maxKeys) && i < n <= |trace| && trace[i].key == k
    ensures Get(Table(trace, n, maxKeys), k).Some?
  {
    assert KeyLog(trace, n)[i] == k;
  }

  /** The remaining count is exact: as long as the window of check i lasts, a later check of a key that keeps coming
      back is admitted if and only if fewer than `remaining` others of it came in between. */
  lemma RemainingIsExact(trace: seq<Check>, i: nat, j: nat, maxKeys: nat, k: Key, limit: int, window: int)
    requires Steady(trace, k, limit, window) && Frequent(trace, k, maxKeys)
    requires i < j < |trace| && trace[i].key == trace[j].key == k
    requires trace[j].now - Counted(Table(trace, i, maxKeys), trace[i]).start < window as real
    ensures Answer(trace, i, maxKeys).limit == limit && Answer(trace, i, maxKeys).remaining >= 0
    ensures Admitted(trace, j, maxKeys) <==> ChecksOf(trace, i + 1, j, k) < Answer(trace, i, maxKeys).remaining
  {
    hide Frequent, NeverEvicted, Table, Get, RetryAfter;
    FrequentMeansNeverEvicted(trace, k, maxKeys);
    WindowIsUsed(trace, i, j, maxKeys, k, limit, window);
  }

  /** Callers who take turns, one more of them than the table has room for. */
  ghost predicate TakeTurns(trace: seq<Check>, callers: seq<Key>) {
    && callers != [] && Distinct(callers)
    && forall i :: 0 <= i < |trace| ==> trace[i].key == callers[i % |callers|] && trace[i].limit >= 1
  }

  /** The hypothesis on evictions is needed: callers who take turns, one more than the table holds, are admitted at
      every check of every trace, whatever the window and the clock. */
  lemma TurnsDefeatTheLimit(trace: seq<Check>, callers: seq<Key>, n: nat)
    requires TakeTurns(trace, callers) && n < |trace|
    ensures Admitted(trace, n, |callers| - 1)
  {
    hide Since, ByRecency, Distinct;
    var m, k, log := |callers| - 1, trace[n].key, KeyLog(trace, n);
    HeldExactlyWhen(trace, n, m, k);
    if k in log {
      OthersTookTheirTurn(trace, callers, n);
    }
  }

  lemma OthersTookTheirTurn(trace: seq<Check>, callers: seq<Key>, n: nat)
    requires TakeTurns(trace, callers) && n < |trace| && trace[n].key in KeyLog(trace, n)
    ensures |Since(KeyLog(trace, n), trace[n].key)| >= |callers| - 1
  {
    var c, k, log := |callers|, trace[n].key, KeyLog(trace, n);
    var i := LastTouch(log, k);
    assert i % c == n % c && i < n;
    TurnsApart(i, n, c);
    var others := log[n - c + 1..];
    assert Distinct(others) by {
      forall p, q | 0 <= p < q < |others| ensures others[p] != others[q] {
        DifferentTurns(n - c + 1 + p, n - c + 1 + q, c);
      }
    }
    DistinctSize(others);
    assert others == log[i + 1..][n - c - i..];
    forall x | x in others ensures x in log[i + 1..] {}
    Subset(others, log[i + 1..]);
  }

  lemma Subset<K(!new)>(a: seq<K>, b: seq<K>)
    requires forall x :: x in a ==> x in b
    ensures |Members(a)| <= |Members(b)|
  {
    SmallerSet(Members(a), Members(b));
  }

  lemma TurnsApart(i: nat, n: nat, c: nat)
    requires c > 0 && i < n && i % c == n % c
    ensures i + c <= n
  {
    var a, b := n / c, i / c;
    assert n == c * a + n % c && i == c * b + i % c;
    RoundsApart(c, a, b);
  }

  lemma RoundsApart(c: nat, a: nat, b: nat)
    requires c * a > c * b
    ensures c * a >= c * b + c
  {
    if a <= b {
      Multiples(c, a, b);
    } else {
      Multiples(c, b + 1, a);
    }
  }

  lemma {:induction false} Multiples(c: nat, a: nat, b: nat)
    requires a <= b
    ensures c * a <= c * b
  {
    if a < b {
      Multiples(c, a, b - 1);
    }
  }

  lemma DifferentTurns(p: nat, q: nat, c: nat)
    requires c > 0 && p < q < p + c
    ensures p % c != q % c
  {
    if p % c == q % c {
      TurnsApart(p, q, c);
    }
  }

  // ---------- waiting ----------

  function Fraction(x: real): real { x - x.Floor as real }

  /** Waiting a millisecond more than retry_after always outlasts the window. */
  lemma WaitingALittleLongerSuffices(window: int, elapsed: real)
    requires 0.0 <= elapsed < window as real
    ensures elapsed + RetryAfter(window, elapsed) as real + 0.001 >= window as real
  {}

  /** Waiting exactly retry_after seconds outlasts the window unless more than a second is left whose
      fraction lies strictly between 0 and a millisecond. */
  lemma WaitingRetryAfterSufficesExactlyWhen(window: int, elapsed: real)
    requires 0.0 <= elapsed < window as real
    ensures var left := window as real - elapsed;
            elapsed + RetryAfter(window, elapsed) as real >= window as real <==>
            left <= 1.0 || !(0.0 < Fraction(left) < 0.001)
  {
    var left := window as real - elapsed;
    var n := left.Floor;
    assert (left + 0.999).Floor == if Fraction(left) < 0.001 then n else n + 1;
  }

  lemma OtherCheckKeepsEntry(trace: seq<Check>, n: nat, maxKeys: nat, k: Key)
    requires n < |trace| && trace[n].key != k
    ensures var before, after := Get(Table(trace, n, maxKeys), k), Get(Table(trace, n + 1, maxKeys), k);
            after.Some? ==> after == before
  {
    hide Checked, Get, ByRecency;
    TableKeysDistinct(trace, n, maxKeys);
    if Get(Table(trace, n + 1, maxKeys), k).Some? {
      OtherKeysAreKept(Table(trace, n, maxKeys), trace[n], maxKeys, k);
    }
  }

  lemma {:induction false} EntryPersists(trace: seq<Check>, i: nat, j: nat, maxKeys: nat, k: Key)
    requires i <= j <= |trace| && forall m :: i <= m < j ==> trace[m].key != k
    ensures Get(Table(trace, j, maxKeys), k).Some? ==>
              Get(Table(trace, j, maxKeys), k) == Get(Table(trace, i, maxKeys), k)
  {
    hide Table, Get;
    if i < j {
      EntryPersists(trace, i, j - 1, maxKeys, k);
      OtherCheckKeepsEntry(trace, j - 1, maxKeys, k);
    }
  }

  /** After a denial, the next check of the key made retry_after + 0.001 seconds later is admitted into a
      fresh window, whether or not the key was evicted meanwhile. */
  lemma WaitingIsRewarded(trace: seq<Check>, i: nat, j: nat, maxKeys: nat, k: Key)
    requires i < j < |trace| && trace[i].key == trace[j].key == k
    requires trace[i].limit == trace[j].limit >= 1 && trace[i].window == trace[j].window > 0
    requires forall m :: i < m < j ==> trace[m].key != k
    requires !Admitted(trace, i, maxKeys)
    requires Get(Table(trace, i, maxKeys), k).Some? ==> Get(Table(trace, i, maxKeys), k).value.start <= trace[i].now
    requires trace[j].now >=
             trace[i].now + Answer(trace, i, maxKeys).retryAfter as real + 0.001
    ensures Admitted(trace, j, maxKeys)
    ensures Counted(Table(trace, j, maxKeys), trace[j]) == Window(1, trace[j].now)
  {
    var w, c := Table(trace, i, maxKeys), trace[i];
    assert ComesBack(trace, i, j, maxKeys, k);
    FullWindowWaits(trace, i, j, maxKeys, k);
    WaitingALittleLongerSuffices(c.window, c.now - Counted(w, c).start);
  }

  /** A window that check i left full, and the key's next check j. */
  ghost predicate ComesBack(trace: seq<Check>, i: nat, j: nat, maxKeys: nat, k: Key) {
    && i < j < |trace| && trace[i].key == trace[j].key == k
    && trace[i].limit == trace[j].limit >= 1 && trace[i].window == trace[j].window > 0
    && (forall m :: i < m < j ==> trace[m].key != k)
    && Counted(Table(trace, i, maxKeys), trace[i]).count >= trace[i].limit
  }

  lemma FullWindowWaits(trace: seq<Check>, i: nat, j: nat, maxKeys: nat, k: Key)
    requires ComesBack(trace, i, j, maxKeys, k)
    ensures var counted := Counted(Table(trace, i, maxKeys), trace[i]);
            && (Get(Table(trace, j, maxKeys), k).Some? ==> Get(Table(trace, j, maxKeys), k).value == counted)
            && (Admitted(trace, j, maxKeys) <==>
                Get(Table(trace, j, maxKeys), k).None? || trace[j].now - counted.start >= trace[j].window as real)
  {
    var w, c := Table(trace, i, maxKeys), trace[i];
    EntryPersists(trace, i + 1, j, maxKeys, k);
    TableKeysDistinct(trace, i, maxKeys);
    hide Checked, Table;
    if Get(Table(trace, i + 1, maxKeys), k).Some? {
      assert Table(trace, i + 1, maxKeys) == Checked(w, c, maxKeys) by { TableStep(trace, i, maxKeys); }
      OwnKeyIsCounted(w, c, maxKeys);
    }
  }

  /** Inside a full window the next check is admitted exactly when maxKeys other keys were checked meanwhile. */
  lemma FullWindowAdmitsExactlyWhen(trace: seq<Check>, i: nat, j: nat, maxKeys: nat, k: Key)
    requires ComesBack(trace, i, j, maxKeys, k)
    requires trace[j].now - Counted(Table(trace, i, maxKeys), trace[i]).start < trace[j].window as real
    ensures k in KeyLog(trace, j)
    ensures Admitted(trace, j, maxKeys) <==> |Since(KeyLog(trace, j), k)| >= maxKeys
  {
    hide Since, Table, Get;
    assert KeyLog(trace, j)[i] == k;
    FullWindowWaits(trace, i, j, maxKeys, k);
    HeldExactlyWhen(trace, j, maxKeys, k);
  }

  lemma TableStep(trace: seq<Check>, i: nat, maxKeys: nat)
    requires i < |trace|
    ensures Table(trace, i + 1, maxKeys) == Checked(Table(trace, i, maxKeys), trace[i], maxKeys)
  {}

  /** A denied caller who comes back after exactly retry_after seconds is admitted exactly when the key was evicted
      meanwhile, or the time left was at most a second, or its fraction did not lie strictly between 0 and a
      millisecond. */
  lemma ComingBackAfterRetryAfter(trace: seq<Check>, i: nat, j: nat, maxKeys: nat, k: Key)
    requires i < j < |trace| && trace[i].key == trace[j].key == k
    requires trace[i].limit == trace[j].limit >= 1 && trace[i].window == trace[j].window > 0
    requires forall m :: i < m < j ==> trace[m].key != k
    requires !Admitted(trace, i, maxKeys)
    requires Get(Table(trace, i, maxKeys), k).Some? ==> Get(Table(trace, i, maxKeys), k).value.start <= trace[i].now
    requires trace[j].now == trace[i].now + Answer(trace, i, maxKeys).retryAfter as real
    ensures k in KeyLog(trace, j)
    ensures var left := trace[i].window as real - (trace[i].now - Counted(Table(trace, i, maxKeys), trace[i]).start);
            Admitted(trace, j, maxKeys) <==>
            |Since(KeyLog(trace, j), k)| >= maxKeys || left <= 1.0 || !(0.0 < Fraction(left) < 0.001)
  {
    hide RetryAfter, Since, Fraction, Table, Get;
    var w, c := Table(trace, i, maxKeys), trace[i];
    assert ComesBack(trace, i, j, maxKeys, k);
    FullWindowWaits(trace, i, j, maxKeys, k);
    HeldExactlyWhen(trace, j, maxKeys, k);
    assert KeyLog(trace, j)[i] == k;
    WaitingRetryAfterSufficesExactlyWhen(c.window, c.now - Counted(w, c).start);
  }

  /** One caller, one admission a minute: denied with half a millisecond over a second left, told to come back in a
      second, and denied again a second later. */
  lemma DeniedTwice(k: Key, maxKeys: nat)
    requires maxKeys > 0
    ensures var trace := [Check(k, 1, 60, 0.0), Check(k, 1, 60, 58.9995), Check(k, 1, 60, 59.9995)];
            && !Admitted(trace, 1, maxKeys)
            && Answer(trace, 1, maxKeys).retryAfter == 1
            && !Admitted(trace, 2, maxKeys)
  {
    var trace := [Check(k, 1, 60, 0.0), Check(k, 1, 60, 58.9995), Check(k, 1, 60, 59.9995)];
    var one := [Item(k, Window(1, 0.0))];
    assert Table(trace, 0, maxKeys) == [];
    assert Table(trace, 1, maxKeys) == one;
    assert one[..0] == [] && Pop(one, k) == [];
    assert Table(trace, 2, maxKeys) == one;
  }
}
