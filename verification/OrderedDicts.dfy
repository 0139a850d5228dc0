/** Insertion-ordered dictionaries and the order in which their keys were last touched. */
module OrderedDicts {
  import opened Values

  datatype Item<K, V> = Item(key: K, value: V)

  function Keys<K, V>(d: seq<Item<K, V>>): (r: seq<K>)
    ensures |r| == |d|
  {
    seq(|d|, i requires 0 <= i < |d| => d[i].key)
  }

  function Get<K(==), V>(d: seq<Item<K, V>>, k: K): Option<V> {
    if d == [] then None
    else if d[|d| - 1].key == k then Some(d[|d| - 1].value)
    else Get(d[..|d| - 1], k)
  }

  /** pop(k, None) */
  function Pop<K(==), V>(d: seq<Item<K, V>>, k: K): (r: seq<Item<K, V>>)
    ensures |r| <= |d|
  {
    if d == [] then []
    else Pop(d[..|d| - 1], k) + (if d[|d| - 1].key == k then [] else [d[|d| - 1]])
  }

  /** d[k] = v followed by move_to_end(k) */
  function PutLast<K(==), V>(d: seq<Item<K, V>>, k: K, v: V): seq<Item<K, V>> { Pop(d, k) + [Item(k, v)] }

  /** popitem(last=False) until at most n items are left. */
  function KeepLast<T>(d: seq<T>, n: nat): (r: seq<T>)
    ensures |r| == if |d| < n then |d| else n
  {
    if |d| <= n then d else d[|d| - n..]
  }

  lemma DistinctFront<K(!new)>(front: seq<K>, last: K)
    requires Distinct(front + [last])
    ensures Distinct(front) && last !in front
  {
    var s := front + [last];
    assert forall i :: 0 <= i < |front| ==> s[i] == front[i];
    assert s[|front|] == last;
  }

  lemma {:induction false} GetIsMembership<K(!new), V(!new)>(d: seq<Item<K, V>>, k: K)
    requires Distinct(Keys(d))
    ensures Get(d, k).Some? <==> k in Keys(d)
    ensures forall x :: x in d && x.key == k ==> Get(d, k) == Some(x.value)
    ensures Get(d, k).Some? ==> Item(k, Get(d, k).value) in d
  {
    if d != [] {
      var front, last := d[..|d| - 1], d[|d| - 1];
      assert d == front + [last];
      assert Keys(d) == Keys(front) + [last.key];
      DistinctFront(Keys(front), last.key);
      GetIsMembership(front, k);
      forall x | x in front ensures x.key in Keys(front) {
        var i :| 0 <= i < |front| && front[i] == x;
        assert Keys(front)[i] == x.key;
      }
    }
  }

  lemma {:induction false} PopRemoves<K(!new), V(!new)>(d: seq<Item<K, V>>, k: K)
    requires Distinct(Keys(d))
    ensures Distinct(Keys(Pop(d, k))) && k !in Keys(Pop(d, k))
    ensures forall x :: x in Pop(d, k) <==> x in d && x.key != k
    ensures k in Keys(d) ==> |Pop(d, k)| == |d| - 1
    ensures k !in Keys(d) ==> Pop(d, k) == d
  {
    if d != [] {
      var front, last := d[..|d| - 1], d[|d| - 1];
      assert d == front + [last];
      assert Keys(d) == Keys(front) + [last.key];
      DistinctFront(Keys(front), last.key);
      PopRemoves(front, k);
      var p := Pop(front, k);
      if last.key != k {
        assert Keys(p + [last]) == Keys(p) + [last.key];
        forall i | 0 <= i < |p| ensures Keys(p)[i] in Keys(front) {
          assert p[i] in front;
          var j :| 0 <= j < |front| && front[j] == p[i];
          assert Keys(front)[j] == p[i].key;
        }
      } else {
        assert p + [] == p;
      }
      forall x | x in front ensures x.key in Keys(front) {
        var j :| 0 <= j < |front| && front[j] == x;
        assert Keys(front)[j] == x.key;
      }
    }
  }

  lemma PutLastKeepsDistinct<K(!new), V(!new)>(d: seq<Item<K, V>>, k: K, v: V)
    requires Distinct(Keys(d))
    ensures Distinct(Keys(PutLast(d, k, v)))
    ensures forall x :: x in PutLast(d, k, v) <==> x == Item(k, v) || (x in d && x.key != k)
    ensures Get(PutLast(d, k, v), k) == Some(v)
  {
    PopRemoves(d, k);
    var p := Pop(d, k);
    assert Keys(p + [Item(k, v)]) == Keys(p) + [k];
    assert (p + [Item(k, v)])[|p|] == Item(k, v);
  }

  lemma KeepLastIsSuffix<K(!new), V(!new)>(d: seq<Item<K, V>>, n: nat)
    requires Distinct(Keys(d))
    ensures Distinct(Keys(KeepLast(d, n)))
    ensures forall x :: x in KeepLast(d, n) ==> x in d
  {
    var r, m := KeepLast(d, n), |d| - |KeepLast(d, n)|;
    assert forall i :: 0 <= i < |r| ==> Keys(r)[i] == Keys(d)[m + i];
  }

  // ---------- recency ----------

  /** The position of the last touch of k in a log. */
  function LastTouch<K(==)>(log: seq<K>, k: K): (i: nat)
    requires k in log
    ensures i < |log| && log[i] == k && k !in log[i + 1..]
  {
    if log[|log| - 1] == k then |log| - 1
    else
      assert log == log[..|log| - 1] + [log[|log| - 1]];
      var i := LastTouch(log[..|log| - 1], k);
      assert log[i + 1..] == log[..|log| - 1][i + 1..] + [log[|log| - 1]];
      i
  }

  /** Keys distinct and listed from the least to the most recently touched. */
  ghost predicate ByRecency<K>(keys: seq<K>, log: seq<K>) {
    && Distinct(keys)
    && (forall i :: 0 <= i < |keys| ==> keys[i] in log)
    && (forall i, j :: 0 <= i < j < |keys| ==> LastTouch(log, keys[i]) < LastTouch(log, keys[j]))
  }

  lemma AbsentAfter<K(!new)>(log: seq<K>, k: K, i: nat)
    requires i < |log| && k !in log[i + 1..]
    ensures forall j :: i < j < |log| ==> log[j] != k
  {
    forall j | i < j < |log| ensures log[j] != k {
      assert log[i + 1..][j - i - 1] == log[j];
    }
  }

  lemma LastTouchIs<K(!new)>(log: seq<K>, k: K, i: nat)
    requires i < |log| && log[i] == k && k !in log[i + 1..]
    ensures LastTouch(log, k) == i
  {
    AbsentAfter(log, k, i);
    AbsentAfter(log, k, LastTouch(log, k));
  }

  lemma OtherTouchesStay<K(!new)>(log: seq<K>, k: K, other: K)
    requires other in log && other != k
    ensures LastTouch(log + [k], other) == LastTouch(log, other)
  {
    var i := LastTouch(log, other);
    assert (log + [k])[i + 1..] == log[i + 1..] + [k];
    LastTouchIs(log + [k], other, i);
  }

  /** Moving a key to the end and logging the touch keeps the order. */
  lemma TouchKeepsRecency<K(!new)>(keys: seq<K>, rest: seq<K>, log: seq<K>, k: K)
    requires ByRecency(rest, log) && k !in rest
    ensures ByRecency(rest + [k], log + [k])
  {
    var after, next := rest + [k], log + [k];
    assert next[|log|] == k && next[|log| + 1..] == [];
    LastTouchIs(next, k, |log|);
    forall i | 0 <= i < |rest| ensures rest[i] in next && LastTouch(next, rest[i]) == LastTouch(log, rest[i]) {
      assert rest[i] in rest;
      OtherTouchesStay(log, k, rest[i]);
    }
  }

  lemma {:induction false} PopKeepsRecency<K(!new), V(!new)>(d: seq<Item<K, V>>, k: K, log: seq<K>)
    requires ByRecency(Keys(d), log)
    ensures ByRecency(Keys(Pop(d, k)), log)
    ensures forall i :: 0 <= i < |Pop(d, k)| ==> Pop(d, k)[i] in d
  {
    if d != [] {
      var front, last := d[..|d| - 1], d[|d| - 1];
      assert d == front + [last];
      assert Keys(d) == Keys(front) + [last.key];
      FrontByRecency(Keys(front), last.key, log);
      PopKeepsRecency(front, k, log);
      var p := Pop(front, k);
      if last.key != k {
        assert Keys(p + [last]) == Keys(p) + [last.key];
        forall i | 0 <= i < |p| ensures Keys(p)[i] in Keys(front) {
          assert p[i] in front;
          var j :| 0 <= j < |front| && front[j] == p[i];
          assert Keys(front)[j] == p[i].key;
        }
        LaterKeyExtends(Keys(p), Keys(front), last.key, log);
      } else {
        assert p + [] == p;
      }
    }
  }

  lemma FrontByRecency<K(!new)>(front: seq<K>, last: K, log: seq<K>)
    requires ByRecency(front + [last], log)
    ensures ByRecency(front, log) && last in log
    ensures forall x :: x in front ==> x in log && x != last && LastTouch(log, x) < LastTouch(log, last)
  {
    var s := front + [last];
    assert forall i :: 0 <= i < |front| ==> s[i] == front[i];
    assert s[|front|] == last;
  }

  lemma LaterKeyExtends<K(!new)>(p: seq<K>, front: seq<K>, last: K, log: seq<K>)
    requires ByRecency(p, log) && last in log && forall i :: 0 <= i < |p| ==> p[i] in front
    requires forall x :: x in front ==> x in log && x != last && LastTouch(log, x) < LastTouch(log, last)
    ensures ByRecency(p + [last], log)
  {}

  lemma KeepLastKeepsRecency<K(!new), V(!new)>(d: seq<Item<K, V>>, n: nat, log: seq<K>)
    requires ByRecency(Keys(d), log)
    ensures ByRecency(Keys(KeepLast(d, n)), log)
  {
    var r, m := KeepLast(d, n), |d| - |KeepLast(d, n)|;
    assert forall i :: 0 <= i < |r| ==> Keys(r)[i] == Keys(d)[m + i];
  }

  lemma PutLastKeepsRecency<K(!new), V(!new)>(d: seq<Item<K, V>>, k: K, v: V, log: seq<K>)
    requires ByRecency(Keys(d), log)
    ensures ByRecency(Keys(PutLast(d, k, v)), log + [k])
  {
    PopRemoves(d, k);
    PopKeepsRecency(d, k, log);
    var p := Pop(d, k);
    assert Keys(PutLast(d, k, v)) == Keys(p) + [k];
    TouchKeepsRecency(Keys(d), Keys(p), log, k);
  }

  // ---------- which keys a bounded dictionary holds ----------

  function Remove<K(==)>(s: seq<K>, k: K): (r: seq<K>)
    ensures |r| <= |s|
  {
    if s == [] then [] else Remove(s[..|s| - 1], k) + (if s[|s| - 1] == k then [] else [s[|s| - 1]])
  }

  /** The keys of a log in the order of their last touches. */
  function LastSeen<K(==)>(log: seq<K>): seq<K> {
    if log == [] then [] else Remove(LastSeen(log[..|log| - 1]), log[|log| - 1]) + [log[|log| - 1]]
  }

  lemma {:induction false} KeysOfPop<K, V>(d: seq<Item<K, V>>, k: K)
    ensures Keys(Pop(d, k)) == Remove(Keys(d), k)
  {
    if d != [] {
      var front, last := d[..|d| - 1], d[|d| - 1];
      KeysOfPop(front, k);
      assert Keys(d)[..|d| - 1] == Keys(front);
    }
  }

  lemma {:induction false} RemoveAppends<K>(a: seq<K>, b: seq<K>, k: K)
    ensures Remove(a + b, k) == Remove(a, k) + Remove(b, k)
  {
    if b == [] {
      assert a + b == a;
    } else {
      var front, last := b[..|b| - 1], b[|b| - 1];
      RemoveAppends(a, front, k);
      assert (a + b)[..|a + b| - 1] == a + front;
    }
  }

  /** Any keys are the keys of some dictionary. */
  function WithKeys<K>(keys: seq<K>): (d: seq<Item<K, bool>>)
    ensures |d| == |keys|
    ensures Keys(d) == keys
  {
    var d := seq(|keys|, i requires 0 <= i < |keys| => Item(keys[i], true));
    assert Keys(d) == keys;
    d
  }

  lemma RemoveKeepsRecency<K(!new)>(keys: seq<K>, k: K, log: seq<K>)
    requires ByRecency(keys, log)
    ensures ByRecency(Remove(keys, k), log) && k !in Remove(keys, k)
    ensures |Remove(keys, k)| >= |keys| - 1
    ensures forall x :: x in Remove(keys, k) <==> x in keys && x != k
  {
    var d := WithKeys(keys);
    PopKeepsRecency(d, k, log);
    PopRemoves(d, k);
    KeysOfPop(d, k);
    var p := Pop(d, k);
    forall x ensures x in Keys(p) <==> x in keys && x != k {
      KeyOfItem(d, x);
      KeyOfItem(p, x);
    }
  }

  lemma KeyOfItem<K(!new)>(d: seq<Item<K, bool>>, k: K)
    ensures k in Keys(d) <==> exists x :: x in d && x.key == k
  {
    if k in Keys(d) {
      var i :| 0 <= i < |d| && Keys(d)[i] == k;
      assert d[i] in d;
    }
    if x :| x in d && x.key == k {
      var i :| 0 <= i < |d| && d[i] == x;
      assert Keys(d)[i] == k;
    }
  }

  lemma {:induction false} LastSeenByRecency<K(!new)>(log: seq<K>)
    ensures ByRecency(LastSeen(log), log)
    ensures forall k :: k in LastSeen(log) <==> k in log
  {
    if log != [] {
      var front, c := log[..|log| - 1], log[|log| - 1];
      assert log == front + [c];
      LastSeenByRecency(front);
      RemoveKeepsRecency(LastSeen(front), c, front);
      TouchKeepsRecency(LastSeen(front), Remove(LastSeen(front), c), front, c);
    }
  }

  lemma {:induction false} DistinctSize<K(!new)>(s: seq<K>)
    requires Distinct(s)
    ensures |Members(s)| == |s|
  {
    if s != [] {
      var front, last := s[..|s| - 1], s[|s| - 1];
      DistinctSize(front);
      assert last !in front;
      assert s == front + [last];
      assert Members(s) == Members(front) + {last};
    }
  }

  /** The keys touched after the last touch of k. */
  function Since<K(==)>(log: seq<K>, k: K): set<K>
    requires k in log
  {
    Members(log[LastTouch(log, k) + 1..])
  }

  lemma TouchedSince<K(!new)>(log: seq<K>, k: K, x: K)
    requires k in log
    ensures x in Since(log, k) <==> x in log && LastTouch(log, k) < LastTouch(log, x)
  {
    var i := LastTouch(log, k);
    if x in log[i + 1..] {
      var j :| 0 <= j < |log| - i - 1 && log[i + 1..][j] == x;
      assert log[i + 1 + j] == x;
      AbsentAfter(log, x, LastTouch(log, x));
    }
    if x in log && i < LastTouch(log, x) {
      assert log[i + 1..][LastTouch(log, x) - i - 1] == x;
    }
  }

  lemma NewerKeys<K(!new)>(log: seq<K>, keys: seq<K>, i: nat)
    requires ByRecency(keys, log) && (forall k :: k in keys <==> k in log) && i < |keys|
    ensures Members(keys[i + 1..]) == Since(log, keys[i])
  {
    var newer := keys[i + 1..];
    forall x ensures x in newer <==> x in Since(log, keys[i]) {
      TouchedSince(log, keys[i], x);
      if x in newer {
        var j :| 0 <= j < |newer| && newer[j] == x;
        assert keys[i + 1 + j] == x;
      }
      if x in Since(log, keys[i]) {
        assert x in keys;
        var j :| 0 <= j < |keys| && keys[j] == x;
        if j > i {
          assert newer[j - i - 1] == x;
        }
      }
    }
  }

  lemma AmongTheLast<K(!new)>(keys: seq<K>, i: nat, n: nat)
    requires Distinct(keys) && i < |keys|
    ensures keys[i] in KeepLast(keys, n) <==> |keys| - i - 1 < n
  {
    var kept := KeepLast(keys, n);
    var m := |keys| - |kept|;
    assert forall j :: 0 <= j < |kept| ==> kept[j] == keys[m + j];
    if i >= m {
      assert kept[i - m] == keys[i];
    }
  }

  /** The last n distinct keys are those with fewer than n other keys touched since. */
  lemma RecentExactlyWhen<K(!new)>(log: seq<K>, k: K, n: nat)
    ensures k in KeepLast(LastSeen(log), n) <==> k in log && |Since(log, k)| < n
  {
    hide Since, Members, LastSeen, KeepLast;
    var keys := LastSeen(log);
    LastSeenByRecency(log);
    KeepLastMembers(keys, n);
    if k in log {
      var i :| 0 <= i < |keys| && keys[i] == k;
      NewerKeys(log, keys, i);
      DistinctTail(keys, i + 1);
      DistinctSize(keys[i + 1..]);
      AmongTheLast(keys, i, n);
    }
  }

  lemma DistinctTail<K(!new)>(s: seq<K>, i: nat)
    requires Distinct(s) && i <= |s|
    ensures Distinct(s[i..])
  {}

  lemma KeepLastMembers<T(!new)>(s: seq<T>, n: nat)
    ensures forall x :: x in KeepLast(s, n) ==> x in s
  {}

  lemma KeepLastOfMore<T>(a: seq<T>, b: seq<T>, n: nat)
    requires |b| >= n
    ensures KeepLast(a + b, n) == KeepLast(b, n)
  {}

  lemma KeysOfKeepLast<K, V>(d: seq<Item<K, V>>, n: nat)
    ensures Keys(KeepLast(d, n)) == KeepLast(Keys(d), n)
  {}

  lemma SuffixByRecency<K(!new)>(p: seq<K>, keys: seq<K>, log: seq<K>)
    requires ByRecency(p + keys, log)
    ensures ByRecency(keys, log)
  {
    assert forall i :: 0 <= i < |keys| ==> keys[i] == (p + keys)[|p| + i];
  }

  /** A bounded dictionary that forgets its oldest key at every overflow holds the last n keys all the same. */
  lemma TruncatedTouch<K(!new)>(keys: seq<K>, k: K, n: nat, log: seq<K>)
    requires ByRecency(keys, log)
    ensures KeepLast(Remove(KeepLast(keys, n), k) + [k], n) == KeepLast(Remove(keys, k) + [k], n)
  {
    if |keys| > n {
      var p, kept := keys[..|keys| - n], KeepLast(keys, n);
      assert keys == p + kept;
      hide ByRecency, Remove, KeepLast;
      RemoveAppends(p, kept, k);
      SuffixByRecency(p, kept, log);
      RemoveKeepsRecency(kept, k, log);
      Reassociate(Remove(p, k), Remove(kept, k), [k]);
      KeepLastOfMore(Remove(p, k), Remove(kept, k) + [k], n);
    }
  }

  lemma LastItemsAreKept<T(!new)>(d: seq<T>, n: nat)
    ensures forall p :: |d| - |KeepLast(d, n)| <= p < |d| ==> d[p] in KeepLast(d, n)
  {
    var m := |d| - |KeepLast(d, n)|;
    assert forall p :: m <= p < |d| ==> d[p] == KeepLast(d, n)[p - m];
  }

  /** Dropping from the front drops what was touched least recently: each of the n survivors was touched
      after the last touch of every dropped key. */
  lemma DroppedAreLeastRecent<K(!new), V(!new)>(d: seq<Item<K, V>>, n: nat, log: seq<K>, x: Item<K, V>)
    requires ByRecency(Keys(d), log) && x in d && x !in KeepLast(d, n)
    ensures |KeepLast(d, n)| == n && Distinct(Keys(KeepLast(d, n))) && x.key in log
    ensures forall k :: k in Keys(KeepLast(d, n)) ==>
              k in log && k != x.key && LastTouch(log, x.key) < LastTouch(log, k)
  {
    hide ByRecency, KeepLast, Distinct;
    KeepLastKeepsRecency(d, n, log);
    KeysOfKeepLast(d, n);
    RecencyIsDistinct(Keys(KeepLast(d, n)), log);
    LastItemsAreKept(d, n);
    var i :| 0 <= i < |d| && d[i] == x;
    assert Keys(d)[i] == x.key;
    OlderThanKept(Keys(d), n, i, log);
  }

  lemma RecencyIsDistinct<K(!new)>(keys: seq<K>, log: seq<K>)
    requires ByRecency(keys, log)
    ensures Distinct(keys)
  {}

  lemma OlderThanKept<K(!new)>(keys: seq<K>, n: nat, i: nat, log: seq<K>)
    requires ByRecency(keys, log) && i < |keys| - |KeepLast(keys, n)|
    ensures keys[i] in log
    ensures forall k :: k in KeepLast(keys, n) ==>
              k in log && k != keys[i] && LastTouch(log, keys[i]) < LastTouch(log, k)
  {
    hide ByRecency, LastTouch;
    var m := |keys| - |KeepLast(keys, n)|;
    RecencyAt(keys, log, i, i);
    forall k | k in KeepLast(keys, n)
      ensures k in log && k != keys[i] && LastTouch(log, keys[i]) < LastTouch(log, k)
    {
      var j :| 0 <= j < |KeepLast(keys, n)| && KeepLast(keys, n)[j] == k;
      RecencyAt(keys, log, i, m + j);
    }
  }

  lemma RecencyAt<K(!new)>(keys: seq<K>, log: seq<K>, i: nat, j: nat)
    requires ByRecency(keys, log) && i <= j < |keys|
    ensures keys[i] in log && keys[j] in log
    ensures i < j ==> keys[i] != keys[j] && LastTouch(log, keys[i]) < LastTouch(log, keys[j])
  {}
}
