/** First-occurrence deduplication and truncation of lists. */
module Lists {
  import opened Values

  /** s without the items whose key is k. */
  function Without<T, K(==)>(s: seq<T>, key: T -> K, k: K): (r: seq<T>)
    ensures |r| <= |s|
  {
    if s == [] then []
    else (if key(s[0]) == k then [] else [s[0]]) + Without(s[1..], key, k)
  }

  /** The first item of each key, in order of appearance. */
  function Dedup<T, K(==)>(s: seq<T>, key: T -> K): (r: seq<T>)
    ensures |r| <= |s|
  {
    if s == [] then [] else [s[0]] + Without(Dedup(s[1..], key), key, key(s[0]))
  }

  function Take<T>(s: seq<T>, n: nat): (r: seq<T>)
    ensures |r| == if |s| < n then |s| else n
  {
    if |s| <= n then s else s[..n]
  }

  function MapSeq<T, U>(s: seq<T>, f: T -> U): (r: seq<U>)
    ensures |r| == |s|
    ensures forall i :: 0 <= i < |s| ==> r[i] == f(s[i])
  {
    seq(|s|, i requires 0 <= i < |s| => f(s[i]))
  }

  function Keep<T>(s: seq<T>, p: T -> bool): (r: seq<T>)
    ensures |r| <= |s|
  {
    if s == [] then [] else (if p(s[0]) then [s[0]] else []) + Keep(s[1..], p)
  }

  ghost predicate DistinctBy<T, K>(s: seq<T>, key: T -> K) {
    forall i, j :: 0 <= i < j < |s| ==> key(s[i]) != key(s[j])
  }

  lemma {:induction false} KeepMembers<T(!new)>(s: seq<T>, p: T -> bool)
    ensures forall x :: x in Keep(s, p) <==> x in s && p(x)
  {
    if s != [] {
      assert s == [s[0]] + s[1..];
      KeepMembers(s[1..], p);
    }
  }

  lemma {:induction false} KeepAll<T(!new)>(s: seq<T>, p: T -> bool)
    requires forall x :: x in s ==> p(x)
    ensures Keep(s, p) == s
  {
    if s != [] {
      assert s == [s[0]] + s[1..];
      KeepAll(s[1..], p);
    }
  }

  lemma KeepCons<T>(x: T, s: seq<T>, p: T -> bool)
    ensures Keep([x] + s, p) == (if p(x) then [x] else []) + Keep(s, p)
  {
    assert ([x] + s)[1..] == s;
  }

  lemma KeepOne<T>(x: T, p: T -> bool)
    ensures Keep([x], p) == if p(x) then [x] else []
  {
    KeepCons(x, [], p);
    assert [x] + [] == [x];
  }

  lemma {:induction false} KeepAppends<T>(a: seq<T>, b: seq<T>, p: T -> bool)
    ensures Keep(a + b, p) == Keep(a, p) + Keep(b, p)
  {
    if a == [] {
      assert a + b == b;
    } else {
      var x, rest := a[0], a[1..];
      assert a + b == [x] + (rest + b) && a == [x] + rest;
      KeepCons(x, rest + b, p);
      KeepCons(x, rest, p);
      KeepAppends(rest, b, p);
      hide Keep;
    }
  }

  lemma {:induction false} WithoutMembers<T(!new), K(!new)>(s: seq<T>, key: T -> K, k: K)
    ensures forall x :: x in Without(s, key, k) <==> x in s && key(x) != k
  {
    if s != [] {
      assert s == [s[0]] + s[1..];
      WithoutMembers(s[1..], key, k);
    }
  }

  lemma {:induction false} WithoutAppends<T, K>(a: seq<T>, b: seq<T>, key: T -> K, k: K)
    ensures Without(a + b, key, k) == Without(a, key, k) + Without(b, key, k)
  {
    if a == [] {
      assert a + b == b;
    } else {
      assert (a + b)[1..] == a[1..] + b;
      WithoutAppends(a[1..], b, key, k);
    }
  }

  lemma {:induction false} WithoutAbsent<T(!new), K(!new)>(s: seq<T>, key: T -> K, k: K)
    requires forall x :: x in s ==> key(x) != k
    ensures Without(s, key, k) == s
  {
    if s != [] {
      assert s == [s[0]] + s[1..];
      WithoutAbsent(s[1..], key, k);
    }
  }

  lemma DistinctTail<T, K>(s: seq<T>, key: T -> K)
    requires s != [] && DistinctBy(s, key)
    ensures DistinctBy(s[1..], key) && forall i :: 0 <= i < |s| - 1 ==> key(s[1..][i]) != key(s[0])
  {
    assert forall i :: 0 <= i < |s| - 1 ==> s[1..][i] == s[i + 1];
  }

  /** Removing one key from items with distinct keys removes at most one item. */
  lemma {:induction false} WithoutDistinct<T(!new), K(!new)>(s: seq<T>, key: T -> K, k: K)
    requires DistinctBy(s, key)
    ensures DistinctBy(Without(s, key, k), key) && |Without(s, key, k)| >= |s| - 1
  {
    if s != [] {
      DistinctTail(s, key);
      WithoutDistinct(s[1..], key, k);
      var rest := Without(s[1..], key, k);
      WithoutMembers(s[1..], key, k);
      if key(s[0]) == k {
        WithoutAbsent(s[1..], key, k);
      } else {
        forall i | 0 <= i < |rest| ensures key(rest[i]) != key(s[0]) {
          assert rest[i] in s[1..];
        }
      }
    }
  }

  lemma ConsDistinct<T(!new), K(!new)>(x: T, rest: seq<T>, key: T -> K)
    requires DistinctBy(rest, key) && forall y :: y in rest ==> key(y) != key(x)
    ensures DistinctBy([x] + rest, key)
  {
    assert forall i :: 0 <= i < |rest| ==> rest[i] in rest;
  }

  lemma {:induction false} DedupIsDistinct<T(!new), K(!new)>(s: seq<T>, key: T -> K)
    ensures DistinctBy(Dedup(s, key), key)
    ensures forall x :: x in Dedup(s, key) ==> x in s
  {
    hide DistinctBy;
    if s == [] {
      EmptyDistinct<T, K>(key);
    } else {
      DedupIsDistinct(s[1..], key);
      assert s == [s[0]] + s[1..];
      WithoutDistinct(Dedup(s[1..], key), key, key(s[0]));
      WithoutMembers(Dedup(s[1..], key), key, key(s[0]));
      ConsDistinct(s[0], Without(Dedup(s[1..], key), key, key(s[0])), key);
    }
  }

  lemma EmptyDistinct<T, K>(key: T -> K)
    ensures DistinctBy<T, K>([], key)
  {}

  lemma {:induction false} DedupOfDistinct<T(!new), K(!new)>(s: seq<T>, key: T -> K)
    requires DistinctBy(s, key)
    ensures Dedup(s, key) == s
  {
    if s != [] {
      DistinctTail(s, key);
      DedupOfDistinct(s[1..], key);
      forall x | x in s[1..] ensures key(x) != key(s[0]) {
        var i :| 0 <= i < |s| - 1 && s[1..][i] == x;
      }
      WithoutAbsent(s[1..], key, key(s[0]));
    }
  }

  lemma PrefixDistinct<T, K>(s: seq<T>, key: T -> K, n: nat)
    requires DistinctBy(s, key)
    ensures DistinctBy(Take(s, n), key)
  {}

  lemma TakeOfCons<T>(x: T, p: seq<T>, q: seq<T>, n: nat)
    requires n > 0 && |p| >= n - 1
    ensures Take([x] + p, n) == Take([x] + (p + q), n)
  {
    assert Take([x] + p, n) == [x] + p[..n - 1];
    assert Take([x] + (p + q), n) == [x] + p[..n - 1];
  }

  /** Truncating the older items to n first does not change the newest n distinct ones. */
  lemma TruncationIsHarmless<T(!new), K(!new)>(x: T, older: seq<T>, key: T -> K, n: nat)
    requires n > 0
    ensures Take(Dedup([x] + Take(Dedup(older, key), n), key), n) == Take(Dedup([x] + older, key), n)
  {
    hide DistinctBy;
    var d := Dedup(older, key);
    var t := Take(d, n);
    DedupIsDistinct(older, key);
    PrefixDistinct(d, key, n);
    DedupOfDistinct(t, key);
    assert ([x] + t)[1..] == t && ([x] + older)[1..] == older;
    if |d| > n {
      assert d == t + d[n..];
      WithoutAppends(t, d[n..], key, key(x));
      WithoutDistinct(t, key, key(x));
      hide Take;
      TakeOfCons(x, Without(t, key, key(x)), Without(d[n..], key, key(x)), n);
    }
  }

  lemma WithoutOne<T, K>(x: T, key: T -> K, k: K)
    ensures Without([x], key, k) == if key(x) == k then [] else [x]
  {
    assert [x][1..] == [];
  }

  ghost predicate Seen<T(!new), K(!new)>(s: seq<T>, key: T -> K, k: K) { exists y :: y in s && key(y) == k }

  lemma SeenCons<T(!new), K(!new)>(s: seq<T>, key: T -> K, k: K)
    requires s != []
    ensures Seen(s, key, k) <==> key(s[0]) == k || Seen(s[1..], key, k)
  {
    assert s == [s[0]] + s[1..];
    if Seen(s[1..], key, k) {
      var y :| y in s[1..] && key(y) == k;
      assert y in s;
    }
    if key(s[0]) == k {
      assert s[0] in s;
    }
  }

  lemma DedupCons<T, K>(x: T, s: seq<T>, key: T -> K)
    ensures Dedup([x] + s, key) == [x] + Without(Dedup(s, key), key, key(x))
  {
    assert ([x] + s)[1..] == s;
  }

  lemma DedupOne<T, K>(x: T, key: T -> K)
    ensures Dedup([x], key) == [x]
  {
    assert [x][1..] == [];
  }

  /** What an item adds behind s: nothing when its key was seen. */
  ghost function Added<T(!new), K(!new)>(s: seq<T>, x: T, key: T -> K): seq<T> {
    if Seen(s, key, key(x)) then [] else [x]
  }

  lemma AddedBehind<T(!new), K(!new)>(s: seq<T>, x: T, key: T -> K)
    requires s != []
    ensures Without(Added(s[1..], x, key), key, key(s[0])) == Added(s, x, key)
  {
    SeenCons(s, key, key(x));
    WithoutOne(x, key, key(s[0]));
    WithoutNone(key, key(s[0]));
  }

  /** The loop form: an item joins the result unless its key was seen. */
  lemma {:induction false} DedupOneMore<T(!new), K(!new)>(s: seq<T>, x: T, key: T -> K)
    ensures Dedup(s + [x], key) == Dedup(s, key) + Added(s, x, key)
  {
    if s == [] {
      assert s + [x] == [x];
      DedupOne(x, key);
    } else {
      hide Dedup, Without, Added;
      var first, rest := s[0], s[1..];
      DedupOneMore(rest, x, key);
      WithoutAppends(Dedup(rest, key), Added(rest, x, key), key, key(first));
      AddedBehind(s, x, key);
      DedupCons(first, rest, key);
      DedupCons(first, rest + [x], key);
      assert s == [first] + rest && s + [x] == [first] + (rest + [x]);
      Reassociate([first], Without(Dedup(rest, key), key, key(first)), Added(s, x, key));
    }
  }

  lemma WithoutNone<T, K>(key: T -> K, k: K)
    ensures Without<T, K>([], key, k) == []
  {}

  /** Item i is the first of its key. */
  ghost predicate IsFirst<T(!new), K(!new)>(s: seq<T>, key: T -> K, i: nat) {
    i < |s| && forall j :: 0 <= j < i ==> key(s[j]) != key(s[i])
  }

  /** The positions of the first items of each key, in order. */
  ghost predicate Firsts<T(!new), K(!new)>(s: seq<T>, key: T -> K, at: seq<nat>) {
    && (forall a, b :: 0 <= a < b < |at| ==> at[a] < at[b])
    && (forall i :: i in at <==> IsFirst(s, key, i))
  }

  /** What one more item adds to the first ones. */
  lemma FirstsGrow<T(!new), K(!new)>(front: seq<T>, last: T, key: T -> K, before: seq<nat>)
    requires Firsts(front, key, before)
    ensures Firsts(front + [last], key, if Seen(front, key, key(last)) then before else before + [|front|])
  {
    var s := front + [last];
    forall i: nat ensures IsFirst(s, key, i) <==> IsFirst(front, key, i) || (i == |front| && IsFirst(s, key, i)) {
      if i < |front| {
        assert forall j :: 0 <= j <= i ==> s[j] == front[j];
      }
    }
    SeenAt(front, key, last);
    forall a | 0 <= a < |before| ensures before[a] < |front| {
      assert before[a] in before && IsFirst(front, key, before[a]);
    }
  }

  lemma SeenAt<T(!new), K(!new)>(front: seq<T>, key: T -> K, last: T)
    ensures IsFirst(front + [last], key, |front|) <==> !Seen(front, key, key(last))
  {
    var s := front + [last];
    assert forall j :: 0 <= j < |front| ==> s[j] == front[j] && front[j] in front;
  }

  /** Deduplication picks exactly the first items, in order. */
  lemma {:induction false} DedupMeans<T(!new), K(!new)>(s: seq<T>, key: T -> K) returns (at: seq<nat>)
    ensures Firsts(s, key, at) && |at| == |Dedup(s, key)|
    ensures forall a :: 0 <= a < |at| ==> at[a] < |s| && Dedup(s, key)[a] == s[at[a]]
  {
    if s == [] {
      at := [];
    } else {
      hide Dedup, Firsts, Seen;
      var front, last := s[..|s| - 1], s[|s| - 1];
      var before := DedupMeans(front, key);
      assert s == front + [last];
      DedupOneMore(front, last, key);
      FirstsGrow(front, last, key, before);
      at := if Seen(front, key, key(last)) then before else before + [|front|];
    }
  }
}
