/** Rows keyed by (ticker, date), the way the market tables hold them: in no particular order. */
module Tables {
  import opened Values
  import opened Frames

  datatype Row<T> = Row(ticker: string, date: int, cells: T)

  /** A row of ticker_data: one cell per named column. */
  type Columns = map<string, Cell>

  function Cells(c: Columns, name: string): Cell { if name in c then c[name] else Missing }

  // ---------- selection ----------

  function Select<T(!new)>(rows: seq<Row<T>>, p: Row<T> -> bool): seq<Row<T>> {
    if rows == [] then []
    else Select(rows[..|rows| - 1], p) + (if p(rows[|rows| - 1]) then [rows[|rows| - 1]] else [])
  }

  lemma {:induction false} SelectMembers<T(!new)>(rows: seq<Row<T>>, p: Row<T> -> bool)
    ensures forall x :: x in Select(rows, p) <==> x in rows && p(x)
    ensures |Select(rows, p)| <= |rows|
  {
    if rows != [] {
      assert rows == rows[..|rows| - 1] + [rows[|rows| - 1]];
      SelectMembers(rows[..|rows| - 1], p);
    }
  }

  function ByTicker<T(!new)>(t: string): Row<T> -> bool { (x: Row<T>) => x.ticker == t }

  function Of<T(!new)>(rows: seq<Row<T>>, t: string): (r: seq<Row<T>>)
    ensures forall x :: x in r <==> x in rows && x.ticker == t
  {
    SelectMembers(rows, ByTicker(t));
    Select(rows, ByTicker(t))
  }

  /** DELETE ... WHERE Ticker = t AND Date >= cutoff. */
  function Survives<T(!new)>(t: string, cutoff: int): Row<T> -> bool {
    (x: Row<T>) => !(x.ticker == t && x.date >= cutoff)
  }

  function DeleteFrom<T(!new)>(rows: seq<Row<T>>, t: string, cutoff: int): (r: seq<Row<T>>)
    ensures forall x :: x in r <==> x in rows && !(x.ticker == t && x.date >= cutoff)
  {
    SelectMembers(rows, Survives(t, cutoff));
    Select(rows, Survives(t, cutoff))
  }

  /** WHERE Ticker IN (...) / NOT IN (...); an empty list selects every ticker. */
  predicate Listed(universe: seq<string>, t: string) { universe == [] || t in universe }

  function IsListed<T(!new)>(universe: seq<string>): Row<T> -> bool { (x: Row<T>) => Listed(universe, x.ticker) }

  function In<T(!new)>(rows: seq<Row<T>>, universe: seq<string>): (r: seq<Row<T>>)
    ensures forall x :: x in r <==> x in rows && Listed(universe, x.ticker)
  {
    SelectMembers(rows, IsListed(universe));
    Select(rows, IsListed(universe))
  }

  function IsUnlisted<T(!new)>(universe: seq<string>): Row<T> -> bool { (x: Row<T>) => !Listed(universe, x.ticker) }

  function NotIn<T(!new)>(rows: seq<Row<T>>, universe: seq<string>): (r: seq<Row<T>>)
    ensures forall x :: x in r <==> x in rows && !Listed(universe, x.ticker)
  {
    SelectMembers(rows, IsUnlisted(universe));
    Select(rows, IsUnlisted(universe))
  }

  lemma {:induction false} SelectAppends<T(!new)>(a: seq<Row<T>>, b: seq<Row<T>>, p: Row<T> -> bool)
    ensures Select(a + b, p) == Select(a, p) + Select(b, p)
  {
    if b == [] {
      assert a + b == a;
    } else {
      var front, last, whole := b[..|b| - 1], b[|b| - 1], a + b;
      SelectAppends(a, front, p);
      assert whole[..|whole| - 1] == a + front && whole[|whole| - 1] == last;
      var tail := if p(last) then [last] else [];
      assert Select(whole, p) == Select(a + front, p) + tail;
      assert Select(a, p) + Select(front, p) + tail == Select(a, p) + (Select(front, p) + tail);
    }
  }

  lemma {:induction false} SelectTwice<T(!new)>(rows: seq<Row<T>>, p: Row<T> -> bool, q: Row<T> -> bool,
                                         both: Row<T> -> bool)
    requires forall x :: both(x) <==> p(x) && q(x)
    ensures Select(Select(rows, p), q) == Select(rows, both)
  {
    if rows != [] {
      var front, last := rows[..|rows| - 1], rows[|rows| - 1];
      SelectTwice(front, p, q, both);
      var s := Select(front, p);
      if p(last) {
        assert (s + [last])[..|s|] == s;
      } else {
        assert s + [] == s;
      }
    }
  }

  lemma {:induction false} SelectAll<T(!new)>(rows: seq<Row<T>>, p: Row<T> -> bool)
    requires forall x :: x in rows ==> p(x)
    ensures Select(rows, p) == rows
  {
    if rows != [] {
      assert rows == rows[..|rows| - 1] + [rows[|rows| - 1]];
      SelectAll(rows[..|rows| - 1], p);
    }
  }

  /** Selecting some tickers keeps a ticker's rows or drops them all. */
  lemma OfSelected<T(!new)>(rows: seq<Row<T>>, t: string, p: Row<T> -> bool)
    requires forall x: Row<T>, y: Row<T> :: x.ticker == y.ticker ==> (p(x) <==> p(y))
    ensures (forall x :: x in Of(rows, t) ==> p(x)) ==> Of(Select(rows, p), t) == Of(rows, t)
    ensures (forall x :: x in Of(rows, t) ==> !p(x)) ==> Of(Select(rows, p), t) == []
  {
    var both := (x: Row<T>) => p(x) && x.ticker == t;
    SelectTwice(rows, p, ByTicker(t), both);
    SelectMembers(rows, both);
    if forall x :: x in Of(rows, t) ==> p(x) {
      SelectSame(rows, both, ByTicker(t));
    }
    if forall x :: x in Of(rows, t) ==> !p(x) {
      SelectNone(rows, both);
    }
  }

  lemma {:induction false} SelectSame<T(!new)>(rows: seq<Row<T>>, p: Row<T> -> bool, q: Row<T> -> bool)
    requires forall x :: x in rows ==> (p(x) <==> q(x))
    ensures Select(rows, p) == Select(rows, q)
  {
    if rows != [] {
      assert rows == rows[..|rows| - 1] + [rows[|rows| - 1]];
      SelectSame(rows[..|rows| - 1], p, q);
    }
  }

  lemma OfIn<T(!new)>(rows: seq<Row<T>>, universe: seq<string>, t: string)
    ensures Of(In(rows, universe), t) == if Listed(universe, t) then Of(rows, t) else []
    ensures Of(NotIn(rows, universe), t) == if Listed(universe, t) then [] else Of(rows, t)
  {
    OfSelected(rows, t, IsListed(universe));
    OfSelected(rows, t, IsUnlisted(universe));
  }

  lemma OfAppends<T(!new)>(a: seq<Row<T>>, b: seq<Row<T>>, t: string)
    ensures Of(a + b, t) == Of(a, t) + Of(b, t)
  {
    SelectAppends(a, b, ByTicker(t));
  }

  lemma {:induction false} CountInSelection<T(!new)>(rows: seq<Row<T>>, p: Row<T> -> bool, x: Row<T>)
    requires p(x)
    ensures multiset(Select(rows, p))[x] == multiset(rows)[x]
  {
    if rows != [] {
      assert rows == rows[..|rows| - 1] + [rows[|rows| - 1]];
      CountInSelection(rows[..|rows| - 1], p, x);
    }
  }

  /** A table is determined, up to row order, by what it holds for each ticker. */
  lemma TickersDetermineTheTable<T(!new)>(a: seq<Row<T>>, b: seq<Row<T>>)
    requires forall t :: Of(a, t) == Of(b, t)
    ensures multiset(a) == multiset(b)
  {
    forall x: Row<T> ensures multiset(a)[x] == multiset(b)[x] {
      CountInSelection(a, ByTicker(x.ticker), x);
      CountInSelection(b, ByTicker(x.ticker), x);
      assert Of(a, x.ticker) == Of(b, x.ticker);
    }
  }

  lemma SelectNone<T(!new)>(rows: seq<Row<T>>, p: Row<T> -> bool)
    requires forall x :: x in rows ==> !p(x)
    ensures Select(rows, p) == []
  {
    SelectMembers(rows, p);
    if Select(rows, p) != [] {
      HasAMember(Select(rows, p));
    }
  }

  lemma HasAMember<T(!new)>(s: seq<T>)
    requires s != []
    ensures exists x :: x in s
  {
    assert s[0] in s;
  }

  // ---------- keys ----------

  ghost function KeySet<T(!new)>(rows: seq<Row<T>>): set<(string, int)> {
    set x | x in rows :: (x.ticker, x.date)
  }

  ghost predicate UniqueKeys<T(!new)>(rows: seq<Row<T>>) {
    forall i, j :: 0 <= i < j < |rows| ==> rows[i].ticker != rows[j].ticker || rows[i].date != rows[j].date
  }

  lemma {:induction false} SelectKeepsUnique<T(!new)>(rows: seq<Row<T>>, p: Row<T> -> bool)
    requires UniqueKeys(rows)
    ensures UniqueKeys(Select(rows, p))
  {
    if rows != [] {
      var front, last := rows[..|rows| - 1], rows[|rows| - 1];
      SelectKeepsUnique(front, p);
      SelectMembers(front, p);
      var s := Select(front, p);
      forall i | 0 <= i < |s| ensures s[i].ticker != last.ticker || s[i].date != last.date {
        assert s[i] in front;
      }
    }
  }

  lemma OfKeepsUnique<T(!new)>(rows: seq<Row<T>>, t: string)
    requires UniqueKeys(rows)
    ensures UniqueKeys(Of(rows, t))
  {
    SelectKeepsUnique(rows, ByTicker(t));
  }

  lemma AppendKeepsUnique<T(!new)>(a: seq<Row<T>>, b: seq<Row<T>>)
    requires UniqueKeys(a) && UniqueKeys(b) && KeySet(a) !! KeySet(b)
    ensures UniqueKeys(a + b)
  {
    forall i, j | 0 <= i < |a| && 0 <= j < |b|
      ensures a[i].ticker != b[j].ticker || a[i].date != b[j].date
    {
      assert a[i] in a && b[j] in b;
      assert (a[i].ticker, a[i].date) in KeySet(a) && (b[j].ticker, b[j].date) in KeySet(b);
    }
  }

  lemma KeySetAppends<T(!new)>(a: seq<Row<T>>, b: seq<Row<T>>)
    ensures KeySet(a + b) == KeySet(a) + KeySet(b)
  {}

  /** Deleting a range removes exactly its keys. */
  lemma KeySetOfDelete<T(!new)>(rows: seq<Row<T>>, t: string, cutoff: int)
    ensures KeySet(DeleteFrom(rows, t, cutoff)) == set k | k in KeySet(rows) && !(k.0 == t && k.1 >= cutoff)
  {}

  // ---------- date order ----------

  ghost predicate Chronological<T(!new)>(h: seq<Row<T>>) { forall i, j :: 0 <= i < j < |h| ==> h[i].date < h[j].date }

  function InsertByDate<T(!new)>(h: seq<Row<T>>, x: Row<T>): (r: seq<Row<T>>)
    ensures |r| == |h| + 1
    ensures forall y :: y in r <==> y in h || y == x
  {
    if h == [] || h[|h| - 1].date <= x.date then h + [x]
    else
      assert h == h[..|h| - 1] + [h[|h| - 1]];
      InsertByDate(h[..|h| - 1], x) + [h[|h| - 1]]
  }

  /** sort_values("Date") */
  function SortByDate<T(!new)>(rows: seq<Row<T>>): (r: seq<Row<T>>)
    ensures |r| == |rows|
    ensures forall y :: y in r <==> y in rows
  {
    if rows == [] then []
    else
      assert rows == rows[..|rows| - 1] + [rows[|rows| - 1]];
      InsertByDate(SortByDate(rows[..|rows| - 1]), rows[|rows| - 1])
  }

  lemma {:induction false} InsertKeepsOrder<T(!new)>(h: seq<Row<T>>, x: Row<T>)
    requires Chronological(h) && forall y :: y in h ==> y.date != x.date
    ensures Chronological(InsertByDate(h, x))
  {
    if h != [] {
      var last := h[|h| - 1];
      assert last in h;
      if last.date > x.date {
        var front := h[..|h| - 1];
        InsertKeepsOrder(front, x);
        var r := InsertByDate(front, x);
        forall i | 0 <= i < |r| ensures r[i].date < last.date {
          assert r[i] in r;
        }
      }
    }
  }

  /** One ticker's rows with unique keys sort into strictly increasing dates. */
  lemma {:induction false} SortIsChronological<T(!new)>(rows: seq<Row<T>>, t: string)
    requires UniqueKeys(rows) && forall x :: x in rows ==> x.ticker == t
    ensures Chronological(SortByDate(rows))
  {
    if rows != [] {
      var front, last := rows[..|rows| - 1], rows[|rows| - 1];
      SortIsChronological(front, t);
      forall y | y in SortByDate(front) ensures y.date != last.date {
        var i :| 0 <= i < |front| && front[i] == y;
        assert rows[i] == y && rows[|rows| - 1] == last && y in rows && last in rows;
      }
      InsertKeepsOrder(SortByDate(front), last);
    }
  }

  lemma FrontIsOlder<T(!new)>(a: seq<Row<T>>)
    requires Chronological(a) && a != []
    ensures Chronological(a[..|a| - 1])
    ensures forall z :: z in a[..|a| - 1] <==> z in a && z.date < a[|a| - 1].date
  {}

  /** Strict date order leaves no choice: the members determine the sequence. */
  lemma {:induction false} ChronologicalIsCanonical<T(!new)>(a: seq<Row<T>>, b: seq<Row<T>>)
    requires Chronological(a) && Chronological(b) && forall x :: x in a <==> x in b
    ensures a == b
    decreases |a|
  {
    if a == [] {
      if b != [] {
        HasAMember(b);
      }
    } else {
      var x := a[|a| - 1];
      assert x in b;
      var y := b[|b| - 1];
      assert y in a;
      assert x == y;
      var p, q := a[..|a| - 1], b[..|b| - 1];
      assert a == p + [x] && b == q + [x];
      FrontIsOlder(a);
      FrontIsOlder(b);
      ChronologicalIsCanonical(p, q);
    }
  }

  /** A ticker's stored rows, oldest first. */
  function History<T(!new)>(rows: seq<Row<T>>, t: string): (h: seq<Row<T>>)
    ensures |h| == |Of(rows, t)|
    ensures forall x :: x in h <==> x in rows && x.ticker == t
  {
    SortByDate(Of(rows, t))
  }

  lemma HistoryIsChronological<T(!new)>(rows: seq<Row<T>>, t: string)
    requires UniqueKeys(rows)
    ensures Chronological(History(rows, t))
  {
    SelectKeepsUnique(rows, ByTicker(t));
    SortIsChronological(Of(rows, t), t);
  }

  // ---------- dates ----------

  /** MAX(Date), None over no rows. */
  function MaxDate<T(!new)>(rows: seq<Row<T>>): (r: Option<int>)
    ensures r.None? <==> rows == []
  {
    if rows == [] then None
    else
      var rest, d := MaxDate(rows[..|rows| - 1]), rows[|rows| - 1].date;
      if rest.Some? && rest.value > d then rest else Some(d)
  }

  function MinDate<T(!new)>(rows: seq<Row<T>>): int
    requires rows != []
  {
    var d := rows[|rows| - 1].date;
    if |rows| == 1 then d
    else
      var rest := MinDate(rows[..|rows| - 1]);
      if rest < d then rest else d
  }

  lemma {:induction false} MaxDateIsGreatest<T(!new)>(rows: seq<Row<T>>)
    requires rows != []
    ensures exists x :: x in rows && x.date == MaxDate(rows).value
    ensures forall x :: x in rows ==> x.date <= MaxDate(rows).value
  {
    var front, last := rows[..|rows| - 1], rows[|rows| - 1];
    assert rows == front + [last];
    assert last in rows;
    if front != [] {
      MaxDateIsGreatest(front);
      var x :| x in front && x.date == MaxDate(front).value;
      assert x in rows;
    }
  }

  lemma {:induction false} MinDateIsLeast<T(!new)>(rows: seq<Row<T>>)
    requires rows != []
    ensures exists x :: x in rows && x.date == MinDate(rows)
    ensures forall x :: x in rows ==> MinDate(rows) <= x.date
  {
    var front, last := rows[..|rows| - 1], rows[|rows| - 1];
    assert rows == front + [last];
    assert last in rows;
    if front != [] {
      MinDateIsLeast(front);
      var x :| x in front && x.date == MinDate(front);
      assert x in rows;
    }
  }

  /** Two row sets with a common newest row have the same MAX(Date). */
  lemma MaxDateIs<T(!new)>(rows: seq<Row<T>>, x: Row<T>)
    requires x in rows && forall y :: y in rows ==> y.date <= x.date
    ensures MaxDate(rows) == Some(x.date)
  {
    MaxDateIsGreatest(rows);
  }
}
