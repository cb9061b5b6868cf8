/**
 * The `(data, valor)` table both data layers build from a provider's list of
 * records: a record becomes a point when its `data` field reads as a
 * `%d/%m/%Y` date and its `valor` field as a number; the points are then
 * ordered by date. Also the date-window selection the charts page applies.
 */
module Series {
  import opened Wrappers
  import opened LocaleNumber
  import opened Calendar

  /** One JSON record of the provider's list, as `pd.DataFrame(raw)` sees it. */
  type Row = map<string, Value>

  /** A row of the `(data, valor)` table. */
  datatype Point = Point(date: Date, value: real)

  /** The cell of column `k`: a record without the key gets a missing value. */
  function Field(row: Row, k: string): Value {
    if k in row then row[k] else Null
  }

  /** Some record of the list has key `k`, so `k` is a column of the frame. */
  predicate HasColumn(raw: seq<Row>, k: string) {
    exists i :: 0 <= i < |raw| && k in raw[i]
  }

  /** `pd.to_datetime(cell, format="%d/%m/%Y", errors="coerce")`: only a text can be a date. */
  function DateOf(v: Value): (r: Option<Date>)
    ensures r.Some? ==> v.Text? && ParseDate(v.s) == r
  {
    match v
    case Text(s) => ParseDate(s)
    case _ => None
  }

  /** The point a record contributes, or None when `dropna` removes it. */
  function RowPoint(row: Row): (r: Option<Point>)
    ensures r.Some? <==> DateOf(Field(row, "data")).Some? && ParseValor(Field(row, "valor")).Some?
    ensures r.Some? ==> r.value == Point(DateOf(Field(row, "data")).value, ParseValor(Field(row, "valor")).value)
  {
    match DateOf(Field(row, "data"))
    case None => None
    case Some(d) =>
      match ParseValor(Field(row, "valor"))
      case None => None
      case Some(x) => Some(Point(d, x))
  }

  /** `[f(x) for x in s if f(x) is not None]`: the defined images, in order. */
  function FilterMap<A, B>(f: A -> Option<B>, s: seq<A>): (t: seq<B>)
    ensures |t| <= |s|
  {
    if s == [] then []
    else
      match f(s[0])
      case Some(y) => [y] + FilterMap(f, s[1..])
      case None => FilterMap(f, s[1..])
  }

  /** An image is kept exactly when some element has it. */
  lemma {:induction false} FilterMapExactly<A, B>(f: A -> Option<B>, s: seq<A>, y: B)
    ensures y in FilterMap(f, s) <==> exists i :: 0 <= i < |s| && f(s[i]) == Some(y)
  {
    if s != [] {
      FilterMapExactly(f, s[1..], y);
      if exists i :: 0 <= i < |s| && f(s[i]) == Some(y) {
        var i :| 0 <= i < |s| && f(s[i]) == Some(y);
        if i > 0 {
          assert s[1..][i - 1] == s[i];
        }
      }
      if y in FilterMap(f, s[1..]) {
        var i :| 0 <= i < |s[1..]| && f(s[1..][i]) == Some(y);
        assert s[i + 1] == s[1..][i];
      }
    }
  }

  lemma {:induction false} FilterMapNone<A, B>(f: A -> Option<B>, s: seq<A>)
    requires forall i :: 0 <= i < |s| ==> f(s[i]).None?
    ensures FilterMap(f, s) == []
  {
    if s != [] {
      assert forall i :: 0 <= i < |s| - 1 ==> s[1..][i] == s[i + 1];
      FilterMapNone(f, s[1..]);
    }
  }

  /** The records that survive `dropna(subset=["data", "valor"])`, as points, in list order. */
  function Kept(raw: seq<Row>): seq<Point> {
    FilterMap(RowPoint, raw)
  }

  /** A point is kept exactly when some record yields it; at most one point per record. */
  lemma KeptExactly(raw: seq<Row>, p: Point)
    ensures p in Kept(raw) <==> exists i :: 0 <= i < |raw| && RowPoint(raw[i]) == Some(p)
    ensures |Kept(raw)| <= |raw|
  {
    FilterMapExactly(RowPoint, raw, p);
  }

  /** Without a `data` or a `valor` key anywhere, no record is kept. */
  lemma KeptNeedsColumns(raw: seq<Row>)
    requires !HasColumn(raw, "data") || !HasColumn(raw, "valor")
    ensures Kept(raw) == []
  {
    forall i | 0 <= i < |raw| ensures RowPoint(raw[i]).None? {
      assert "data" !in raw[i] || "valor" !in raw[i];
    }
    FilterMapNone(RowPoint, raw);
  }

  /** Non-decreasing by date; equal dates may repeat. */
  predicate Sorted(t: seq<Point>) {
    forall i, j :: 0 <= i < j < |t| ==> NotAfter(t[i].date, t[j].date)
  }

  lemma NotAfterTransitive(a: Date, b: Date, c: Date)
    requires NotAfter(a, b) && NotAfter(b, c)
    ensures NotAfter(a, c)
  {
  }

  lemma SortedTail(t: seq<Point>)
    requires |t| > 0 && Sorted(t)
    ensures Sorted(t[1..])
  {
    forall i, j | 0 <= i < j < |t[1..]| ensures NotAfter(t[1..][i].date, t[1..][j].date) {
      assert t[1..][i] == t[i + 1] && t[1..][j] == t[j + 1];
    }
  }

  lemma PrependSorted(p: Point, t: seq<Point>)
    requires Sorted(t) && (t == [] || NotAfter(p.date, t[0].date))
    ensures Sorted([p] + t)
  {
    var r := [p] + t;
    forall i, j | 0 <= i < j < |r| ensures NotAfter(r[i].date, r[j].date) {
      if i == 0 {
        assert r[j] == t[j - 1];
        if j > 1 {
          NotAfterTransitive(p.date, t[0].date, t[j - 1].date);
        }
      } else {
        assert r[i] == t[i - 1] && r[j] == t[j - 1];
      }
    }
  }

  /** Places `p` after the points dated no later than it. */
  function Insert(p: Point, t: seq<Point>): (r: seq<Point>)
    requires Sorted(t)
    ensures Sorted(r)
    ensures multiset(r) == multiset(t) + multiset{p}
    ensures |r| == |t| + 1
    ensures r[0] == p || (|t| > 0 && r[0] == t[0])
  {
    if t == [] then [p]
    else if NotAfter(t[0].date, p.date) then
      SortedTail(t);
      var rest := Insert(p, t[1..]);
      assert t == [t[0]] + t[1..];
      assert NotAfter(t[0].date, rest[0].date);
      PrependSorted(t[0], rest);
      [t[0]] + rest
    else
      PrependSorted(p, t);
      [p] + t
  }

  /**
   * `sort_values("data")`: the points ordered by date. The model fixes one
   * order among equal dates; only sortedness and being a permutation are claimed.
   */
  function SortByDate(t: seq<Point>): (r: seq<Point>)
    ensures Sorted(r)
    ensures multiset(r) == multiset(t)
    ensures |r| == |t|
  {
    if t == [] then []
    else
      assert t == [t[0]] + t[1..];
      Insert(t[0], SortByDate(t[1..]))
  }

  /** The charts page's date window: `d_ini <= date <= d_fim`. */
  predicate InWindow(p: Point, ini: Date, fim: Date) {
    NotAfter(ini, p.date) && NotAfter(p.date, fim)
  }

  /** `df[(date >= d_ini) & (date <= d_fim)]`: the points inside the window, in table order. */
  function Within(t: seq<Point>, ini: Date, fim: Date): (r: seq<Point>)
    ensures |r| <= |t|
    ensures forall k :: 0 <= k < |r| ==> InWindow(r[k], ini, fim)
  {
    if t == [] then []
    else if InWindow(t[0], ini, fim) then [t[0]] + Within(t[1..], ini, fim)
    else Within(t[1..], ini, fim)
  }

  /** `Within` keeps every point inside the window and nothing else. */
  lemma {:induction false} WithinExactly(t: seq<Point>, ini: Date, fim: Date, p: Point)
    ensures p in Within(t, ini, fim) <==> p in t && InWindow(p, ini, fim)
  {
    if t != [] {
      WithinExactly(t[1..], ini, fim, p);
      assert p in t <==> p == t[0] || p in t[1..] by {
        assert t == [t[0]] + t[1..];
      }
    }
  }

  /** A window that covers every row selects the whole table, in its order. */
  lemma {:induction false} WithinAll(t: seq<Point>, ini: Date, fim: Date)
    requires forall k :: 0 <= k < |t| ==> InWindow(t[k], ini, fim)
    ensures Within(t, ini, fim) == t
  {
    if t != [] {
      WithinAll(t[1..], ini, fim);
    }
  }

  /** The selection of a sorted table is sorted. */
  lemma {:induction false} WithinSorted(t: seq<Point>, ini: Date, fim: Date)
    requires Sorted(t)
    ensures Sorted(Within(t, ini, fim))
  {
    if t != [] {
      SortedTail(t);
      WithinSorted(t[1..], ini, fim);
      if InWindow(t[0], ini, fim) {
        var rest := Within(t[1..], ini, fim);
        forall k | 0 <= k < |rest| ensures NotAfter(t[0].date, rest[k].date) {
          WithinExactly(t[1..], ini, fim, rest[k]);
          var j :| 0 <= j < |t[1..]| && t[1..][j] == rest[k];
          assert t[j + 1] == rest[k];
        }
      }
    }
  }

  /** The earliest date of a table (`df["data"].min()`). */
  function Earliest(t: seq<Point>): (d: Date)
    requires |t| > 0
    ensures exists k :: 0 <= k < |t| && t[k].date == d
    ensures forall k :: 0 <= k < |t| ==> NotAfter(d, t[k].date)
  {
    if |t| == 1 then t[0].date
    else
      var m := Earliest(t[1..]);
      assert forall k :: 1 <= k < |t| ==> t[k] == t[1..][k - 1];
      if Before(t[0].date, m) then t[0].date else m
  }

  /** The latest date of a table (`df["data"].max()`). */
  function Latest(t: seq<Point>): (d: Date)
    requires |t| > 0
    ensures exists k :: 0 <= k < |t| && t[k].date == d
    ensures forall k :: 0 <= k < |t| ==> NotAfter(t[k].date, d)
  {
    if |t| == 1 then t[0].date
    else
      var m := Latest(t[1..]);
      assert forall k :: 1 <= k < |t| ==> t[k] == t[1..][k - 1];
      if Before(m, t[0].date) then t[0].date else m
  }

  /** On a sorted table the extremes are its first and last rows. */
  lemma SortedExtremes(t: seq<Point>)
    requires |t| > 0 && Sorted(t)
    ensures Earliest(t) == t[0].date && Latest(t) == t[|t| - 1].date
  {
    var e := Earliest(t);
    var k :| 0 <= k < |t| && t[k].date == e;
    var l := Latest(t);
    var j :| 0 <= j < |t| && t[j].date == l;
  }
}
