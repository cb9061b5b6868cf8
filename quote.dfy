/**
 * The quote snapshot both data layers derive from the provider's chart
 * metadata: the session classification, the price and previous-close
 * fallback chains (which use Python's `or`, so a missing value, `0` and `""`
 * all fall through), and the change metrics. Also the pairing of history
 * timestamps with closes.
 */
module Quote {
  import opened Wrappers
  import opened PyText
  import opened LocaleNumber

  /** The `meta` object of a chart result. */
  type Meta = map<string, Value>

  /** `meta.get(k)`: None (a missing value) when the key is absent. */
  function Get(m: Meta, k: string): Value {
    if k in m then m[k] else Null
  }

  /**
   * `meta.get(k, d)`: the default is used only when the key is absent, not
   * when it holds null; it differs from `meta.get(k)` only on an absent key.
   */
  function GetOr(m: Meta, k: string, d: Value): (v: Value)
    ensures k in m ==> v == m[k]
    ensures k !in m ==> v == d
    ensures v == Get(m, k) || (k !in m && v == d)
    ensures k in m && m[k] == Null ==> v.Null?
  {
    if k in m then m[k] else d
  }

  /** Python truthiness: None, `0` and `""` are false. */
  predicate Truthy(v: Value) {
    match v
    case Null => false
    case Num(x) => x != 0.0
    case Text(s) => s != ""
  }

  /** `a or b`: `a` when it is truthy, otherwise `b` (whatever `b` is). */
  function Or(a: Value, b: Value): (r: Value)
    ensures Truthy(a) ==> r == a
    ensures !Truthy(a) ==> r == b
    ensures r == a || r == b
    ensures Truthy(r) <==> Truthy(a) || Truthy(b)
  {
    if Truthy(a) then a else b
  }

  const MarketStateKey := "marketState"
  const RegularPriceKey := "regularMarketPrice"
  const PreviousCloseKey := "previousClose"
  const ChartPreviousCloseKey := "chartPreviousClose"
  const RegularTimeKey := "regularMarketTime"

  /** `meta.get("marketState", "CLOSED")` */
  function MarketState(m: Meta): Value {
    GetOr(m, MarketStateKey, Text("CLOSED"))
  }

  predicate IsRegular(ms: Value) {
    ms == Text("REGULAR")
  }

  /** `market_state in ("PRE", "POST", "PREPRE", "POSTPOST")` */
  predicate IsExtendedState(ms: Value) {
    ms == Text("PRE") || ms == Text("POST") || ms == Text("PREPRE") || ms == Text("POSTPOST")
  }

  /** The price of a live or extended session: `regularMarketPrice or previousClose`. */
  function OpenPrice(m: Meta): Value {
    Or(Get(m, RegularPriceKey), Get(m, PreviousCloseKey))
  }

  /** `chartPreviousClose or meta.get("previousClose", price)` */
  function OpenPrev(m: Meta): Value {
    Or(Get(m, ChartPreviousCloseKey), GetOr(m, PreviousCloseKey, OpenPrice(m)))
  }

  /** The price of a closed session: `previousClose or regularMarketPrice`. */
  function ClosedPrice(m: Meta): Value {
    Or(Get(m, PreviousCloseKey), Get(m, RegularPriceKey))
  }

  /** `chartPreviousClose or price` */
  function ClosedPrev(m: Meta): Value {
    Or(Get(m, ChartPreviousCloseKey), ClosedPrice(m))
  }

  /**
   * The epoch a closed quote's date is taken from: none (the close date is
   * None), a number, or a value `datetime.fromtimestamp` rejects with an exception.
   */
  datatype Stamp = NoStamp | At(t: real) | Unconvertible

  /** `fromtimestamp(v) if v else None` */
  function StampOf(v: Value): (s: Stamp)
    ensures s.NoStamp? <==> !Truthy(v)
    ensures s.At? <==> Truthy(v) && v.Num?
    ensures s.At? ==> v == Num(s.t) && s.t != 0.0
    ensures s.Unconvertible? <==> v.Text? && v.s != ""
  {
    if !Truthy(v) then NoStamp
    else match v
      case Num(x) => At(x)
      case _ => Unconvertible
  }

  /**
   * The returned dict: `NoQuote` is `{}`. `closeStamp` is the epoch the
   * `close_date` text is formatted from; the conversion to a local date is
   * not modelled.
   */
  datatype Quote =
    | NoQuote
    | Quote(price: Value, prev: Value, chgP: Option<real>, chgV: Option<real>,
            market: Value, isLive: bool, isExtended: bool, isClosed: bool,
            closeStamp: Option<real>)

  /**
   * The body of `get_quote` after `meta` has been found; `stamp` is where the
   * closed-session date comes from. Any exception gives `{}`: an epoch
   * `fromtimestamp` rejects, and a truthy `prev` (so `price - prev` is
   * evaluated) when `price` or `prev` is not a number.
   */
  function Finish(m: Meta, stamp: Stamp): (q: Quote)
    ensures q.Quote? ==> q.market == MarketState(m)
    ensures q.Quote? ==> (q.isLive <==> IsRegular(q.market)) && (q.isExtended <==> IsExtendedState(q.market))
    ensures q.Quote? ==> ((q.isLive && !q.isExtended && !q.isClosed)
                       || (!q.isLive && q.isExtended && !q.isClosed)
                       || (!q.isLive && !q.isExtended && q.isClosed))
    ensures q.Quote? ==> !q.price.Null?
    ensures q.Quote? ==> (q.chgV.Some? <==> Truthy(q.prev)) && (q.chgP.Some? <==> Truthy(q.prev))
    ensures q.Quote? && q.chgV.Some? ==>
              (q.price.Num? && q.prev.Num? && q.price.x == q.prev.x + q.chgV.value
               && q.chgP.value == q.chgV.value / q.prev.x * 100.0)
    ensures q.Quote? && !q.isClosed ==> q.closeStamp.None?
  {
    var ms := MarketState(m);
    var live := IsRegular(ms);
    var ext := IsExtendedState(ms);
    var price := if live || ext then OpenPrice(m) else ClosedPrice(m);
    var prev := if live || ext then OpenPrev(m) else ClosedPrev(m);
    var closeStamp := if live || ext then NoStamp else stamp;
    if closeStamp.Unconvertible? then NoQuote
    else if price.Null? then NoQuote
    else if Truthy(prev) && !(price.Num? && prev.Num?) then NoQuote
    else
      var chgV := if Truthy(prev) then Some(price.x - prev.x) else None;
      var chgP := if Truthy(prev) then Some((price.x - prev.x) / prev.x * 100.0) else None;
      Quote(price, prev, chgP, chgV, ms, live, ext, !(live || ext),
            if closeStamp.At? then Some(closeStamp.t) else None)
  }

  /** With no `marketState` the session counts as closed. */
  lemma AbsentStateIsClosed(m: Meta, stamp: Stamp)
    requires MarketStateKey !in m
    ensures var q := Finish(m, stamp);
      q.Quote? ==> q.isClosed && q.market == Text("CLOSED")
  {
  }

  /**
   * Which fallback chain gives the price and the previous close: the open
   * chains for REGULAR and the extended states, the closed chains otherwise;
   * the stamp is used only when closed.
   */
  lemma SessionChains(m: Meta, stamp: Stamp)
    ensures var q := Finish(m, stamp);
      q.Quote? ==>
        (q.isClosed ==> q.price == ClosedPrice(m) && q.prev == ClosedPrev(m)
                        && q.closeStamp == (if stamp.At? then Some(stamp.t) else None))
        && (!q.isClosed ==> q.price == OpenPrice(m) && q.prev == OpenPrev(m))
  {
  }

  /** `{}` exactly when the chosen price is missing or one of the exceptions is raised. */
  lemma NoQuoteExactly(m: Meta, stamp: Stamp)
    ensures var ms := MarketState(m);
      var open := IsRegular(ms) || IsExtendedState(ms);
      var price := if open then OpenPrice(m) else ClosedPrice(m);
      var prev := if open then OpenPrev(m) else ClosedPrev(m);
      Finish(m, stamp).NoQuote? <==>
        (!open && stamp.Unconvertible?) || price.Null? || (Truthy(prev) && !(price.Num? && prev.Num?))
  {
  }

  /** A zero regular price falls through to the previous close, exactly like a missing one. */
  lemma ZeroPriceFallsThrough(m: Meta, stamp: Stamp)
    requires Get(m, RegularPriceKey) == Num(0.0) && IsRegular(MarketState(m))
    ensures Finish(m, stamp).Quote? ==> Finish(m, stamp).price == Get(m, PreviousCloseKey)
  {
  }

  /** A zero chart previous close is no previous close: the open chain moves on to `previousClose`. */
  lemma ZeroPrevFallsThrough(m: Meta, stamp: Stamp)
    requires Get(m, ChartPreviousCloseKey) == Num(0.0) && IsRegular(MarketState(m))
    ensures Finish(m, stamp).Quote? ==> Finish(m, stamp).prev == GetOr(m, PreviousCloseKey, OpenPrice(m))
  {
  }

  /** A closed session whose previous close is missing or zero quotes no change. */
  lemma NoChangeWithoutPrev(m: Meta, stamp: Stamp)
    requires !Truthy(ClosedPrev(m))
    requires !IsRegular(MarketState(m)) && !IsExtendedState(MarketState(m))
    ensures var q := Finish(m, stamp);
      q.Quote? ==> q.chgP.None? && q.chgV.None?
  {
  }

  // ----- history -----

  /** One row of the history table: the epoch in seconds and the close. */
  datatype HistPoint = HistPoint(stamp: int, close: real)

  /**
   * Timestamps and closes side by side, dropping every row with a missing
   * timestamp or close (`dropna()` looks at both columns), in provider order.
   */
  function Pair(ts: seq<Option<int>>, cs: seq<Option<real>>): (t: seq<HistPoint>)
    requires |ts| == |cs|
    ensures |t| <= |ts|
  {
    if ts == [] then []
    else
      var rest := Pair(ts[1..], cs[1..]);
      if ts[0].Some? && cs[0].Some? then [HistPoint(ts[0].value, cs[0].value)] + rest else rest
  }

  /** A row is in the table exactly when some index holds both its timestamp and its close. */
  lemma {:induction false} PairExactly(ts: seq<Option<int>>, cs: seq<Option<real>>, p: HistPoint)
    requires |ts| == |cs|
    ensures p in Pair(ts, cs) <==> exists i :: 0 <= i < |ts| && ts[i] == Some(p.stamp) && cs[i] == Some(p.close)
  {
    if ts != [] {
      PairExactly(ts[1..], cs[1..], p);
      if exists i :: 0 <= i < |ts| && ts[i] == Some(p.stamp) && cs[i] == Some(p.close) {
        var i :| 0 <= i < |ts| && ts[i] == Some(p.stamp) && cs[i] == Some(p.close);
        if i > 0 {
          assert ts[1..][i - 1] == ts[i] && cs[1..][i - 1] == cs[i];
        }
      }
      if p in Pair(ts[1..], cs[1..]) {
        var i :| 0 <= i < |ts[1..]| && ts[1..][i] == Some(p.stamp) && cs[1..][i] == Some(p.close);
        assert ts[i + 1] == Some(p.stamp) && cs[i + 1] == Some(p.close);
      }
    }
  }

  /** Pairing works piecewise, so the provider's order is kept: rows of an earlier part come first. */
  lemma {:induction false} PairConcat(ts: seq<Option<int>>, cs: seq<Option<real>>, us: seq<Option<int>>, ds: seq<Option<real>>)
    requires |ts| == |cs| && |us| == |ds|
    ensures Pair(ts + us, cs + ds) == Pair(ts, cs) + Pair(us, ds)
  {
    if ts == [] {
      assert ts + us == us && cs + ds == ds;
    } else {
      assert (ts + us)[1..] == ts[1..] + us && (cs + ds)[1..] == cs[1..] + ds;
      PairConcat(ts[1..], cs[1..], us, ds);
    }
  }

  /** With nothing missing, every row is kept, index by index. */
  lemma {:induction false} PairComplete(ts: seq<Option<int>>, cs: seq<Option<real>>)
    requires |ts| == |cs|
    requires forall i :: 0 <= i < |ts| ==> ts[i].Some? && cs[i].Some?
    ensures |Pair(ts, cs)| == |ts|
    ensures forall i :: 0 <= i < |ts| ==> Pair(ts, cs)[i] == HistPoint(ts[i].value, cs[i].value)
  {
    if ts != [] {
      PairComplete(ts[1..], cs[1..]);
      var rest := Pair(ts[1..], cs[1..]);
      forall i | 0 < i < |ts| ensures Pair(ts, cs)[i] == HistPoint(ts[i].value, cs[i].value) {
        assert Pair(ts, cs)[i] == rest[i - 1];
        assert ts[1..][i - 1] == ts[i] && cs[1..][i - 1] == cs[i];
      }
    }
  }

  /** The history is not sorted: timestamps that arrive out of order stay out of order. */
  lemma PairKeepsDescent(a: int, b: int, x: real, y: real)
    requires a > b
    ensures Pair([Some(a), Some(b)], [Some(x), Some(y)]) == [HistPoint(a, x), HistPoint(b, y)]
  {
    assert [Some(a), Some(b)][1..] == [Some(b)];
    assert [Some(x), Some(y)][1..] == [Some(y)];
  }

  /** The epochs in seconds that `pd.to_datetime(..., unit="s")` accepts (nanoseconds in 64 bits). */
  predicate InStampRange(t: int) {
    -9223372036 <= t <= 9223372036
  }

  /** The JSON of one chart result, as far as the quote and the history read it (None: key absent or null). */
  datatype ChartResult = ChartResult(meta: Option<Meta>, timestamp: Option<seq<Option<int>>>, closes: Option<seq<Option<real>>>)

  /** The body of a chart response: `data["chart"]["result"]`, or a body where that path cannot be read. */
  datatype ChartBody = Chart(results: seq<ChartResult>) | Unreadable

  /** A chart request: the response's status and body, or an exception from `requests.get`. */
  datatype Reply = Reply(status: int, body: ChartBody) | RequestFailed

  /** `r.raise_for_status()` raises for the client and server error statuses. */
  predicate ErrorStatus(status: int) {
    400 <= status < 600
  }

  /**
   * The history table of one chart result: the empty table when a key is
   * missing, an epoch is out of range, or the two arrays differ in length.
   */
  function HistTable(res: ChartResult): (t: seq<HistPoint>)
    ensures t != [] ==> res.timestamp.Some? && res.closes.Some? && |res.timestamp.value| == |res.closes.value|
    ensures t != [] ==> t == Pair(res.timestamp.value, res.closes.value)
    ensures res.timestamp.Some? && res.closes.Some? && |res.timestamp.value| == |res.closes.value|
            && (forall i :: 0 <= i < |res.timestamp.value| && res.timestamp.value[i].Some? ==> InStampRange(res.timestamp.value[i].value))
            ==> t == Pair(res.timestamp.value, res.closes.value)
    ensures res.timestamp.None? || res.closes.None? ==> t == []
  {
    match (res.timestamp, res.closes)
    case (Some(ts), Some(cs)) =>
      if |ts| == |cs| && forall i :: 0 <= i < |ts| && ts[i].Some? ==> InStampRange(ts[i].value) then Pair(ts, cs)
      else []
    case _ => []
  }

  /** A history row is always a close paired with an accepted epoch from the same result. */
  lemma HistTableRows(res: ChartResult, p: HistPoint)
    requires p in HistTable(res)
    ensures exists i :: 0 <= i < |res.timestamp.value| && res.timestamp.value[i] == Some(p.stamp)
                        && res.closes.value[i] == Some(p.close) && InStampRange(p.stamp)
  {
    PairExactly(res.timestamp.value, res.closes.value, p);
  }

  /** One epoch outside the timestamp range empties the whole table. */
  lemma HistTableOutOfRange(res: ChartResult, i: nat)
    requires res.timestamp.Some? && i < |res.timestamp.value|
    requires res.timestamp.value[i].Some? && !InStampRange(res.timestamp.value[i].value)
    ensures HistTable(res) == []
  {
  }

  /** Arrays of different lengths give the empty table. */
  lemma HistTableLengthMismatch(res: ChartResult)
    requires res.timestamp.Some? && res.closes.Some? && |res.timestamp.value| != |res.closes.value|
    ensures HistTable(res) == []
  {
  }
}
