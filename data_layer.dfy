/**
 * The data layer of the multi-page app: the series table builder, the
 * three-attempt fetch loop, the three series getters, and the quote and
 * history readers of the chart endpoint.
 */
module DataLayer {
  import opened Wrappers
  import opened Calendar
  import opened Series
  import opened Provider
  import opened Quote

  /**
   * `_build_df(raw)`: no rows for an empty list or a list without a `data`
   * or a `valor` key; otherwise the readable records, ordered by date.
   */
  function BuildTable(raw: seq<Row>): (t: seq<Point>)
    ensures Sorted(t)
    ensures multiset(t) == multiset(Kept(raw))
    ensures |t| <= |raw|
  {
    if raw == [] then []
    else if !HasColumn(raw, "data") || !HasColumn(raw, "valor") then
      KeptNeedsColumns(raw);
      []
    else
      KeptExactly(raw, Point(Date(0, 0, 0), 0.0));
      SortByDate(Kept(raw))
  }

  /** The early exits change nothing: the table is always the sorted readable records. */
  lemma BuildTableIsSortedKept(raw: seq<Row>)
    ensures BuildTable(raw) == SortByDate(Kept(raw))
  {
    if raw == [] || !HasColumn(raw, "data") || !HasColumn(raw, "valor") {
      KeptNeedsColumns(raw);
    }
  }

  /** A point is in the table exactly when some record reads as it; nothing is substituted. */
  lemma BuildTableRows(raw: seq<Row>, p: Point)
    ensures p in BuildTable(raw) <==> exists i :: 0 <= i < |raw| && RowPoint(raw[i]) == Some(p)
  {
    KeptExactly(raw, p);
    assert p in BuildTable(raw) <==> p in multiset(BuildTable(raw));
    assert p in Kept(raw) <==> p in multiset(Kept(raw));
  }

  /** Records with the same date and value are all kept: no de-duplication. */
  lemma BuildTableKeepsDuplicates(r: Row)
    requires RowPoint(r).Some?
    ensures |BuildTable([r, r])| == 2
  {
    BuildTableIsSortedKept([r, r]);
    FilterMapTwice(RowPoint, r);
  }

  lemma FilterMapTwice<A, B>(f: A -> Option<B>, x: A)
    requires f(x).Some?
    ensures FilterMap(f, [x, x]) == [f(x).value, f(x).value]
  {
    assert [x, x][1..] == [x] && [x, x][1..][1..] == [];
  }

  // ----- _bcb_fetch -----

  /** A response the loop returns: HTTP 200, not HTML, and a non-empty JSON list. */
  predicate Usable(a: Attempt) {
    a.Response? && a.status == 200 && !IsHtml(a.contentType) && NonEmptyList(a.body)
  }

  /** What makes this loop try again: a timeout, a connection error, a non-200 or HTML response, or a JSON value that is not a non-empty list. */
  predicate Transient(a: Attempt) {
    || a.Timeout? || a.ConnectionError?
    || (a.Response? && (a.status != 200 || IsHtml(a.contentType) || a.body.JsonOther? || (a.body.JsonList? && a.body.items == [])))
  }

  /** What ends this loop at once with `[]`: any other exception, including a body that is not JSON. */
  predicate Fatal(a: Attempt) {
    a.OtherError? || (a.Response? && a.status == 200 && !IsHtml(a.contentType) && a.body.NotJson?)
  }

  /** The decision one attempt of `_bcb_fetch` takes. */
  function DataStep(a: Attempt): (s: Step)
    ensures s.Accept? <==> Usable(a)
    ensures s.Retry? <==> Transient(a)
    ensures s.Stop? <==> Fatal(a)
    ensures s.Accept? ==> s.items == a.body.items
  {
    match a
    case Timeout => Retry
    case ConnectionError => Retry
    case OtherError => Stop
    case Response(status, contentType, body) =>
      if status != 200 then Retry
      else if IsHtml(contentType) then Retry
      else
        match body
        case NotJson => Stop
        case JsonList(items) => if |items| > 0 then Accept(items) else Retry
        case JsonOther => Retry
  }

  /** The decisions for the three attempts of one request. */
  function DataSteps(net: Network, r: SeriesRequest): (s: seq<Step>)
    ensures |s| == MaxAttempts
    ensures forall k: nat :: k < MaxAttempts ==> s[k] == DataStep(net(r, k))
  {
    [DataStep(net(r, 0)), DataStep(net(r, 1)), DataStep(net(r, 2))]
  }

  /** What `_bcb_fetch` returns for a request. */
  function DataFetch(net: Network, r: SeriesRequest): seq<Row> {
    Run(DataSteps(net, r))
  }

  /**
   * `_bcb_fetch(url)`: at most three attempts, each sent without certificate
   * checks and with a 20 s timeout; `sent` records the requests made.
   */
  method BcbFetch(net: Network, request: SeriesRequest) returns (items: seq<Row>, sent: seq<Call>)
    ensures items == DataFetch(net, request)
    ensures |sent| == Consumed(DataSteps(net, request)) <= MaxAttempts
    ensures forall k :: 0 <= k < |sent| ==> sent[k] == Call(request, false, TimeoutSeconds)
  {
    ghost var steps := DataSteps(net, request);
    var call := Call(request, false, TimeoutSeconds);
    sent := [];
    var attempt: nat := 0;
    while attempt < MaxAttempts
      invariant attempt <= MaxAttempts
      invariant |sent| == attempt
      invariant forall k :: 0 <= k < |sent| ==> sent[k] == call
      invariant forall j :: 0 <= j < attempt ==> steps[j].Retry?
    {
      var a := net(request, attempt);
      sent := sent + [call];
      match a {
        case Timeout =>
        case ConnectionError =>
        case OtherError =>
          RunSettlesAt(steps, attempt);
          return [], sent;
        case Response(status, contentType, body) =>
          if status == 200 && !IsHtml(contentType) {
            match body {
              case NotJson =>
                RunSettlesAt(steps, attempt);
                return [], sent;
              case JsonList(data) =>
                if |data| > 0 {
                  RunSettlesAt(steps, attempt);
                  return data, sent;
                }
              case JsonOther =>
            }
          }
      }
      attempt := attempt + 1;
    }
    RunAllRetries(steps);
    return [], sent;
  }

  /** The first usable response after transient failures is the list returned. */
  lemma DataFetchFirstUsable(net: Network, r: SeriesRequest, i: nat)
    requires i < MaxAttempts && Usable(net(r, i))
    requires forall j: nat :: j < i ==> Transient(net(r, j))
    ensures DataFetch(net, r) == net(r, i).body.items
    ensures Consumed(DataSteps(net, r)) == i + 1
  {
    RunSettlesAt(DataSteps(net, r), i);
  }

  /** A fatal attempt after transient failures ends the loop with `[]`, sending nothing more. */
  lemma DataFetchStops(net: Network, r: SeriesRequest, i: nat)
    requires i < MaxAttempts && Fatal(net(r, i))
    requires forall j: nat :: j < i ==> Transient(net(r, j))
    ensures DataFetch(net, r) == []
    ensures Consumed(DataSteps(net, r)) == i + 1
  {
    RunSettlesAt(DataSteps(net, r), i);
  }

  /** Three transient failures: all three attempts are made and the list is empty. */
  lemma DataFetchExhausted(net: Network, r: SeriesRequest)
    requires forall j: nat :: j < MaxAttempts ==> Transient(net(r, j))
    ensures DataFetch(net, r) == [] && Consumed(DataSteps(net, r)) == MaxAttempts
  {
    RunAllRetries(DataSteps(net, r));
  }

  /** Whatever the loop returns came from a usable response. */
  lemma DataFetchFromUsable(net: Network, r: SeriesRequest)
    requires DataFetch(net, r) != []
    ensures exists i: nat :: i < MaxAttempts && Usable(net(r, i)) && net(r, i).body.items == DataFetch(net, r)
  {
    var i := RunFromAccept(DataSteps(net, r));
    assert DataSteps(net, r)[i] == DataStep(net(r, i));
  }

  // ----- get_bcb, get_bcb_full, get_bcb_range -----

  /** The requests `get_bcb` sends and the list it builds from. */
  function GetBcbPlan(code: nat, n: nat, today: Date, net: Network): Plan
    requires Valid(today)
  {
    RecentWithFallback(code, n, today, req => DataFetch(net, req))
  }

  /** `get_bcb(codigo, ultimos)` on the day `today`: raises only when the fallback window starts before year 1. */
  function GetBcb(code: nat, n: nat, today: Date, net: Network): (r: Outcome<seq<Point>>)
    requires Valid(today)
    ensures r.Done? ==> Sorted(r.value)
    ensures r.Raised? <==> DataFetch(net, Recent(code, n)) == [] && Ordinal(today) - DaysPerValue * n < 1
  {
    FallbackOnlyWhenEmpty(code, n, today, req => DataFetch(net, req));
    match GetBcbPlan(code, n, today, net).raw
    case None => Raised
    case Some(raw) => Done(BuildTable(raw))
  }

  /** A non-empty "last n" list is used as it is, and the range is never requested. */
  lemma GetBcbRecent(code: nat, n: nat, today: Date, net: Network)
    requires Valid(today) && DataFetch(net, Recent(code, n)) != []
    ensures GetBcb(code, n, today, net) == Done(BuildTable(DataFetch(net, Recent(code, n))))
    ensures GetBcbPlan(code, n, today, net).requests == [Recent(code, n)]
  {
  }

  /** An empty "last n" list is replaced by the range `[today - 45 n days, today]`. */
  lemma GetBcbFallback(code: nat, n: nat, today: Date, net: Network)
    requires Valid(today) && DataFetch(net, Recent(code, n)) == [] && Ordinal(today) - DaysPerValue * n >= 1
    ensures var ini := DaysBack(today, DaysPerValue * n).value;
      var range := Range(code, FormatDate(ini), FormatDate(today));
      GetBcbPlan(code, n, today, net).requests == [Recent(code, n), range]
      && GetBcb(code, n, today, net) == Done(BuildTable(DataFetch(net, range)))
  {
  }

  /** `get_bcb_full(codigo)` */
  function GetBcbFull(code: nat, net: Network): (t: seq<Point>)
    ensures Sorted(t)
    ensures multiset(t) == multiset(Kept(DataFetch(net, Full(code))))
  {
    BuildTable(DataFetch(net, Full(code)))
  }

  /** `get_bcb_range(codigo, ini, fim)`: the bounds are passed through as given. */
  function GetBcbRange(code: nat, ini: string, fim: string, net: Network): (t: seq<Point>)
    ensures Sorted(t)
    ensures multiset(t) == multiset(Kept(DataFetch(net, Range(code, ini, fim))))
  {
    BuildTable(DataFetch(net, Range(code, ini, fim)))
  }

  // ----- get_quote, get_hist -----

  /**
   * The closed-session date source of `get_quote`: the last entry of a
   * non-empty `timestamp` list (a null entry cannot be converted), otherwise
   * `regularMarketTime` when it is truthy.
   */
  function CloseStamp(res: ChartResult, m: Meta): (s: Stamp)
    ensures res.timestamp.Some? && res.timestamp.value != [] && res.timestamp.value[|res.timestamp.value| - 1].Some?
            ==> s == At(res.timestamp.value[|res.timestamp.value| - 1].value as real)
    ensures (res.timestamp.None? || res.timestamp.value == []) ==> s == StampOf(Get(m, RegularTimeKey))
  {
    match res.timestamp
    case Some(ts) =>
      if ts != [] then
        match ts[|ts| - 1]
        case Some(t) => At(t as real)
        case None => Unconvertible
      else StampOf(Get(m, RegularTimeKey))
    case None => StampOf(Get(m, RegularTimeKey))
  }

  /**
   * `get_quote(symbol)`: `{}` for a failed request, an error status, an
   * unreadable body, an empty result list or a result without `meta`.
   */
  function GetQuote(reply: Reply): (q: Quote)
    ensures reply.RequestFailed? || (reply.Reply? && ErrorStatus(reply.status)) ==> q.NoQuote?
    ensures reply.Reply? && (reply.body.Unreadable? || (reply.body.Chart? && (reply.body.results == [] || reply.body.results[0].meta.None?)))
            ==> q.NoQuote?
    ensures reply.Reply? && !ErrorStatus(reply.status) && reply.body.Chart? && |reply.body.results| > 0
            && reply.body.results[0].meta.Some?
            ==> q == Finish(reply.body.results[0].meta.value, CloseStamp(reply.body.results[0], reply.body.results[0].meta.value))
    ensures q.Quote? ==> reply.Reply? && reply.body.Chart? && |reply.body.results| > 0
                         && reply.body.results[0].meta.Some?
                         && q == Finish(reply.body.results[0].meta.value, CloseStamp(reply.body.results[0], reply.body.results[0].meta.value))
  {
    match reply
    case RequestFailed => NoQuote
    case Reply(status, body) =>
      if ErrorStatus(status) then NoQuote
      else
        match body
        case Unreadable => NoQuote
        case Chart(results) =>
          if results == [] then NoQuote
          else
            match results[0].meta
            case None => NoQuote
            case Some(m) => Finish(m, CloseStamp(results[0], m))
  }

  /** A closed quote carries the epoch of the last timestamp, whatever `regularMarketTime` says. */
  lemma GetQuoteClosedUsesLastTimestamp(reply: Reply)
    requires GetQuote(reply).Quote? && GetQuote(reply).isClosed
    requires var ts := reply.body.results[0].timestamp; ts.Some? && ts.value != []
    ensures var ts := reply.body.results[0].timestamp.value;
      GetQuote(reply).closeStamp == Some(ts[|ts| - 1].value as real)
  {
    var res := reply.body.results[0];
    SessionChains(res.meta.value, CloseStamp(res, res.meta.value));
  }

  /** `get_hist(symbol, years)`: the empty table on any failure, including an error status. */
  function GetHist(reply: Reply): (t: seq<HistPoint>)
    ensures t != [] ==> reply.Reply? && !ErrorStatus(reply.status) && reply.body.Chart? && |reply.body.results| > 0
    ensures t != [] ==> t == HistTable(reply.body.results[0])
    ensures reply.Reply? && !ErrorStatus(reply.status) && reply.body.Chart? && |reply.body.results| > 0
            ==> t == HistTable(reply.body.results[0])
  {
    match reply
    case RequestFailed => []
    case Reply(status, body) =>
      if ErrorStatus(status) then []
      else
        match body
        case Unreadable => []
        case Chart(results) => if results == [] then [] else HistTable(results[0])
  }
}
