/**
 * The single-file app's own copies of the data layer and the display
 * helpers, where they differ from the multi-page layer: a table builder that
 * checks only the `data` column, a fetch loop that retries on every
 * exception, a quote that ignores the HTTP status and dates a closed
 * session from `regularMarketTime` alone, `fmt` and `hex_rgba` variants, and
 * the date window of the charts page.
 */
module App {
  import opened Wrappers
  import opened PyText
  import opened LocaleNumber
  import opened Calendar
  import opened Series
  import opened Provider
  import opened Quote
  import DataLayer
  import Ui

  // ----- _build -----

  /** The list has records but none with a `valor` key, so `df["valor"]` raises `KeyError`. */
  predicate LacksValor(raw: seq<Row>) {
    raw != [] && HasColumn(raw, "data") && !HasColumn(raw, "valor")
  }

  /**
   * `_build(raw)`: no rows for an empty list or a list without a `data` key;
   * raises when there is a `data` key but no `valor` key; otherwise the
   * readable records, ordered by date.
   */
  function Build(raw: seq<Row>): (r: Outcome<seq<Point>>)
    ensures r.Raised? <==> LacksValor(raw)
    ensures r.Done? ==> Sorted(r.value) && multiset(r.value) == multiset(Kept(raw)) && |r.value| <= |raw|
  {
    if raw == [] then Done([])
    else if !HasColumn(raw, "data") then
      KeptNeedsColumns(raw);
      Done([])
    else if !HasColumn(raw, "valor") then Raised
    else
      KeptExactly(raw, Point(Date(0, 0, 0), 0.0));
      Done(SortByDate(Kept(raw)))
  }

  /** Where `_build` returns, it returns the same table as `_build_df`; it differs only by raising. */
  lemma BuildMatchesDataLayer(raw: seq<Row>)
    ensures Build(raw).Done? ==> Build(raw).value == DataLayer.BuildTable(raw)
    ensures Build(raw).Raised? ==> DataLayer.BuildTable(raw) == []
  {
    if LacksValor(raw) {
      KeptNeedsColumns(raw);
    }
  }

  // ----- _fetch -----

  /** The decision one attempt of `_fetch` takes: the bare `except` turns every failure into a retry. */
  function AppStep(a: Attempt): (s: Step)
    ensures s.Accept? <==> DataLayer.Usable(a)
    ensures !s.Stop?
    ensures s.Accept? ==> s.items == a.body.items
  {
    if a.Response? && a.status == 200 && !IsHtml(a.contentType) && NonEmptyList(a.body) then Accept(a.body.items)
    else Retry
  }

  /** The decisions for the three attempts of one request. */
  function AppSteps(net: Network, r: SeriesRequest): (s: seq<Step>)
    ensures |s| == MaxAttempts
    ensures forall k: nat :: k < MaxAttempts ==> s[k] == AppStep(net(r, k))
  {
    [AppStep(net(r, 0)), AppStep(net(r, 1)), AppStep(net(r, 2))]
  }

  /** What `_fetch` returns for a request. */
  function AppFetch(net: Network, r: SeriesRequest): seq<Row> {
    Run(AppSteps(net, r))
  }

  /**
   * `_fetch(url)`: at most three attempts, each sent without certificate
   * checks and with a 20 s timeout; `sent` records the requests made.
   */
  method Fetch(net: Network, request: SeriesRequest) returns (items: seq<Row>, sent: seq<Call>)
    ensures items == AppFetch(net, request)
    ensures |sent| == Consumed(AppSteps(net, request)) <= MaxAttempts
    ensures forall k :: 0 <= k < |sent| ==> sent[k] == Call(request, false, TimeoutSeconds)
  {
    ghost var steps := AppSteps(net, request);
    var call := Call(request, false, TimeoutSeconds);
    sent := [];
    var attempt: nat := 0;
    while attempt < MaxAttempts
      invariant attempt <= MaxAttempts
      invariant |sent| == attempt
      invariant forall k :: 0 <= k < |sent| ==> sent[k] == call
      invariant forall j :: 0 <= j < attempt ==> steps[j].Retry?
    {
      var a := net(request, attempt);
      sent := sent + [call];
      if a.Response? && a.status == 200 && !IsHtml(a.contentType) {
        match a.body {
          case JsonList(data) =>
            if |data| > 0 {
              RunSettlesAt(steps, attempt);
              return data, sent;
            }
          case JsonOther =>
          case NotJson =>
        }
      }
      attempt := attempt + 1;
    }
    RunAllRetries(steps);
    return [], sent;
  }

  /** The first usable response is the list returned, whatever failed before it. */
  lemma AppFetchFirstUsable(net: Network, r: SeriesRequest, i: nat)
    requires i < MaxAttempts && DataLayer.Usable(net(r, i))
    requires forall j: nat :: j < i ==> !DataLayer.Usable(net(r, j))
    ensures AppFetch(net, r) == net(r, i).body.items
    ensures Consumed(AppSteps(net, r)) == i + 1
  {
    RunSettlesAt(AppSteps(net, r), i);
  }

  /** Without a usable response all three attempts are made and the list is empty. */
  lemma AppFetchNoneUsable(net: Network, r: SeriesRequest)
    requires forall j: nat :: j < MaxAttempts ==> !DataLayer.Usable(net(r, j))
    ensures AppFetch(net, r) == [] && Consumed(AppSteps(net, r)) == MaxAttempts
  {
    RunAllRetries(AppSteps(net, r));
  }

  /** When no attempt fails with a stopping exception, the two loops return the same list after the same attempts. */
  lemma FetchCopiesAgree(net: Network, r: SeriesRequest)
    requires forall j: nat :: j < MaxAttempts ==> !DataLayer.Fatal(net(r, j))
    ensures AppFetch(net, r) == DataLayer.DataFetch(net, r)
    ensures Consumed(AppSteps(net, r)) == Consumed(DataLayer.DataSteps(net, r))
  {
    var a := AppSteps(net, r);
    var d := DataLayer.DataSteps(net, r);
    forall k: nat | k < MaxAttempts ensures a[k] == d[k] {
      assert !DataLayer.Fatal(net(r, k));
    }
    assert a == d;
  }

  /** A body that is not JSON ends the multi-page loop with `[]`, while this loop goes on to a later usable response. */
  lemma FetchCopiesDiverge(net: Network, r: SeriesRequest)
    requires DataLayer.Fatal(net(r, 0)) && DataLayer.Usable(net(r, 1))
    ensures DataLayer.DataFetch(net, r) == []
    ensures AppFetch(net, r) == net(r, 1).body.items != []
  {
    DataLayer.DataFetchStops(net, r, 0);
    AppFetchFirstUsable(net, r, 1);
  }

  // ----- get_bcb, get_bcb_full, get_bcb_range -----

  /** The requests this `get_bcb` issues and the list it builds from. */
  function GetBcbPlan(code: nat, n: nat, today: Date, net: Network): Plan
    requires Valid(today)
  {
    RecentWithFallback(code, n, today, req => AppFetch(net, req))
  }

  /**
   * `get_bcb(c, n)` on the day `today`: raises when the fallback window starts
   * before year 1, or when the list used has records but no `valor` key.
   */
  function GetBcb(code: nat, n: nat, today: Date, net: Network): (r: Outcome<seq<Point>>)
    requires Valid(today)
    ensures r.Done? ==> Sorted(r.value)
    ensures var p := GetBcbPlan(code, n, today, net);
      r.Raised? <==> p.raw.None? || LacksValor(p.raw.value)
    ensures GetBcbPlan(code, n, today, net).raw.None? <==>
              AppFetch(net, Recent(code, n)) == [] && Ordinal(today) - DaysPerValue * n < 1
  {
    FallbackOnlyWhenEmpty(code, n, today, req => AppFetch(net, req));
    match GetBcbPlan(code, n, today, net).raw
    case None => Raised
    case Some(raw) => Build(raw)
  }

  /** A non-empty "last n" list is built as it is, and the range is never requested. */
  lemma GetBcbRecent(code: nat, n: nat, today: Date, net: Network)
    requires Valid(today) && AppFetch(net, Recent(code, n)) != []
    ensures GetBcb(code, n, today, net) == Build(AppFetch(net, Recent(code, n)))
    ensures GetBcbPlan(code, n, today, net).requests == [Recent(code, n)]
  {
  }

  /** An empty "last n" list is replaced by the range `[today - 45 n days, today]`. */
  lemma GetBcbFallback(code: nat, n: nat, today: Date, net: Network)
    requires Valid(today) && AppFetch(net, Recent(code, n)) == [] && Ordinal(today) - DaysPerValue * n >= 1
    ensures var ini := DaysBack(today, DaysPerValue * n).value;
      var range := Range(code, FormatDate(ini), FormatDate(today));
      GetBcbPlan(code, n, today, net).requests == [Recent(code, n), range]
      && GetBcb(code, n, today, net) == Build(AppFetch(net, range))
  {
  }

  /** `get_bcb_full(c)` */
  function GetBcbFull(code: nat, net: Network): (r: Outcome<seq<Point>>)
    ensures r.Raised? <==> LacksValor(AppFetch(net, Full(code)))
    ensures r.Done? ==> Sorted(r.value) && multiset(r.value) == multiset(Kept(AppFetch(net, Full(code))))
  {
    Build(AppFetch(net, Full(code)))
  }

  /** `get_bcb_range(c, ini, fim)`: the bounds are passed through as given. */
  function GetBcbRange(code: nat, ini: string, fim: string, net: Network): (r: Outcome<seq<Point>>)
    ensures r.Raised? <==> LacksValor(AppFetch(net, Range(code, ini, fim)))
    ensures r.Done? ==> Sorted(r.value) && multiset(r.value) == multiset(Kept(AppFetch(net, Range(code, ini, fim))))
  {
    Build(AppFetch(net, Range(code, ini, fim)))
  }

  // ----- get_quote, get_hist -----

  /**
   * `get_quote(sym)`: `{}` for a failed request, an unreadable body, an empty
   * result list or a result without `meta`; the status is never checked, and
   * a closed session is dated from `regularMarketTime`.
   */
  function GetQuote(reply: Reply): (q: Quote)
    ensures reply.RequestFailed? ==> q.NoQuote?
    ensures reply.Reply? && (reply.body.Unreadable? || (reply.body.Chart? && (reply.body.results == [] || reply.body.results[0].meta.None?)))
            ==> q.NoQuote?
    ensures reply.Reply? && reply.body.Chart? && |reply.body.results| > 0 && reply.body.results[0].meta.Some?
            ==> q == Finish(reply.body.results[0].meta.value, StampOf(Get(reply.body.results[0].meta.value, RegularTimeKey)))
    ensures q.Quote? ==> reply.Reply? && reply.body.Chart? && |reply.body.results| > 0
                         && reply.body.results[0].meta.Some?
                         && q == Finish(reply.body.results[0].meta.value,
                                        StampOf(Get(reply.body.results[0].meta.value, RegularTimeKey)))
  {
    match reply
    case RequestFailed => NoQuote
    case Reply(_, body) =>
      match body
      case Unreadable => NoQuote
      case Chart(results) =>
        if results == [] then NoQuote
        else
          match results[0].meta
          case None => NoQuote
          case Some(m) => Finish(m, StampOf(Get(m, RegularTimeKey)))
  }

  /** The status code plays no part: an error page with a readable chart body is still quoted. */
  lemma GetQuoteIgnoresStatus(s: int, t: int, body: ChartBody)
    ensures GetQuote(Reply(s, body)) == GetQuote(Reply(t, body))
  {
  }

  /** A closed quote is dated from `regularMarketTime` even when the result carries timestamps. */
  lemma GetQuoteClosedUsesMarketTime(reply: Reply)
    requires GetQuote(reply).Quote? && GetQuote(reply).isClosed
    ensures var m := reply.body.results[0].meta.value;
      var st := StampOf(Get(m, RegularTimeKey));
      GetQuote(reply).closeStamp == (if st.At? then Some(st.t) else None)
  {
    var m := reply.body.results[0].meta.value;
    SessionChains(m, StampOf(Get(m, RegularTimeKey)));
  }

  /** On a non-error reply whose result has no timestamps, both copies give the same quote. */
  lemma GetQuoteCopiesAgree(reply: Reply)
    requires reply.Reply? && !ErrorStatus(reply.status)
    requires reply.body.Chart? && reply.body.results != []
    requires reply.body.results[0].timestamp.None? || reply.body.results[0].timestamp.value == []
    ensures GetQuote(reply) == DataLayer.GetQuote(reply)
  {
  }

  /** `get_hist(sym, years)`: the empty table on any failure; the status is never checked. */
  function GetHist(reply: Reply): (t: seq<HistPoint>)
    ensures t != [] ==> reply.Reply? && reply.body.Chart? && |reply.body.results| > 0
    ensures t != [] ==> t == HistTable(reply.body.results[0])
    ensures reply.Reply? && reply.body.Chart? && |reply.body.results| > 0 ==> t == HistTable(reply.body.results[0])
  {
    match reply
    case RequestFailed => []
    case Reply(_, body) =>
      match body
      case Unreadable => []
      case Chart(results) => if results == [] then [] else HistTable(results[0])
  }

  /** The two history readers differ only on error statuses, where this one still reads the body. */
  lemma GetHistCopiesAgree(reply: Reply)
    ensures !(reply.Reply? && ErrorStatus(reply.status)) ==> GetHist(reply) == DataLayer.GetHist(reply)
    ensures reply.Reply? && ErrorStatus(reply.status) ==> DataLayer.GetHist(reply) == []
  {
  }

  // ----- fmt, hex_rgba -----

  /**
   * This copy of `fmt`, given `s = f"{v:,.{dec}f}"` (None for `v is None`):
   * with a `.` the comma and the second part follow even when that part is empty.
   */
  function AppFmt(s: Option<string>): (r: string)
    ensures s.None? ==> r == Ui.Missing
  {
    match s
    case None => Ui.Missing
    case Some(t) =>
      var integer := ReplaceChar(BeforeFirst(t, '.'), ',', '.');
      if '.' in t then integer + [','] + BeforeFirst(AfterFirst(t, '.'), '.') else integer
  }

  /** On what the en-US format spec produces the two copies of `fmt` agree. */
  lemma AppFmtMatchesUi(neg: bool, g: string, fp: string)
    requires Ui.EnUsGrouped(g) && AllDigits(fp)
    ensures AppFmt(Some(Ui.EnUsText(neg, g, fp))) == Ui.Fmt(Some(Ui.EnUsText(neg, g, fp)))
  {
    var a := SignText(neg) + g;
    Ui.EnUsHasNoPoint(neg, g);
    if fp != [] {
      assert Ui.EnUsText(neg, g, fp) == a + ['.'] + fp;
      SplitAtFirst(a, '.', fp);
      DigitsHaveNoPoint(fp);
    } else {
      assert Ui.EnUsText(neg, g, fp) == a;
    }
  }

  /** This copy of `hex_rgba`: the blue channel is read from everything after the fourth character. */
  function AppHexRgba(h: string, alpha: string): (r: Outcome<string>)
    ensures r.Done? ==> |Ui.LStripChar(h, '#')| >= 5
    ensures r.Done? ==> exists red, green, blue :: r.value == Ui.RgbaText(red, green, blue, alpha)
  {
    var t := Ui.LStripChar(h, '#');
    AppRgbaOfShort(t, alpha);
    AppRgbaOf(t, alpha)
  }

  /** As in ui.py, four characters or fewer after the `#`s leave the last slice empty, and Python raises. */
  lemma AppRgbaOfShort(t: string, alpha: string)
    ensures |t| <= 4 ==> AppRgbaOf(t, alpha) == Raised
  {
    if |t| <= 4 {
      Ui.EmptyHex();
      assert PySlice(t, 4, |t|) == [];
      Ui.BlueMissing(Ui.HexInt(PySlice(t, 0, 2)), Ui.HexInt(PySlice(t, 2, 4)), Ui.HexInt(PySlice(t, 4, |t|)), alpha);
    }
  }

  /** `int(t[:2], 16)`, `int(t[2:4], 16)`, `int(t[4:], 16)` */
  function AppRgbaOf(t: string, alpha: string): Outcome<string> {
    Ui.Rgba3(Ui.HexInt(PySlice(t, 0, 2)), Ui.HexInt(PySlice(t, 2, 4)), Ui.HexInt(PySlice(t, 4, |t|)), alpha)
  }

  /** On six hex digits after the `#`s both copies give the three bytes. */
  lemma AppHexRgbaSix(h: string, alpha: string)
    requires |Ui.LStripChar(h, '#')| == 6 && Ui.AllHex(Ui.LStripChar(h, '#'))
    ensures var t := Ui.LStripChar(h, '#');
      AppHexRgba(h, alpha) == Ui.HexRgba(h, alpha)
      == Done(Ui.RgbaText(Ui.Channel(t[0], t[1]), Ui.Channel(t[2], t[3]), Ui.Channel(t[4], t[5]), alpha))
  {
    var t := Ui.LStripChar(h, '#');
    assert Ui.IsHexDigit(t[0]) && Ui.IsHexDigit(t[1]) && Ui.IsHexDigit(t[2]) && Ui.IsHexDigit(t[3]) && Ui.IsHexDigit(t[4]) && Ui.IsHexDigit(t[5]);
    Ui.HexRgbaSix(h, alpha);
    AppRgbaOfSix(t, alpha);
  }

  lemma AppRgbaOfSix(t: string, alpha: string)
    requires |t| == 6
    requires Ui.IsHexDigit(t[0]) && Ui.IsHexDigit(t[1]) && Ui.IsHexDigit(t[2]) && Ui.IsHexDigit(t[3]) && Ui.IsHexDigit(t[4]) && Ui.IsHexDigit(t[5])
    ensures AppRgbaOf(t, alpha) == Done(Ui.RgbaText(Ui.Channel(t[0], t[1]), Ui.Channel(t[2], t[3]), Ui.Channel(t[4], t[5]), alpha))
  {
    Ui.SliceChannel(t, 0);
    Ui.SliceChannel(t, 2);
    Ui.SliceChannel(t, 4);
    AppRgbaOfChannels(t, alpha, Ui.Channel(t[0], t[1]), Ui.Channel(t[2], t[3]), Ui.Channel(t[4], t[5]));
  }

  /**
   * With more than six hex digits (an `#RRGGBBAA` colour, say) the blue
   * channel is the number all the trailing digits denote, which can exceed 255.
   */
  lemma AppRgbaOfLong(t: string, alpha: string)
    requires |t| >= 6 && Ui.IsHexDigit(t[0]) && Ui.IsHexDigit(t[1]) && Ui.IsHexDigit(t[2]) && Ui.IsHexDigit(t[3])
    requires Ui.AllHex(t[4..])
    ensures AppRgbaOf(t, alpha) == Done(Ui.RgbaText(Ui.Channel(t[0], t[1]), Ui.Channel(t[2], t[3]), Ui.HexDigitsValue(t[4..]), alpha))
  {
    Ui.SliceChannel(t, 0);
    Ui.SliceChannel(t, 2);
    TailChannel(t);
    AppRgbaOfChannels(t, alpha, Ui.Channel(t[0], t[1]), Ui.Channel(t[2], t[3]), Ui.HexDigitsValue(t[4..]));
  }

  /** The slice from index 4 to the end reads as the number its hex digits denote. */
  lemma TailChannel(t: string)
    requires |t| > 4 && Ui.AllHex(t[4..])
    ensures Ui.HexInt(PySlice(t, 4, |t|)) == Some(Ui.HexDigitsValue(t[4..]))
  {
    var u := t[4..];
    SliceToEnd(t, 4);
    Ui.HexPlainInt(u);
  }

  /** Once the three slices read as numbers, the colour text is built from them. */
  lemma AppRgbaOfChannels(t: string, alpha: string, red: int, green: int, blue: int)
    requires Ui.HexInt(PySlice(t, 0, 2)) == Some(red)
    requires Ui.HexInt(PySlice(t, 2, 4)) == Some(green)
    requires Ui.HexInt(PySlice(t, 4, |t|)) == Some(blue)
    ensures AppRgbaOf(t, alpha) == Done(Ui.RgbaText(red, green, blue, alpha))
  {
  }

  // ----- the charts page's date window -----

  /** Every date of the table is a calendar date, as every table the builders produce is. */
  predicate ValidDates(t: seq<Point>) {
    forall k :: 0 <= k < |t| ==> Valid(t[k].date)
  }

  /** The builders' tables hold only calendar dates in the nanosecond range. */
  lemma KeptDatesValid(raw: seq<Row>, p: Point)
    requires p in Kept(raw)
    ensures Valid(p.date) && InNsRange(p.date)
  {
    KeptExactly(raw, p);
  }

  /**
   * `max(dmin, (dmax - DateOffset(months=12)).date())`: the default window
   * start, a year before the last date but not before the first; raises when
   * the year-earlier date leaves the timestamp range.
   */
  function DefaultStart(t: seq<Point>): (r: Outcome<Date>)
    requires |t| > 0 && ValidDates(t)
    ensures r.Raised? <==> YearEarlier(Latest(t)).None?
    ensures r.Done? ==> NotAfter(Earliest(t), r.value) && NotAfter(r.value, Latest(t))
    ensures r.Done? ==> r.value == Earliest(t) || r.value == YearEarlier(Latest(t)).value
    ensures r.Done? ==> NotAfter(YearEarlier(Latest(t)).value, r.value)
    ensures r.Done? ==> r.value == Later(Earliest(t), YearEarlier(Latest(t)).value)
  {
    var dmax := Latest(t);
    var dmin := Earliest(t);
    var k :| 0 <= k < |t| && t[k].date == dmax;
    assert Valid(dmax) && NotAfter(dmin, dmax);
    match YearEarlier(dmax)
    case None => Raised
    case Some(back) => Done(Later(dmin, back))
  }

  /** `df_f[mask]`, computed only when `d_ini < d_fim`. */
  function WindowFilter(t: seq<Point>, ini: Date, fim: Date): (r: Option<seq<Point>>)
    ensures r.Some? <==> Before(ini, fim)
    ensures r.Some? ==> |r.value| <= |t|
  {
    if Before(ini, fim) then Some(Within(t, ini, fim)) else None
  }

  /** The filter keeps exactly the rows inside the window, and a sorted table stays sorted. */
  lemma WindowFilterExactly(t: seq<Point>, ini: Date, fim: Date, p: Point)
    requires Before(ini, fim)
    ensures p in WindowFilter(t, ini, fim).value <==> p in t && InWindow(p, ini, fim)
    ensures Sorted(t) ==> Sorted(WindowFilter(t, ini, fim).value)
  {
    WithinExactly(t, ini, fim, p);
    if Sorted(t) {
      WithinSorted(t, ini, fim);
    }
  }

  /** The "whole series" button sets the window to the first and last dates, which selects the whole table. */
  lemma WindowFilterWhole(t: seq<Point>)
    requires |t| > 0 && Before(Earliest(t), Latest(t))
    ensures WindowFilter(t, Earliest(t), Latest(t)) == Some(t)
  {
    WithinAll(t, Earliest(t), Latest(t));
  }
}
