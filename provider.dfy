/**
 * The series provider as both data layers reach it: one HTTP attempt ends in
 * a response (status, `Content-Type`, body) or in an exception, each attempt
 * is turned into a decision (accept the list, retry, stop), and at most
 * three attempts are made. Also the request shapes, and the "recent with
 * range fallback" plan `get_bcb` follows.
 */
module Provider {
  import opened Wrappers
  import opened PyText
  import opened Calendar
  import opened Series

  /** What `r.json()` yields: a JSON list of records, some other JSON value, or a decoding error. */
  datatype Body = JsonList(items: seq<Row>) | JsonOther | NotJson

  /** One `requests.get`: a response, or the exception it raised. */
  datatype Attempt =
    | Response(status: int, contentType: string, body: Body)
    | Timeout
    | ConnectionError
    | OtherError

  /** What an attempt decides. */
  datatype Step = Accept(items: seq<Row>) | Retry | Stop

  /** `range(3)` */
  const MaxAttempts: nat := 3

  /** `timeout=20` on every series request. */
  const TimeoutSeconds: nat := 20

  /** `"html" in r.headers.get("Content-Type", "").lower()`, with a missing header as `""`. */
  predicate IsHtml(contentType: string) {
    Contains(LowerAscii(contentType), "html")
  }

  /** A non-empty JSON list: the only body either loop returns. */
  predicate NonEmptyList(b: Body) {
    b.JsonList? && |b.items| > 0
  }

  /** The list the loop returns: the first decision that is not a retry settles it, and `[]` when none does. */
  function Run(steps: seq<Step>): (items: seq<Row>)
  {
    if steps == [] then []
    else
      match steps[0]
      case Accept(x) => x
      case Stop => []
      case Retry => Run(steps[1..])
  }

  /** How many attempts the loop makes on these decisions. */
  function Consumed(steps: seq<Step>): (n: nat)
    ensures n <= |steps|
    ensures steps != [] ==> n >= 1
  {
    if steps == [] then 0
    else if steps[0].Retry? then 1 + Consumed(steps[1..])
    else 1
  }

  /** All retries before the first settling decision `i` settle on it. */
  lemma {:induction false} RunSettlesAt(steps: seq<Step>, i: nat)
    requires i < |steps| && !steps[i].Retry?
    requires forall j :: 0 <= j < i ==> steps[j].Retry?
    ensures Run(steps) == (if steps[i].Accept? then steps[i].items else [])
    ensures Consumed(steps) == i + 1
  {
    if i > 0 {
      assert forall j :: 0 <= j < i - 1 ==> steps[1..][j] == steps[j + 1];
      RunSettlesAt(steps[1..], i - 1);
    }
  }

  /** Nothing but retries: every attempt is made and the list is empty. */
  lemma {:induction false} RunAllRetries(steps: seq<Step>)
    requires forall j :: 0 <= j < |steps| ==> steps[j].Retry?
    ensures Run(steps) == [] && Consumed(steps) == |steps|
  {
    if steps != [] {
      assert forall j :: 0 <= j < |steps| - 1 ==> steps[1..][j] == steps[j + 1];
      RunAllRetries(steps[1..]);
    }
  }

  /** A non-empty list always comes from an accepting decision. */
  lemma {:induction false} RunFromAccept(steps: seq<Step>) returns (i: nat)
    requires Run(steps) != []
    ensures i < |steps| && steps[i].Accept? && steps[i].items == Run(steps)
  {
    if steps[0].Accept? {
      i := 0;
    } else {
      var j := RunFromAccept(steps[1..]);
      assert steps[1..][j] == steps[j + 1];
      i := j + 1;
    }
  }

  /** The decisions are read only up to the settling one. */
  lemma {:induction false} RunPrefix(steps: seq<Step>)
    ensures Run(steps[..Consumed(steps)]) == Run(steps)
  {
    if steps != [] && steps[0].Retry? {
      RunPrefix(steps[1..]);
      assert steps[..Consumed(steps)][1..] == steps[1..][..Consumed(steps[1..])];
    }
  }

  /** The three series endpoints: the last `n` values, the whole series, a date range. */
  datatype SeriesRequest =
    | Recent(code: nat, count: nat)
    | Full(code: nat)
    | Range(code: nat, start: string, end: string)

  /** One request as sent: what, whether TLS certificates are checked, and the timeout. */
  datatype Call = Call(request: SeriesRequest, verifyTls: bool, timeoutSeconds: nat)

  /** Days per requested value in the fallback window (`ultimos * 45`). */
  const DaysPerValue: nat := 45

  /** What the provider answers to attempt `k` (0, 1 or 2) of a request. */
  type Network = (SeriesRequest, nat) -> Attempt

  /** The requests `get_bcb` issues and the list it builds from; None when computing the window raised. */
  datatype Plan = Plan(requests: seq<SeriesRequest>, raw: Option<seq<Row>>)

  /**
   * `get_bcb(c, n)`: ask for the last `n` values; only when that yields `[]`,
   * ask for the range from `today - 45*n days` to `today`. `fetch` is what
   * one fetch loop returns for a request. Python raises when the window
   * starts before year 1 (the `timedelta` bound of 999999999 days is never
   * the binding one, since no valid date is that many days after 0001-01-01).
   */
  function RecentWithFallback(code: nat, n: nat, today: Date, fetch: SeriesRequest -> seq<Row>): (p: Plan)
    requires Valid(today)
    ensures |p.requests| >= 1 && p.requests[0] == Recent(code, n)
    ensures fetch(Recent(code, n)) != [] ==> p == Plan([Recent(code, n)], Some(fetch(Recent(code, n))))
  {
    var recent := fetch(Recent(code, n));
    if recent != [] then Plan([Recent(code, n)], Some(recent))
    else
      match DaysBack(today, DaysPerValue * n)
      case None => Plan([Recent(code, n)], None)
      case Some(ini) =>
        var range := Range(code, FormatDate(ini), FormatDate(today));
        Plan([Recent(code, n), range], Some(fetch(range)))
  }

  /**
   * The range request is issued exactly when the first fetch gave nothing and
   * the window start exists; the table is then built from what it returned.
   */
  lemma FallbackOnlyWhenEmpty(code: nat, n: nat, today: Date, fetch: SeriesRequest -> seq<Row>)
    requires Valid(today)
    ensures var p := RecentWithFallback(code, n, today, fetch);
      (|p.requests| == 2 <==> fetch(Recent(code, n)) == [] && Ordinal(today) - DaysPerValue * n >= 1)
      && (|p.requests| == 2 ==> p.raw == Some(fetch(p.requests[1])))
      && (p.raw.None? <==> fetch(Recent(code, n)) == [] && Ordinal(today) - DaysPerValue * n < 1)
  {
  }

  /**
   * The fallback window: both bounds are `DD/MM/YYYY` texts that read back as
   * dates, the end is today, and the start lies exactly `45 * n` days earlier.
   */
  lemma FallbackWindow(code: nat, n: nat, today: Date, fetch: SeriesRequest -> seq<Row>)
    requires Valid(today) && fetch(Recent(code, n)) == [] && Ordinal(today) - DaysPerValue * n >= 1
    ensures var p := RecentWithFallback(code, n, today, fetch);
      |p.requests| == 2 && p.requests[1].Range? && p.requests[1].code == code
      && Strptime(p.requests[1].end) == Some(today)
      && (exists ini :: Valid(ini) && Strptime(p.requests[1].start) == Some(ini)
            && Ordinal(ini) == Ordinal(today) - DaysPerValue * n)
  {
    var ini := DaysBack(today, DaysPerValue * n).value;
    StrptimeFormat(ini);
    StrptimeFormat(today);
  }
}
