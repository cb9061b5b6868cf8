/**
 * Calendar dates as Python's `datetime.date` sees them: the proleptic
 * Gregorian calendar for years 1..9999, day numbers as `date.toordinal()`
 * computes them, `date - timedelta(days=k)`, `strftime("%d/%m/%Y")`, and
 * the `%d/%m/%Y` reading that pandas' `to_datetime(..., format=...,
 * errors="coerce")` performs through the `_strptime` patterns.
 */
module Calendar {
  import opened Wrappers
  import opened PyText

  datatype Date = Date(year: int, month: int, day: int)

  const MinYear: int := 1
  const MaxYear: int := 9999

  predicate IsLeap(y: int) {
    y % 4 == 0 && (y % 100 != 0 || y % 400 == 0)
  }

  function DaysInMonth(y: int, m: int): (n: int)
    requires 1 <= m <= 12
    ensures 28 <= n <= 31
  {
    if m == 2 then (if IsLeap(y) then 29 else 28)
    else if m == 4 || m == 6 || m == 9 || m == 11 then 30
    else 31
  }

  /** A date `datetime.date` accepts. */
  predicate Valid(d: Date) {
    MinYear <= d.year <= MaxYear && 1 <= d.month <= 12 && 1 <= d.day <= DaysInMonth(d.year, d.month)
  }

  /** Python's date comparison: by year, then month, then day. */
  predicate Before(a: Date, b: Date) {
    a.year < b.year || (a.year == b.year && (a.month < b.month || (a.month == b.month && a.day < b.day)))
  }

  predicate NotAfter(a: Date, b: Date) {
    a == b || Before(a, b)
  }

  lemma BeforeIsTotal(a: Date, b: Date)
    ensures Before(a, b) || a == b || Before(b, a)
  {
  }

  /** Days of the years before `y` (CPython's `_days_before_year`). */
  function DaysBeforeYear(y: int): int
    requires y >= 1
  {
    var p := y - 1;
    365 * p + p / 4 - p / 100 + p / 400
  }

  /** Days of the months before `m` in year `y` (CPython's `_days_before_month`). */
  function DaysBeforeMonth(y: int, m: int): int
    requires 1 <= m <= 12
  {
    var t :=
      if m == 1 then 0 else if m == 2 then 31 else if m == 3 then 59 else if m == 4 then 90
      else if m == 5 then 120 else if m == 6 then 151 else if m == 7 then 181 else if m == 8 then 212
      else if m == 9 then 243 else if m == 10 then 273 else if m == 11 then 304 else 334;
    t + (if m > 2 && IsLeap(y) then 1 else 0)
  }

  /** `date.toordinal()`: 0001-01-01 is day 1. */
  function Ordinal(d: Date): int
    requires Valid(d)
  {
    DaysBeforeYear(d.year) + DaysBeforeMonth(d.year, d.month) + d.day
  }

  function YearLength(y: int): int {
    if IsLeap(y) then 366 else 365
  }

  lemma YearStep(y: int)
    requires y >= 1
    ensures DaysBeforeYear(y + 1) == DaysBeforeYear(y) + YearLength(y)
  {
    var p := y - 1;
    Step4(p);
    Step100(p);
    Step400(p);
    Divisors(y);
    CountStep(p, p / 4, p / 100, p / 400, y / 4, y / 100, y / 400, y % 4 == 0, y % 100 == 0, y % 400 == 0);
  }

  /** The leap-day count grows by one exactly in a leap year. */
  lemma CountStep(p: int, q4: int, q100: int, q400: int, r4: int, r100: int, r400: int, c4: bool, c100: bool, c400: bool)
    requires r4 == q4 + (if c4 then 1 else 0)
    requires r100 == q100 + (if c100 then 1 else 0)
    requires r400 == q400 + (if c400 then 1 else 0)
    requires (c400 ==> c100) && (c100 ==> c4)
    ensures 365 * (p + 1) + r4 - r100 + r400 == 365 * p + q4 - q100 + q400 + (if c4 && (!c100 || c400) then 366 else 365)
  {
  }

  /** A multiple of 400 is one of 100, and a multiple of 100 is one of 4. */
  lemma Divisors(y: int)
    ensures y % 400 == 0 ==> y % 100 == 0
    ensures y % 100 == 0 ==> y % 4 == 0
  {
    if y % 400 == 0 {
      var k := y / 400;
      assert y == 100 * (4 * k);
      MultipleOf100(4 * k);
    }
    if y % 100 == 0 {
      var k := y / 100;
      assert y == 4 * (25 * k);
      MultipleOf4(25 * k);
    }
  }

  lemma MultipleOf100(k: int)
    ensures (100 * k) % 100 == 0
  {
  }

  lemma MultipleOf4(k: int)
    ensures (4 * k) % 4 == 0
  {
  }

  lemma Step4(p: int)
    requires p >= 0
    ensures (p + 1) / 4 == p / 4 + (if (p + 1) % 4 == 0 then 1 else 0)
  {
  }

  lemma Step100(p: int)
    requires p >= 0
    ensures (p + 1) / 100 == p / 100 + (if (p + 1) % 100 == 0 then 1 else 0)
  {
  }

  lemma Step400(p: int)
    requires p >= 0
    ensures (p + 1) / 400 == p / 400 + (if (p + 1) % 400 == 0 then 1 else 0)
  {
  }

  lemma MonthStep(y: int, m: int)
    requires 2 <= m <= 12
    ensures DaysBeforeMonth(y, m) == DaysBeforeMonth(y, m - 1) + DaysInMonth(y, m - 1)
  {
  }

  lemma LastMonthEnds(y: int)
    ensures DaysBeforeMonth(y, 12) + DaysInMonth(y, 12) == YearLength(y)
  {
  }

  lemma {:induction false} MonthsFitInYear(y: int, m: int)
    requires 1 <= m <= 12
    ensures DaysBeforeMonth(y, m) + DaysInMonth(y, m) <= YearLength(y)
    decreases 12 - m
  {
    if m < 12 {
      MonthsFitInYear(y, m + 1);
      MonthStep(y, m + 1);
    } else {
      LastMonthEnds(y);
    }
  }

  lemma {:induction false} MonthOrder(y: int, m: int, n: int)
    requires 1 <= m < n <= 12
    ensures DaysBeforeMonth(y, m) + DaysInMonth(y, m) <= DaysBeforeMonth(y, n)
    decreases n - m
  {
    MonthStep(y, n);
    if m < n - 1 {
      MonthOrder(y, m, n - 1);
    }
  }

  lemma {:induction false} YearOrder(y: int, z: int)
    requires 1 <= y < z
    ensures DaysBeforeYear(y) + YearLength(y) <= DaysBeforeYear(z)
    decreases z - y
  {
    YearStep(y);
    if y + 1 < z {
      YearOrder(y + 1, z);
      YearStep(y + 1);
    }
  }

  /** Python's order on dates is the order of their day numbers. */
  lemma OrdinalOrder(a: Date, b: Date)
    requires Valid(a) && Valid(b) && Before(a, b)
    ensures Ordinal(a) < Ordinal(b)
  {
    if a.year < b.year {
      MonthsFitInYear(a.year, a.month);
      YearOrder(a.year, b.year);
    } else if a.month < b.month {
      MonthOrder(a.year, a.month, b.month);
    }
  }

  /** Different dates have different day numbers. */
  lemma OrdinalInjective(a: Date, b: Date)
    requires Valid(a) && Valid(b) && Ordinal(a) == Ordinal(b)
    ensures a == b
  {
    BeforeIsTotal(a, b);
    if Before(a, b) {
      OrdinalOrder(a, b);
    } else if Before(b, a) {
      OrdinalOrder(b, a);
    }
  }

  lemma FirstOrdinal()
    ensures Valid(Date(1, 1, 1)) && Ordinal(Date(1, 1, 1)) == 1
  {
  }

  /** The day before `d`, or None before 0001-01-01 (where Python raises `OverflowError`). */
  function PrevDay(d: Date): (r: Option<Date>)
    requires Valid(d)
    ensures r.Some? ==> Valid(r.value) && Ordinal(r.value) == Ordinal(d) - 1
    ensures r.None? <==> d == Date(1, 1, 1)
  {
    if d.day > 1 then Some(Date(d.year, d.month, d.day - 1))
    else if d.month > 1 then
      MonthStep(d.year, d.month);
      Some(Date(d.year, d.month - 1, DaysInMonth(d.year, d.month - 1)))
    else if d.year > MinYear then
      YearStep(d.year - 1);
      LastMonthEnds(d.year - 1);
      Some(Date(d.year - 1, 12, 31))
    else None
  }

  /** `d - timedelta(days=k)`: None when the result would fall before year 1. */
  function DaysBack(d: Date, k: nat): (r: Option<Date>)
    requires Valid(d)
    ensures r.Some? <==> Ordinal(d) - k >= 1
    ensures r.Some? ==> Valid(r.value) && Ordinal(r.value) == Ordinal(d) - k
    decreases k
  {
    if k == 0 then Some(d)
    else
      match PrevDay(d)
      case None => FirstOrdinal(); None
      case Some(p) => DaysBack(p, k - 1)
  }

  // ----- strftime("%d/%m/%Y") -----

  function Pad2(n: int): (s: string)
    requires 0 <= n < 100
    ensures |s| == 2 && AllDigits(s)
  {
    [DigitChar(n / 10), DigitChar(n % 10)]
  }

  function Pad4(n: int): (s: string)
    requires 0 <= n < 10000
    ensures |s| == 4 && AllDigits(s)
  {
    Pad2(n / 100) + Pad2(n % 100)
  }

  /** `d.strftime("%d/%m/%Y")` */
  function FormatDate(d: Date): (s: string)
    requires Valid(d)
    ensures |s| == 10 && s[2] == '/' && s[5] == '/'
  {
    Pad2(d.day) + ['/'] + Pad2(d.month) + ['/'] + Pad4(d.year)
  }

  // ----- the %d/%m/%Y patterns of _strptime -----

  predicate InRange(c: char, lo: char, hi: char) {
    lo <= c <= hi
  }

  /** `%d`: `3[01]|[12]\d|0[1-9]|[1-9]| [1-9]` */
  predicate DayToken(s: string) {
    (|s| == 1 && InRange(s[0], '1', '9'))
    || (|s| == 2 && (
         (s[0] == '3' && InRange(s[1], '0', '1'))
      || (InRange(s[0], '1', '2') && IsDigit(s[1]))
      || ((s[0] == '0' || s[0] == ' ') && InRange(s[1], '1', '9'))))
  }

  /** `%m`: `1[0-2]|0[1-9]|[1-9]` */
  predicate MonthToken(s: string) {
    (|s| == 1 && InRange(s[0], '1', '9'))
    || (|s| == 2 && ((s[0] == '1' && InRange(s[1], '0', '2')) || (s[0] == '0' && InRange(s[1], '1', '9'))))
  }

  /** `%Y`: `\d\d\d\d` */
  predicate YearToken(s: string) {
    |s| == 4 && AllDigits(s)
  }

  /** The number a `%d` or `%m` token denotes (a leading space counts as nothing). */
  function TokenValue(s: string): (n: nat)
    requires DayToken(s) || MonthToken(s)
    ensures DayToken(s) ==> 1 <= n <= 31
    ensures MonthToken(s) ==> 1 <= n <= 12
  {
    if s[0] == ' ' then DigitValue(s[1])
    else if |s| == 1 then DigitValue(s[0])
    else DigitValue(s[0]) * 10 + DigitValue(s[1])
  }

  function YearValue(s: string): (n: nat)
    requires YearToken(s)
    ensures n < 10000
  {
    DigitValue(s[0]) * 1000 + DigitValue(s[1]) * 100 + DigitValue(s[2]) * 10 + DigitValue(s[3])
  }

  /**
   * `datetime.strptime(s, "%d/%m/%Y").date()`: the text must be a day token,
   * a slash, a month token, a slash and exactly four digits, and the numbers
   * must name a real calendar day; every other text is None.
   */
  function Strptime(s: string): (r: Option<Date>)
    ensures r.Some? ==> Valid(r.value)
  {
    var dd := BeforeFirst(s, '/');
    var rest := AfterFirst(s, '/');
    var mm := BeforeFirst(rest, '/');
    var yy := AfterFirst(rest, '/');
    if '/' in s && '/' in rest && DayToken(dd) && MonthToken(mm) && YearToken(yy) then
      var d := Date(YearValue(yy), TokenValue(mm), TokenValue(dd));
      if Valid(d) then Some(d) else None
    else None
  }

  /** The dates a `datetime64[ns]` column can hold (midnight of 1677-09-22 to 2262-04-11). */
  predicate InNsRange(d: Date) {
    NotAfter(Date(1677, 9, 22), d) && NotAfter(d, Date(2262, 4, 11))
  }

  /** `pd.to_datetime(s, format="%d/%m/%Y", errors="coerce")` for one text: None is `NaT`. */
  function ParseDate(s: string): (r: Option<Date>)
    ensures r.Some? ==> Valid(r.value) && InNsRange(r.value)
    ensures r.Some? ==> Strptime(s) == r
  {
    match Strptime(s)
    case Some(d) => if InNsRange(d) then Some(d) else None
    case None => None
  }

  lemma Pad2Token(n: int)
    requires 1 <= n <= 31
    ensures DayToken(Pad2(n)) && TokenValue(Pad2(n)) == n
    ensures n <= 12 ==> MonthToken(Pad2(n))
  {
  }

  lemma Pad4Token(n: int)
    requires 0 <= n < 10000
    ensures YearToken(Pad4(n)) && YearValue(Pad4(n)) == n
  {
    var s := Pad4(n);
    assert s[0] == DigitChar(n / 100 / 10) && s[1] == DigitChar(n / 100 % 10);
    assert s[2] == DigitChar(n % 100 / 10) && s[3] == DigitChar(n % 100 % 10);
  }

  lemma DigitsHaveNoSlash(s: string)
    requires AllDigits(s)
    ensures '/' !in s
  {
  }

  lemma SplitFormatted(p: string, q: string, r: string)
    requires AllDigits(p) && AllDigits(q)
    ensures BeforeFirst(p + ['/'] + q + ['/'] + r, '/') == p
    ensures AfterFirst(p + ['/'] + q + ['/'] + r, '/') == q + ['/'] + r
    ensures BeforeFirst(q + ['/'] + r, '/') == q
    ensures AfterFirst(q + ['/'] + r, '/') == r
  {
    SplitOuter(p, q + ['/'] + r);
    assert p + ['/'] + q + ['/'] + r == p + ['/'] + (q + ['/'] + r);
    SplitOuter(q, r);
  }

  lemma SplitOuter(p: string, rest: string)
    requires AllDigits(p)
    ensures BeforeFirst(p + ['/'] + rest, '/') == p
    ensures AfterFirst(p + ['/'] + rest, '/') == rest
  {
    DigitsHaveNoSlash(p);
    SplitAtFirst(p, '/', rest);
  }

  /** Reading back what `strftime("%d/%m/%Y")` wrote gives the same date. */
  lemma StrptimeFormat(d: Date)
    requires Valid(d)
    ensures Strptime(FormatDate(d)) == Some(d)
  {
    var p, q, r := Pad2(d.day), Pad2(d.month), Pad4(d.year);
    SplitFormatted(p, q, r);
    Pad2Token(d.day);
    Pad2Token(d.month);
    Pad4Token(d.year);
    assert '/' in FormatDate(d) by { assert FormatDate(d)[2] == '/'; }
    assert '/' in q + ['/'] + r by { assert (q + ['/'] + r)[2] == '/'; }
  }

  /** The pandas reading of a formatted date is the date itself, within the `datetime64[ns]` range. */
  lemma ParseDateFormat(d: Date)
    requires Valid(d)
    ensures ParseDate(FormatDate(d)) == if InNsRange(d) then Some(d) else None
  {
    StrptimeFormat(d);
  }

  /**
   * Well-formed tokens that name a day past the month's end (`31/04/2024`,
   * `29/02/2023`) read as `NaT`: the calendar check, not the pattern, rejects them.
   */
  lemma StrptimeRejectsPastMonthEnd(y: int, m: int, day: int)
    requires MinYear <= y <= MaxYear && 1 <= m <= 12 && DaysInMonth(y, m) < day <= 31
    ensures Strptime(Pad2(day) + ['/'] + Pad2(m) + ['/'] + Pad4(y)) == None
  {
    SplitFormatted(Pad2(day), Pad2(m), Pad4(y));
    Pad2Token(day);
    Pad2Token(m);
    Pad4Token(y);
  }

  /** `29/02` exists only in leap years. */
  lemma ParseDateLeapDay(y: int)
    requires 1677 < y < 2262
    ensures var d := Date(y, 2, 29);
      (IsLeap(y) ==> Valid(d) && ParseDate(FormatDate(d)) == Some(d))
  {
    var d := Date(y, 2, 29);
    if IsLeap(y) {
      ParseDateFormat(d);
    }
  }

  /** `DateOffset(months=12)` backwards: the same day a year earlier, clamped to the month's end. */
  function YearEarlier(d: Date): (r: Option<Date>)
    requires Valid(d)
    ensures r.Some? ==> Valid(r.value) && Before(r.value, d)
    ensures r.Some? <==> d.year > MinYear && InNsRange(Date(d.year - 1, d.month, Min(d.day, DaysInMonth(d.year - 1, d.month))))
    ensures r.Some? ==> r.value.year == d.year - 1 && r.value.month == d.month
    ensures r.Some? ==> r.value.day == if d.day <= DaysInMonth(d.year - 1, d.month) then d.day else DaysInMonth(d.year - 1, d.month)
  {
    if d.year > MinYear then
      var e := Date(d.year - 1, d.month, Min(d.day, DaysInMonth(d.year - 1, d.month)));
      if InNsRange(e) then Some(e) else None
    else None
  }

  /** Twelve months back are 365 or 366 days back, the month-end clamp included. */
  lemma YearEarlierSpan(d: Date)
    requires Valid(d) && YearEarlier(d).Some?
    ensures var n := Ordinal(d) - Ordinal(YearEarlier(d).value); n == 365 || n == 366
  {
    var e := YearEarlier(d).value;
    YearStep(d.year - 1);
    ConsecutiveLeap(d.year - 1);
    EarlierOrdinal(d, e, YearLength(d.year - 1));
  }

  /** Two consecutive years are never both leap years. */
  lemma ConsecutiveLeap(y: int)
    ensures !(IsLeap(y) && IsLeap(y + 1))
  {
  }

  lemma EarlierOrdinal(d: Date, e: Date, len: int)
    requires Valid(d) && Valid(e) && e.year == d.year - 1 >= 1 && e.month == d.month
    requires e.day == if d.day <= DaysInMonth(e.year, d.month) then d.day else DaysInMonth(e.year, d.month)
    requires DaysBeforeYear(d.year) == DaysBeforeYear(e.year) + len
    requires len == YearLength(e.year)
    requires !(IsLeap(e.year) && IsLeap(d.year))
    ensures var n := Ordinal(d) - Ordinal(e); n == 365 || n == 366
  {
  }

  function Min(a: int, b: int): int {
    if a <= b then a else b
  }

  /** The later of two dates (Python's `max`). */
  function Later(a: Date, b: Date): (r: Date)
    ensures NotAfter(a, r) && NotAfter(b, r)
    ensures r == a || r == b
  {
    if Before(a, b) then b else a
  }
}
