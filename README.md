# DashEQI data layer in Dafny

DashEQI is a Streamlit dashboard of Brazilian macroeconomic series and global
market quotes. This project models the deterministic core behind it: how the
two copies of the data layer (the multi-page `data.py` and the self-contained
`app.py`) fetch, read and tabulate what the providers send, and the pure
display helpers of `ui.py`. HTTP, pandas and Streamlit are replaced by
values: a provider answer is an `Attempt` (a response with status,
`Content-Type` and body, or the exception `requests.get` raised), the network
is a function from a request and an attempt number to an `Attempt`, and a
table is a sequence of points.

Modules, one per concern:

- `Wrappers` (`pytext.dfy`): `Option`, and `Outcome` for a call that may raise an exception nobody catches.
- `PyText` (`pytext.dfy`): the Python `str` operations the code relies on (`strip` with Python's whitespace set, `replace`, `in`, `lower`, `split`, slicing, `str(int)`).
- `LocaleNumber` (`locale_number.dfy`): `parse_bcb_valor` / `_parse`, with the locale rule as a text-to-text function and a plain decimal grammar.
- `Calendar` (`calendar.dfy`): proleptic Gregorian dates with CPython ordinals, `%d/%m/%Y` parsing and formatting, the `datetime64[ns]` range, day and year offsets.
- `Series` (`series.dfy`): the `(data, valor)` table: which records survive, the sort by date, the date window, the first and last dates.
- `Provider` (`provider.dfy`): attempts, retry decisions, the three-attempt run, the series requests, and the "recent with range fallback" plan of `get_bcb`.
- `Quote` (`quote.dfy`): the quote snapshot (session, price and previous-close fallback chains with Python `or`, change metrics) and the pairing of history timestamps with closes.
- `DataLayer` (`data_layer.dfy`): `data.py`.
- `Ui` (`ui.dfy`): `ui.py`.
- `App` (`app.dfy`): the parts of `app.py` that differ from `data.py` and `ui.py`, each related to the other copy by a lemma, and the date window of the charts page.

The two fetch loops are methods with a `while` loop, each proved against a
specification function (`DataLayer.DataFetch`, `App.AppFetch`) that the
getters, which are functions, use in their place.

## Model

| member | source | states |
|---|---|---|
| LocaleNumber.Clean | data.py:69 | the stripped text keeps no no-break space and no space, and is never longer |
| LocaleNumber.CleanIgnoresPadding | data.py:69 | whitespace around a text (Python's whitespace set, not only spaces) does not change the cleaned text |
| LocaleNumber.CleanDropsInnerSpace | data.py:69 | a space or no-break space inside the text is deleted wherever it stands |
| LocaleNumber.CleanKeepsOthers | data.py:69 | once stripped, every other character is kept as often as it occurs |
| LocaleNumber.ParseValorIgnoresPadding | data.py:66-75 | surrounding whitespace does not change the value read |
| LocaleNumber.ParseValorIgnoresInnerSpace | data.py:66-75 | a space or no-break space inside a number (`"1 234,5"`) does not change the value read |
| LocaleNumber.Normalize | data.py:69-71 | the text given to `float()` holds no no-break space, no space and no comma |
| LocaleNumber.NormalizeCountsPoints | data.py:70-71 | with a comma present, the normal form has exactly as many points as the cleaned text had commas |
| LocaleNumber.NormalizeBrazilian | data.py:69-71 | a signed `1.234,56`-shaped text normalises to the sign, the digits without grouping dots, a point and the decimals |
| LocaleNumber.ParseValor | data.py:66-75 | None gives None, a JSON number gives itself, a text gives a number exactly when its normal form is a plain decimal; `_parse` at app.py:212-217 applies the same rule |
| LocaleNumber.ParseDecimalText | data.py:73 | a rendered plain decimal reads back as the same decimal |
| LocaleNumber.ParseDecimalAlphabet | data.py:72-75 | an accepted text is made of signs, digits and at most one point |
| LocaleNumber.ParseValorRejects | data.py:72-75 | a character outside that alphabet after normalisation gives None and no exception |
| LocaleNumber.ParseValorBrazilian | data.py:66-75 | `'1.234,56'`-shaped texts read as the ungrouped decimal (`1234.56`, `13,25` as `13.25`) |
| LocaleNumber.ParseValorPlain | data.py:70-73 | a text already written with a point and no comma reads as written |
| LocaleNumber.ParseValorWord | data.py:72-75 | a word reads as None |
| Calendar.Strptime | data.py:83 | only a calendar date is accepted (a day past its month's end is not) |
| Calendar.ParseDate | data.py:83 | an accepted text is a calendar date inside the `datetime64[ns]` range and agrees with `strptime` |
| Calendar.StrptimeFormat | data.py:83 | every valid date formatted as `DD/MM/YYYY` parses back to itself |
| Calendar.ParseDateFormat | data.py:83 | a formatted date survives `to_datetime` exactly when it lies in the nanosecond range |
| Calendar.StrptimeRejectsPastMonthEnd | data.py:83 | well-formed texts naming a day past the month's end (`31/04`, `29/02` of a common year) are rejected |
| Calendar.ParseDateLeapDay | data.py:83 | `29/02` of a leap year in range is accepted |
| Calendar.OrdinalOrder | data.py:114 | day numbers follow the calendar order |
| Calendar.OrdinalInjective | data.py:114 | distinct dates have distinct day numbers |
| Calendar.DaysBack | data.py:114 | `today - timedelta(days=k)` exists exactly when it does not fall before 0001-01-01, and is `k` days earlier |
| Calendar.FormatDate | data.py:114-115 | `strftime("%d/%m/%Y")` gives ten characters with slashes at 2 and 5 |
| Calendar.YearEarlier | app.py:402 | `DateOffset(months=12)` keeps the month, takes the year before, and clamps the day to that month's length (29 February to 28 February); it exists exactly when it stays in the timestamp range |
| Calendar.YearEarlierSpan | app.py:402 | twelve months back is 365 or 366 days earlier |
| Calendar.Later | app.py:402 | `max` of two dates is one of them and not before either |
| Series.RowPoint | data.py:83-85 | a record gives a point exactly when its `data` reads as a date and its `valor` as a number, and the point holds those two |
| Series.KeptExactly | data.py:83-85 | a point survives `dropna` exactly when some record reads as it; never more points than records |
| Series.KeptNeedsColumns | data.py:81-82 | without a `data` or a `valor` key anywhere no record survives |
| Series.SortByDate | data.py:85 | the table is sorted by date and a permutation of its input |
| Series.Within | app.py:412-413 | the selection is no longer than the table and every row lies in the window |
| Series.WithinExactly | app.py:412-413 | a row is selected exactly when it is in the table and inside the window |
| Series.WithinSorted | app.py:413 | the selection of a sorted table is sorted, so the table order is kept |
| Series.WithinAll | app.py:409-413 | a window covering every row selects the whole table |
| Series.Earliest | app.py:401 | `min` of the dates is one of them and not after any |
| Series.Latest | app.py:401 | `max` of the dates is one of them and not before any |
| Series.SortedExtremes | app.py:401 | on a sorted table the extremes are the first and last rows |
| DataLayer.BuildTable | data.py:77-86 | the table is sorted by date, a permutation of the surviving records, and never longer than the list |
| DataLayer.BuildTableIsSortedKept | data.py:78-85 | the early exits for an empty list or a missing column give exactly what the filter would |
| DataLayer.BuildTableRows | data.py:83-86 | a point is in the table exactly when some record reads as it: failing rows are dropped, not substituted |
| DataLayer.BuildTableKeepsDuplicates | data.py:85 | two identical records give two rows: dates are not de-duplicated |
| DataLayer.DataStep | data.py:92-105 | an attempt is accepted exactly when usable (200, not HTML, non-empty list), retried exactly on timeouts, connection errors, other statuses, HTML and other JSON, stopped on any other exception |
| DataLayer.BcbFetch | data.py:89-106 | returns what the decision run gives, sends at most three requests, each with `verify=False` and a 20 s timeout |
| DataLayer.DataFetchFirstUsable | data.py:98-99 | the first usable response after transient failures is returned, after that many attempts |
| DataLayer.DataFetchStops | data.py:104-106 | a stopping exception after transient failures returns `[]` at once |
| DataLayer.DataFetchExhausted | data.py:90-106 | three transient failures make three attempts and return `[]` |
| DataLayer.DataFetchFromUsable | data.py:98-99 | anything returned came from a usable response |
| Provider.RunSettlesAt | data.py:90-106 | retries up to the first settling decision return what it accepts, or `[]` |
| Provider.RunAllRetries | data.py:106 | only retries: every attempt is made and the list is empty |
| Provider.RunFromAccept | data.py:90-106 | a non-empty result is the list of some accepting attempt |
| Provider.RunPrefix | data.py:90-106 | decisions after the settling one are never read |
| Provider.RecentWithFallback | data.py:110-117 | the recent request comes first, and a non-empty answer is used alone |
| Provider.FallbackOnlyWhenEmpty | data.py:111-116 | the range request is made exactly when the recent list is empty and the window start exists; the table is built from its answer |
| Provider.FallbackWindow | data.py:113-116 | the range bounds are `DD/MM/YYYY` texts of today and of the day `45 n` days earlier |
| DataLayer.GetBcb | data.py:109-117 | the result is sorted, and it raises only when the fallback window starts before year 1 |
| DataLayer.GetBcbRecent | data.py:111-117 | a non-empty recent list is built directly and the range is not requested |
| DataLayer.GetBcbFallback | data.py:112-117 | an empty recent list is replaced by the range `[today - 45 n days, today]`, whose answer is built |
| DataLayer.GetBcbFull | data.py:120-121 | the table of the whole series is sorted and a permutation of its surviving records |
| DataLayer.GetBcbRange | data.py:124-126 | the same for a range with the bounds passed through |
| Quote.GetOr | data.py:138 | `.get(k, d)` gives what `.get(k)` gives except on an absent key, where it gives `d`; a key holding null gives null, not `d` |
| Quote.Or | data.py:144-149 | `a or b` is one of its operands, and is truthy exactly when one of them is; a falsy `a` (None, `0`, `""`) gives `b` |
| Quote.StampOf | data.py:154-155 | no date exactly for a falsy time; an epoch exactly for a non-zero number, and it is that number; an exception exactly for a non-empty text |
| Quote.Finish | data.py:138-166 | the market state is echoed; live, extended and closed follow it and exactly one holds; the price is never null; both changes exist exactly when the previous close is truthy and satisfy `price = prev + chg_v`, `chg_p = chg_v / prev * 100`; no close date unless closed |
| Quote.AbsentStateIsClosed | data.py:138-141 | without `marketState` the session is closed with state `CLOSED` |
| Quote.SessionChains | data.py:143-155 | live and extended quotes take the open fallback chains, closed ones the closed chains and the close stamp |
| Quote.NoQuoteExactly | data.py:157-168 | `{}` exactly when the price is None, or converting the close date or subtracting raises |
| Quote.ZeroPriceFallsThrough | data.py:144 | a zero regular price falls through to the previous close |
| Quote.ZeroPrevFallsThrough | data.py:145 | a zero chart previous close falls through to `previousClose` |
| Quote.NoChangeWithoutPrev | data.py:160-161 | a closed quote whose previous close is missing or zero has no change metrics |
| DataLayer.CloseStamp | data.py:150-155 | the close date comes from the last timestamp, else from `regularMarketTime` |
| DataLayer.GetQuote | data.py:130-168 | `{}` for a failed request, an error status (400 to 599), an unreadable body, no result or no `meta`; in every other case the snapshot of the first result's `meta`, dated by `CloseStamp`, and every quote is of that form |
| DataLayer.GetQuoteClosedUsesLastTimestamp | data.py:150-152 | a closed quote with timestamps is dated by the last one |
| Quote.Pair | data.py:179-180 | pairing never yields more rows than timestamps |
| Quote.PairExactly | data.py:179-180 | a row is kept exactly when some index holds both its timestamp and its close |
| Quote.PairConcat | data.py:179-180 | pairing works piecewise, so provider order is kept |
| Quote.PairComplete | data.py:179-180 | with nothing missing every index gives its row, in order |
| Quote.PairKeepsDescent | data.py:179-180 | timestamps out of order stay out of order: no sort |
| Quote.HistTable | data.py:177-180 | present arrays of equal length whose present epochs are all in range give their pairing, and a non-empty table arises only so; a missing array gives `[]` |
| Quote.HistTableOutOfRange | data.py:179-180 | one epoch outside the nanosecond range empties the whole table |
| Quote.HistTableRows | data.py:177-180 | every row pairs a close with an in-range epoch of the same index |
| Quote.HistTableLengthMismatch | data.py:179 | arrays of different lengths give the empty table |
| DataLayer.GetHist | data.py:171-182 | a non-error reply with a result gives exactly that result's table, and any other reply gives `[]` |
| Ui.Fmt | ui.py:13-14 | `fmt(None)` is the em dash |
| Ui.FmtTransposes | ui.py:15-19 | grouping commas become dots and the decimal point a comma; without decimals only the dotted integer part, with no trailing comma |
| Ui.FmtCommas | ui.py:16-19 | the output holds one comma with decimals and none without |
| Ui.DottedHasNoComma | ui.py:17 | the integer part keeps no comma |
| Ui.FmtRoundTrip | ui.py:15-19 | normalising the output with the provider's locale rule gives the ungrouped en-US digits back |
| Ui.HexValue | ui.py:24 | a hex digit is worth less than 16 |
| Ui.LStripChar | ui.py:23 | `lstrip("#")` drops a prefix made only of `#`s and leaves no leading `#` |
| Ui.Channel | ui.py:24 | two hex digits make a byte (at most 255) |
| Ui.HexPair | ui.py:24 | `int(_, 16)` reads two hex digits as `16 hi + lo` |
| Ui.HexPlainInt | ui.py:24 | `int(_, 16)` reads a string of hex digits as the number it denotes |
| Ui.HexIsPlain | ui.py:24 | hex digits are not whitespace, so stripping keeps them |
| Ui.SliceChannel | ui.py:24 | a two-character slice of hex digits reads as its byte |
| Ui.RgbaOfSix | ui.py:24-25 | six hex digits give the three bytes in `rgba(r,g,b,a)` |
| Ui.HexRgba | ui.py:22-25 | a result exists only with at least five characters after the `#`s and is an `rgba(r,g,b,a)` text |
| Ui.HexRgbaSix | ui.py:22-25 | after the leading `#`s six hex digits give the three bytes |
| Ui.HexRgbaRoundTrip | ui.py:22-25 | writing three bytes as `#rrggbb` and decoding gives them back |
| Ui.HexRgbaShort | ui.py:24 | four characters or fewer after the `#`s leave an empty slice and Python raises |
| Ui.KpiCard | ui.py:29-68 | a delta exactly when `chg_p` is given, up for `chg_p >= 0`, of magnitude `abs(chg_p)`; help and caption exactly when `sub` is non-empty; the ribbon is `RibbonFor`'s and the card raises exactly when it does; the copy at app.py:167-175 makes the same decisions |
| Ui.RibbonFor | ui.py:35-48 | raises exactly on an open extended quote whose `market` is not a text (`"PRE" in None`); a closing date only for a closed quote with a non-empty date text, which it shows; "last close" only when closed; pre- or post-market only when open and extended |
| Ui.RibbonClosed | ui.py:42-45 | a closed quote shows its close date when there is a non-empty one, and "last close" otherwise |
| Ui.RibbonFollowsSession | ui.py:36-48 | on a quote from the data layer the ribbon never raises and follows the session: none exactly when live, pre-market exactly for `PRE`/`PREPRE`, post-market exactly for `POST`/`POSTPOST`, and a closed quote shows its close date when it has one |
| App.Build | app.py:219-225 | raises exactly when there are records with `data` but none with `valor`; otherwise sorted, a permutation of the surviving records |
| App.BuildMatchesDataLayer | app.py:219-225 | where `_build` returns it returns `_build_df`'s table |
| App.AppStep | app.py:228-235 | an attempt is accepted exactly when usable, and never stops the loop |
| App.Fetch | app.py:227-236 | returns what the decision run gives, sends at most three requests, each with `verify=False` and a 20 s timeout |
| App.AppFetchFirstUsable | app.py:231-233 | the first usable response is returned, whatever failed before it |
| App.AppFetchNoneUsable | app.py:236 | without a usable response three attempts are made and `[]` returned |
| App.FetchCopiesAgree | app.py:227-236 | with no stopping exception the two loops return the same list after the same attempts |
| App.FetchCopiesDiverge | app.py:235 | a non-JSON body ends the other loop with `[]` but this one goes on to a later usable response |
| App.GetBcb | app.py:239-244 | sorted; raises exactly when the window starts before year 1 or the list used lacks `valor` |
| App.GetBcbRecent | app.py:240-244 | a non-empty recent list is built directly and the range is not requested |
| App.GetBcbFallback | app.py:241-244 | an empty recent list is replaced by the range `[today - 45 n days, today]` |
| App.GetBcbFull | app.py:247-248 | raises exactly when the list lacks `valor`; otherwise sorted and a permutation |
| App.GetBcbRange | app.py:251-252 | the same for a range |
| App.GetQuote | app.py:256-271 | `{}` for a failed request, an unreadable body, no result or no `meta`; in every other case, whatever the status, the snapshot of the first result's `meta` dated from `regularMarketTime`, and every quote is of that form |
| App.GetQuoteIgnoresStatus | app.py:258 | the status code plays no part |
| App.GetQuoteClosedUsesMarketTime | app.py:266 | a closed quote is dated from `regularMarketTime` even when timestamps exist |
| App.GetQuoteCopiesAgree | app.py:256-271 | on a non-error reply without timestamps both copies give the same quote |
| App.GetHist | app.py:274-279 | a reply with a result gives exactly that result's table, whatever the status; any other reply gives `[]` |
| App.GetHistCopiesAgree | app.py:276 | the two readers agree except on error statuses, which only the other one rejects |
| App.AppFmt | app.py:152 | `fmt(None)` is the em dash |
| App.AppFmtMatchesUi | app.py:151-154 | on en-US formatted numbers both copies of `fmt` agree |
| App.AppHexRgba | app.py:156-157 | as in ui.py, a result exists only with at least five characters after the `#`s and is an `rgba(r,g,b,a)` text |
| App.AppHexRgbaSix | app.py:156-157 | on six hex digits both copies of `hex_rgba` give the three bytes |
| App.AppRgbaOfSix | app.py:157 | six hex digits give the three bytes |
| App.TailChannel | app.py:157 | `h[4:]` reads as the number all its hex digits denote |
| App.AppRgbaOfLong | app.py:157 | with more than six hex digits the blue channel is the value of all trailing digits |
| App.KeptDatesValid | app.py:401 | the dates of a built table are calendar dates in the timestamp range |
| App.DefaultStart | app.py:401-402 | the default start is the later of the first date and twelve months before the last, so it is one of them, not before either, and not after the last date; it raises exactly when the year-earlier date leaves the range |
| App.WindowFilter | app.py:411-413 | the selection exists exactly when `d_ini < d_fim` and is no longer than the table |
| App.WindowFilterExactly | app.py:411-413 | a row is selected exactly when it lies in the window, and a sorted table gives a sorted selection |
| App.WindowFilterWhole | app.py:409-413 | the "whole series" window selects the whole table |

## Left out

- HTTP itself: headers, URLs of the quote endpoints, their 10 s and 12 s timeouts, and the `time.sleep` pauses between attempts. An attempt is an input value, and the sleeps change nothing observable in the model.
- `st.cache_data` memoisation and its TTLs: library behaviour outside the code.
- Streamlit rendering, CSS, the Plotly figure helpers, `sec_title`, `page_header`, the sidebar and navigation, and the 60-second rerun loop.
- LocaleNumber.ParseValor: Python's `float()` also accepts exponents, `inf`/`nan`, underscores and non-ASCII digits; the model reads a plain decimal only. A JSON boolean cell is not modelled.
- Series.DateOf: a cell that is not a text (a number, say) is treated as `NaT`, which is what the format-driven `to_datetime` gives in the common case.
- Series.SortByDate: the order of rows with equal dates is not claimed, because pandas' default sort does not fix it.
- Ui.HexInt: `int(_, 16)` also accepts a `0x` prefix and underscores between digits; those are not in the model's grammar.
- Ui.Fmt, App.AppFmt: begin from the text `f"{v:,.{dec}f}"` produces; rounding to `dec` places is floating point and is not modelled.
- Ui.KpiCard: the delta is the sign and the magnitude of `chg_p`; its two-decimal rendering and the `label`/`value` texts are not modelled; `invert` is unused in the code.
- Quote.Finish: `close_date` is the epoch it is built from; the conversion by `datetime.fromtimestamp` in the local time zone and its `strftime` are not modelled.
- Calendar.Strptime: day, month and year tokens are ASCII digits only; Python's `\d` and `int()` also accept other Unicode decimal digits.
- Provider.SeriesRequest: the text of the request URLs is not modelled; a request is identified by its endpoint and parameters.
- Calendar.FormatDate: pads the year to four digits; Python's `strftime` output for years before 1000 is platform-dependent.
- Quote.StampOf: any numeric epoch is accepted; the range limits of `datetime.fromtimestamp` are not modelled.
- `pages/inicio.py`, `exportar.py` and `sidebar.py`: page rendering and CSV export only.

## Notes on the code

- Both fetch loops send `verify=False` on every attempt, not only on a late retry (`BcbFetch`, `Fetch`).
- The series table keeps duplicate dates and is sorted in non-decreasing order (`BuildTableKeepsDuplicates`).
- `get_bcb` raises when the fallback window would start before year 1, and `app.py`'s `_build` raises when records have `data` but no `valor` (`Outcome.Raised`).
- `data.py`'s loop stops at once on any exception other than a timeout or a connection error; `app.py`'s loop retries on every exception (`FetchCopiesDiverge`).
- The history's `dropna()` looks at both columns, so a null timestamp drops the row as well as a null close; one epoch outside the nanosecond range empties the whole table (`HistTableOutOfRange`); the rows keep provider order and are not sorted (`PairKeepsDescent`).
- `data.py` dates a closed quote from the last history timestamp; `app.py`'s copy uses only `regularMarketTime` (`GetQuoteClosedUsesMarketTime`) and does not check the HTTP status (`GetQuoteIgnoresStatus`).
