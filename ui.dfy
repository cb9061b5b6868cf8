/**
 * The display helpers: the pt-BR rendering of an en-US formatted number,
 * the decoding of a `#RRGGBB` colour into an `rgba(...)` text, and what a
 * KPI card shows (status ribbon, delta arrow, help text and caption).
 */
module Ui {
  import opened Wrappers
  import opened PyText
  import opened LocaleNumber
  import opened Quote

  // ----- fmt -----

  /** What `fmt(None)` renders: an em dash. */
  const Missing: string := "\U{2014}"

  /**
   * `fmt(v, dec)` given `s = f"{v:,.{dec}f}"` (None for `v is None`): the
   * integer part before the first `.` with its commas turned into dots, then
   * a comma and the second `.`-separated part when that part is not empty.
   */
  function Fmt(s: Option<string>): (r: string)
    ensures s.None? ==> r == Missing
  {
    match s
    case None => Missing
    case Some(t) =>
      var integer := ReplaceChar(BeforeFirst(t, '.'), ',', '.');
      var decimal := BeforeFirst(AfterFirst(t, '.'), '.');
      if decimal != [] then integer + [','] + decimal else integer
  }

  /** Digits and commas: an integer part with `,` as the thousands separator. */
  predicate EnUsGrouped(g: string) {
    forall i :: 0 <= i < |g| ==> IsDigit(g[i]) || g[i] == ','
  }

  /** What the en-US format spec produces: a sign, the grouped integer part, and `.` and `dec` digits when `dec > 0`. */
  function EnUsText(neg: bool, g: string, fp: string): string {
    SignText(neg) + g + (if fp == [] then [] else ['.'] + fp)
  }

  lemma EnUsHasNoPoint(neg: bool, g: string)
    requires EnUsGrouped(g)
    ensures '.' !in SignText(neg) + g
  {
    var s := SignText(neg) + g;
    forall i | 0 <= i < |s| ensures s[i] != '.' {
      if i >= |SignText(neg)| {
        assert s[i] == g[i - |SignText(neg)|];
      }
    }
  }

  /** The separators swap: commas of the integer part become dots, the decimal point becomes a comma. */
  lemma FmtTransposes(neg: bool, g: string, fp: string)
    requires EnUsGrouped(g) && AllDigits(fp)
    ensures fp == [] ==> Fmt(Some(EnUsText(neg, g, fp))) == SignText(neg) + ReplaceChar(g, ',', '.')
    ensures fp != [] ==> Fmt(Some(EnUsText(neg, g, fp))) == SignText(neg) + ReplaceChar(g, ',', '.') + [','] + fp
  {
    EnUsHasNoPoint(neg, g);
    DigitsHaveNoPoint(fp);
    FmtSigned(neg, g, fp);
  }

  lemma FmtSigned(neg: bool, g: string, fp: string)
    requires '.' !in SignText(neg) + g && '.' !in fp
    ensures fp == [] ==> Fmt(Some(EnUsText(neg, g, fp))) == SignText(neg) + ReplaceChar(g, ',', '.')
    ensures fp != [] ==> Fmt(Some(EnUsText(neg, g, fp))) == SignText(neg) + ReplaceChar(g, ',', '.') + [','] + fp
  {
    var a := SignText(neg) + g;
    SignedDotted(neg, g);
    if fp == [] {
      assert EnUsText(neg, g, fp) == a;
      FmtWhole(a);
    } else {
      assert EnUsText(neg, g, fp) == a + ['.'] + fp;
      FmtFraction(a, fp);
    }
  }

  /** The sign has no comma to turn into a dot. */
  lemma SignedDotted(neg: bool, g: string)
    ensures ReplaceChar(SignText(neg) + g, ',', '.') == SignText(neg) + ReplaceChar(g, ',', '.')
  {
    ReplaceCharConcat(SignText(neg), g, ',', '.');
    ReplaceAbsent(SignText(neg), ',', '.');
  }

  /** A text without a point keeps only its integer part. */
  lemma FmtWhole(a: string)
    requires '.' !in a
    ensures Fmt(Some(a)) == ReplaceChar(a, ',', '.')
  {
    assert AfterFirst(a, '.') == [];
  }

  /** A text with one point shows its fraction after a comma. */
  lemma FmtFraction(a: string, fp: string)
    requires '.' !in a && '.' !in fp && fp != []
    ensures Fmt(Some(a + ['.'] + fp)) == ReplaceChar(a, ',', '.') + [','] + fp
  {
    SplitAtFirst(a, '.', fp);
  }

  /** Turning the commas of an en-US integer part into dots leaves no comma. */
  lemma {:induction false} DottedHasNoComma(g: string)
    requires EnUsGrouped(g)
    ensures ',' !in ReplaceChar(g, ',', '.')
    ensures GroupedDigits(ReplaceChar(g, ',', '.'))
  {
    if g != [] {
      DottedHasNoComma(g[1..]);
      var r := ReplaceChar(g, ',', '.');
      assert r == [if g[0] == ',' then '.' else g[0]] + ReplaceChar(g[1..], ',', '.');
      forall i | 0 < i < |r| ensures IsDigit(r[i]) || r[i] == '.' {
        assert r[i] == ReplaceChar(g[1..], ',', '.')[i - 1];
      }
    }
  }

  /** The output holds one comma when there are decimals and none otherwise, never in the integer part. */
  lemma FmtCommas(neg: bool, g: string, fp: string)
    requires EnUsGrouped(g) && AllDigits(fp)
    ensures CountChar(Fmt(Some(EnUsText(neg, g, fp))), ',') == if fp == [] then 0 else 1
  {
    FmtTransposes(neg, g, fp);
    DottedHasNoComma(g);
    var a := SignText(neg) + ReplaceChar(g, ',', '.');
    assert ',' !in a;
    DigitsHaveNoComma(fp);
    if fp != [] {
      CountCharConcat(a + [','], fp, ',');
      CountCharConcat(a, [','], ',');
    }
  }

  /** Dotting and then deleting the dots deletes the commas of an en-US integer part. */
  lemma {:induction false} DotThenDrop(g: string)
    requires EnUsGrouped(g)
    ensures RemoveChar(ReplaceChar(g, ',', '.'), '.') == RemoveChar(g, ',')
  {
    if g != [] {
      DotThenDrop(g[1..]);
      assert ReplaceChar(g, ',', '.') == [if g[0] == ',' then '.' else g[0]] + ReplaceChar(g[1..], ',', '.');
      RemoveCharConcat([if g[0] == ',' then '.' else g[0]], ReplaceChar(g[1..], ',', '.'), '.');
    }
  }

  /**
   * With decimals, reading `fmt`'s output back with the provider's locale
   * rule gives the en-US digits without grouping: the two conventions are
   * each other's inverse.
   */
  lemma FmtRoundTrip(neg: bool, g: string, fp: string)
    requires EnUsGrouped(g) && AllDigits(fp) && fp != []
    ensures Normalize(Fmt(Some(EnUsText(neg, g, fp)))) == SignText(neg) + RemoveChar(g, ',') + ['.'] + fp
  {
    FmtTransposes(neg, g, fp);
    DottedHasNoComma(g);
    NormalizeBrazilian(neg, ReplaceChar(g, ',', '.'), fp);
    DotThenDrop(g);
  }

  // ----- hex_rgba -----

  predicate IsHexDigit(c: char) {
    IsDigit(c) || 'a' <= c <= 'f' || 'A' <= c <= 'F'
  }

  predicate AllHex(s: string) {
    forall i :: 0 <= i < |s| ==> IsHexDigit(s[i])
  }

  function HexValue(c: char): (n: nat)
    requires IsHexDigit(c)
    ensures n < 16
  {
    if IsDigit(c) then c as int - '0' as int
    else if 'a' <= c <= 'f' then c as int - 'a' as int + 10
    else c as int - 'A' as int + 10
  }

  /** The number a string of hex digits denotes. */
  function HexDigitsValue(s: string): nat
    requires AllHex(s)
  {
    if s == [] then 0 else HexDigitsValue(s[..|s| - 1]) * 16 + HexValue(s[|s| - 1])
  }

  /**
   * `int(s, 16)`: surrounding whitespace, an optional sign and at least one
   * hex digit; None where Python raises `ValueError`. A `0x` prefix and
   * underscores between digits are not part of this grammar.
   */
  function HexInt(s: string): Option<int> {
    SignedHex(Strip(s))
  }

  /** An optional sign and at least one hex digit. */
  function SignedHex(t: string): Option<int> {
    var (neg, body) := SplitSign(t);
    if body != [] && AllHex(body) then
      var v: int := HexDigitsValue(body);
      Some(if neg then -v else v)
    else None
  }

  /** `str(i)` */
  function IntText(i: int): string {
    if i < 0 then "-" + NatText(-i) else NatText(i)
  }

  /** `s.lstrip(c)` */
  function LStripChar(s: string, c: char): (r: string)
    ensures |r| <= |s| && r == s[|s| - |r|..]
    ensures r == [] || r[0] != c
    ensures forall i :: 0 <= i < |s| - |r| ==> s[i] == c
  {
    if s != [] && s[0] == c then
      var r := LStripChar(s[1..], c);
      assert forall i :: 1 <= i < |s| ==> s[i] == s[1..][i - 1];
      r
    else s
  }

  function RgbaText(r: int, g: int, b: int, alpha: string): string {
    "rgba(" + IntText(r) + "," + IntText(g) + "," + IntText(b) + "," + alpha + ")"
  }

  /**
   * `hex_rgba(h, a)`, with `alpha` the text `str(a)` renders: the three
   * channels from the two-character slices after the leading `#`s; raises
   * when a slice does not read as a hex number.
   */
  function HexRgba(h: string, alpha: string): (r: Outcome<string>)
    ensures r.Done? ==> |LStripChar(h, '#')| >= 5
    ensures r.Done? ==> exists red, green, blue :: r.value == RgbaText(red, green, blue, alpha)
  {
    var t := LStripChar(h, '#');
    RgbaOfShort(t, alpha);
    RgbaOf(t, alpha)
  }

  /** The channels of a colour text without its `#`s: `int(t[0:2], 16)`, `int(t[2:4], 16)`, `int(t[4:6], 16)`. */
  function RgbaOf(t: string, alpha: string): Outcome<string> {
    Rgba3(HexInt(PySlice(t, 0, 2)), HexInt(PySlice(t, 2, 4)), HexInt(PySlice(t, 4, 6)), alpha)
  }

  /** The `rgba(...)` text once the three channels have been read; raises when one of them could not be. */
  function Rgba3(red: Option<int>, green: Option<int>, blue: Option<int>, alpha: string): Outcome<string> {
    if red.Some? && green.Some? && blue.Some? then Done(RgbaText(red.value, green.value, blue.value, alpha))
    else Raised
  }

  /** The byte a pair of hex digits stands for. */
  function Channel(hi: char, lo: char): (n: nat)
    requires IsHexDigit(hi) && IsHexDigit(lo)
    ensures n <= 255
  {
    16 * HexValue(hi) + HexValue(lo)
  }

  /** Two hex digits read by `int(_, 16)` as the byte `16 * hi + lo`. */
  lemma HexPair(s: string)
    requires |s| == 2 && AllHex(s)
    ensures HexInt(s) == Some(Channel(s[0], s[1]))
  {
    HexPlainInt(s);
    HexPairValue(s);
  }

  lemma HexPairValue(s: string)
    requires |s| == 2 && AllHex(s)
    ensures HexDigitsValue(s) == Channel(s[0], s[1])
  {
    var h := s[..1];
    assert h[..0] == [] && h[0] == s[0];
    assert AllHex(h);
    assert HexDigitsValue(h) == HexValue(s[0]);
  }

  lemma HexPlainInt(s: string)
    requires AllHex(s) && s != []
    ensures HexInt(s) == Some(HexDigitsValue(s))
  {
    HexIsPlain(s);
    UnsignedHex(s);
  }

  lemma UnsignedHex(s: string)
    requires AllHex(s) && s != []
    ensures SignedHex(s) == Some(HexDigitsValue(s))
  {
    assert SplitSign(s) == (false, s);
  }

  /** Hex digits are not whitespace, so `int` reads them as they are. */
  lemma HexIsPlain(s: string)
    requires AllHex(s)
    ensures Strip(s) == s
  {
    forall i | 0 <= i < |s| ensures !IsPySpace(s[i]) {
      HexNotSpace(s[i]);
    }
    StripWithoutSpace(s);
  }

  lemma HexNotSpace(c: char)
    requires IsHexDigit(c)
    ensures !IsPySpace(c)
  {
  }

  /** After the leading `#`s, six hex digits decode into three bytes. */
  lemma HexRgbaSix(h: string, alpha: string)
    requires |LStripChar(h, '#')| == 6 && AllHex(LStripChar(h, '#'))
    ensures var t := LStripChar(h, '#');
      HexRgba(h, alpha) == Done(RgbaText(Channel(t[0], t[1]), Channel(t[2], t[3]), Channel(t[4], t[5]), alpha))
  {
    var t := LStripChar(h, '#');
    assert IsHexDigit(t[0]) && IsHexDigit(t[1]) && IsHexDigit(t[2]) && IsHexDigit(t[3]) && IsHexDigit(t[4]) && IsHexDigit(t[5]);
    RgbaOfSix(t, alpha);
  }

  lemma RgbaOfSix(t: string, alpha: string)
    requires |t| == 6
    requires IsHexDigit(t[0]) && IsHexDigit(t[1]) && IsHexDigit(t[2]) && IsHexDigit(t[3]) && IsHexDigit(t[4]) && IsHexDigit(t[5])
    ensures RgbaOf(t, alpha) == Done(RgbaText(Channel(t[0], t[1]), Channel(t[2], t[3]), Channel(t[4], t[5]), alpha))
  {
    SliceChannel(t, 0);
    SliceChannel(t, 2);
    SliceChannel(t, 4);
    RgbaOfChannels(t, alpha, Channel(t[0], t[1]), Channel(t[2], t[3]), Channel(t[4], t[5]));
  }

  /** Once the three slices read as numbers, the colour text is built from them. */
  lemma RgbaOfChannels(t: string, alpha: string, red: int, green: int, blue: int)
    requires HexInt(PySlice(t, 0, 2)) == Some(red)
    requires HexInt(PySlice(t, 2, 4)) == Some(green)
    requires HexInt(PySlice(t, 4, 6)) == Some(blue)
    ensures RgbaOf(t, alpha) == Done(RgbaText(red, green, blue, alpha))
  {
  }

  /** The two-character slice at `i` of a text reads as its channel when both characters are hex digits. */
  lemma SliceChannel(t: string, i: nat)
    requires i + 2 <= |t| && IsHexDigit(t[i]) && IsHexDigit(t[i + 1])
    ensures HexInt(PySlice(t, i, i + 2)) == Some(Channel(t[i], t[i + 1]))
  {
    var s := PySlice(t, i, i + 2);
    assert s[0] == t[i] && s[1] == t[i + 1];
    HexPair(s);
  }

  /** Two lower-case hex digits for a byte. */
  function Hex2(n: nat): (s: string)
    requires n <= 255
    ensures |s| == 2 && AllHex(s) && Channel(s[0], s[1]) == n
  {
    [HexChar(n / 16), HexChar(n % 16)]
  }

  function HexChar(d: nat): (c: char)
    requires d < 16
    ensures IsHexDigit(c) && HexValue(c) == d
  {
    if d < 10 then ('0' as int + d) as char else ('a' as int + d - 10) as char
  }

  /** Rendering three bytes as `#rrggbb` and decoding gives the bytes back. */
  lemma HexRgbaRoundTrip(red: nat, green: nat, blue: nat, alpha: string)
    requires red <= 255 && green <= 255 && blue <= 255
    ensures HexRgba("#" + Hex2(red) + Hex2(green) + Hex2(blue), alpha) == Done(RgbaText(red, green, blue, alpha))
  {
    var r, g, b := Hex2(red), Hex2(green), Hex2(blue);
    var t := r + g + b;
    SixChars(r, g, b);
    assert "#" + r + g + b == "#" + t;
    HashStripped(t);
    RgbaOfSix(t, alpha);
  }

  lemma SixChars(r: string, g: string, b: string)
    requires |r| == 2 && |g| == 2 && |b| == 2
    ensures var t := r + g + b;
      |t| == 6 && t[0] == r[0] && t[1] == r[1] && t[2] == g[0] && t[3] == g[1] && t[4] == b[0] && t[5] == b[1]
  {
  }

  /** One leading `#` before a text that does not start with one is all `lstrip` removes. */
  lemma HashStripped(t: string)
    requires t != [] && t[0] != '#'
    ensures LStripChar("#" + t, '#') == t
  {
    assert ("#" + t)[1..] == t;
  }

  /** Fewer than five characters after the `#`s leave the blue slice empty, and Python raises. */
  lemma HexRgbaShort(h: string, alpha: string)
    requires |LStripChar(h, '#')| <= 4
    ensures HexRgba(h, alpha) == Raised
  {
    RgbaOfShort(LStripChar(h, '#'), alpha);
  }

  /** Four characters or fewer leave the blue slice empty. */
  lemma RgbaOfShort(t: string, alpha: string)
    ensures |t| <= 4 ==> RgbaOf(t, alpha) == Raised
  {
    if |t| <= 4 {
      EmptyHex();
      ShortSlice(t);
      BlueMissing(HexInt(PySlice(t, 0, 2)), HexInt(PySlice(t, 2, 4)), HexInt(PySlice(t, 4, 6)), alpha);
    }
  }

  lemma EmptyHex()
    ensures HexInt([]) == None
  {
    assert Strip([]) == [];
  }

  lemma ShortSlice(t: string)
    requires |t| <= 4
    ensures PySlice(t, 4, 6) == []
  {
  }

  lemma BlueMissing(red: Option<int>, green: Option<int>, blue: Option<int>, alpha: string)
    requires blue == None
    ensures Rgba3(red, green, blue, alpha) == Raised
  {
  }

  // ----- kpi_card -----

  /** The status caption above the metric. */
  datatype Ribbon = Closing(date: string) | LastClose | PreMarket | PostMarket | NoRibbon

  /** The delta text: the arrow (up for a non-negative change) and the magnitude shown with two decimals. */
  datatype Delta = Delta(up: bool, magnitude: real)

  /** What one card shows besides its label and value. */
  datatype Card = Card(ribbon: Ribbon, delta: Option<Delta>, help: Option<string>, caption: Option<string>)

  /** The ribbon for quote `d` (`d or {}`: `{}` gives no ribbon); `dateText` renders a close epoch. */
  function RibbonFor(d: Quote, dateText: real -> string): (r: Outcome<Ribbon>)
    ensures r.Raised? <==> d.Quote? && !d.isClosed && d.isExtended && !d.market.Text?
    ensures r.Done? && r.value.Closing? ==>
              d.Quote? && d.isClosed && d.closeStamp.Some? && r.value.date == dateText(d.closeStamp.value) != ""
    ensures r.Done? && r.value == LastClose ==> d.Quote? && d.isClosed
    ensures r.Done? && (r.value == PreMarket || r.value == PostMarket) ==> d.Quote? && !d.isClosed && d.isExtended
  {
    if d.NoQuote? then Done(NoRibbon)
    else if d.isClosed && d.closeStamp.Some? && dateText(d.closeStamp.value) != "" then Done(Closing(dateText(d.closeStamp.value)))
    else if d.isClosed then Done(LastClose)
    else if d.isExtended then
      match d.market
      case Text(ms) => Done(if Contains(ms, "PRE") then PreMarket else PostMarket)
      case _ => Raised
    else Done(NoRibbon)
  }

  /**
   * `kpi_card(label, value, chg_p, sub, d=d)`: the `"PRE" in market` test
   * raises when an extended quote's market is not a text.
   */
  function KpiCard(chgP: Option<real>, sub: string, d: Quote, dateText: real -> string): (r: Outcome<Card>)
    ensures r.Done? ==> (r.value.delta.Some? <==> chgP.Some?)
    ensures r.Done? && chgP.Some? ==>
              (r.value.delta.value.up <==> chgP.value >= 0.0)
              && r.value.delta.value.magnitude >= 0.0
              && (r.value.delta.value.magnitude == chgP.value || r.value.delta.value.magnitude == -chgP.value)
    ensures r.Done? ==> (r.value.caption.Some? <==> sub != "") && (r.value.caption.Some? ==> r.value.caption.value == sub)
    ensures r.Done? ==> r.value.help == r.value.caption
    ensures r.Raised? <==> RibbonFor(d, dateText).Raised?
    ensures r.Done? ==> r.value.ribbon == RibbonFor(d, dateText).value
  {
    match RibbonFor(d, dateText)
    case Raised => Raised
    case Done(ribbon) =>
      var delta := match chgP
        case None => None
        case Some(c) => Some(Delta(c >= 0.0, if c >= 0.0 then c else -c));
      var extra := if sub != "" then Some(sub) else None;
      Done(Card(ribbon, delta, extra, extra))
  }

  /**
   * On a quote the data layer produced, the card never raises, and its
   * ribbon follows the session: none when live, the pre- or post-market
   * label for the extended states, a closing label when closed.
   */
  lemma RibbonFollowsSession(m: Meta, stamp: Stamp, dateText: real -> string)
    requires Finish(m, stamp).Quote?
    ensures var q := Finish(m, stamp);
      var r := RibbonFor(q, dateText);
      r.Done?
      && (r.value == NoRibbon <==> q.isLive)
      && (r.value == PreMarket <==> q.market == Text("PRE") || q.market == Text("PREPRE"))
      && (r.value == PostMarket <==> q.market == Text("POST") || q.market == Text("POSTPOST"))
      && (r.value.Closing? || r.value == LastClose <==> q.isClosed)
      && (q.isClosed ==> r.value == ClosedRibbon(q, dateText))
  {
    RibbonOfSession(Finish(m, stamp), dateText);
  }

  /** A closed session: "Fechamento <date>" when the close date text is non-empty, "Último fechamento" otherwise. */
  function ClosedRibbon(q: Quote, dateText: real -> string): Ribbon
    requires q.Quote?
  {
    if q.closeStamp.Some? && dateText(q.closeStamp.value) != "" then Closing(dateText(q.closeStamp.value)) else LastClose
  }

  /** The ribbon of any quote whose flags agree with its market state as `get_quote` sets them. */
  lemma RibbonOfSession(q: Quote, dateText: real -> string)
    requires q.Quote?
    requires (q.isLive <==> IsRegular(q.market)) && (q.isExtended <==> IsExtendedState(q.market))
    requires (q.isLive && !q.isExtended && !q.isClosed)
          || (!q.isLive && q.isExtended && !q.isClosed)
          || (!q.isLive && !q.isExtended && q.isClosed)
    ensures var r := RibbonFor(q, dateText);
      r.Done?
      && (r.value == NoRibbon <==> q.isLive)
      && (r.value == PreMarket <==> q.market == Text("PRE") || q.market == Text("PREPRE"))
      && (r.value == PostMarket <==> q.market == Text("POST") || q.market == Text("POSTPOST"))
      && (r.value.Closing? || r.value == LastClose <==> q.isClosed)
      && (q.isClosed ==> r.value == ClosedRibbon(q, dateText))
  {
    if q.isLive {
      assert RibbonFor(q, dateText) == Done(NoRibbon);
    } else if q.isExtended {
      RibbonExtended(q, dateText);
    } else {
      RibbonClosed(q, dateText);
    }
  }

  lemma RibbonExtended(q: Quote, dateText: real -> string)
    requires q.Quote? && !q.isClosed && q.isExtended && IsExtendedState(q.market)
    ensures RibbonFor(q, dateText)
      == Done(if q.market == Text("PRE") || q.market == Text("PREPRE") then PreMarket else PostMarket)
  {
    var ms := q.market.s;
    assert q.market == Text(ms);
    if ms == "PRE" || ms == "PREPRE" {
      PreIn(ms);
      ExtendedRibbon(q, dateText, PreMarket);
    } else {
      PreNotIn(ms);
      ExtendedRibbon(q, dateText, PostMarket);
    }
  }

  /** An open extended quote gets the label the `"PRE" in market` test picks. */
  lemma ExtendedRibbon(q: Quote, dateText: real -> string, tag: Ribbon)
    requires q.Quote? && !q.isClosed && q.isExtended && q.market.Text?
    requires tag == (if Contains(q.market.s, "PRE") then PreMarket else PostMarket)
    ensures RibbonFor(q, dateText) == Done(tag)
  {
  }

  lemma RibbonClosed(q: Quote, dateText: real -> string)
    requires q.Quote? && q.isClosed
    ensures RibbonFor(q, dateText) == Done(ClosedRibbon(q, dateText))
  {
  }

  /** `"PRE" in "PRE"` and `"PRE" in "PREPRE"`. */
  lemma PreIn(ms: string)
    requires ms == "PRE" || ms == "PREPRE"
    ensures Contains(ms, "PRE")
  {
    assert OccursAt(ms, "PRE", 0);
  }

  /** `"PRE" not in "POST"` and `"PRE" not in "POSTPOST"`. */
  lemma PreNotIn(ms: string)
    requires ms == "POST" || ms == "POSTPOST"
    ensures !Contains(ms, "PRE")
  {
    assert 'E' !in ms;
    NoPreWithoutE(ms);
  }

  /** A text without an `E` has no `PRE` in it. */
  lemma NoPreWithoutE(s: string)
    requires 'E' !in s
    ensures !Contains(s, "PRE")
  {
    forall i ensures !OccursAt(s, "PRE", i) {
      if 0 <= i && i + 3 <= |s| {
        assert s[i..i + 3][2] == s[i + 2];
        assert s[i + 2] in s;
      }
    }
  }
}
