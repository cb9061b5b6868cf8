/**
 * The series provider's number normaliser (`parse_bcb_valor` in data.py,
 * `_parse` in app.py, which apply the same rule): the text is stripped, every
 * no-break space and space is removed, and when a comma is present every dot
 * is a thousands separator (deleted) and every comma becomes the decimal point;
 * the result is read as a plain decimal, and anything else reads as None.
 */
module LocaleNumber {
  import opened Wrappers
  import opened PyText

  /** The JSON scalars a provider record or quote field can hold. */
  datatype Value = Null | Num(x: real) | Text(s: string)

  /** `str(v).strip().replace("\xa0", "").replace(" ", "")` */
  function Clean(raw: string): (s: string)
    ensures NBSP !in s && ' ' !in s && |s| <= |raw|
  {
    var t := RemoveChar(Strip(raw), NBSP);
    RemoveCharSubset(t, ' ');
    RemoveChar(t, ' ')
  }

  /**
   * The text handed to `float()` after the locale rule: with a comma present,
   * every dot is deleted and every comma becomes a point.
   */
  function Normalize(raw: string): (s: string)
    ensures NBSP !in s && ' ' !in s && ',' !in s
  {
    var c := Clean(raw);
    if ',' in c then
      var t := RemoveChar(c, '.');
      RemoveCharSubset(c, '.');
      NoCommaAfterReplace(t);
      ReplaceChar(t, ',', '.')
    else c
  }

  lemma NoCommaAfterReplace(t: string)
    ensures forall x :: x in ReplaceChar(t, ',', '.') ==> x == '.' || (x in t && x != ',')
  {
    forall x | x in ReplaceChar(t, ',', '.') ensures x == '.' || (x in t && x != ',') {
      ReplaceCharKeeps(t, ',', '.', x);
    }
  }

  /** With a comma present, the normal form has exactly one point per comma of the cleaned text. */
  lemma NormalizeCountsPoints(raw: string)
    requires ',' in Clean(raw)
    ensures CountChar(Normalize(raw), '.') == CountChar(Clean(raw), ',')
  {
    CommaToDotCount(RemoveChar(Clean(raw), '.'));
    RemoveDotKeepsCommas(Clean(raw));
  }

  lemma {:induction false} RemoveDotKeepsCommas(s: string)
    ensures CountChar(RemoveChar(s, '.'), ',') == CountChar(s, ',')
  {
    if s != [] {
      RemoveDotKeepsCommas(s[1..]);
    }
  }

  lemma {:induction false} CommaToDotCount(s: string)
    requires '.' !in s
    ensures CountChar(ReplaceChar(s, ',', '.'), '.') == CountChar(s, ',')
    ensures ',' !in ReplaceChar(s, ',', '.')
  {
    if s != [] {
      CommaToDotCount(s[1..]);
      assert ReplaceChar(s, ',', '.')[1..] == ReplaceChar(s[1..], ',', '.');
    }
  }

  /**
   * A plain decimal as written: its sign and the digit strings before and
   * after the point; it denotes `(-1)^negative * whole.fraction`.
   */
  datatype Decimal = Decimal(negative: bool, whole: string, fraction: string)
  {
    ghost predicate Valid() {
      AllDigits(whole) && AllDigits(fraction) && |whole| + |fraction| > 0
    }

    function Real(): real
      requires AllDigits(whole) && AllDigits(fraction)
    {
      var magnitude := DigitsValue(whole) as real + DigitsValue(fraction) as real / Pow10(|fraction|) as real;
      if negative then -magnitude else magnitude
    }
  }

  /** Digits with an optional point, at least one digit overall. */
  function ParseUnsigned(body: string): (r: Option<Decimal>)
    ensures r.Some? ==> r.value.Valid() && !r.value.negative
  {
    var ip := BeforeFirst(body, '.');
    var fp := AfterFirst(body, '.');
    if AllDigits(ip) && AllDigits(fp) && |ip| + |fp| > 0 then Some(Decimal(false, ip, fp)) else None
  }

  /**
   * The part of Python's `float()` that a plain decimal exercises:
   * an optional sign, then digits with an optional point. Exponents,
   * `inf`/`nan`, underscores and non-ASCII digits are not part of this grammar.
   */
  function ParseDecimal(s: string): (r: Option<Decimal>)
    ensures r.Some? ==> r.value.Valid()
  {
    var (neg, body) := SplitSign(s);
    match ParseUnsigned(body)
    case Some(d) => Some(d.(negative := neg))
    case None => None
  }

  /** A leading `-` or `+` and the text after it. */
  function SplitSign(s: string): (bool, string) {
    if |s| > 0 && (s[0] == '-' || s[0] == '+') then (s[0] == '-', s[1..]) else (false, s)
  }

  /** The plain decimal text `[-]ip[.fp]`, the shape `ParseDecimal` reads. */
  function DecimalText(d: Decimal): string {
    SignText(d.negative) + UnsignedText(d.whole, d.fraction)
  }

  function UnsignedText(ip: string, fp: string): string {
    ip + (if fp == [] then "" else "." + fp)
  }

  lemma DigitsHaveNoPoint(ip: string)
    requires AllDigits(ip)
    ensures '.' !in ip
  {
  }

  lemma ParseUnsignedText(ip: string, fp: string)
    requires AllDigits(ip) && AllDigits(fp) && |ip| + |fp| > 0
    ensures ParseUnsigned(UnsignedText(ip, fp)) == Some(Decimal(false, ip, fp))
  {
    DigitsHaveNoPoint(ip);
    if fp == [] {
      assert UnsignedText(ip, fp) == ip;
    } else {
      SplitAtFirst(ip, '.', fp);
      assert UnsignedText(ip, fp) == ip + ['.'] + fp;
    }
  }

  lemma UnsignedTextStart(ip: string, fp: string)
    requires AllDigits(ip) && |ip| + |fp| > 0
    ensures |UnsignedText(ip, fp)| > 0
    ensures UnsignedText(ip, fp)[0] == if ip == [] then '.' else ip[0]
  {
  }

  /** Reading back a rendered plain decimal yields the same decimal. */
  lemma ParseDecimalText(d: Decimal)
    requires d.Valid()
    ensures ParseDecimal(DecimalText(d)) == Some(d)
  {
    var u := UnsignedText(d.whole, d.fraction);
    ParseUnsignedText(d.whole, d.fraction);
    UnsignedTextStart(d.whole, d.fraction);
    var s := DecimalText(d);
    if d.negative {
      assert s == ['-'] + u;
      assert s[1..] == u;
    } else {
      assert s == u;
    }
    assert SplitSign(s) == (d.negative, u);
  }

  /** The characters a plain decimal is written with. */
  predicate IsDecimalChar(c: char) {
    c == '+' || c == '-' || c == '.' || IsDigit(c)
  }

  /** Every text `ParseUnsigned` accepts is made of digits and at most one point. */
  lemma ParseUnsignedAlphabet(body: string)
    requires ParseUnsigned(body).Some?
    ensures forall i :: 0 <= i < |body| ==> (body[i] == '.' || IsDigit(body[i]))
    ensures CountChar(body, '.') <= 1
  {
    var ip := BeforeFirst(body, '.');
    var fp := AfterFirst(body, '.');
    DigitsHaveNoPoint(fp);
    if '.' in body {
      assert body == ip + ['.'] + fp;
      CountCharConcat(ip + ['.'], fp, '.');
      CountCharConcat(ip, ['.'], '.');
      forall i | 0 <= i < |body| ensures (body[i] == '.' || IsDigit(body[i])) {
        if i < |ip| {
          assert body[i] == ip[i] && IsDigit(ip[i]);
        } else if i > |ip| {
          assert body[i] == fp[i - |ip| - 1] && IsDigit(fp[i - |ip| - 1]);
        }
      }
    } else {
      assert body == ip;
      assert CountChar(body, '.') == 0;
      forall i | 0 <= i < |body| ensures (body[i] == '.' || IsDigit(body[i])) {
        assert IsDigit(ip[i]);
      }
    }
  }

  /** Every text `ParseDecimal` accepts is built from signs, digits and at most one point. */
  lemma ParseDecimalAlphabet(s: string)
    requires ParseDecimal(s).Some?
    ensures forall i :: 0 <= i < |s| ==> IsDecimalChar(s[i])
    ensures CountChar(s, '.') <= 1
  {
    if |s| > 0 && (s[0] == '-' || s[0] == '+') {
      assert SplitSign(s).1 == s[1..];
      ParseUnsignedAlphabet(s[1..]);
      SignedAlphabet(s);
    } else {
      assert SplitSign(s).1 == s;
      ParseUnsignedAlphabet(s);
    }
  }

  /** A sign in front of a text of digits and points keeps it in the decimal alphabet. */
  lemma SignedAlphabet(s: string)
    requires |s| > 0 && (s[0] == '-' || s[0] == '+')
    requires forall i :: 0 <= i < |s[1..]| ==> (s[1..][i] == '.' || IsDigit(s[1..][i]))
    requires CountChar(s[1..], '.') <= 1
    ensures forall i :: 0 <= i < |s| ==> IsDecimalChar(s[i])
    ensures CountChar(s, '.') <= 1
  {
    assert s == [s[0]] + s[1..];
    CountCharConcat([s[0]], s[1..], '.');
    forall i | 0 <= i < |s| ensures IsDecimalChar(s[i]) {
      if i > 0 { assert s[i] == s[1..][i - 1]; }
    }
  }

  /**
   * `parse_bcb_valor(v)`: None for a missing value, the number itself for a
   * JSON number (whose `str` Python reads back exactly), and the normalised
   * text read as a plain decimal for a string.
   */
  function ParseValor(v: Value): (r: Option<real>)
    ensures v.Null? ==> r.None?
    ensures v.Num? ==> r == Some(v.x)
    ensures v.Text? ==> (r.Some? <==> ParseDecimal(Normalize(v.s)).Some?)
  {
    match v
    case Null => None
    case Num(x) => Some(x)
    case Text(s) =>
      match ParseDecimal(Normalize(s))
      case Some(d) => Some(d.Real())
      case None => None
  }

  /** A text with a character outside the decimal alphabet after normalisation reads as None. */
  lemma ParseValorRejects(s: string, i: nat)
    requires i < |Normalize(s)| && !IsDecimalChar(Normalize(s)[i])
    ensures ParseValor(Text(s)).None?
  {
    if ParseDecimal(Normalize(s)).Some? {
      ParseDecimalAlphabet(Normalize(s));
    }
  }

  /** A text without whitespace is left alone by `Clean`. */
  lemma CleanPlain(s: string)
    requires forall i :: 0 <= i < |s| ==> !IsPySpace(s[i])
    ensures Clean(s) == s
  {
    StripWithoutSpace(s);
    assert NBSP !in s && ' ' !in s;
  }

  /** Leading and trailing whitespace does not change the cleaned text. */
  lemma CleanIgnoresPadding(pre: string, s: string, post: string)
    requires forall i :: 0 <= i < |pre| ==> IsPySpace(pre[i])
    requires forall i :: 0 <= i < |post| ==> IsPySpace(post[i])
    requires s != [] && !IsPySpace(s[0]) && !IsPySpace(s[|s| - 1])
    ensures Clean(pre + s + post) == Clean(s)
  {
    StripPadding(pre, s, post);
    StripPadding([], s, []);
    assert [] + s + [] == s;
  }

  /** A no-break space or a space inside the text is deleted, wherever it stands. */
  lemma CleanDropsInnerSpace(a: string, c: char, b: string)
    requires c == NBSP || c == ' '
    requires a != [] && !IsPySpace(a[0])
    requires b != [] && !IsPySpace(b[|b| - 1])
    ensures Clean(a + [c] + b) == Clean(a + b)
  {
    var s, t := a + [c] + b, a + b;
    assert s[0] == a[0] && s[|s| - 1] == b[|b| - 1];
    assert t[0] == a[0] && t[|t| - 1] == b[|b| - 1];
    CleanUnstripped(s);
    CleanUnstripped(t);
    UnspaceConcat(a + [c], b);
    UnspaceConcat(a, [c]);
    UnspaceConcat(a, b);
    UnspaceSpace(c);
  }

  lemma UnspaceSpace(c: char)
    requires c == NBSP || c == ' '
    ensures Unspace([c]) == []
  {
    assert [c][1..] == [];
  }

  /** A text with non-space ends is only stripped of its inner spaces by `Clean`. */
  lemma CleanUnstripped(s: string)
    requires s != [] && !IsPySpace(s[0]) && !IsPySpace(s[|s| - 1])
    ensures Clean(s) == Unspace(s)
  {
    StripPadding([], s, []);
    assert [] + s + [] == s;
  }

  /** The two deletions `Clean` makes after stripping. */
  function Unspace(t: string): string {
    RemoveChar(RemoveChar(t, NBSP), ' ')
  }

  lemma UnspaceConcat(x: string, y: string)
    ensures Unspace(x + y) == Unspace(x) + Unspace(y)
  {
    RemoveCharConcat(x, y, NBSP);
    RemoveCharConcat(RemoveChar(x, NBSP), RemoveChar(y, NBSP), ' ');
  }

  /** Besides the stripped ends, `Clean` keeps every character other than the two kinds of space. */
  lemma CleanKeepsOthers(raw: string, x: char)
    requires x != NBSP && x != ' '
    ensures CountChar(Clean(raw), x) == CountChar(Strip(raw), x)
  {
    RemoveCharCount(Strip(raw), NBSP, x);
    RemoveCharCount(RemoveChar(Strip(raw), NBSP), ' ', x);
  }

  /** Leading and trailing whitespace does not change the value read. */
  lemma ParseValorIgnoresPadding(pre: string, s: string, post: string)
    requires forall i :: 0 <= i < |pre| ==> IsPySpace(pre[i])
    requires forall i :: 0 <= i < |post| ==> IsPySpace(post[i])
    requires s != [] && !IsPySpace(s[0]) && !IsPySpace(s[|s| - 1])
    ensures ParseValor(Text(pre + s + post)) == ParseValor(Text(s))
  {
    CleanIgnoresPadding(pre, s, post);
  }

  /** A space or no-break space inside a number, such as `"1 234,5"`, does not change the value read. */
  lemma ParseValorIgnoresInnerSpace(a: string, c: char, b: string)
    requires c == NBSP || c == ' '
    requires a != [] && !IsPySpace(a[0])
    requires b != [] && !IsPySpace(b[|b| - 1])
    ensures ParseValor(Text(a + [c] + b)) == ParseValor(Text(a + b))
  {
    CleanDropsInnerSpace(a, c, b);
  }

  /** The text `"-"` or `""`. */
  function SignText(neg: bool): string {
    if neg then "-" else ""
  }

  /** Digits and dots: an integer part written with `.` as the thousands separator. */
  predicate GroupedDigits(g: string) {
    forall i :: 0 <= i < |g| ==> IsDigit(g[i]) || g[i] == '.'
  }

  /** Deleting the separators of a grouped integer part leaves plain digits. */
  lemma UngroupedDigits(g: string)
    requires GroupedDigits(g)
    ensures AllDigits(RemoveChar(g, '.'))
  {
    var r := RemoveChar(g, '.');
    forall i | 0 <= i < |r| ensures IsDigit(r[i]) {
      RemoveCharKeeps(g, '.', r[i]);
      var j :| 0 <= j < |g| && g[j] == r[i];
    }
  }

  /** Signs, digits, points and commas are not whitespace. */
  predicate IsNumeralChar(c: char) {
    c == '-' || c == '.' || c == ',' || IsDigit(c)
  }

  lemma NumeralNotSpace(s: string)
    requires forall i :: 0 <= i < |s| ==> IsNumeralChar(s[i])
    ensures Clean(s) == s
  {
    forall i | 0 <= i < |s| ensures !IsPySpace(s[i]) {
      assert IsNumeralChar(s[i]);
    }
    CleanPlain(s);
  }

  lemma CleanBrazilian(neg: bool, g: string, fp: string)
    requires GroupedDigits(g) && AllDigits(fp)
    ensures Clean(SignText(neg) + g + [','] + fp) == SignText(neg) + g + [','] + fp
  {
    var sg := SignText(neg);
    var s := sg + g + [','] + fp;
    forall i | 0 <= i < |s| ensures IsNumeralChar(s[i]) {
      if i < |sg| {
        assert s[i] == '-';
      } else if i < |sg| + |g| {
        assert s[i] == g[i - |sg|];
      } else if i > |sg| + |g| {
        assert s[i] == fp[i - |sg| - |g| - 1];
      }
    }
    NumeralNotSpace(s);
  }

  lemma DropSeparators(sg: string, g: string, fp: string)
    requires '.' !in sg && '.' !in fp
    ensures RemoveChar(sg + g + [','] + fp, '.') == sg + RemoveChar(g, '.') + [','] + fp
  {
    RemoveCharConcat(sg + g + [','], fp, '.');
    RemoveCharConcat(sg + g, [','], '.');
    RemoveCharConcat(sg, g, '.');
    assert RemoveChar([','], '.') == [','];
  }

  lemma CommaToPoint(sg: string, ip: string, fp: string)
    requires ',' !in sg && ',' !in ip && ',' !in fp
    ensures ReplaceChar(sg + ip + [','] + fp, ',', '.') == sg + ip + ['.'] + fp
  {
    ReplaceCharConcat(sg + ip + [','], fp, ',', '.');
    ReplaceCharConcat(sg + ip, [','], ',', '.');
    ReplaceCharConcat(sg, ip, ',', '.');
    ReplaceAbsent(sg, ',', '.');
    ReplaceAbsent(ip, ',', '.');
    ReplaceAbsent(fp, ',', '.');
  }

  /**
   * Brazilian notation: a sign, an integer part grouped with dots, a comma
   * and the fraction digits normalise to the same digits with the dots
   * deleted and the comma turned into a point.
   */
  lemma NormalizeBrazilian(neg: bool, g: string, fp: string)
    requires GroupedDigits(g) && AllDigits(fp)
    ensures Normalize(SignText(neg) + g + [','] + fp) == SignText(neg) + RemoveChar(g, '.') + ['.'] + fp
  {
    BrazilianIsNormalizedByRule(neg, g, fp);
    BrazilianSeparatorsDropped(neg, g, fp);
    BrazilianCommaBecomesPoint(neg, g, fp);
  }

  lemma BrazilianIsNormalizedByRule(neg: bool, g: string, fp: string)
    requires GroupedDigits(g) && AllDigits(fp)
    ensures Normalize(SignText(neg) + g + [','] + fp) == ReplaceChar(RemoveChar(SignText(neg) + g + [','] + fp, '.'), ',', '.')
  {
    var s := SignText(neg) + g + [','] + fp;
    CleanBrazilian(neg, g, fp);
    CommaInside(SignText(neg), g, fp);
    NormalizeComma(s);
  }

  lemma BrazilianSeparatorsDropped(neg: bool, g: string, fp: string)
    requires AllDigits(fp)
    ensures RemoveChar(SignText(neg) + g + [','] + fp, '.') == SignText(neg) + RemoveChar(g, '.') + [','] + fp
  {
    DigitsHaveNoPoint(fp);
    DropSeparators(SignText(neg), g, fp);
  }

  lemma BrazilianCommaBecomesPoint(neg: bool, g: string, fp: string)
    requires GroupedDigits(g) && AllDigits(fp)
    ensures ReplaceChar(SignText(neg) + RemoveChar(g, '.') + [','] + fp, ',', '.') == SignText(neg) + RemoveChar(g, '.') + ['.'] + fp
  {
    UngroupedDigits(g);
    DigitsHaveNoComma(RemoveChar(g, '.'));
    DigitsHaveNoComma(fp);
    CommaToPoint(SignText(neg), RemoveChar(g, '.'), fp);
  }

  lemma CommaInside(sg: string, g: string, fp: string)
    ensures ',' in sg + g + [','] + fp
  {
    var s := sg + g + [','] + fp;
    assert s[|sg| + |g|] == ',';
  }

  /** On a cleaned text with a comma, `Normalize` deletes the dots and turns the commas into points. */
  lemma NormalizeComma(c: string)
    requires Clean(c) == c && ',' in c
    ensures Normalize(c) == ReplaceChar(RemoveChar(c, '.'), ',', '.')
  {
  }

  lemma DigitsHaveNoComma(s: string)
    requires AllDigits(s)
    ensures ',' !in s
  {
  }

  /** A sign, digits, a point and digits read as that decimal. */
  lemma ParsePointText(neg: bool, ip: string, fp: string)
    requires AllDigits(ip) && AllDigits(fp) && |ip| + |fp| > 0
    ensures ParseDecimal(SignText(neg) + ip + ['.'] + fp) == Some(Decimal(neg, ip, fp))
  {
    var u := ip + ['.'] + fp;
    ParseUnsignedPoint(ip, fp);
    PointTextStart(ip, fp);
    ParseSigned(neg, u);
    Regroup(SignText(neg), ip, ['.'], fp);
  }

  lemma Regroup(a: string, b: string, c: string, d: string)
    ensures a + b + c + d == a + (b + c + d)
  {
  }

  lemma PointTextStart(ip: string, fp: string)
    requires AllDigits(ip)
    ensures (ip + ['.'] + fp)[0] == '.' || IsDigit((ip + ['.'] + fp)[0])
  {
    if ip != [] { assert (ip + ['.'] + fp)[0] == ip[0]; }
  }

  /** A sign in front of an unsigned decimal text only sets the sign. */
  lemma ParseSigned(neg: bool, u: string)
    requires |u| > 0 && (u[0] == '.' || IsDigit(u[0])) && ParseUnsigned(u).Some?
    ensures ParseDecimal(SignText(neg) + u) == Some(ParseUnsigned(u).value.(negative := neg))
  {
    SplitSignText(neg, u);
  }

  lemma ParseUnsignedPoint(ip: string, fp: string)
    requires AllDigits(ip) && AllDigits(fp) && |ip| + |fp| > 0
    ensures ParseUnsigned(ip + ['.'] + fp) == Some(Decimal(false, ip, fp))
  {
    DigitsHaveNoPoint(ip);
    SplitAtFirst(ip, '.', fp);
  }

  /** A text that starts with a digit or a point keeps the sign it is given. */
  lemma SplitSignText(neg: bool, u: string)
    requires |u| > 0 && (u[0] == '.' || IsDigit(u[0]))
    ensures SplitSign(SignText(neg) + u) == (neg, u)
  {
    var s := SignText(neg) + u;
    if neg {
      assert s[0] == '-' && s[1..] == u;
    } else {
      assert s == u;
    }
  }

  /**
   * What the locale rule is for: a number the provider writes in Brazilian
   * notation reads as the digits it shows, whatever the grouping.
   */
  lemma ParseValorBrazilian(neg: bool, g: string, fp: string)
    requires GroupedDigits(g) && AllDigits(fp) && |RemoveChar(g, '.')| + |fp| > 0
    ensures AllDigits(RemoveChar(g, '.'))
    ensures ParseValor(Text(SignText(neg) + g + [','] + fp)) == Some(Decimal(neg, RemoveChar(g, '.'), fp).Real())
  {
    NormalizeBrazilian(neg, g, fp);
    UngroupedDigits(g);
    ParsePointText(neg, RemoveChar(g, '.'), fp);
  }

  /** A number already written with a point and no comma reads as written. */
  lemma ParseValorPlain(d: Decimal)
    requires d.Valid()
    ensures ParseValor(Text(DecimalText(d))) == Some(d.Real())
  {
    var t := DecimalText(d);
    DecimalTextNumerals(d);
    assert ',' !in t;
    NumeralNotSpace(t);
    NormalizePlain(t);
    ParseDecimalText(d);
  }

  /** On a cleaned text without a comma, `Normalize` changes nothing. */
  lemma NormalizePlain(c: string)
    requires Clean(c) == c && ',' !in c
    ensures Normalize(c) == c
  {
  }

  lemma DecimalTextNumerals(d: Decimal)
    requires d.Valid()
    ensures forall i :: 0 <= i < |DecimalText(d)| ==> IsNumeralChar(DecimalText(d)[i]) && DecimalText(d)[i] != ','
  {
    var s := DecimalText(d);
    var u := UnsignedText(d.whole, d.fraction);
    assert s == SignText(d.negative) + u;
    forall i | 0 <= i < |s| ensures IsNumeralChar(s[i]) && s[i] != ',' {
      if d.negative && i == 0 {
      } else {
        var k := if d.negative then i - 1 else i;
        assert s[i] == u[k];
        if k < |d.whole| {
          assert u[k] == d.whole[k];
        } else if k > |d.whole| {
          assert u[k] == d.fraction[k - |d.whole| - 1];
        }
      }
    }
  }

  /** A word is not a number. */
  lemma ParseValorWord()
    ensures ParseValor(Text("abc")) == None
  {
    var s := "abc";
    assert 'a' <= s[0] <= 'z' && 'a' <= s[1] <= 'z' && 'a' <= s[2] <= 'z';
    NormalizeLetters(s);
    assert !IsDecimalChar(Normalize(s)[0]);
    ParseValorRejects(s, 0);
  }

  /** Letters are neither whitespace nor separators, so normalising leaves them alone. */
  lemma NormalizeLetters(s: string)
    requires forall i :: 0 <= i < |s| ==> 'a' <= s[i] <= 'z'
    ensures Normalize(s) == s
  {
    CleanPlain(s);
    NormalizePlain(s);
  }
}
