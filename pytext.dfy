/**
 * The Option type used across the model for Python's "value or None", and
 * the outcome of a call that may raise an exception its caller does not catch.
 */
module Wrappers {
  datatype Option<+T> = None | Some(value: T)

  datatype Outcome<+T> = Done(value: T) | Raised
}

/**
 * The handful of Python `str` operations the data layer builds on
 * (`strip`, `replace`, `in`, `lower`, `split`, `lstrip`, slicing,
 * `str(int)`), stated over `seq<char>`.
 */
module PyText {

  const NBSP: char := '\U{A0}'

  /** The characters for which Python's `str.isspace()` holds. */
  predicate IsPySpace(c: char) {
    || ('\t' <= c <= '\r')
    || ('\U{1C}' <= c <= '\U{1F}')
    || c == ' ' || c == '\U{85}' || c == NBSP || c == '\U{1680}'
    || ('\U{2000}' <= c <= '\U{200A}')
    || c == '\U{2028}' || c == '\U{2029}' || c == '\U{202F}' || c == '\U{205F}' || c == '\U{3000}'
  }

  /** `s.lstrip()`: drops the longest all-whitespace prefix. */
  function LStrip(s: string): (r: string)
    ensures |r| <= |s| && r == s[|s| - |r|..]
    ensures r == [] || !IsPySpace(r[0])
  {
    if s != [] && IsPySpace(s[0]) then LStrip(s[1..]) else s
  }

  /** Only whitespace is dropped by `LStrip`. */
  lemma {:induction false} LStripDropsSpace(s: string)
    ensures forall i :: 0 <= i < |s| - |LStrip(s)| ==> IsPySpace(s[i])
  {
    if s != [] && IsPySpace(s[0]) {
      LStripDropsSpace(s[1..]);
      forall i | 0 < i < |s| - |LStrip(s)| ensures IsPySpace(s[i]) {
        assert s[i] == s[1..][i - 1];
      }
    }
  }

  /** `s.rstrip()`: drops the longest all-whitespace suffix. */
  function RStrip(s: string): (r: string)
    ensures |r| <= |s| && r == s[..|r|]
    ensures r == [] || !IsPySpace(r[|r| - 1])
  {
    if s != [] && IsPySpace(s[|s| - 1]) then RStrip(s[..|s| - 1]) else s
  }

  /** Only whitespace is dropped by `RStrip`. */
  lemma {:induction false} RStripDropsSpace(s: string)
    ensures forall i :: |RStrip(s)| <= i < |s| ==> IsPySpace(s[i])
  {
    if s != [] && IsPySpace(s[|s| - 1]) {
      RStripDropsSpace(s[..|s| - 1]);
    }
  }

  /** `s.strip()` */
  function Strip(s: string): string {
    RStrip(LStrip(s))
  }

  lemma StripWithoutSpace(s: string)
    requires forall i :: 0 <= i < |s| ==> !IsPySpace(s[i])
    ensures Strip(s) == s
  {
    LStripDropsSpace(s);
    assert LStrip(s) == s;
    RStripDropsSpace(s);
  }

  /** Whitespace in front of a text that starts with a non-space is all `LStrip` drops. */
  lemma {:induction false} LStripSpacePrefix(pre: string, s: string)
    requires forall i :: 0 <= i < |pre| ==> IsPySpace(pre[i])
    requires s != [] && !IsPySpace(s[0])
    ensures LStrip(pre + s) == s
  {
    if pre == [] {
      assert pre + s == s;
    } else {
      assert (pre + s)[0] == pre[0];
      assert (pre + s)[1..] == pre[1..] + s;
      LStripSpacePrefix(pre[1..], s);
    }
  }

  /** Whitespace after a text that ends with a non-space is all `RStrip` drops. */
  lemma {:induction false} RStripSpaceSuffix(s: string, post: string)
    requires forall i :: 0 <= i < |post| ==> IsPySpace(post[i])
    requires s != [] && !IsPySpace(s[|s| - 1])
    ensures RStrip(s + post) == s
  {
    if post == [] {
      assert s + post == s;
    } else {
      var k := |post| - 1;
      assert (s + post)[|s + post| - 1] == post[k];
      assert (s + post)[..|s + post| - 1] == s + post[..k];
      RStripSpaceSuffix(s, post[..k]);
    }
  }

  /** `Strip` removes exactly the whitespace padding around a text with non-space ends. */
  lemma StripPadding(pre: string, s: string, post: string)
    requires forall i :: 0 <= i < |pre| ==> IsPySpace(pre[i])
    requires forall i :: 0 <= i < |post| ==> IsPySpace(post[i])
    requires s != [] && !IsPySpace(s[0]) && !IsPySpace(s[|s| - 1])
    ensures Strip(pre + s + post) == s
  {
    assert pre + s + post == pre + (s + post);
    assert (s + post)[0] == s[0];
    LStripSpacePrefix(pre, s + post);
    RStripSpaceSuffix(s, post);
  }

  /** `s.replace(c, "")` for a one-character `c`. */
  function RemoveChar(s: string, c: char): (r: string)
    ensures c !in r && |r| <= |s|
    ensures c !in s ==> r == s
  {
    if s == [] then []
    else if s[0] == c then RemoveChar(s[1..], c)
    else [s[0]] + RemoveChar(s[1..], c)
  }

  /** `RemoveChar` only deletes: every character it keeps was in `s`. */
  lemma {:induction false} RemoveCharKeeps(s: string, c: char, x: char)
    requires x in RemoveChar(s, c)
    ensures x in s && x != c
  {
    if s != [] {
      if s[0] != c && x == s[0] {
      } else {
        RemoveCharKeeps(s[1..], c, x);
      }
    }
  }

  lemma RemoveCharSubset(s: string, c: char)
    ensures forall x :: x in RemoveChar(s, c) ==> x in s
  {
    forall x | x in RemoveChar(s, c) ensures x in s {
      RemoveCharKeeps(s, c, x);
    }
  }

  lemma {:induction false} RemoveCharConcat(a: string, b: string, c: char)
    ensures RemoveChar(a + b, c) == RemoveChar(a, c) + RemoveChar(b, c)
  {
    if a == [] {
      assert a + b == b;
    } else {
      assert (a + b)[1..] == a[1..] + b;
      RemoveCharConcat(a[1..], b, c);
    }
  }

  /** `RemoveChar` keeps every occurrence of every other character. */
  lemma {:induction false} RemoveCharCount(s: string, c: char, x: char)
    requires x != c
    ensures CountChar(RemoveChar(s, c), x) == CountChar(s, x)
  {
    if s != [] {
      RemoveCharCount(s[1..], c, x);
      if s[0] != c {
        assert ([s[0]] + RemoveChar(s[1..], c))[1..] == RemoveChar(s[1..], c);
      }
    }
  }

  /** `s.replace(c, d)` for one-character `c` and `d`. */
  function ReplaceChar(s: string, c: char, d: char): (r: string)
    ensures |r| == |s|
  {
    if s == [] then [] else [if s[0] == c then d else s[0]] + ReplaceChar(s[1..], c, d)
  }

  /** Each character of `ReplaceChar(s, c, d)` is `d` where `s` had `c`, and unchanged elsewhere. */
  lemma {:induction false} ReplaceCharAt(s: string, c: char, d: char, i: nat)
    requires i < |s|
    ensures ReplaceChar(s, c, d)[i] == if s[i] == c then d else s[i]
  {
    if i > 0 {
      ReplaceCharAt(s[1..], c, d, i - 1);
    }
  }

  /** `ReplaceChar` writes only `d` and characters of `s` other than `c`. */
  lemma ReplaceCharKeeps(s: string, c: char, d: char, x: char)
    requires x in ReplaceChar(s, c, d)
    ensures x == d || (x in s && x != c)
  {
    var r := ReplaceChar(s, c, d);
    var i :| 0 <= i < |r| && r[i] == x;
    ReplaceCharAt(s, c, d, i);
  }

  lemma {:induction false} ReplaceCharConcat(a: string, b: string, c: char, d: char)
    ensures ReplaceChar(a + b, c, d) == ReplaceChar(a, c, d) + ReplaceChar(b, c, d)
  {
    if a == [] {
      assert a + b == b;
    } else {
      assert (a + b)[1..] == a[1..] + b;
      ReplaceCharConcat(a[1..], b, c, d);
    }
  }

  lemma {:induction false} ReplaceAbsent(s: string, c: char, d: char)
    requires c !in s
    ensures ReplaceChar(s, c, d) == s
  {
    if s != [] {
      ReplaceAbsent(s[1..], c, d);
    }
  }

  /** How often `c` occurs in `s`. */
  function CountChar(s: string, c: char): (n: nat)
    ensures n <= |s|
    ensures n == 0 <==> c !in s
  {
    if s == [] then 0 else (if s[0] == c then 1 else 0) + CountChar(s[1..], c)
  }

  lemma {:induction false} CountCharConcat(a: string, b: string, c: char)
    ensures CountChar(a + b, c) == CountChar(a, c) + CountChar(b, c)
  {
    if a == [] {
      assert a + b == b;
    } else {
      assert (a + b)[1..] == a[1..] + b;
      CountCharConcat(a[1..], b, c);
    }
  }

  /** `sub` occurs in `s` starting at index `i`. */
  predicate OccursAt(s: string, sub: string, i: int) {
    0 <= i && i + |sub| <= |s| && s[i..i + |sub|] == sub
  }

  /** Python's `sub in s` on strings: `sub` occurs as a contiguous slice of `s`. */
  function Contains(s: string, sub: string): (r: bool)
    ensures r <==> exists i :: OccursAt(s, sub, i)
  {
    if |sub| > |s| then false
    else if s[..|sub|] == sub then assert OccursAt(s, sub, 0); true
    else
      var r := Contains(s[1..], sub);
      assert forall i :: OccursAt(s[1..], sub, i) <==> OccursAt(s, sub, i + 1) by {
        forall i ensures OccursAt(s[1..], sub, i) <==> OccursAt(s, sub, i + 1) {
          if 0 <= i && i + |sub| <= |s[1..]| {
            assert s[1..][i..i + |sub|] == s[i + 1..i + 1 + |sub|];
          }
        }
      }
      assert !OccursAt(s, sub, 0);
      assert (exists i :: OccursAt(s, sub, i)) ==> r by {
        if i :| OccursAt(s, sub, i) {
          assert OccursAt(s[1..], sub, i - 1);
        }
      }
      r
  }

  /** `s.lower()` on the ASCII letters. */
  function LowerAscii(s: string): (r: string)
    ensures |r| == |s|
    ensures forall i :: 0 <= i < |s| ==> r[i] == if 'A' <= s[i] <= 'Z' then (s[i] as int + 32) as char else s[i]
  {
    if s == [] then [] else [if 'A' <= s[0] <= 'Z' then (s[0] as int + 32) as char else s[0]] + LowerAscii(s[1..])
  }

  /** `s.split(c)[0]`: the text before the first `c`, or all of `s`. */
  function BeforeFirst(s: string, c: char): (r: string)
    ensures c !in r && |r| <= |s| && r == s[..|r|]
    ensures c !in s ==> r == s
    ensures c in s ==> |r| < |s| && s[|r|] == c
  {
    if s == [] then []
    else if s[0] == c then []
    else [s[0]] + BeforeFirst(s[1..], c)
  }

  /** The text after the first `c` (empty when `s` holds no `c`). */
  function AfterFirst(s: string, c: char): (r: string)
    ensures c in s ==> s == BeforeFirst(s, c) + [c] + r
    ensures c !in s ==> r == []
  {
    var b := BeforeFirst(s, c);
    if c in s then s[|b| + 1..] else []
  }

  lemma SplitAtFirst(a: string, c: char, b: string)
    requires c !in a
    ensures BeforeFirst(a + [c] + b, c) == a
    ensures AfterFirst(a + [c] + b, c) == b
  {
    var s := a + [c] + b;
    var p := BeforeFirst(s, c);
    assert s[|a|] == c;
    assert p == s[..|a|] == a;
  }

  /** Python slicing `s[i:j]` with non-negative bounds, which clamps instead of failing. */
  function PySlice(s: string, i: nat, j: nat): (r: string)
    ensures |r| <= |s|
    ensures i <= j <= |s| ==> r == s[i..j]
  {
    var lo := if i <= |s| then i else |s|;
    var hi := if j <= |s| then j else |s|;
    if lo <= hi then s[lo..hi] else []
  }

  /** `s[i:]` */
  lemma SliceToEnd(s: string, i: nat)
    requires i <= |s|
    ensures PySlice(s, i, |s|) == s[i..]
  {
  }

  predicate IsDigit(c: char) {
    '0' <= c <= '9'
  }

  predicate AllDigits(s: string) {
    forall i :: 0 <= i < |s| ==> IsDigit(s[i])
  }

  function DigitValue(c: char): nat
    requires IsDigit(c)
  {
    c as int - '0' as int
  }

  /** The number a string of ASCII digits denotes (0 for the empty string). */
  function DigitsValue(s: string): (n: nat)
    requires AllDigits(s)
  {
    if s == [] then 0 else DigitsValue(s[..|s| - 1]) * 10 + DigitValue(s[|s| - 1])
  }

  function Pow10(k: nat): (p: nat)
    ensures p >= 1
  {
    if k == 0 then 1 else 10 * Pow10(k - 1)
  }

  function DigitChar(d: nat): (c: char)
    requires d < 10
    ensures IsDigit(c) && DigitValue(c) == d
  {
    ('0' as int + d) as char
  }

  /** `str(n)` for a natural number: shortest decimal digits. */
  function NatText(n: nat): (s: string)
    ensures |s| > 0 && AllDigits(s) && DigitsValue(s) == n
    ensures n > 0 ==> s[0] != '0'
  {
    if n < 10 then [DigitChar(n)]
    else
      var s := NatText(n / 10) + [DigitChar(n % 10)];
      assert s[..|s| - 1] == NatText(n / 10);
      s
  }
}
