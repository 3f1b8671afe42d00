/**
 * The few Python `str` built-ins the core relies on: `isspace`, `strip`,
 * `lower`, `split` on one separator character, and `str()` of an `int`.
 */
module Strings {

  /** Python's `str.isspace` for one character (the full Unicode whitespace set). */
  predicate IsSpace(c: char) {
    || ('\t' <= c <= '\r')
    || ('\U{1C}' <= c <= '\U{1F}')
    || c == ' ' || c == '\U{85}' || c == '\U{A0}' || c == '\U{1680}'
    || ('\U{2000}' <= c <= '\U{200A}')
    || c == '\U{2028}' || c == '\U{2029}' || c == '\U{202F}' || c == '\U{205F}'
    || c == '\U{3000}'
  }

  predicate AllSpace(s: string) {
    forall i :: 0 <= i < |s| ==> IsSpace(s[i])
  }

  /** `s.lstrip()`: the longest suffix of `s` that does not start with whitespace. */
  function TrimStart(s: string): (r: string)
    ensures |r| <= |s| && r == s[|s| - |r|..]
    ensures AllSpace(s[..|s| - |r|])
    ensures r == [] || !IsSpace(r[0])
  {
    if s != [] && IsSpace(s[0]) then
      var t := TrimStart(s[1..]);
      assert s[1..][..|s| - 1 - |t|] == s[1..|s| - |t|];
      t
    else s
  }

  /** `s.rstrip()`: the longest prefix of `s` that does not end with whitespace. */
  function TrimEnd(s: string): (r: string)
    ensures |r| <= |s| && r == s[..|r|]
    ensures AllSpace(s[|r|..])
    ensures r == [] || !IsSpace(r[|r| - 1])
  {
    if s != [] && IsSpace(s[|s| - 1]) then
      var init := s[..|s| - 1];
      var t := TrimEnd(init);
      assert init[..|t|] == s[..|t|];
      assert s[|t|..] == init[|t|..] + [s[|s| - 1]];
      t
    else s
  }

  /** `s.strip()`: `s` without its leading and trailing whitespace. */
  function Strip(s: string): (r: string)
    ensures |r| <= |s|
    ensures r == [] || (!IsSpace(r[0]) && !IsSpace(r[|r| - 1]))
  {
    TrimEnd(TrimStart(s))
  }

  /** What `strip` removes is whitespace only: the result is a slice of `s` between two all-whitespace ends. */
  lemma StripRemovesOnlySpace(s: string) returns (i0: nat, j0: nat)
    ensures i0 == |s| - |TrimStart(s)|
    ensures i0 <= j0 <= |s| && Strip(s) == s[i0..j0] && AllSpace(s[..i0]) && AllSpace(s[j0..])
  {
    var t := TrimStart(s);
    var r := TrimEnd(t);
    i0, j0 := |s| - |t|, |s| - |t| + |r|;
    assert r == s[i0..j0];
    assert s[j0..] == t[|r|..];
  }

  /**
   * A character that is not whitespace survives `strip`; `p` is its
   * position in the result, its position in `s` less the leading whitespace.
   */
  lemma StripKeepsText(s: string, i: nat) returns (p: nat)
    requires i < |s| && !IsSpace(s[i])
    ensures p == i - (|s| - |TrimStart(s)|)
    ensures p < |Strip(s)| && Strip(s)[p] == s[i]
  {
    var i0, j0 := StripRemovesOnlySpace(s);
    SpaceOutside(s, i0, j0, i);
    p := i - i0;
  }

  /** A character that is not whitespace lies between two all-whitespace ends. */
  lemma SpaceOutside(s: string, i0: nat, j0: nat, i: nat)
    requires i0 <= j0 <= |s| && AllSpace(s[..i0]) && AllSpace(s[j0..])
    requires i < |s| && !IsSpace(s[i])
    ensures i0 <= i < j0
  {
    forall k | 0 <= k < i0
      ensures IsSpace(s[k])
    {
      assert s[..i0][k] == s[k];
    }
    forall k | j0 <= k < |s|
      ensures IsSpace(s[k])
    {
      assert s[j0..][k - j0] == s[k];
    }
  }

  lemma {:induction false} TrimStartPadded(w: string, s: string)
    requires AllSpace(w)
    ensures TrimStart(w + s) == TrimStart(s)
    decreases |w|
  {
    if w != [] {
      assert (w + s)[1..] == w[1..] + s;
      TrimStartPadded(w[1..], s);
    } else {
      assert w + s == s;
    }
  }

  lemma {:induction false} TrimEndPadded(s: string, w: string)
    requires AllSpace(w)
    ensures TrimEnd(s + w) == TrimEnd(s)
    decreases |w|
  {
    if w != [] {
      assert (s + w)[..|s + w| - 1] == s + w[..|w| - 1];
      TrimEndPadded(s, w[..|w| - 1]);
    } else {
      assert s + w == s;
    }
  }

  /** Surrounding whitespace never changes what `strip` returns. */
  lemma StripPadded(w1: string, s: string, w2: string)
    requires AllSpace(w1) && AllSpace(w2)
    ensures Strip(w1 + s + w2) == Strip(s)
  {
    calc {
      Strip(w1 + s + w2);
    == { assert w1 + s + w2 == w1 + (s + w2); }
      TrimEnd(TrimStart(w1 + (s + w2)));
    == { TrimStartPadded(w1, s + w2); }
      TrimEnd(TrimStart(s + w2));
    == { if AllSpace(s) { StripPaddedBlank(s, w2); } else { StripPaddedText(s, w2); } }
      Strip(s);
    }
  }

  lemma StripPaddedBlank(s: string, w: string)
    requires AllSpace(s) && AllSpace(w)
    ensures TrimEnd(TrimStart(s + w)) == Strip(s)
  {
    assert AllSpace(s + w);
    AllSpaceTrimsToEmpty(s + w);
    AllSpaceTrimsToEmpty(s);
  }

  lemma StripPaddedText(s: string, w: string)
    requires !AllSpace(s) && AllSpace(w)
    ensures TrimEnd(TrimStart(s + w)) == Strip(s)
  {
    TrimStartOfLonger(s, w);
    TrimEndPadded(TrimStart(s), w);
  }

  /** Stripping the front of `s + w` removes what stripping `s` does, when `s` is not all whitespace. */
  lemma {:induction false} TrimStartOfLonger(s: string, w: string)
    requires !AllSpace(s)
    ensures TrimStart(s + w) == TrimStart(s) + w
    decreases |s|
  {
    if IsSpace(s[0]) {
      assert !AllSpace(s[1..]) by {
        var k :| 0 <= k < |s| && !IsSpace(s[k]);
        assert s[1..][k - 1] == s[k];
      }
      assert (s + w)[1..] == s[1..] + w;
      TrimStartOfLonger(s[1..], w);
    } else {
    }
  }

  /** A string that neither starts nor ends with whitespace is its own `strip`. */
  lemma StripUnpadded(s: string)
    requires s == [] || (!IsSpace(s[0]) && !IsSpace(s[|s| - 1]))
    ensures Strip(s) == s
  {
  }

  lemma AllSpaceTrimsToEmpty(w: string)
    requires AllSpace(w)
    ensures TrimStart(w) == []
  {
  }

  /** ASCII upper-case letters become lower-case; every other character is kept. */
  function LowerChar(c: char): (d: char)
    ensures 'A' <= c <= 'Z' ==> d as int == c as int + 32
    ensures !('A' <= c <= 'Z') ==> d == c
  {
    if 'A' <= c <= 'Z' then (c as int + 32) as char else c
  }

  /** `s.lower()`, restricted to ASCII letters. */
  function Lower(s: string): (r: string)
    ensures |r| == |s|
    ensures forall i :: 0 <= i < |s| ==> r[i] == LowerChar(s[i])
  {
    seq(|s|, i requires 0 <= i < |s| => LowerChar(s[i]))
  }

  lemma LowerConcat(a: string, b: string)
    ensures Lower(a + b) == Lower(a) + Lower(b)
  {
  }

  lemma LowerKeepsSpace(w: string)
    requires AllSpace(w)
    ensures Lower(w) == w
  {
  }

  /** `s.startswith(prefix)`. */
  predicate StartsWith(s: string, prefix: string) {
    |prefix| <= |s| && s[..|prefix|] == prefix
  }

  /** Text added at the end keeps a prefix. */
  lemma StartsWithAppend(s: string, prefix: string, x: string)
    requires StartsWith(s, prefix)
    ensures StartsWith(s + x, prefix)
  {
    assert (s + x)[..|prefix|] == s[..|prefix|];
  }

  /** Number of occurrences of `c` in `s`. */
  function Count(s: string, c: char): nat {
    if s == [] then 0 else (if s[0] == c then 1 else 0) + Count(s[1..], c)
  }

  /**
   * `s.split(sep)`: the pieces between the occurrences of `sep`; there is
   * always one more piece than there are separators, and no piece holds one.
   */
  function Split(s: string, sep: char): (parts: seq<string>)
    ensures |parts| == Count(s, sep) + 1
    ensures forall k :: 0 <= k < |parts| ==> sep !in parts[k]
  {
    if s == [] then [""]
    else
      var rest := Split(s[1..], sep);
      if s[0] == sep then [""] + rest
      else [[s[0]] + rest[0]] + rest[1..]
  }

  /** `sep.join(parts)`. */
  function Join(parts: seq<string>, sep: char): string
    requires |parts| >= 1
  {
    if |parts| == 1 then parts[0] else parts[0] + [sep] + Join(parts[1..], sep)
  }

  /** Splitting loses nothing: joining the pieces gives the string back. */
  lemma {:induction false} JoinSplit(s: string, sep: char)
    ensures Join(Split(s, sep), sep) == s
    decreases |s|
  {
    if s != [] {
      var rest := Split(s[1..], sep);
      JoinSplit(s[1..], sep);
      if s[0] == sep {
        assert ([""] + rest)[1..] == rest;
      } else {
        var parts := [[s[0]] + rest[0]] + rest[1..];
        if |rest| == 1 {
          assert parts == [[s[0]] + s[1..]];
        } else {
          assert parts[1..] == rest[1..];
          assert Join(rest, sep) == rest[0] + [sep] + Join(rest[1..], sep);
        }
      }
    }
  }

  /** A string with exactly one separator splits into the text before and after it. */
  lemma SplitOne(a: string, b: string, sep: char)
    requires sep !in a && sep !in b
    ensures Split(a + [sep] + b, sep) == [a, b]
  {
    var parts := Split(a + [sep] + b, sep);
    CountNoSep(b, sep);
    CountConcat(a, [sep] + b, sep);
    CountNoSep(a, sep);
    assert a + [sep] + b == a + ([sep] + b);
    assert Count([sep] + b, sep) == 1 by {
      assert ([sep] + b)[1..] == b;
    }
    assert |parts| == 2;
    JoinSplit(a + [sep] + b, sep);
    assert parts[0] + [sep] + parts[1] == a + [sep] + b;
    SplitAt(parts[0], parts[1], a, b, sep);
  }

  lemma SplitAt(p: string, q: string, a: string, b: string, sep: char)
    requires sep !in p && sep !in a
    requires p + [sep] + q == a + [sep] + b
    ensures p == a && q == b
  {
    var s := a + [sep] + b;
    FirstIndexAfter(p, q, sep);
    FirstIndexAfter(a, b, sep);
    assert p == s[..|p|] && a == s[..|a|];
    assert q == s[|p| + 1..] && b == s[|a| + 1..];
  }

  /** Index of the first `c` in `s`, or `|s|` when there is none. */
  function FirstIndex(s: string, c: char): nat {
    if s == [] || s[0] == c then 0 else 1 + FirstIndex(s[1..], c)
  }

  /** The first index is within `s`, and `s` holds `c` there unless it is `|s|`. */
  lemma {:induction false} FirstIndexHit(s: string, c: char)
    ensures FirstIndex(s, c) <= |s|
    ensures FirstIndex(s, c) < |s| ==> s[FirstIndex(s, c)] == c
  {
    if s != [] && s[0] != c {
      FirstIndexHit(s[1..], c);
    }
  }

  /** The first occurrence comes no later than any occurrence. */
  lemma {:induction false} FirstIndexFirst(s: string, c: char, q: nat)
    requires q < |s| && s[q] == c
    ensures FirstIndex(s, c) <= q
  {
    if s[0] != c {
      FirstIndexFirst(s[1..], c, q - 1);
    }
  }

  lemma {:induction false} FirstIndexAfter(x: string, y: string, c: char)
    requires c !in x
    ensures FirstIndex(x + [c] + y, c) == |x|
    decreases |x|
  {
    if x != [] {
      assert (x + [c] + y)[1..] == x[1..] + [c] + y;
      FirstIndexAfter(x[1..], y, c);
    }
  }

  lemma {:induction false} CountNoSep(s: string, c: char)
    requires c !in s
    ensures Count(s, c) == 0
    decreases |s|
  {
    if s != [] {
      CountNoSep(s[1..], c);
    }
  }

  lemma {:induction false} CountConcat(a: string, b: string, c: char)
    ensures Count(a + b, c) == Count(a, c) + Count(b, c)
    decreases |a|
  {
    if a == [] {
      assert a + b == b;
    } else {
      assert (a + b)[1..] == a[1..] + b;
      CountConcat(a[1..], b, c);
    }
  }

  // ---- str() of an int ----

  predicate IsDigit(c: char) {
    '0' <= c <= '9'
  }

  predicate AllDigits(s: string) {
    forall i :: 0 <= i < |s| ==> IsDigit(s[i])
  }

  function DigitChar(d: nat): (c: char)
    requires d < 10
    ensures IsDigit(c) && c as int - '0' as int == d
  {
    ('0' as int + d) as char
  }

  function DigitValue(c: char): (d: nat)
    requires IsDigit(c)
    ensures d < 10
  {
    c as int - '0' as int
  }

  /** The number a string of decimal digits denotes (0 for the empty string). */
  function DigitsValue(s: string): nat
    requires AllDigits(s)
  {
    if s == [] then 0 else DigitsValue(s[..|s| - 1]) * 10 + DigitValue(s[|s| - 1])
  }

  /** `str(n)` for a natural number: its shortest decimal form. */
  function NatToString(n: nat): (s: string)
    ensures |s| >= 1 && AllDigits(s)
    ensures s[0] == '0' ==> n == 0 && s == "0"
  {
    if n < 10 then [DigitChar(n)] else NatToString(n / 10) + [DigitChar(n % 10)]
  }

  /** `str(n)` for an int: a minus sign followed by the digits when negative. */
  function IntToString(n: int): (s: string)
    ensures |s| >= 1
    ensures n < 0 ==> s[0] == '-' && AllDigits(s[1..])
    ensures n >= 0 ==> AllDigits(s)
  {
    if n < 0 then ['-'] + NatToString(-n) else NatToString(n)
  }

  lemma {:induction false} NatToStringValue(n: nat)
    ensures DigitsValue(NatToString(n)) == n
  {
    if n >= 10 {
      var s := NatToString(n);
      assert s[..|s| - 1] == NatToString(n / 10);
      NatToStringValue(n / 10);
    }
  }

  /** The decimal text of an int determines the int. */
  lemma IntToStringInjective(a: int, b: int)
    requires IntToString(a) == IntToString(b)
    ensures a == b
  {
    var m: nat := if a < 0 then -a else a;
    var n: nat := if b < 0 then -b else b;
    assert (a < 0) == (b < 0) by {
      assert IntToString(a)[0] == IntToString(b)[0];
    }
    if a < 0 {
      assert IntToString(a)[1..] == NatToString(m);
      assert IntToString(b)[1..] == NatToString(n);
    }
    NatToStringValue(m);
    NatToStringValue(n);
  }

  lemma IntToStringHasNo(n: int, c: char)
    requires !IsDigit(c) && c != '-'
    ensures c !in IntToString(n)
  {
  }

  /** Past its first character, the decimal text of an int holds only digits. */
  lemma IntToStringTail(n: int, i: nat)
    requires 1 <= i < |IntToString(n)|
    ensures IsDigit(IntToString(n)[i])
  {
    if n < 0 {
      assert IntToString(n)[i] == IntToString(n)[1..][i - 1];
    }
  }

  /**
   * An int written out and followed by text that starts with neither a digit
   * nor '-' can be read back: the int and the text after it are determined.
   */
  lemma IntToStringThenText(a: int, b: int, x: string, y: string)
    requires IntToString(a) + x == IntToString(b) + y
    requires x != [] && !IsDigit(x[0]) && x[0] != '-'
    requires y != [] && !IsDigit(y[0]) && y[0] != '-'
    ensures a == b && x == y
  {
    var sa, sb := IntToString(a), IntToString(b);
    if |sa| < |sb| {
      assert (sb + y)[|sa|] == x[0];
      IntToStringTail(b, |sa|);
      assert false;
    }
    if |sb| < |sa| {
      assert (sa + x)[|sb|] == y[0];
      IntToStringTail(a, |sb|);
      assert false;
    }
    assert sa == (sa + x)[..|sa|] && sb == (sb + y)[..|sb|];
    IntToStringInjective(a, b);
    assert x == (sa + x)[|sa|..] && y == (sb + y)[|sb|..];
  }

  /**
   * Text free of `stop`, followed by text that starts with `stop`, can be read
   * back: the text before the first `stop` and the rest are determined.
   */
  lemma TextThenStop(s1: string, s2: string, x: string, y: string, stop: char)
    requires s1 + x == s2 + y
    requires stop !in s1 && stop !in s2
    requires x != [] && x[0] == stop && y != [] && y[0] == stop
    ensures s1 == s2 && x == y
  {
    FirstStop(s1, x, stop);
    FirstStop(s2, y, stop);
    assert |s1| == |s2|;
    assert s1 == (s1 + x)[..|s1|] && s2 == (s2 + y)[..|s2|];
    assert x == (s1 + x)[|s1|..] && y == (s2 + y)[|s2|..];
  }

  /** In `s + x`, with `x` starting with `stop` and `s` free of it, the first `stop` is at `|s|`. */
  lemma FirstStop(s: string, x: string, stop: char)
    requires stop !in s && x != [] && x[0] == stop
    ensures (s + x)[|s|] == stop
    ensures forall i :: 0 <= i < |s| ==> (s + x)[i] != stop
  {
    forall i | 0 <= i < |s|
      ensures (s + x)[i] != stop
    {
      assert (s + x)[i] == s[i];
    }
  }

  /** Concatenation regroups. */
  lemma ConcatAssoc(a: string, b: string, c: string)
    ensures a + b + c == a + (b + c)
  {
  }

  /** Equal texts with the same known prefix agree after it. */
  lemma DropCommonPrefix(p: string, u: string, v: string)
    requires p + u == p + v
    ensures u == v
  {
    assert u == (p + u)[|p|..] && v == (p + v)[|p|..];
  }

  /** Equal texts with the same known suffix agree before it. */
  lemma DropCommonSuffix(u: string, v: string, e: string)
    requires u + e == v + e
    ensures u == v
  {
    assert u == (u + e)[..|u|] && v == (v + e)[..|v|];
  }
}
