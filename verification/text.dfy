/**
 * The few pieces of Python's `str` behaviour the two scripts depend on:
 * `isspace`, `strip`/`rstrip`, `lower`, `startswith`/`endswith`, `in`,
 * `join`, `splitlines`, `split(c)[0]`, clamped slicing and `int(str)`.
 * Strings are sequences of Unicode scalar values, as in Python 3.
 */
module Text {
  import opened Wrappers

  /** Python's `str.isspace` for one character (the characters the
   *  interpreter's Py_UNICODE_ISSPACE accepts); `\s` in a `re` pattern
   *  and `str.strip()` use the same set. */
  predicate IsSpace(c: char) {
    if c <= ' ' then
      c == ' ' || ('\t' <= c <= '\r') || ('\U{1C}' <= c <= '\U{1F}')
    else
      c == '\U{85}' || c == '\U{A0}' || c == '\U{1680}'
      || ('\U{2000}' <= c <= '\U{200A}') || c == '\U{2028}' || c == '\U{2029}'
      || c == '\U{202F}' || c == '\U{205F}' || c == '\U{3000}'
  }

  /** The line boundaries of Python's `str.splitlines`. */
  predicate IsLineBreak(c: char) {
    ('\n' <= c <= '\r') || ('\U{1C}' <= c <= '\U{1E}')
    || c == '\U{85}' || c == '\U{2028}' || c == '\U{2029}'
  }

  predicate IsDigit(c: char) {
    '0' <= c <= '9'
  }

  predicate IsPrefix(p: string, s: string) {
    |p| <= |s| && s[..|p|] == p
  }

  /** `s.startswith(p)` */
  predicate StartsWith(s: string, p: string) {
    IsPrefix(p, s)
  }

  /** A text that starts with `p + q` starts with `p`. */
  lemma StartsWithShorter(s: string, p: string, q: string)
    requires StartsWith(s, p + q)
    ensures StartsWith(s, p)
  {
    assert (p + q)[..|p|] == p;
    assert s[..|p|] == s[..|p + q|][..|p|];
  }

  /** `s.endswith(p)` */
  predicate EndsWith(s: string, p: string) {
    |p| <= |s| && s[|s| - |p|..] == p
  }

  /** `sub in s` */
  predicate Contains(s: string, sub: string)
    decreases |s|
  {
    StartsWith(s, sub) || (s != [] && Contains(s[1..], sub))
  }

  lemma {:induction false} ContainsAt(s: string, sub: string, i: nat)
    requires i + |sub| <= |s| && s[i..i + |sub|] == sub
    ensures Contains(s, sub)
    decreases i
  {
    if i > 0 {
      assert s[1..][i - 1..i - 1 + |sub|] == sub;
      ContainsAt(s[1..], sub, i - 1);
    }
  }

  /** ASCII part of `str.lower` for one character. */
  function LowerChar(c: char): (r: char)
    ensures 'A' <= c <= 'Z' ==> 'a' <= r <= 'z'
    ensures !('A' <= c <= 'Z') ==> r == c
  {
    if 'A' <= c <= 'Z' then (c as int - 'A' as int + 'a' as int) as char else c
  }

  /** `s.lower()`, on ASCII letters */
  function Lower(s: string): (r: string)
    ensures |r| == |s|
    ensures forall i :: 0 <= i < |s| ==> r[i] == LowerChar(s[i])
  {
    seq(|s|, i requires 0 <= i < |s| => LowerChar(s[i]))
  }

  /** Lower-casing works piece by piece. */
  lemma LowerAppend(a: string, b: string)
    ensures Lower(a + b) == Lower(a) + Lower(b)
  {
  }

  /** `s.rstrip()`: the longest prefix that does not end in white space. */
  function RStrip(s: string): (r: string)
    ensures |r| <= |s|
  {
    if s != [] && IsSpace(s[|s| - 1]) then RStrip(s[..|s| - 1]) else s
  }

  lemma {:induction false} RStripSpec(s: string)
    ensures IsPrefix(RStrip(s), s)
    ensures RStrip(s) == [] || !IsSpace(RStrip(s)[|RStrip(s)| - 1])
    ensures forall i :: |RStrip(s)| <= i < |s| ==> IsSpace(s[i])
    decreases |s|
  {
    if s != [] && IsSpace(s[|s| - 1]) {
      RStripSpec(s[..|s| - 1]);
    }
  }

  /** `s.lstrip()`: the longest suffix that does not start with white space. */
  function LStrip(s: string): (r: string)
    ensures |r| <= |s|
  {
    if s != [] && IsSpace(s[0]) then LStrip(s[1..]) else s
  }

  lemma {:induction false} LStripSpec(s: string)
    ensures forall i :: 0 <= i < |LStrip(s)| ==> LStrip(s)[i] == s[|s| - |LStrip(s)| + i]
    ensures LStrip(s) == [] || !IsSpace(LStrip(s)[0])
    ensures forall i :: 0 <= i < |s| - |LStrip(s)| ==> IsSpace(s[i])
    decreases |s|
  {
    if s != [] && IsSpace(s[0]) {
      LStripSpec(s[1..]);
    }
  }

  /** `s.strip()` */
  function Strip(s: string): string {
    LStrip(RStrip(s))
  }

  /** `s.rstrip(c)`: drops every trailing copy of `c`. */
  function RStripChar(s: string, c: char): (r: string)
    ensures IsPrefix(r, s)
    ensures r == [] || r[|r| - 1] != c
    ensures forall i :: |r| <= i < |s| ==> s[i] == c
  {
    if s != [] && s[|s| - 1] == c then RStripChar(s[..|s| - 1], c) else s
  }

  /** Appending white space does not change what `rstrip` keeps. */
  lemma {:induction false} RStripAppendSpace(s: string, t: string)
    requires forall i :: 0 <= i < |t| ==> IsSpace(t[i])
    ensures RStrip(s + t) == RStrip(s)
    decreases |t|
  {
    if t != [] {
      assert (s + t)[..|s + t| - 1] == s + t[..|t| - 1];
      RStripAppendSpace(s, t[..|t| - 1]);
    } else {
      assert s + t == s;
    }
  }

  /** For a character that is not white space, `s.strip().endswith(c)`
   *  and `s.rstrip().endswith(c)` agree. */
  lemma StripEndsWith(s: string, c: char)
    requires !IsSpace(c)
    ensures EndsWith(Strip(s), [c]) <==> EndsWith(RStrip(s), [c])
  {
    var t := RStrip(s);
    var u := LStrip(t);
    RStripSpec(s);
    LStripSpec(t);
    if EndsWith(t, [c]) {
      assert t[|t| - 1] == c;
      assert !IsSpace(t[|t| - 1]);
      assert |u| >= 1;
      assert u[|u| - 1] == t[|t| - 1];
    }
    if EndsWith(u, [c]) {
      assert u[|u| - 1] == t[|t| - 1];
    }
  }

  /** `sep.join(parts)` */
  function Join(sep: string, parts: seq<string>): string
    decreases |parts|
  {
    if parts == [] then ""
    else if |parts| == 1 then parts[0]
    else parts[0] + sep + Join(sep, parts[1..])
  }

  /** A part in front of a non-empty run of parts is joined with one separator. */
  lemma JoinCons(sep: string, x: string, t: seq<string>)
    requires t != []
    ensures Join(sep, [x] + t) == x + sep + Join(sep, t)
  {
    assert ([x] + t)[1..] == t;
  }

  lemma RegroupJoined(x: string, sep: string, j: string, k: string)
    ensures x + sep + (j + sep + k) == (x + sep + j) + sep + k
  {
  }

  /** Joining two non-empty runs of parts puts one separator between them. */
  lemma {:induction false} JoinAppend(sep: string, a: seq<string>, b: seq<string>)
    requires a != [] && b != []
    ensures Join(sep, a + b) == Join(sep, a) + sep + Join(sep, b)
    decreases |a|
  {
    var rest := a[1..];
    assert a + b == [a[0]] + (rest + b);
    JoinCons(sep, a[0], rest + b);
    if rest != [] {
      assert a == [a[0]] + rest;
      JoinAppend(sep, rest, b);
      JoinCons(sep, a[0], rest);
      RegroupJoined(a[0], sep, Join(sep, rest), Join(sep, b));
    } else {
      assert rest + b == b;
    }
  }

  /** The length of the first line: the index of the first line boundary, or |s|. */
  function LineEnd(s: string): (n: nat)
    ensures n <= |s|
    ensures forall i :: 0 <= i < n ==> !IsLineBreak(s[i])
    ensures n < |s| ==> IsLineBreak(s[n])
  {
    if s == [] || IsLineBreak(s[0]) then 0 else 1 + LineEnd(s[1..])
  }

  predicate NoLineBreak(line: string) {
    forall k :: 0 <= k < |line| ==> !IsLineBreak(line[k])
  }

  /** `s.splitlines()`: "\r\n" is one boundary, and a final boundary does
   *  not start an empty last line. */
  function SplitLines(s: string): (lines: seq<string>)
    decreases |s|
  {
    if s == [] then []
    else
      var n := LineEnd(s);
      if n == |s| then [s]
      else
        var next := if s[n] == '\r' && n + 1 < |s| && s[n + 1] == '\n' then n + 2 else n + 1;
        [s[..n]] + SplitLines(s[next..])
  }

  /** No line `splitlines` returns contains a line boundary. */
  lemma {:induction false} SplitLinesHaveNoBreaks(s: string)
    ensures forall i :: 0 <= i < |SplitLines(s)| ==> NoLineBreak(SplitLines(s)[i])
    decreases |s|
  {
    if s != [] {
      var n := LineEnd(s);
      var first := s[..n];
      assert NoLineBreak(first) by {
        forall k | 0 <= k < |first| ensures !IsLineBreak(first[k]) {
          assert first[k] == s[k];
        }
      }
      if n < |s| {
        var next := if s[n] == '\r' && n + 1 < |s| && s[n + 1] == '\n' then n + 2 else n + 1;
        var rest := SplitLines(s[next..]);
        SplitLinesHaveNoBreaks(s[next..]);
        assert SplitLines(s) == [first] + rest;
        forall i | 0 <= i < |SplitLines(s)| ensures NoLineBreak(SplitLines(s)[i]) {
          if i > 0 {
            assert SplitLines(s)[i] == rest[i - 1];
          }
        }
      } else {
        assert first == s;
      }
    }
  }

  lemma {:induction false} LineEndOf(line: string, rest: string)
    requires NoLineBreak(line)
    ensures LineEnd(line + rest) == |line| + LineEnd(rest)
    decreases |line|
  {
    if line == [] {
      assert line + rest == rest;
    } else {
      assert (line + rest)[1..] == line[1..] + rest;
      LineEndOf(line[1..], rest);
    }
  }

  /** A line without a boundary followed by "\n" is split off as one line. */
  lemma SplitLinesCons(line: string, rest: string)
    requires NoLineBreak(line)
    ensures SplitLines(line + "\n" + rest) == [line] + SplitLines(rest)
  {
    var s := line + "\n" + rest;
    assert s == line + ("\n" + rest);
    LineEndOf(line, "\n" + rest);
    assert s[|line|] == '\n';
    assert s[..|line|] == line;
    assert s[|line| + 1..] == rest;
  }

  /** "\r\n" is one boundary: the line before it is split off and no empty
   *  line appears between "\r" and "\n". */
  lemma SplitLinesCrLf(line: string, rest: string)
    requires NoLineBreak(line)
    ensures SplitLines(line + "\r\n" + rest) == [line] + SplitLines(rest)
  {
    var s := line + "\r\n" + rest;
    assert s == line + ("\r\n" + rest);
    LineEndOf(line, "\r\n" + rest);
    assert s[|line|] == '\r' && s[|line| + 1] == '\n';
    assert s[..|line|] == line;
    assert s[|line| + 2..] == rest;
  }

  /** Python slicing `s[:n]`, which clamps at the end of `s`. */
  function Take<T>(s: seq<T>, n: nat): (r: seq<T>)
    ensures r == s[..if n <= |s| then n else |s|]
  {
    if n <= |s| then s[..n] else s
  }

  /** Python slicing `s[n:]`, which is empty past the end of `s`. */
  function Drop<T>(s: seq<T>, n: nat): (r: seq<T>)
    ensures r == s[if n <= |s| then n else |s|..]
  {
    if n <= |s| then s[n..] else []
  }

  /** `s.split(c)[0]`: everything before the first `c`. */
  function BeforeFirst(s: string, c: char): (r: string)
    ensures IsPrefix(r, s) && c !in r
    ensures |r| < |s| ==> s[|r|] == c
  {
    if s == [] || s[0] == c then [] else [s[0]] + BeforeFirst(s[1..], c)
  }

  /** The text before the first `c` is everything up to that `c`. */
  lemma {:induction false} BeforeFirstAt(s: string, c: char, i: nat)
    requires i <= |s| && (i < |s| ==> s[i] == c)
    requires forall k :: 0 <= k < i ==> s[k] != c
    ensures BeforeFirst(s, c) == s[..i]
    decreases i
  {
    if i > 0 {
      BeforeFirstAt(s[1..], c, i - 1);
      assert s[..i] == [s[0]] + s[1..][..i - 1];
    }
  }

  /** The decimal digits of `n`, as `str(int)` writes them. */
  function NatToString(n: nat): (r: string)
    ensures r != [] && forall i :: 0 <= i < |r| ==> IsDigit(r[i])
  {
    var d := ['0' + (n % 10) as char];
    if n < 10 then d else NatToString(n / 10) + d
  }

  /** Digits with single underscores between them, as `int()` accepts. */
  predicate WellFormedDigits(t: string) {
    && t != []
    && IsDigit(t[0])
    && IsDigit(t[|t| - 1])
    && (forall i :: 0 <= i < |t| ==> IsDigit(t[i]) || t[i] == '_')
    && (forall i, j :: 0 <= i < |t| && 0 <= j < |t| && j == i + 1 ==> IsDigit(t[i]) || IsDigit(t[j]))
  }

  function DigitsValue(t: string): nat
  {
    if t == [] then 0
    else if IsDigit(t[|t| - 1]) then 10 * DigitsValue(t[..|t| - 1]) + (t[|t| - 1] as int - '0' as int)
    else DigitsValue(t[..|t| - 1])
  }

  /** Stripping a string of white space only leaves nothing. */
  lemma StripOfSpaces(s: string)
    requires forall i :: 0 <= i < |s| ==> IsSpace(s[i])
    ensures Strip(s) == []
  {
    RStripSpec(s);
  }

  /** The white space `int(s)` skips around its number. A non-ASCII
   *  `isspace` character counts, because `int` first turns it into a space;
   *  of the ASCII ones only space and `\t` to `\r` count, so the separators
   *  U+001C to U+001F, which `str.isspace` accepts, make `int` fail. */
  predicate IsIntSpace(c: char) {
    IsSpace(c) && !('\U{1C}' <= c <= '\U{1F}')
  }

  /** `s` without its trailing run of `int` white space. */
  function IntRTrim(s: string): (r: string)
    ensures |r| <= |s|
  {
    if s != [] && IsIntSpace(s[|s| - 1]) then IntRTrim(s[..|s| - 1]) else s
  }

  lemma {:induction false} IntRTrimSpec(s: string)
    ensures IsPrefix(IntRTrim(s), s)
    ensures IntRTrim(s) == [] || !IsIntSpace(IntRTrim(s)[|IntRTrim(s)| - 1])
    ensures forall i :: |IntRTrim(s)| <= i < |s| ==> IsIntSpace(s[i])
    decreases |s|
  {
    if s != [] && IsIntSpace(s[|s| - 1]) {
      IntRTrimSpec(s[..|s| - 1]);
    }
  }

  /** `s` without its leading run of `int` white space. */
  function IntLTrim(s: string): (r: string)
    ensures |r| <= |s|
  {
    if s != [] && IsIntSpace(s[0]) then IntLTrim(s[1..]) else s
  }

  lemma {:induction false} IntLTrimSpec(s: string)
    ensures forall i :: 0 <= i < |IntLTrim(s)| ==> IntLTrim(s)[i] == s[|s| - |IntLTrim(s)| + i]
    ensures IntLTrim(s) == [] || !IsIntSpace(IntLTrim(s)[0])
    ensures forall i :: 0 <= i < |s| - |IntLTrim(s)| ==> IsIntSpace(s[i])
    decreases |s|
  {
    if s != [] && IsIntSpace(s[0]) {
      IntLTrimSpec(s[1..]);
    }
  }

  /** `int(s)` for a decimal string: surrounding white space, an optional
   *  sign, ASCII digits with single underscores between them; None where
   *  Python raises ValueError. */
  function ParseInt(s: string): Option<int>
  {
    ParseSigned(IntLTrim(IntRTrim(s)))
  }

  /** A year starting with one of the separators U+001C to U+001F is not a
   *  number to `int`, although `str.strip` would remove the separator. */
  lemma ParseIntRejectsSeparator(s: string)
    requires s != [] && '\U{1C}' <= s[0] <= '\U{1F}'
    ensures ParseInt(s) == None
    ensures IsSpace(s[0])
  {
    IntRTrimSpec(s);
    var r := IntRTrim(s);
    assert !IsIntSpace(s[0]);
    assert r != [] && r[0] == s[0];
    IntLTrimSpec(r);
    assert IntLTrim(r) == r;
  }

  /** `int` on a string without surrounding white space. */
  function ParseSigned(t: string): Option<int>
  {
    var signed := t != [] && (t[0] == '+' || t[0] == '-');
    var digits := if signed then t[1..] else t;
    if !WellFormedDigits(digits) then None
    else
      var n: int := DigitsValue(digits);
      Some(if signed && t[0] == '-' then -n else n)
  }

  lemma ParseSignedDigits(t: string)
    requires WellFormedDigits(t)
    ensures ParseSigned(t) == Some(DigitsValue(t))
  {
    assert t[0] != '+' && t[0] != '-';
  }

  /** A string of ASCII digits parses to its decimal value. */
  lemma ParseIntDigits(s: string)
    requires s != [] && forall i :: 0 <= i < |s| ==> IsDigit(s[i])
    ensures ParseInt(s) == Some(DigitsValue(s))
  {
    assert !IsIntSpace(s[|s| - 1]) by { assert IsDigit(s[|s| - 1]); }
    assert IntRTrim(s) == s;
    assert !IsIntSpace(s[0]) by { assert IsDigit(s[0]); }
    assert IntLTrim(s) == s;
    assert WellFormedDigits(s);
    ParseSignedDigits(s);
  }

  lemma {:induction false} DigitsValueOfNat(n: nat)
    ensures DigitsValue(NatToString(n)) == n
    decreases n
  {
    if n >= 10 {
      DigitsValueOfNat(n / 10);
      var d := ['0' + (n % 10) as char];
      assert (NatToString(n / 10) + d)[..|NatToString(n / 10) + d| - 1] == NatToString(n / 10);
    }
  }

  /** `int(str(n)) == n` */
  lemma ParseIntOfNatToString(n: nat)
    ensures ParseInt(NatToString(n)) == Some(n)
  {
    ParseIntDigits(NatToString(n));
    DigitsValueOfNat(n);
  }

  /** A run of zeros is worth 0. */
  lemma {:induction false} DigitsValueOfZeros(s: string)
    requires forall i :: 0 <= i < |s| ==> s[i] == '0'
    ensures DigitsValue(s) == 0
    decreases |s|
  {
    if s != [] {
      DigitsValueOfZeros(s[..|s| - 1]);
    }
  }
}
