/**
 * The string primitives the builders rely on: Python's `str.strip`,
 * `str.splitlines`, `str.startswith` and integer formatting.  Whitespace is
 * the ASCII set below and lines are separated by '\n' only.
 */
module Text {
  import opened Sorting

  predicate IsSpace(c: char) {
    c == ' ' || c == '\t' || c == '\n' || c == '\r' || c == '\U{000B}' || c == '\U{000C}'
  }

  predicate AllSpace(s: string) {
    forall i :: 0 <= i < |s| ==> IsSpace(s[i])
  }

  /** No whitespace at either end: what `str.strip` guarantees. */
  predicate Trimmed(s: string) {
    s == [] || (!IsSpace(s[0]) && !IsSpace(s[|s| - 1]))
  }

  /** `s.lstrip()` */
  function LStrip(s: string): (r: string)
    ensures |r| <= |s| && r == s[|s| - |r|..]
    ensures AllSpace(s[..|s| - |r|])
    ensures r == [] || !IsSpace(r[0])
  {
    if s != [] && IsSpace(s[0]) then
      var r := LStrip(s[1..]);
      LStripStep(s, r);
      r
    else s
  }

  /** A string is the blank head that `lstrip` drops followed by what it keeps. */
  lemma LStripSplit(s: string) returns (b: string)
    ensures AllSpace(b) && s == b + LStrip(s)
  {
    b := s[..|s| - |LStrip(s)|];
  }

  /** A string is its first `k` characters followed by the rest. */
  lemma HeadThenRest(s: string, k: nat)
    requires k <= |s|
    ensures s == s[..k] + s[k..]
  {
  }

  /** A blank first character joins the blank head that `lstrip` drops. */
  lemma LStripStep(s: string, r: string)
    requires s != [] && IsSpace(s[0])
    requires |r| <= |s| - 1 && r == s[1..][|s| - 1 - |r|..]
    requires AllSpace(s[1..][..|s| - 1 - |r|])
    ensures r == s[|s| - |r|..]
    ensures AllSpace(s[..|s| - |r|])
  {
    var n := |s| - |r|;
    forall i | 1 <= i < n ensures IsSpace(s[i]) {
      assert s[i] == s[1..][..n - 1][i - 1];
    }
  }

  /** `s.rstrip()` */
  function RStrip(s: string): (r: string)
    ensures |r| <= |s| && r == s[..|r|]
    ensures AllSpace(s[|r|..])
    ensures r == [] || !IsSpace(r[|r| - 1])
  {
    if s != [] && IsSpace(s[|s| - 1]) then
      var r := RStrip(s[..|s| - 1]);
      RStripStep(s, r);
      r
    else s
  }

  /** A blank last character joins the blank tail that `rstrip` drops. */
  lemma RStripStep(s: string, r: string)
    requires s != [] && IsSpace(s[|s| - 1])
    requires |r| <= |s| - 1 && r == s[..|s| - 1][..|r|]
    requires AllSpace(s[..|s| - 1][|r|..])
    ensures r == s[..|r|]
    ensures AllSpace(s[|r|..])
  {
    forall i | |r| <= i < |s| - 1 ensures IsSpace(s[i]) {
      assert s[i] == s[..|s| - 1][|r|..][i - |r|];
    }
  }

  /** A string that starts with a non-blank is its own `lstrip`. */
  lemma LStripKeeps(s: string)
    requires s == [] || !IsSpace(s[0])
    ensures LStrip(s) == s
  {
  }

  /** Leading blanks before a text that does not start with one are what `lstrip` drops. */
  lemma {:induction false} LStripBlankThen(b: string, t: string)
    requires AllSpace(b)
    requires t == [] || !IsSpace(t[0])
    ensures LStrip(b + t) == t
  {
    if b == [] {
      assert b + t == t;
    } else {
      assert (b + t)[1..] == b[1..] + t;
      LStripBlankThen(b[1..], t);
    }
  }

  /** Trailing blanks after a text that does not end with one are what `rstrip` drops. */
  lemma {:induction false} RStripThenBlank(t: string, b: string)
    requires AllSpace(b)
    requires t == [] || !IsSpace(t[|t| - 1])
    ensures RStrip(t + b) == t
  {
    if b == [] {
      assert t + b == t;
    } else {
      var init := b[..|b| - 1];
      assert (t + b)[..|t + b| - 1] == t + init;
      RStripThenBlank(t, init);
    }
  }

  /** `a` is a tail of `b`. */
  predicate IsSuffix(a: string, b: string) {
    |a| <= |b| && a == b[|b| - |a|..]
  }

  /** A tail of a tail is a tail. */
  lemma SuffixTrans(a: string, b: string, c: string)
    requires IsSuffix(a, b) && IsSuffix(b, c)
    ensures IsSuffix(a, c)
  {
    assert c[|c| - |b|..][|b| - |a|..] == c[|c| - |a|..];
  }

  /** Dropping a prefix and then the trailing blanks is dropping the trailing blanks and then the prefix. */
  lemma RStripDrop(s: string, j: nat)
    requires j <= |s|
    ensures RStrip(s[j..]) == if j <= |RStrip(s)| then s[j..|RStrip(s)|] else []
  {
    var m := |RStrip(s)|;
    var t := RStrip(s[j..]);
    var m' := |t|;
    assert AllSpace(s[j + m'..]) by {
      assert s[j..][m'..] == s[j + m'..];
    }
    if m' > 0 {
      assert s[j + m' - 1] == t[m' - 1];
      if m != j + m' {
        assert false;
      }
    } else if j < m {
      assert false;
    }
  }

  /**
   * `s.strip()`: the whitespace-free middle of `s`, that is, a head of
   * `s.lstrip()` and a tail of `s.rstrip()` that runs from the first
   * non-blank of `s` through its last; empty exactly when `s` is blank.
   */
  function Strip(s: string): (r: string)
    ensures Trimmed(r)
    ensures r <= LStrip(s)
    ensures IsSuffix(r, RStrip(s))
    ensures r == [] <==> AllSpace(s)
    ensures !AllSpace(s) ==> |r| == |RStrip(s)| - (|s| - |LStrip(s)|)
  {
    StripFacts(s);
    StripSuffix(s);
    StripLength(s);
    RStrip(LStrip(s))
  }

  /** `s.lstrip().rstrip()` is empty for a blank `s` and otherwise spans the first to the last non-blank. */
  lemma StripLength(s: string)
    ensures AllSpace(s) ==> RStrip(LStrip(s)) == []
    ensures !AllSpace(s) ==> |RStrip(LStrip(s))| == |RStrip(s)| - (|s| - |LStrip(s)|) > 0
  {
    if AllSpace(s) {
      BlankLStrip(s);
    } else {
      var w := |s| - |LStrip(s)|;
      var m := |RStrip(s)|;
      BlankHeadPositions(s, w);
      BlankTailPositions(s, m);
      assert w < |s|;
      assert s[w] == LStrip(s)[0];
      RStripDrop(s, w);
    }
  }

  /** A blank string strips to nothing from the left. */
  lemma BlankLStrip(s: string)
    requires AllSpace(s)
    ensures LStrip(s) == []
  {
  }

  /** A blank head has a blank character at each of its positions. */
  lemma BlankHeadPositions(s: string, w: nat)
    requires w <= |s| && AllSpace(s[..w])
    ensures forall i :: 0 <= i < w ==> IsSpace(s[i])
  {
    forall i | 0 <= i < w ensures IsSpace(s[i]) {
      assert s[..w][i] == s[i];
    }
  }

  /** A blank tail has a blank character at each of its positions. */
  lemma BlankTailPositions(s: string, m: nat)
    requires m <= |s| && AllSpace(s[m..])
    ensures forall i :: m <= i < |s| ==> IsSpace(s[i])
  {
    forall i | m <= i < |s| ensures IsSpace(s[i]) {
      assert s[m..][i - m] == s[i];
    }
  }

  /** `s.lstrip().rstrip()` is trimmed and a head of `s.lstrip()`. */
  lemma StripFacts(s: string)
    ensures Trimmed(RStrip(LStrip(s)))
    ensures RStrip(LStrip(s)) <= LStrip(s)
  {
    var l := LStrip(s);
    var r := RStrip(l);
    if r != [] {
      assert r[0] == l[0];
    }
  }

  /** `s.lstrip().rstrip()` is a tail of `s.rstrip()`. */
  lemma StripSuffix(s: string)
    ensures IsSuffix(RStrip(LStrip(s)), RStrip(s))
  {
    var w := |s| - |LStrip(s)|;
    var m := |RStrip(s)|;
    RStripDrop(s, w);
    if w <= m {
      assert RStrip(s)[w..] == s[w..m];
    }
  }

  /**
   * Stripping a tail `d` of `s` gives a tail of `s.rstrip()`, no longer
   * than the part of it after `d.lstrip()` starts.
   */
  lemma StripOfTail(s: string, d: string)
    requires IsSuffix(d, s)
    ensures IsSuffix(Strip(d), RStrip(s))
    ensures Strip(d) == [] || |Strip(d)| <= |RStrip(s)| - (|s| - |LStrip(d)|)
  {
    var l := LStrip(d);
    var a := |s| - |l|;
    assert l == s[a..] by {
      assert d == s[|s| - |d|..];
      assert l == d[|d| - |l|..];
    }
    var r := RStrip(l);
    assert Strip(d) == r;
    RStripTail(s, a);
  }

  /** `s[a:].rstrip()` is a tail of `s.rstrip()`, and the part of it from `a` on. */
  lemma RStripTail(s: string, a: nat)
    requires a <= |s|
    ensures IsSuffix(RStrip(s[a..]), RStrip(s))
    ensures RStrip(s[a..]) == [] || |RStrip(s[a..])| == |RStrip(s)| - a
  {
    var m := |RStrip(s)|;
    RStripDrop(s, a);
    if a <= m {
      assert RStrip(s) == s[..m];
      assert RStrip(s[a..]) == s[..m][a..];
    }
  }

  /** A tail of `s` that starts after the first non-blank of `s` strips to something shorter. */
  lemma StripOfShorterTail(s: string, d: string)
    requires IsSuffix(d, s)
    requires |d| < |LStrip(s)|
    ensures |Strip(d)| < |Strip(s)|
  {
    StripOfTail(s, d);
    var w := |s| - |LStrip(s)|;
    var m := |RStrip(s)|;
    RStripDrop(s, w);
    assert !IsSpace(s[w]);
    if m <= w {
      assert false;
    }
  }

  /** Stripping leaves a trimmed string alone. */
  lemma StripTrimmed(s: string)
    requires Trimmed(s)
    ensures Strip(s) == s
  {
  }

  /** `str.strip` is idempotent. */
  lemma StripIdempotent(s: string)
    ensures Strip(Strip(s)) == Strip(s)
  {
    StripTrimmed(Strip(s));
  }

  /** Index of the first occurrence of `c` in `s`, or `|s|` when there is none. */
  function IndexOf(s: string, c: char): (k: nat)
    ensures k <= |s|
    ensures c !in s[..k]
    ensures k < |s| ==> s[k] == c
  {
    if s == [] || s[0] == c then 0 else 1 + IndexOf(s[1..], c)
  }

  /**
   * `s.splitlines()` with '\n' as the only separator: a trailing newline
   * does not open an extra empty line, and the empty string has no lines.
   */
  function SplitLines(s: string): seq<string>
    decreases |s|
  {
    if s == [] then []
    else
      var k := IndexOf(s, '\n');
      if k == |s| then [s] else [s[..k]] + SplitLines(s[k + 1..])
  }

  /** No line holds a newline. */
  lemma {:induction false} SplitLinesNoNewline(s: string)
    ensures forall l | l in SplitLines(s) :: '\n' !in l
    decreases |s|
  {
    if s != [] {
      var k := IndexOf(s, '\n');
      if k < |s| {
        SplitLinesNoNewline(s[k + 1..]);
        assert SplitLines(s) == [s[..k]] + SplitLines(s[k + 1..]);
      }
    }
  }

  /** Each line followed by a newline: the inverse of `SplitLines`. */
  function Terminate(lines: seq<string>): string {
    if lines == [] then [] else lines[0] + "\n" + Terminate(lines[1..])
  }

  /** Splitting a text and terminating every line gives back the text, plus a final newline if it lacked one. */
  lemma {:induction false} TerminateSplitLines(s: string)
    ensures Terminate(SplitLines(s)) == if s == [] || s[|s| - 1] == '\n' then s else s + "\n"
    decreases |s|
  {
    if s != [] {
      var k := IndexOf(s, '\n');
      if k < |s| {
        TerminateSplitLines(s[k + 1..]);
        TerminateSplitLinesStep(s);
      } else {
        TerminateOneLine(s);
      }
    }
  }

  /** The inductive step of `TerminateSplitLines`: from the text after the first newline to the whole text. */
  lemma TerminateSplitLinesStep(s: string)
    requires IndexOf(s, '\n') < |s|
    requires var rest := s[IndexOf(s, '\n') + 1..];
             Terminate(SplitLines(rest)) == if rest == [] || rest[|rest| - 1] == '\n' then rest else rest + "\n"
    ensures Terminate(SplitLines(s)) == if s[|s| - 1] == '\n' then s else s + "\n"
  {
    var k := IndexOf(s, '\n');
    var head := s[..k] + "\n";
    var rest := s[k + 1..];
    SplitAround(s, k);
    assert SplitLines(s) == [s[..k]] + SplitLines(rest);
    assert Terminate(SplitLines(s)) == head + Terminate(SplitLines(rest));
    if rest != [] && rest[|rest| - 1] != '\n' {
      ConcatAssoc(head, rest, "\n");
    }
  }

  /** A text without a newline is one line, and terminating it appends one. */
  lemma TerminateOneLine(s: string)
    requires s != [] && IndexOf(s, '\n') == |s|
    ensures s[|s| - 1] != '\n'
    ensures Terminate(SplitLines(s)) == s + "\n"
  {
    assert SplitLines(s) == [s];
    assert s[|s| - 1] in s[..|s|];
  }

  /** A string is its part before index `k`, the character at `k`, and its part after. */
  lemma SplitAround(s: string, k: nat)
    requires k < |s|
    ensures s == s[..k] + [s[k]] + s[k + 1..]
  {
  }


  /** Lines without newlines survive terminating and splitting again. */
  lemma {:induction false} SplitLinesTerminate(lines: seq<string>)
    requires forall l | l in lines :: '\n' !in l
    ensures SplitLines(Terminate(lines)) == lines
  {
    if lines != [] {
      var s := Terminate(lines);
      var rest := Terminate(lines[1..]);
      assert s == lines[0] + "\n" + rest;
      IndexOfPrefix(lines[0], '\n', rest);
      assert s[|lines[0]| + 1..] == rest;
      assert s[..|lines[0]|] == lines[0];
      SplitLinesTerminate(lines[1..]);
    }
  }

  /** The first `c` after a `c`-free head is the one that ends it. */
  lemma {:induction false} IndexOfPrefix(head: string, c: char, rest: string)
    requires c !in head
    ensures IndexOf(head + [c] + rest, c) == |head|
  {
    if head != [] {
      assert (head + [c] + rest)[1..] == head[1..] + [c] + rest;
      IndexOfPrefix(head[1..], c, rest);
    }
  }

  /** The first line of a non-empty text is the text up to its first newline. */
  lemma FirstLine(s: string)
    requires s != []
    ensures SplitLines(s) != [] && SplitLines(s)[0] == s[..IndexOf(s, '\n')]
  {
  }

  /** `s.startswith("#")` */
  predicate StartsWithHash(s: string) {
    s != [] && s[0] == '#'
  }

  predicate IsDigit(c: char) {
    '0' <= c <= '9'
  }

  function DigitValue(c: char): nat
    requires IsDigit(c)
  {
    c as int - '0' as int
  }

  /** The number a string of decimal digits denotes, as `int(s)` reads it. */
  function DigitsValue(s: string): nat
    requires forall i :: 0 <= i < |s| ==> IsDigit(s[i])
  {
    if s == [] then 0 else DigitsValue(s[..|s| - 1]) * 10 + DigitValue(s[|s| - 1])
  }

  /** The number a decimal numeral with an optional leading minus denotes, as `int(s)` reads it. */
  function NumeralValue(s: string): int
    requires s != [] && (s[0] == '-' || IsDigit(s[0]))
    requires forall i :: 0 < i < |s| ==> IsDigit(s[i])
  {
    if s[0] == '-' then
      assert forall i :: 0 <= i < |s[1..]| ==> s[1..][i] == s[i + 1];
      var digits: int := DigitsValue(s[1..]);
      -digits
    else DigitsValue(s)
  }

  /**
   * Decimal digits of `n`, as `str(n)` prints a non-negative int: they
   * read back as `n`, and only zero itself starts with a zero.
   */
  function NatToString(n: nat): (r: string)
    ensures |r| >= 1
    ensures forall i :: 0 <= i < |r| ==> IsDigit(r[i])
    ensures DigitsValue(r) == n
    ensures r[0] == '0' ==> r == "0"
  {
    var d := [(('0' as int) + n % 10) as char];
    if n < 10 then d
    else
      var r := NatToString(n / 10) + d;
      assert r[..|r| - 1] == NatToString(n / 10);
      r
  }

  /**
   * `str(n)` for any int: a minus sign before the digits of a negative
   * number; the numeral reads back as `n` and has no leading zero.
   */
  function IntToString(n: int): (r: string)
    ensures |r| >= 1 && (r[0] == '-' || IsDigit(r[0]))
    ensures forall i :: 0 < i < |r| ==> IsDigit(r[i])
    ensures (r[0] == '-') <==> n < 0
    ensures NumeralValue(r) == n
    ensures n != 0 ==> r[if n < 0 then 1 else 0] != '0'
    ensures n == 0 ==> r == "0"
  {
    if n < 0 then
      var r := "-" + NatToString(-n);
      assert r[1..] == NatToString(-n);
      r
    else NatToString(n)
  }
}
