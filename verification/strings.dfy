/**
 The small part of Python's `str` behaviour the pipelines rely on: whitespace
 stripping, ASCII lower-casing, prefix and suffix tests, `join`, `splitlines`
 and the decimal rendering of integers used by every templated file name.

 Whitespace is the ASCII subset of what `str.isspace` accepts, and lines are
 broken at `\n` only.
 */
module Strings {

  /** The ASCII characters Python's `str.strip()` removes. */
  predicate IsWhitespace(c: char) {
    c == ' ' || c == '\t' || c == '\n' || c == '\r' || c == '\U{0B}' || c == '\U{0C}'
    || c == '\U{1C}' || c == '\U{1D}' || c == '\U{1E}' || c == '\U{1F}'
  }

  predicate IsDigit(c: char) {
    '0' <= c <= '9'
  }

  predicate AllDigits(s: string) {
    forall i :: 0 <= i < |s| ==> IsDigit(s[i])
  }

  /** `s` is non-empty and does not start with a decimal digit. */
  predicate StartsWithNonDigit(s: string) {
    |s| > 0 && !IsDigit(s[0])
  }

  predicate StartsWith(s: string, prefix: string) {
    prefix <= s
  }

  predicate EndsWith(s: string, suffix: string) {
    |suffix| <= |s| && s[|s| - |suffix|..] == suffix
  }

  // ---------------------------------------------------------------------------
  // Lower-casing

  function LowerChar(c: char): char {
    if 'A' <= c <= 'Z' then (c as int + 32) as char else c
  }

  /** `str.lower()` restricted to ASCII letters. */
  function Lower(s: string): (r: string)
    ensures |r| == |s|
    ensures forall i :: 0 <= i < |s| ==> r[i] == LowerChar(s[i])
  {
    seq(|s|, i requires 0 <= i < |s| => LowerChar(s[i]))
  }

  lemma LowerAppend(a: string, b: string)
    ensures Lower(a + b) == Lower(a) + Lower(b)
  {
    assert forall i :: 0 <= i < |a + b| ==> Lower(a + b)[i] == (Lower(a) + Lower(b))[i];
  }

  lemma EndsWithAppend(a: string, b: string)
    ensures EndsWith(a + b, b)
  {
    assert (a + b)[|a + b| - |b|..] == b;
  }

  // ---------------------------------------------------------------------------
  // Stripping and whitespace erasure

  function LStrip(s: string): (r: string)
    ensures |r| <= |s| && r == s[|s| - |r|..]
    ensures r == "" || !IsWhitespace(r[0])
    decreases |s|
  {
    if |s| > 0 && IsWhitespace(s[0]) then LStrip(s[1..]) else s
  }

  function RStrip(s: string): (r: string)
    ensures |r| <= |s| && r == s[..|r|]
    ensures r == "" || !IsWhitespace(r[|r| - 1])
    decreases |s|
  {
    if |s| > 0 && IsWhitespace(s[|s| - 1]) then RStrip(s[..|s| - 1]) else s
  }

  /** `str.strip()`: a contiguous slice of `s` with no whitespace at either end. */
  function Strip(s: string): (r: string)
    ensures StripOffset(s) + |r| <= |s| && r == s[StripOffset(s)..StripOffset(s) + |r|]
    ensures IsStripped(r)
  {
    var l := LStrip(s);
    var r := RStrip(l);
    PrefixOfSuffix(s, l, r);
    r
  }

  /** A prefix of a suffix is a slice, and starts where the suffix does. */
  lemma PrefixOfSuffix(s: string, l: string, r: string)
    requires |l| <= |s| && l == s[|s| - |l|..]
    requires |r| <= |l| && r == l[..|r|]
    ensures |s| - |l| + |r| <= |s| && r == s[|s| - |l|..|s| - |l| + |r|]
    ensures r == "" || r[0] == l[0]
  {
    assert s[|s| - |l|..][..|r|] == s[|s| - |l|..|s| - |l| + |r|];
  }

  /** Where the stripped text starts inside the original. */
  function StripOffset(s: string): nat {
    |s| - |LStrip(s)|
  }

  predicate IsStripped(s: string) {
    s == "" || (!IsWhitespace(s[0]) && !IsWhitespace(s[|s| - 1]))
  }

  /** Stripping a line keeps it a single line. */
  lemma StripSingleLine(line: string)
    requires '\n' !in line
    ensures '\n' !in Strip(line)
  {
    var off := StripOffset(line);
    var r := Strip(line);
    assert forall k :: 0 <= k < |r| ==> r[k] == line[off + k];
  }

  /** The non-whitespace characters of `s`, in order. */
  function Erase(s: string): (r: string)
    ensures forall i :: 0 <= i < |r| ==> !IsWhitespace(r[i])
    decreases |s|
  {
    if |s| == 0 then ""
    else (if IsWhitespace(s[0]) then "" else [s[0]]) + Erase(s[1..])
  }

  /** The non-whitespace characters of all of `xs`, in order. */
  function EraseAll(xs: seq<string>): string
    decreases |xs|
  {
    if |xs| == 0 then "" else Erase(xs[0]) + EraseAll(xs[1..])
  }

  lemma {:induction false} EraseAppend(a: string, b: string)
    ensures Erase(a + b) == Erase(a) + Erase(b)
    decreases |a|
  {
    if |a| > 0 {
      assert (a + b)[1..] == a[1..] + b;
      EraseAppend(a[1..], b);
    } else {
      assert a + b == b;
    }
  }

  lemma EraseOfWhitespace(s: string)
    requires forall i :: 0 <= i < |s| ==> IsWhitespace(s[i])
    ensures Erase(s) == ""
    decreases |s|
  {
    if |s| > 0 {
      EraseOfWhitespace(s[1..]);
    }
  }

  lemma EraseOfVisible(s: string)
    requires forall i :: 0 <= i < |s| ==> !IsWhitespace(s[i])
    ensures Erase(s) == s
    decreases |s|
  {
    if |s| > 0 {
      EraseOfVisible(s[1..]);
      assert [s[0]] + s[1..] == s;
    }
  }

  lemma {:induction false} EraseAllAppend(xs: seq<string>, ys: seq<string>)
    ensures EraseAll(xs + ys) == EraseAll(xs) + EraseAll(ys)
    decreases |xs|
  {
    if |xs| == 0 {
      assert xs + ys == ys;
    } else {
      assert (xs + ys)[1..] == xs[1..] + ys;
      EraseAllAppend(xs[1..], ys);
    }
  }

  lemma {:induction false} EraseLStrip(s: string)
    ensures Erase(LStrip(s)) == Erase(s)
    decreases |s|
  {
    if |s| > 0 && IsWhitespace(s[0]) {
      EraseLStrip(s[1..]);
    }
  }

  lemma {:induction false} EraseRStrip(s: string)
    ensures Erase(RStrip(s)) == Erase(s)
    decreases |s|
  {
    if |s| > 0 && IsWhitespace(s[|s| - 1]) {
      var init := s[..|s| - 1];
      assert s == init + [s[|s| - 1]];
      EraseAppend(init, [s[|s| - 1]]);
      EraseRStrip(init);
    }
  }

  /** Stripping only ever removes whitespace. */
  lemma EraseStrip(s: string)
    ensures Erase(Strip(s)) == Erase(s)
  {
    EraseLStrip(s);
    EraseRStrip(LStrip(s));
  }

  // ---------------------------------------------------------------------------
  // Joining

  /** The concatenation of all of `xs`. */
  function Concat(xs: seq<string>): string
    decreases |xs|
  {
    if |xs| == 0 then "" else xs[0] + Concat(xs[1..])
  }

  /** `sep.join(xs)`. */
  function Join(sep: string, xs: seq<string>): string
    decreases |xs|
  {
    if |xs| == 0 then ""
    else if |xs| == 1 then xs[0]
    else xs[0] + sep + Join(sep, xs[1..])
  }

  /** What a sequence of `f.write(line + "\n")` calls leaves in a file. */
  function ConcatLines(ls: seq<string>): string
    decreases |ls|
  {
    if |ls| == 0 then "" else ls[0] + "\n" + ConcatLines(ls[1..])
  }

  lemma {:induction false} ConcatLinesAppend(a: seq<string>, b: seq<string>)
    ensures ConcatLines(a + b) == ConcatLines(a) + ConcatLines(b)
    decreases |a|
  {
    if |a| == 0 {
      assert a + b == b;
    } else {
      assert (a + b)[1..] == a[1..] + b;
      ConcatLinesAppend(a[1..], b);
    }
  }

  /** Joining with a whitespace-only separator adds no visible character. */
  lemma {:induction false} EraseJoin(sep: string, xs: seq<string>)
    requires Erase(sep) == ""
    ensures Erase(Join(sep, xs)) == EraseAll(xs)
    decreases |xs|
  {
    if |xs| == 1 {
      assert EraseAll(xs) == Erase(xs[0]) + EraseAll(xs[1..]);
    } else if |xs| > 1 {
      EraseJoin(sep, xs[1..]);
      EraseAppend(xs[0] + sep, Join(sep, xs[1..]));
      EraseAppend(xs[0], sep);
    }
  }

  // ---------------------------------------------------------------------------
  // Lines

  /**
   `str.splitlines()` for `\n` breaks: a trailing newline ends the last line
   instead of opening an empty one, and the empty string has no lines.
   */
  function Lines(s: string): (r: seq<string>)
    ensures |s| > 0 <==> |r| > 0
    ensures forall i :: 0 <= i < |r| ==> '\n' !in r[i]
    decreases |s|
  {
    if |s| == 0 then []
    else if s[0] == '\n' then [""] + Lines(s[1..])
    else
      var rest := Lines(s[1..]);
      if |rest| == 0 then [[s[0]]] else [[s[0]] + rest[0]] + rest[1..]
  }

  lemma {:induction false} LinesOfLineThenRest(a: string, rest: string)
    requires '\n' !in a
    ensures Lines(a + "\n" + rest) == [a] + Lines(rest)
    decreases |a|
  {
    if |a| == 0 {
      assert a + "\n" + rest == "\n" + rest;
      assert ("\n" + rest)[1..] == rest;
    } else {
      var s := a + "\n" + rest;
      assert s[1..] == a[1..] + "\n" + rest;
      assert s[0] == a[0];
      LinesOfLineThenRest(a[1..], rest);
      assert [a[0]] + a[1..] == a;
    }
  }

  lemma {:induction false} LinesOfSingleLine(a: string)
    requires a != "" && '\n' !in a
    ensures Lines(a) == [a]
    decreases |a|
  {
    if |a| > 1 {
      LinesOfSingleLine(a[1..]);
      assert [a[0]] + a[1..] == a;
    } else {
      assert a == [a[0]];
    }
  }

  /** Splitting what `"\n".join` produced gives back the lines, when none is empty. */
  lemma {:induction false} LinesOfJoin(xs: seq<string>)
    requires forall i :: 0 <= i < |xs| ==> xs[i] != "" && '\n' !in xs[i]
    ensures Lines(Join("\n", xs)) == xs
    decreases |xs|
  {
    if |xs| == 1 {
      LinesOfSingleLine(xs[0]);
    } else if |xs| > 1 {
      LinesOfJoin(xs[1..]);
      LinesOfLineThenRest(xs[0], Join("\n", xs[1..]));
      assert [xs[0]] + xs[1..] == xs;
    }
  }

  /** No element of `ls` contains a line break. */
  predicate AllSingleLine(ls: seq<string>) {
    forall i :: 0 <= i < |ls| ==> '\n' !in ls[i]
  }

  lemma AllSingleLineAppend(a: seq<string>, b: seq<string>)
    requires AllSingleLine(a) && AllSingleLine(b)
    ensures AllSingleLine(a + b)
  {
    assert forall i :: 0 <= i < |a + b| ==> (a + b)[i] == if i < |a| then a[i] else b[i - |a|];
  }

  lemma DigitsSingleLine(s: string)
    requires AllDigits(s)
    ensures '\n' !in s
  {
    assert forall i :: 0 <= i < |s| ==> s[i] != '\n';
  }

  lemma {:induction false} JoinSingleLine(sep: string, xs: seq<string>)
    requires '\n' !in sep && AllSingleLine(xs)
    ensures '\n' !in Join(sep, xs)
    decreases |xs|
  {
    if |xs| > 1 {
      JoinSingleLine(sep, xs[1..]);
    }
  }

  /** Splitting a file written line by line gives back the lines written. */
  lemma {:induction false} LinesOfConcatLines(ls: seq<string>)
    requires AllSingleLine(ls)
    ensures Lines(ConcatLines(ls)) == ls
    decreases |ls|
  {
    if |ls| > 0 {
      LinesOfConcatLines(ls[1..]);
      LinesOfLineThenRest(ls[0], ConcatLines(ls[1..]));
      assert [ls[0]] + ls[1..] == ls;
    }
  }

  /** Breaking text into lines only drops newline characters. */
  lemma {:induction false} EraseLines(s: string)
    ensures EraseAll(Lines(s)) == Erase(s)
    decreases |s|
  {
    if |s| > 0 {
      EraseLines(s[1..]);
      var rest := Lines(s[1..]);
      if s[0] == '\n' {
        assert Lines(s)[1..] == rest;
      } else if |rest| == 0 {
        assert Lines(s) == [[s[0]]];
        assert Erase(s[1..]) == "";
        assert Erase([s[0]]) == (if IsWhitespace(s[0]) then "" else [s[0]]) + Erase([s[0]][1..]);
      } else {
        var first := [s[0]] + rest[0];
        assert Lines(s)[0] == first;
        assert Lines(s)[1..] == rest[1..];
        EraseAppend([s[0]], rest[0]);
        assert Erase([s[0]]) == (if IsWhitespace(s[0]) then "" else [s[0]]) + Erase([s[0]][1..]);
      }
    }
  }

  // ---------------------------------------------------------------------------
  // Decimal numbers

  function DigitChar(d: nat): (c: char)
    requires d < 10
    ensures IsDigit(c)
  {
    ('0' as int + d) as char
  }

  function DigitValue(c: char): (d: nat)
    requires IsDigit(c)
    ensures d < 10 && DigitChar(d) == c
  {
    c as int - '0' as int
  }

  /** Python's `str(n)` for a non-negative integer: decimal digits, no leading zero. */
  function NatStr(n: nat): (s: string)
    ensures 1 <= |s| && AllDigits(s)
    ensures s[0] == '0' ==> n == 0
    decreases n
  {
    if n < 10 then [DigitChar(n)] else NatStr(n / 10) + [DigitChar(n % 10)]
  }

  /** Python's `int(s)` on a string of decimal digits. */
  function ParseNat(s: string): nat
    requires AllDigits(s)
    decreases |s|
  {
    if |s| == 0 then 0 else ParseNat(s[..|s| - 1]) * 10 + DigitValue(s[|s| - 1])
  }

  /** Reading back a rendered number gives the number. */
  lemma {:induction false} ParseNatStr(n: nat)
    ensures ParseNat(NatStr(n)) == n
    decreases n
  {
    var s := NatStr(n);
    if n < 10 {
      assert s[..0] == "";
    } else {
      ParseNatStr(n / 10);
      assert s[..|s| - 1] == NatStr(n / 10);
    }
  }

  lemma NatStrInjective(a: nat, b: nat)
    requires NatStr(a) == NatStr(b)
    ensures a == b
  {
    ParseNatStr(a);
    ParseNatStr(b);
  }

  /** Python's `str(i)` for any integer. */
  function IntStr(i: int): (s: string)
    ensures 1 <= |s| && (s[0] == '-' || IsDigit(s[0]))
  {
    if i < 0 then "-" + NatStr(-i) else NatStr(i)
  }

  lemma IntStrInjective(a: int, b: int)
    requires IntStr(a) == IntStr(b)
    ensures a == b
  {
    if a < 0 && b < 0 {
      assert IntStr(a)[1..] == NatStr(-a);
      assert IntStr(b)[1..] == NatStr(-b);
      NatStrInjective(-a, -b);
    } else if a >= 0 && b >= 0 {
      NatStrInjective(a, b);
    }
  }

  /**
   A run of digits followed by a non-digit is read unambiguously: this is what
   keeps `page_{n}_…` style names apart.
   */
  lemma DigitsThenCancel(d1: string, x1: string, d2: string, x2: string)
    requires AllDigits(d1) && AllDigits(d2)
    requires StartsWithNonDigit(x1) && StartsWithNonDigit(x2)
    requires d1 + x1 == d2 + x2
    ensures d1 == d2 && x1 == x2
  {
    var s := d1 + x1;
    LeadingDigitsOf(d1, x1);
    LeadingDigitsOf(d2, x2);
    assert d1 == s[..|d1|] == d2;
    assert x1 == s[|d1|..] == x2;
  }

  /** The number of decimal digits `s` starts with. */
  function LeadingDigits(s: string): (n: nat)
    ensures n <= |s|
    decreases |s|
  {
    if |s| == 0 || !IsDigit(s[0]) then 0 else 1 + LeadingDigits(s[1..])
  }

  lemma {:induction false} LeadingDigitsOf(d: string, x: string)
    requires AllDigits(d) && StartsWithNonDigit(x)
    ensures LeadingDigits(d + x) == |d|
    decreases |d|
  {
    if |d| == 0 {
      assert d + x == x;
    } else {
      assert (d + x)[1..] == d[1..] + x;
      LeadingDigitsOf(d[1..], x);
    }
  }

  lemma NatStrThenCancel(a: nat, x1: string, b: nat, x2: string)
    requires StartsWithNonDigit(x1) && StartsWithNonDigit(x2)
    requires NatStr(a) + x1 == NatStr(b) + x2
    ensures a == b && x1 == x2
  {
    DigitsThenCancel(NatStr(a), x1, NatStr(b), x2);
    NatStrInjective(a, b);
  }

  // ---------------------------------------------------------------------------
  // Cancellation

  lemma CancelPrefix(p: string, x: string, y: string)
    requires p + x == p + y
    ensures x == y
  {
    assert x == (p + x)[|p|..];
    assert y == (p + y)[|p|..];
  }

  lemma CancelSuffix(x: string, y: string, s: string)
    requires x + s == y + s
    ensures x == y
  {
    assert |x| == |y|;
    assert x == (x + s)[..|x|];
    assert y == (y + s)[..|y|];
  }
}
