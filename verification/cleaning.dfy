/**
  `LegalTextSplitter._clean_text`: four regular-expression rewrites and a strip.

    1. `\n\s*\n\s*\n` -> "\n\n\n"
    2. `\n\s*\n`      -> "\n\n"
    3. `[ \t]+`       -> " "
    4. `\r\n`         -> "\n"

  A match of `\n\s*\n...` can only lie inside a maximal run of whitespace, and
  there (the stars being greedy) it runs from the run's first newline to its
  last one, provided the run holds enough newlines. Each rewrite is modelled
  as the left-to-right scan that `re.sub` performs.

  Rewrite 2 also applies to the "\n\n\n" that rewrite 1 produced, so cleaned
  text never holds three newlines in a row (`CleanTextSpec`).
 */
module Cleaning {
  import opened Strings

  /** Length of the longest whitespace prefix of `s`. */
  function SpaceRunLength(s: string): (n: nat)
    ensures n <= |s| && IsBlank(s[..n])
    ensures n < |s| ==> !IsSpace(s[n])
    ensures s != [] && IsSpace(s[0]) ==> n >= 1
  {
    if s != [] && IsSpace(s[0]) then
      var m := SpaceRunLength(s[1..]);
      assert s[..m + 1] == [s[0]] + s[1..][..m];
      m + 1
    else 0
  }

  function NewlineCount(s: string): nat {
    if s == [] then 0 else (if s[0] == '\n' then 1 else 0) + NewlineCount(s[1..])
  }

  lemma NewlineCountConcat(a: string, b: string)
    ensures NewlineCount(a + b) == NewlineCount(a) + NewlineCount(b)
  {
    if a != [] {
      assert (a + b)[0] == a[0];
      assert (a + b)[1..] == a[1..] + b;
      NewlineCountConcat(a[1..], b);
    } else {
      assert a + b == b;
    }
  }

  lemma NoNewlineCount(s: string)
    requires forall i :: 0 <= i < |s| ==> s[i] != '\n'
    ensures NewlineCount(s) == 0
  {
    if s != [] { NoNewlineCount(s[1..]); }
  }

  /** Index of the last newline of `s`, or -1. */
  function LastNewline(s: string): (i: int)
    ensures -1 <= i < |s|
    ensures i >= 0 ==> s[i] == '\n'
    ensures forall j :: i < j < |s| ==> s[j] != '\n'
  {
    if s == [] then -1
    else if s[|s| - 1] == '\n' then |s| - 1
    else LastNewline(s[..|s| - 1])
  }

  /**
    `re.sub(pattern, repl, s)` for the pattern of `k` newlines separated by
    `\s*`: in every maximal whitespace run holding at least `k` newlines, the
    stretch from its first to its last newline becomes `repl`.
   */
  function CollapseBreaks(s: string, k: nat, repl: string): string
    decreases |s|
  {
    if s == [] then []
    else if s[0] != '\n' then [s[0]] + CollapseBreaks(s[1..], k, repl)
    else
      var n := SpaceRunLength(s);
      var run := s[..n];
      (if NewlineCount(run) >= k then repl + run[LastNewline(run) + 1..] else run)
        + CollapseBreaks(s[n..], k, repl)
  }

  predicate IsBlankChar(c: char) {
    c == ' ' || c == '\t'
  }

  function BlankRunLength(s: string): (n: nat)
    ensures n <= |s|
    ensures forall i :: 0 <= i < n ==> IsBlankChar(s[i])
    ensures n < |s| ==> !IsBlankChar(s[n])
    ensures s != [] && IsBlankChar(s[0]) ==> n >= 1
  {
    if s != [] && IsBlankChar(s[0]) then 1 + BlankRunLength(s[1..]) else 0
  }

  predicate NoTab(s: string) {
    forall i :: 0 <= i < |s| ==> s[i] != '\t'
  }

  predicate NoDoubleSpace(s: string) {
    forall i, j :: 0 <= i && j == i + 1 < |s| ==> !(s[i] == ' ' && s[j] == ' ')
  }

  /** `re.sub(r'[ \t]+', ' ', s)`. */
  function CollapseBlanks(s: string): (r: string)
    decreases |s|
    ensures s != [] && !IsBlankChar(s[0]) ==> r != [] && r[0] == s[0]
  {
    if s == [] then []
    else if IsBlankChar(s[0]) then " " + CollapseBlanks(s[BlankRunLength(s)..])
    else [s[0]] + CollapseBlanks(s[1..])
  }

  /** `re.sub(r'\r\n', '\n', s)`. */
  function NormalizeLineEndings(s: string): (r: string)
    decreases |s|
    ensures r != [] && r[0] == ' ' ==> s != [] && s[0] == ' '
  {
    if |s| >= 2 && s[0] == '\r' && s[1] == '\n' then "\n" + NormalizeLineEndings(s[2..])
    else if s == [] then []
    else [s[0]] + NormalizeLineEndings(s[1..])
  }

  /** Putting one character in front keeps a string free of tabs and double spaces. */
  lemma ConsClean(c: char, t: string)
    requires c != '\t' && NoTab(t) && NoDoubleSpace(t)
    requires c == ' ' ==> t == [] || t[0] != ' '
    ensures NoTab([c] + t) && NoDoubleSpace([c] + t)
  {
    var r := [c] + t;
    forall i, j | 0 <= i && j == i + 1 < |r| ensures !(r[i] == ' ' && r[j] == ' ') {
      if i > 0 {
        assert r[i] == t[i - 1] && r[j] == t[j - 1];
      }
    }
  }

  lemma CleanSuffix(s: string, k: nat)
    requires k <= |s| && NoTab(s) && NoDoubleSpace(s)
    ensures NoTab(s[k..]) && NoDoubleSpace(s[k..])
  {
    var t := s[k..];
    forall i, j | 0 <= i && j == i + 1 < |t| ensures !(t[i] == ' ' && t[j] == ' ') {
      assert t[i] == s[k + i] && t[j] == s[k + j];
    }
  }

  /** After the blank rewrite no tab survives and no two spaces are adjacent. */
  lemma {:induction false} CollapseBlanksClean(s: string)
    ensures NoTab(CollapseBlanks(s)) && NoDoubleSpace(CollapseBlanks(s))
    decreases |s|
  {
    if s == [] {
    } else if IsBlankChar(s[0]) {
      var m := BlankRunLength(s);
      CollapseBlanksClean(s[m..]);
      CollapseBlanksRun(s);
      if m < |s| {
        assert s[m..][0] == s[m];
      }
      ConsClean(' ', CollapseBlanks(s[m..]));
    } else {
      CollapseBlanksClean(s[1..]);
      ConsClean(s[0], CollapseBlanks(s[1..]));
    }
  }

  /** The line-ending rewrite keeps a string free of tabs and double spaces. */
  lemma {:induction false} NormalizeLineEndingsClean(s: string)
    requires NoTab(s) && NoDoubleSpace(s)
    ensures NoTab(NormalizeLineEndings(s)) && NoDoubleSpace(NormalizeLineEndings(s))
    decreases |s|
  {
    if |s| >= 2 && s[0] == '\r' && s[1] == '\n' {
      CleanSuffix(s, 2);
      NormalizeLineEndingsClean(s[2..]);
      ConsClean('\n', NormalizeLineEndings(s[2..]));
    } else if s != [] {
      CleanSuffix(s, 1);
      NormalizeLineEndingsClean(s[1..]);
      var t := NormalizeLineEndings(s[1..]);
      if s[0] == ' ' && |s| >= 2 {
        assert s[1] != ' ';
        assert s[1..][0] == s[1];
      }
      ConsClean(s[0], t);
    }
  }

  /** `_clean_text`. */
  function CleanText(s: string): string {
    Strip(NormalizeLineEndings(CollapseBlanks(CollapseBreaks(CollapseBreaks(s, 3, "\n\n\n"), 2, "\n\n"))))
  }

  // ---------------------------------------------------------------------------
  // Only whitespace changes.

  /** The non-whitespace characters of `s`, in order. */
  function NonSpace(s: string): string {
    if s == [] then [] else (if IsSpace(s[0]) then [] else [s[0]]) + NonSpace(s[1..])
  }

  lemma NonSpaceConcat(a: string, b: string)
    ensures NonSpace(a + b) == NonSpace(a) + NonSpace(b)
  {
    if a != [] {
      assert (a + b)[0] == a[0];
      assert (a + b)[1..] == a[1..] + b;
      NonSpaceConcat(a[1..], b);
    } else {
      assert a + b == b;
    }
  }

  lemma NonSpaceOfBlank(s: string)
    requires IsBlank(s)
    ensures NonSpace(s) == []
  {
    if s != [] { NonSpaceOfBlank(s[1..]); }
  }

  lemma BlankOfNonSpace(s: string)
    requires NonSpace(s) == []
    ensures IsBlank(s)
  {
    if s != [] { BlankOfNonSpace(s[1..]); }
  }

  lemma BlankThenText(w: string, x: string)
    requires IsBlank(w)
    ensures NonSpace(w + x) == NonSpace(x)
  {
    NonSpaceConcat(w, x);
    NonSpaceOfBlank(w);
  }

  lemma CharThenText(c: char, x: string)
    ensures NonSpace([c] + x) == (if IsSpace(c) then [] else [c]) + NonSpace(x)
  {
    assert ([c] + x)[1..] == x;
  }

  lemma CollapseBreaksCharStep(s: string, k: nat, repl: string)
    requires s != [] && s[0] != '\n'
    requires NonSpace(CollapseBreaks(s[1..], k, repl)) == NonSpace(s[1..])
    ensures NonSpace(CollapseBreaks(s, k, repl)) == NonSpace(s)
  {
    CharThenText(s[0], CollapseBreaks(s[1..], k, repl));
  }

  lemma CollapseBreaksRunStep(s: string, k: nat, repl: string)
    requires IsBlank(repl) && s != [] && s[0] == '\n'
    requires NonSpace(CollapseBreaks(s[SpaceRunLength(s)..], k, repl)) == NonSpace(s[SpaceRunLength(s)..])
    ensures NonSpace(CollapseBreaks(s, k, repl)) == NonSpace(s)
  {
    var n := SpaceRunLength(s);
    var run := s[..n];
    var rest := s[n..];
    assert s == run + rest;
    var piece := if NewlineCount(run) >= k then repl + run[LastNewline(run) + 1..] else run;
    if NewlineCount(run) >= k {
      BlankSuffix(run, LastNewline(run) + 1);
      BlankConcat(repl, run[LastNewline(run) + 1..]);
    }
    BlankThenText(run, rest);
    assert CollapseBreaks(s, k, repl) == piece + CollapseBreaks(rest, k, repl);
    BlankThenText(piece, CollapseBreaks(rest, k, repl));
  }

  lemma {:induction false} CollapseBreaksKeepsText(s: string, k: nat, repl: string)
    requires IsBlank(repl)
    ensures NonSpace(CollapseBreaks(s, k, repl)) == NonSpace(s)
    decreases |s|
  {
    if s == [] {
    } else if s[0] != '\n' {
      CollapseBreaksKeepsText(s[1..], k, repl);
      CollapseBreaksCharStep(s, k, repl);
    } else {
      CollapseBreaksKeepsText(s[SpaceRunLength(s)..], k, repl);
      CollapseBreaksRunStep(s, k, repl);
    }
  }

  /** A blank run at the front rewritten to a single space keeps the text. */
  lemma BlankRunToSpace(s: string, m: nat, y: string)
    requires m <= |s| && IsBlank(s[..m]) && NonSpace(y) == NonSpace(s[m..])
    ensures NonSpace(" " + y) == NonSpace(s)
  {
    assert s == s[..m] + s[m..];
    BlankThenText(s[..m], s[m..]);
    BlankThenText(" ", y);
  }

  lemma BlankRunBlank(s: string)
    ensures IsBlank(s[..BlankRunLength(s)])
  {
    var m := BlankRunLength(s);
    forall i | 0 <= i < m ensures IsSpace(s[..m][i]) {
      assert IsBlankChar(s[i]);
    }
  }

  lemma CollapseBlanksRun(s: string)
    requires s != [] && IsBlankChar(s[0])
    ensures CollapseBlanks(s) == " " + CollapseBlanks(s[BlankRunLength(s)..])
  {
  }

  lemma CollapseBlanksRunStep(s: string)
    requires s != [] && IsBlankChar(s[0])
    requires NonSpace(CollapseBlanks(s[BlankRunLength(s)..])) == NonSpace(s[BlankRunLength(s)..])
    ensures NonSpace(CollapseBlanks(s)) == NonSpace(s)
  {
    var m := BlankRunLength(s);
    BlankRunBlank(s);
    BlankRunToSpace(s, m, CollapseBlanks(s[m..]));
    CollapseBlanksRun(s);
  }

  lemma CharStep(s: string, r: string, r': string)
    requires s != [] && r == [s[0]] + r'
    requires NonSpace(r') == NonSpace(s[1..])
    ensures NonSpace(r) == NonSpace(s)
  {
    CharThenText(s[0], r');
    assert s == [s[0]] + s[1..];
    CharThenText(s[0], s[1..]);
  }

  lemma {:induction false} CollapseBlanksKeepsText(s: string)
    ensures NonSpace(CollapseBlanks(s)) == NonSpace(s)
    decreases |s|
  {
    if s == [] {
    } else if IsBlankChar(s[0]) {
      CollapseBlanksKeepsText(s[BlankRunLength(s)..]);
      CollapseBlanksRunStep(s);
    } else {
      CollapseBlanksKeepsText(s[1..]);
      CharStep(s, CollapseBlanks(s), CollapseBlanks(s[1..]));
    }
  }

  lemma CrLfStep(s: string)
    requires |s| >= 2 && s[0] == '\r' && s[1] == '\n'
    requires NonSpace(NormalizeLineEndings(s[2..])) == NonSpace(s[2..])
    ensures NonSpace(NormalizeLineEndings(s)) == NonSpace(s)
  {
    var rest := s[2..];
    assert s == s[..2] + rest;
    BlankThenText(s[..2], rest);
    assert NormalizeLineEndings(s) == "\n" + NormalizeLineEndings(rest);
    BlankThenText("\n", NormalizeLineEndings(rest));
  }

  lemma {:induction false} NormalizeLineEndingsKeepsText(s: string)
    ensures NonSpace(NormalizeLineEndings(s)) == NonSpace(s)
    decreases |s|
  {
    if |s| >= 2 && s[0] == '\r' && s[1] == '\n' {
      NormalizeLineEndingsKeepsText(s[2..]);
      CrLfStep(s);
    } else if s != [] {
      NormalizeLineEndingsKeepsText(s[1..]);
      CharStep(s, NormalizeLineEndings(s), NormalizeLineEndings(s[1..]));
    }
  }

  lemma TrimLeftKeepsText(s: string)
    ensures NonSpace(TrimLeft(s)) == NonSpace(s)
  {
    var r := TrimLeft(s);
    assert s == s[..|s| - |r|] + r;
    BlankThenText(s[..|s| - |r|], r);
  }

  lemma TrimRightKeepsText(s: string)
    ensures NonSpace(TrimRight(s)) == NonSpace(s)
  {
    var r := TrimRight(s);
    assert s == r + s[|r|..];
    NonSpaceConcat(r, s[|r|..]);
    NonSpaceOfBlank(s[|r|..]);
  }

  lemma StripKeepsText(s: string)
    ensures NonSpace(Strip(s)) == NonSpace(s)
  {
    TrimLeftKeepsText(s);
    TrimRightKeepsText(TrimLeft(s));
  }

  // ---------------------------------------------------------------------------
  // At most two newlines per whitespace run.

  /**
    Scanning `s` left to right, no whitespace run holds more than two
    newlines, given that the run in progress when `s` starts has already
    shown `c` of them.
   */
  ghost predicate AtMostTwoBreaks(s: string, c: nat)
    decreases |s|
  {
    s == [] ||
    if IsSpace(s[0]) then
      var c' := c + (if s[0] == '\n' then 1 else 0);
      c' <= 2 && AtMostTwoBreaks(s[1..], c')
    else AtMostTwoBreaks(s[1..], 0)
  }

  lemma {:induction false} BlankPieceThenText(w: string, x: string, c: nat)
    requires IsBlank(w) && c + NewlineCount(w) <= 2
    requires x == [] || !IsSpace(x[0])
    requires AtMostTwoBreaks(x, 0)
    ensures AtMostTwoBreaks(w + x, c)
    decreases |w|
  {
    if w != [] {
      assert (w + x)[1..] == w[1..] + x;
      BlankPieceThenText(w[1..], x, c + (if w[0] == '\n' then 1 else 0));
    } else {
      assert w + x == x;
      if x != [] { assert AtMostTwoBreaks(x[1..], 0); }
    }
  }

  lemma {:induction false} CollapseBreaksBound(s: string)
    ensures AtMostTwoBreaks(CollapseBreaks(s, 2, "\n\n"), 0)
    decreases |s|
  {
    if s == [] {
    } else if s[0] != '\n' {
      var rest := CollapseBreaks(s[1..], 2, "\n\n");
      CollapseBreaksBound(s[1..]);
      assert ([s[0]] + rest)[1..] == rest;
    } else {
      var n := SpaceRunLength(s);
      var run := s[..n];
      var rest := CollapseBreaks(s[n..], 2, "\n\n");
      CollapseBreaksBound(s[n..]);
      var piece := if NewlineCount(run) >= 2 then "\n\n" + run[LastNewline(run) + 1..] else run;
      if NewlineCount(run) >= 2 {
        NoNewlineCount(run[LastNewline(run) + 1..]);
        NewlineCountConcat("\n\n", run[LastNewline(run) + 1..]);
        assert NewlineCount("\n\n") == 2;
      }
      BlankPieceThenText(piece, rest, 0);
    }
  }

  lemma {:induction false} SkipBlanks(s: string, m: nat, c: nat)
    requires m <= |s| && forall i :: 0 <= i < m ==> IsBlankChar(s[i])
    requires AtMostTwoBreaks(s, c) && c <= 2
    ensures AtMostTwoBreaks(s[m..], c)
    decreases m
  {
    if m > 0 {
      SkipBlanks(s[1..], m - 1, c);
      assert s[1..][m - 1..] == s[m..];
    }
  }

  lemma {:induction false} CollapseBlanksBound(s: string, c: nat)
    requires AtMostTwoBreaks(s, c) && c <= 2
    ensures AtMostTwoBreaks(CollapseBlanks(s), c)
    decreases |s|
  {
    if s == [] {
    } else if IsBlankChar(s[0]) {
      var m := BlankRunLength(s);
      SkipBlanks(s, m, c);
      CollapseBlanksBound(s[m..], c);
      assert (" " + CollapseBlanks(s[m..]))[1..] == CollapseBlanks(s[m..]);
    } else {
      var c' := if IsSpace(s[0]) then c + (if s[0] == '\n' then 1 else 0) else 0;
      CollapseBlanksBound(s[1..], c');
      assert ([s[0]] + CollapseBlanks(s[1..]))[1..] == CollapseBlanks(s[1..]);
    }
  }

  lemma {:induction false} NormalizeLineEndingsBound(s: string, c: nat)
    requires AtMostTwoBreaks(s, c) && c <= 2
    ensures AtMostTwoBreaks(NormalizeLineEndings(s), c)
    decreases |s|
  {
    if |s| >= 2 && s[0] == '\r' && s[1] == '\n' {
      assert s[1..][1..] == s[2..];
      NormalizeLineEndingsBound(s[2..], c + 1);
      assert ("\n" + NormalizeLineEndings(s[2..]))[1..] == NormalizeLineEndings(s[2..]);
    } else if s != [] {
      var c' := if IsSpace(s[0]) then c + (if s[0] == '\n' then 1 else 0) else 0;
      NormalizeLineEndingsBound(s[1..], c');
      assert ([s[0]] + NormalizeLineEndings(s[1..]))[1..] == NormalizeLineEndings(s[1..]);
    }
  }

  lemma {:induction false} BoundWeaken(s: string, c: nat, d: nat)
    requires AtMostTwoBreaks(s, c) && d <= c
    ensures AtMostTwoBreaks(s, d)
    decreases |s|
  {
    if s != [] && IsSpace(s[0]) {
      BoundWeaken(s[1..], c + (if s[0] == '\n' then 1 else 0), d + (if s[0] == '\n' then 1 else 0));
    }
  }

  lemma {:induction false} BoundSuffix(s: string, a: nat, c: nat)
    requires a <= |s| && AtMostTwoBreaks(s, c)
    ensures AtMostTwoBreaks(s[a..], 0)
    decreases a
  {
    if a == 0 {
      BoundWeaken(s, c, 0);
    } else {
      var c' := if IsSpace(s[0]) then c + (if s[0] == '\n' then 1 else 0) else 0;
      BoundSuffix(s[1..], a - 1, c');
      assert s[1..][a - 1..] == s[a..];
    }
  }

  lemma {:induction false} BoundPrefix(s: string, b: nat, c: nat)
    requires b <= |s| && AtMostTwoBreaks(s, c)
    ensures AtMostTwoBreaks(s[..b], c)
    decreases |s|
  {
    if b > 0 {
      var c' := if IsSpace(s[0]) then c + (if s[0] == '\n' then 1 else 0) else 0;
      BoundPrefix(s[1..], b - 1, c');
      assert s[..b][1..] == s[1..][..b - 1];
    }
  }

  predicate NoTripleBreak(s: string) {
    forall i :: 0 <= i < |s| - 2 ==> !(s[i] == '\n' && s[i + 1] == '\n' && s[i + 2] == '\n')
  }

  lemma {:induction false} BoundNoTriple(s: string, c: nat)
    requires AtMostTwoBreaks(s, c)
    ensures NoTripleBreak(s)
    ensures c >= 1 && |s| >= 2 ==> !(s[0] == '\n' && s[1] == '\n')
    ensures c >= 2 && |s| >= 1 ==> s[0] != '\n'
    decreases |s|
  {
    if s != [] {
      var c' := if IsSpace(s[0]) then c + (if s[0] == '\n' then 1 else 0) else 0;
      BoundNoTriple(s[1..], c');
      forall i | 1 <= i < |s| - 2
        ensures !(s[i] == '\n' && s[i + 1] == '\n' && s[i + 2] == '\n')
      {
        assert s[i] == s[1..][i - 1] && s[i + 1] == s[1..][i] && s[i + 2] == s[1..][i + 1];
      }
    }
  }

  lemma StripIndex(s: string)
    ensures var d := |s| - |TrimLeft(s)|;
      0 <= d && d + |Strip(s)| <= |s| && forall i :: 0 <= i < |Strip(s)| ==> Strip(s)[i] == s[d + i]
  {
    StripSlice(s);
  }

  lemma StripInherits(s: string)
    ensures NoTab(s) ==> NoTab(Strip(s))
    ensures NoDoubleSpace(s) ==> NoDoubleSpace(Strip(s))
  {
    StripIndex(s);
  }

  lemma StripInheritsBound(s: string)
    requires AtMostTwoBreaks(s, 0)
    ensures AtMostTwoBreaks(Strip(s), 0)
  {
    var a := |s| - |TrimLeft(s)|;
    var r := Strip(s);
    StripSlice(s);
    BoundSuffix(s, a, 0);
    BoundPrefix(s[a..], |r|, 0);
    assert s[a..][..|r|] == r;
  }

  /** Cleaning changes only whitespace; it yields "" exactly for blank input. */
  lemma CleanTextKeepsText(s: string)
    ensures NonSpace(CleanText(s)) == NonSpace(s)
    ensures CleanText(s) == [] <==> IsBlank(s)
  {
    var p1 := CollapseBreaks(s, 3, "\n\n\n");
    var p2 := CollapseBreaks(p1, 2, "\n\n");
    var p3 := CollapseBlanks(p2);
    var p4 := NormalizeLineEndings(p3);
    CollapseBreaksKeepsText(s, 3, "\n\n\n");
    CollapseBreaksKeepsText(p1, 2, "\n\n");
    CollapseBlanksKeepsText(p2);
    NormalizeLineEndingsKeepsText(p3);
    StripKeepsText(p4);
    if IsBlank(s) {
      NonSpaceOfBlank(s);
      BlankOfNonSpace(p4);
      StripSpec(p4);
    }
    if CleanText(s) == [] {
      BlankOfNonSpace(s);
    }
  }

  /**
    What else `_clean_text` guarantees: no tab, no two adjacent spaces, no
    leading or trailing whitespace, and no three newlines in a row.
   */
  lemma CleanTextSpec(s: string)
    ensures NoTab(CleanText(s)) && NoDoubleSpace(CleanText(s))
    ensures CleanText(s) != [] ==> !IsSpace(CleanText(s)[0]) && !IsSpace(CleanText(s)[|CleanText(s)| - 1])
    ensures NoTripleBreak(CleanText(s))
  {
    var p1 := CollapseBreaks(s, 3, "\n\n\n");
    var p2 := CollapseBreaks(p1, 2, "\n\n");
    var p3 := CollapseBlanks(p2);
    var p4 := NormalizeLineEndings(p3);
    StripSpec(p4);
    CollapseBlanksClean(p2);
    NormalizeLineEndingsClean(p3);
    CollapseBreaksBound(p1);
    CollapseBlanksBound(p2, 0);
    NormalizeLineEndingsBound(p3, 0);
    StripInherits(p4);
    StripInheritsBound(p4);
    BoundNoTriple(Strip(p4), 0);
  }
}
