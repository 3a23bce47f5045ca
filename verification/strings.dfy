/**
  Python string built-ins that the splitter leans on: the whitespace class of
  `str.isspace` (also the regex class `\s`), `strip`, `find`, `rfind`, `in`,
  `str(n)` for a natural number, and the slice relation that the splitter's
  results keep with their input.
 */
module Strings {

  /** Python's `str.isspace()` (and the regex class `\s` on `str` patterns). */
  predicate IsSpace(c: char) {
    c == ' ' || ('\t' <= c <= '\r') || ('\U{1c}' <= c <= '\U{1f}')
    || c == '\U{85}' || c == '\U{a0}' || c == '\U{1680}'
    || ('\U{2000}' <= c <= '\U{200a}') || c == '\U{2028}' || c == '\U{2029}'
    || c == '\U{202f}' || c == '\U{205f}' || c == '\U{3000}'
  }

  /** `not s.strip()`: the string is empty or holds only whitespace. */
  predicate IsBlank(s: string) {
    forall i :: 0 <= i < |s| ==> IsSpace(s[i])
  }

  predicate IsSuffix(r: string, s: string) {
    |r| <= |s| && r == s[|s| - |r|..]
  }

  predicate IsPrefix(r: string, s: string) {
    |r| <= |s| && r == s[..|r|]
  }

  /** `c == t[a:b]` for some bounds: `c` is a contiguous piece of `t`. */
  ghost predicate SliceOf(c: string, t: string) {
    exists a, b :: 0 <= a <= b <= |t| && c == t[a..b]
  }

  lemma SliceAt(t: string, a: int, b: int)
    requires 0 <= a <= b <= |t|
    ensures SliceOf(t[a..b], t)
  {
  }

  lemma SliceOfTransitive(c: string, u: string, t: string)
    requires SliceOf(c, u) && SliceOf(u, t)
    ensures SliceOf(c, t)
  {
    var a1, b1 :| 0 <= a1 <= b1 <= |u| && c == u[a1..b1];
    var a2, b2 :| 0 <= a2 <= b2 <= |t| && u == t[a2..b2];
    forall k | 0 <= k < |c| ensures c[k] == t[a2 + a1 + k] {
      assert c[k] == u[a1 + k];
      assert u[a1 + k] == t[a2 + a1 + k];
    }
    assert c == t[a2 + a1..a2 + b1];
  }

  lemma SuffixOfPrefixIsSlice(c: string, t: string, n: int)
    requires 0 <= n <= |t| && IsSuffix(c, t[..n])
    ensures SliceOf(c, t)
  {
    assert c == t[n - |c|..n];
  }

  lemma SuffixExtend(r: string, u: string, x: string)
    requires IsSuffix(r, u)
    ensures IsSuffix(r + x, u + x)
  {
    assert (u + x)[|u + x| - |r + x|..] == u[|u| - |r|..] + x;
  }

  lemma SliceOfExtend(c: string, u: string, x: string)
    requires SliceOf(c, u)
    ensures SliceOf(c, u + x)
  {
    var a, b :| 0 <= a <= b <= |u| && c == u[a..b];
    assert c == (u + x)[a..b];
  }

  lemma SuffixTransitive(r: string, u: string, t: string)
    requires IsSuffix(r, u) && IsSuffix(u, t)
    ensures IsSuffix(r, t)
  {
  }

  lemma SuffixIsSlice(r: string, t: string)
    requires IsSuffix(r, t)
    ensures SliceOf(r, t)
  {
    SliceAt(t, |t| - |r|, |t|);
  }

  lemma SliceOfBlank(c: string, t: string)
    requires SliceOf(c, t) && IsBlank(t)
    ensures IsBlank(c)
  {
    var a, b :| 0 <= a <= b <= |t| && c == t[a..b];
    assert forall i :: 0 <= i < |c| ==> c[i] == t[a + i];
  }

  /** Leading whitespace removed (`str.lstrip()`). */
  function TrimLeft(s: string): (r: string)
    ensures IsSuffix(r, s) && IsBlank(s[..|s| - |r|])
    ensures r != [] ==> !IsSpace(r[0])
  {
    if s != [] && IsSpace(s[0]) then
      var r := TrimLeft(s[1..]);
      assert s[..|s| - |r|] == [s[0]] + s[1..][..|s| - 1 - |r|];
      r
    else s
  }

  /** Trailing whitespace removed (`str.rstrip()`). */
  function TrimRight(s: string): (r: string)
    ensures IsPrefix(r, s) && IsBlank(s[|r|..])
    ensures r != [] ==> !IsSpace(r[|r| - 1])
  {
    if s != [] && IsSpace(s[|s| - 1]) then
      var r := TrimRight(s[..|s| - 1]);
      assert s[|r|..] == s[..|s| - 1][|r|..] + [s[|s| - 1]];
      r
    else s
  }

  /** `str.strip()`. */
  function Strip(s: string): string {
    TrimRight(TrimLeft(s))
  }

  lemma BlankConcat(a: string, b: string)
    requires IsBlank(a) && IsBlank(b)
    ensures IsBlank(a + b)
  {
    forall i | 0 <= i < |a + b| ensures IsSpace((a + b)[i]) {
      if i >= |a| {
        assert (a + b)[i] == b[i - |a|];
      }
    }
  }

  lemma BlankSuffix(s: string, i: int)
    requires IsBlank(s) && 0 <= i <= |s|
    ensures IsBlank(s[i..])
  {
    forall j | 0 <= j < |s| - i ensures IsSpace(s[i..][j]) {
      assert s[i..][j] == s[i + j];
    }
  }

  /** Where `s.strip()` sits in `s`: after the leading whitespace, followed by only whitespace. */
  lemma StripSlice(s: string)
    ensures var a := |s| - |TrimLeft(s)|;
      var r := Strip(s);
      a + |r| <= |s| && r == s[a..a + |r|] && IsBlank(s[..a]) && IsBlank(s[a + |r|..])
  {
    var l := TrimLeft(s);
    var r := TrimRight(l);
    var a := |s| - |l|;
    assert l == s[a..];
    assert r == l[..|r|];
    assert r == s[a..a + |r|];
    assert s[a + |r|..] == l[|r|..];
  }

  /** `s.strip()` is empty exactly when `s` is blank. */
  lemma StripEmpty(s: string)
    ensures Strip(s) == [] <==> IsBlank(s)
  {
    var l := TrimLeft(s);
    var a := |s| - |l|;
    StripSlice(s);
    if Strip(s) == [] {
      assert s == s[..a] + s[a..];
      BlankConcat(s[..a], s[a..]);
    } else if IsBlank(s) {
      BlankSuffix(s, a);
      assert false;
    }
  }

  /**
    `s.strip()` is the piece of `s` left after whitespace is cut from both
    ends: it is a slice of `s`, the cut ends are blank, and it neither starts
    nor ends with whitespace; it is empty exactly when `s` is blank.
   */
  lemma StripSpec(s: string)
    ensures var r := Strip(s);
      exists a :: 0 <= a <= a + |r| <= |s| && r == s[a..a + |r|]
        && IsBlank(s[..a]) && IsBlank(s[a + |r|..])
    ensures Strip(s) != [] ==> !IsSpace(Strip(s)[0]) && !IsSpace(Strip(s)[|Strip(s)| - 1])
    ensures Strip(s) == [] <==> IsBlank(s)
  {
    var l := TrimLeft(s);
    var r := TrimRight(l);
    StripSlice(s);
    StripEmpty(s);
    if r != [] {
      assert r[0] == l[0];
    }
  }

  /** An occurrence inside an occurrence is an occurrence: `x` at `a` in `u`, and `u` at `b` in `t`, put `x` at `a + b` in `t`. */
  lemma OccursWithin(x: string, u: string, t: string, a: int, b: int)
    requires OccursAt(u, x, a) && OccursAt(t, u, b)
    ensures OccursAt(t, x, a + b)
  {
    forall m | 0 <= m < |x| ensures t[a + b..a + b + |x|][m] == x[m] {
      assert x[m] == u[a + m] == t[b + a + m];
    }
  }

  /** `pat` occurs in `s` starting at index `i`. */
  predicate OccursAt(s: string, pat: string, i: int) {
    0 <= i && i + |pat| <= |s| && s[i..i + |pat|] == pat
  }

  function FindFrom(s: string, pat: string, i: nat): (r: int)
    decreases |s| - i
    ensures r == -1 || (i <= r && OccursAt(s, pat, r))
    ensures forall j :: i <= j && (r == -1 || j < r) ==> !OccursAt(s, pat, j)
  {
    if i + |pat| > |s| then -1
    else if s[i..i + |pat|] == pat then i
    else FindFrom(s, pat, i + 1)
  }

  /** `s.find(pat)`: the first occurrence of `pat`, or -1. */
  function Find(s: string, pat: string): (r: int)
    ensures r == -1 || OccursAt(s, pat, r)
    ensures forall j :: 0 <= j && (r == -1 || j < r) ==> !OccursAt(s, pat, j)
  {
    FindFrom(s, pat, 0)
  }

  /** `pat in s`. */
  predicate Contains(s: string, pat: string) {
    Find(s, pat) >= 0
  }

  /** The text before the first occurrence of `pat` does not contain it. */
  lemma PrefixBeforeFirst(s: string, pat: string, n: nat)
    requires pat != [] && n <= |s|
    requires forall j :: 0 <= j < n ==> !OccursAt(s, pat, j)
    ensures !Contains(s[..n], pat)
  {
    forall j | 0 <= j ensures !OccursAt(s[..n], pat, j) {
      if j + |pat| <= n {
        assert j < n && !OccursAt(s, pat, j);
        assert s[..n][j..j + |pat|] == s[j..j + |pat|];
      }
    }
  }

  function RFindDown(s: string, pat: string, lo: int, hi: int): (r: int)
    decreases hi - lo
    ensures r == -1 || (lo <= r <= hi && OccursAt(s, pat, r))
    ensures forall j :: lo <= j <= hi && j > r ==> !OccursAt(s, pat, j)
  {
    if hi < lo then -1
    else if OccursAt(s, pat, hi) then hi
    else RFindDown(s, pat, lo, hi - 1)
  }

  /** `s.rfind(pat, lo)` for `lo >= 0`: the last occurrence lying inside `s[lo:]`, or -1. */
  function RFind(s: string, pat: string, lo: nat): (r: int)
    ensures r == -1 || (lo <= r && OccursAt(s, pat, r))
    ensures forall j :: lo <= j && j > r ==> !OccursAt(s, pat, j)
  {
    RFindDown(s, pat, lo, |s| - |pat|)
  }

  /** `''.join(parts)`. */
  function Concat(parts: seq<string>): string {
    if parts == [] then [] else Concat(parts[..|parts| - 1]) + parts[|parts| - 1]
  }

  function DigitChar(d: nat): char
    requires d < 10
  {
    "0123456789"[d]
  }

  /** `str(n)` for a natural number: its decimal digits. */
  function Decimal(n: nat): (r: string)
    ensures 1 <= |r|
    ensures (|r| == 1) == (n < 10)
    ensures r[|r| - 1] == DigitChar(n % 10)
  {
    if n < 10 then [DigitChar(n)] else Decimal(n / 10) + [DigitChar(n % 10)]
  }

  lemma DigitCharInjective(a: nat, b: nat)
    requires a < 10 && b < 10 && DigitChar(a) == DigitChar(b)
    ensures a == b
  {
  }

  /** Distinct numbers print differently. */
  lemma {:induction false} DecimalInjective(a: nat, b: nat)
    requires Decimal(a) == Decimal(b)
    ensures a == b
  {
    var da, db := Decimal(a), Decimal(b);
    DigitCharInjective(a % 10, b % 10);
    if a >= 10 {
      assert Decimal(a / 10) == da[..|da| - 1] == db[..|db| - 1] == Decimal(b / 10);
      DecimalInjective(a / 10, b / 10);
    }
  }
}
