/**
  `LegalTextSplitter._identify_legal_sections`: the labels, in the order the
  patterns are declared, whose pattern `re.search` finds in a chunk.

  Every pattern has the shape `(?i)(kw1|kw2|...)\s*\d+`, so a match is a
  keyword (ASCII letters compared without case), then any run of
  whitespace, then a digit; the rest of `\d+` never decides whether a match
  exists.
 */
module LegalSections {
  import opened Strings
  import Cleaning

  /**
    Label and the alternatives of its keyword group, in lower case; `sec\.?`
    contributes both "sec." and "sec".
   */
  const PATTERNS: seq<(string, seq<string>)> := [
    ("section", ["section", "sec.", "sec", "§"]),
    ("article", ["article", "art.", "art"]),
    ("clause", ["clause", "cl.", "cl"]),
    ("paragraph", ["paragraph", "para.", "para", "¶"]),
    ("subsection", ["subsection", "subsec.", "subsec"]),
    ("chapter", ["chapter", "ch.", "ch"]),
    ("part", ["part", "pt.", "pt"])
  ]

  /** `\d`, restricted to the ASCII digits. */
  predicate IsDigit(c: char) {
    '0' <= c <= '9'
  }

  /** `c` matches the pattern character `k` under `(?i)` (ASCII letters only). */
  predicate SameLetter(c: char, k: char) {
    c == k || ('a' <= k <= 'z' && c as int == k as int - 32)
  }

  /** The keyword `kw` occurs at `p`, ignoring case. */
  predicate KeywordAt(s: string, p: nat, kw: string) {
    p + |kw| <= |s| && forall t :: 0 <= t < |kw| ==> SameLetter(s[p + t], kw[t])
  }

  /** `kw\s*\d` matches at `p`: the keyword, a whitespace run, then a digit. */
  predicate PatternAt(s: string, p: nat, kw: string) {
    KeywordAt(s, p, kw) && exists m :: p + |kw| <= m < |s| && IsBlank(s[p + |kw|..m]) && IsDigit(s[m])
  }

  /** `re.search(pattern, s)` succeeds: some alternative matches somewhere. */
  predicate Found(s: string, kws: seq<string>) {
    exists p, kw :: 0 <= p <= |s| && kw in kws && PatternAt(s, p, kw)
  }

  /** The only whitespace run that can end in a digit is the longest one. */
  lemma RunEndsAtFirstNonSpace(s: string, q: nat, m: nat)
    requires q <= m < |s| && IsBlank(s[q..m]) && IsDigit(s[m])
    ensures m == q + Cleaning.SpaceRunLength(s[q..])
  {
    var t := s[q..];
    var n := Cleaning.SpaceRunLength(t);
    assert t[m - q] == s[m];
    forall j | 0 <= j < m - q ensures IsSpace(t[j]) {
      assert t[j] == s[q..m][j];
    }
    forall j | 0 <= j < n ensures IsSpace(t[j]) {
      assert t[j] == t[..n][j];
    }
  }

  /**
    The regex engine backtracks into `\s*`, yet a match exists exactly when
    the first non-whitespace character after the keyword is a digit.
   */
  lemma PatternAtFirstNonSpace(s: string, p: nat, kw: string)
    requires KeywordAt(s, p, kw)
    ensures var q := p + |kw|;
      var n := Cleaning.SpaceRunLength(s[q..]);
      PatternAt(s, p, kw) <==> q + n < |s| && IsDigit(s[q + n])
  {
    var q := p + |kw|;
    var n := Cleaning.SpaceRunLength(s[q..]);
    if q + n < |s| && IsDigit(s[q + n]) {
      assert s[q..q + n] == s[q..][..n];
    }
    if PatternAt(s, p, kw) {
      var m :| q <= m < |s| && IsBlank(s[q..m]) && IsDigit(s[m]);
      RunEndsAtFirstNonSpace(s, q, m);
    }
  }

  /** Which patterns `re.search` finds in `s`, in declared order. */
  function FoundFlags(s: string): (flags: seq<bool>)
    ensures |flags| == |PATTERNS|
    ensures forall i :: 0 <= i < |PATTERNS| ==> flags[i] == Found(s, PATTERNS[i].1)
  {
    seq(|PATTERNS|, i requires 0 <= i < |PATTERNS| => Found(s, PATTERNS[i].1))
  }

  /** The labels from the `k`-th pattern on whose flag is set, in declared order. */
  function Select(flags: seq<bool>, k: nat): (labels: seq<string>)
    requires |flags| == |PATTERNS| && k <= |PATTERNS|
    decreases |PATTERNS| - k
  {
    if k == |PATTERNS| then []
    else (if flags[k] then [PATTERNS[k].0] else []) + Select(flags, k + 1)
  }

  /** `_identify_legal_sections(text)`: the loop over the patterns, appending each label found. */
  function IdentifyLegalSections(s: string): (labels: seq<string>) {
    Select(FoundFlags(s), 0)
  }

  /** Position of a label among the declared patterns. */
  function LabelIndex(name: string): (i: int)
    ensures -1 <= i < |PATTERNS|
    ensures i >= 0 ==> PATTERNS[i].0 == name
    ensures i == -1 ==> forall j :: 0 <= j < |PATTERNS| ==> PATTERNS[j].0 != name
  {
    if name == "section" then 0
    else if name == "article" then 1
    else if name == "clause" then 2
    else if name == "paragraph" then 3
    else if name == "subsection" then 4
    else if name == "chapter" then 5
    else if name == "part" then 6
    else -1
  }

  lemma LabelsDistinct(i: nat, j: nat)
    requires i < j < |PATTERNS|
    ensures PATTERNS[i].0 != PATTERNS[j].0
  {
    assert LabelIndex(PATTERNS[i].0) == i;
    assert LabelIndex(PATTERNS[j].0) == j;
  }

  /** The labels selected from the `k`-th pattern on are exactly those flagged. */
  lemma {:induction false} SelectMembers(flags: seq<bool>, k: nat)
    requires |flags| == |PATTERNS| && k <= |PATTERNS|
    ensures forall l :: l in Select(flags, k) <==> exists i :: k <= i < |PATTERNS| && flags[i] && PATTERNS[i].0 == l
    decreases |PATTERNS| - k
  {
    if k < |PATTERNS| {
      SelectMembers(flags, k + 1);
    }
  }

  /** Selected labels keep the declared order. */
  lemma {:induction false} SelectOrdered(flags: seq<bool>, k: nat)
    requires |flags| == |PATTERNS| && k <= |PATTERNS|
    ensures var labels := Select(flags, k);
      (forall l :: l in labels ==> k <= LabelIndex(l))
      && (forall i, j :: 0 <= i < j < |labels| ==> LabelIndex(labels[i]) < LabelIndex(labels[j]))
    decreases |PATTERNS| - k
  {
    if k < |PATTERNS| {
      SelectOrdered(flags, k + 1);
      SelectMembers(flags, k + 1);
      var rest := Select(flags, k + 1);
      var labels := Select(flags, k);
      assert LabelIndex(PATTERNS[k].0) == k;
      if flags[k] {
        assert labels == [PATTERNS[k].0] + rest;
        forall i, j | 0 <= i < j < |labels| ensures LabelIndex(labels[i]) < LabelIndex(labels[j]) {
          assert labels[j] == rest[j - 1];
          if i > 0 {
            assert labels[i] == rest[i - 1];
          }
        }
      } else {
        assert labels == rest;
      }
    }
  }

  /** Flagged patterns are exactly those whose label is selected. */
  lemma SelectFlag(flags: seq<bool>, i: nat)
    requires |flags| == |PATTERNS| && i < |PATTERNS|
    ensures PATTERNS[i].0 in Select(flags, 0) <==> flags[i]
  {
    SelectMembers(flags, 0);
    forall i' | 0 <= i' < |PATTERNS| && PATTERNS[i'].0 == PATTERNS[i].0 ensures i' == i {
      assert LabelIndex(PATTERNS[i].0) == i && LabelIndex(PATTERNS[i'].0) == i';
    }
  }

  /** `_identify_legal_sections` reports the `i`-th label exactly when its pattern is found. */
  lemma IdentifyLegalSectionsSpec(s: string, i: nat)
    requires i < |PATTERNS|
    ensures PATTERNS[i].0 in IdentifyLegalSections(s) <==> Found(s, PATTERNS[i].1)
  {
    SelectFlag(FoundFlags(s), i);
  }

  /** It reports only declared labels, in declared order and so without duplicates. */
  lemma IdentifyLegalSectionsOrdered(s: string)
    ensures var labels := IdentifyLegalSections(s);
      (forall l :: l in labels ==> 0 <= LabelIndex(l))
      && (forall i, j :: 0 <= i < j < |labels| ==> LabelIndex(labels[i]) < LabelIndex(labels[j]))
  {
    SelectOrdered(FoundFlags(s), 0);
  }

  lemma KeywordShift(s: string, p: nat, kw: string, d: nat)
    requires d <= |kw| && KeywordAt(s, p, kw)
    ensures KeywordAt(s, p + d, kw[d..])
  {
    forall t | 0 <= t < |kw| - d ensures SameLetter(s[p + d + t], kw[d..][t]) {
      assert SameLetter(s[p + (d + t)], kw[d + t]);
    }
  }

  /** Every keyword of the subsection pattern ends with a keyword of the section pattern. */
  lemma SubsectionFound(s: string)
    requires Found(s, PATTERNS[4].1)
    ensures Found(s, PATTERNS[0].1)
  {
    var p, kw :| 0 <= p <= |s| && kw in PATTERNS[4].1 && PatternAt(s, p, kw);
    KeywordShift(s, p, kw, 3);
    var kw' := kw[3..];
    assert kw' in PATTERNS[0].1;
    assert p + 3 + |kw'| == p + |kw|;
    assert PatternAt(s, p + 3, kw');
  }

  /** A chunk tagged "subsection" is always tagged "section" as well. */
  lemma SubsectionImpliesSection(s: string)
    ensures "subsection" in IdentifyLegalSections(s) ==> "section" in IdentifyLegalSections(s)
  {
    IdentifyLegalSectionsSpec(s, 4);
    IdentifyLegalSectionsSpec(s, 0);
    if Found(s, PATTERNS[4].1) {
      SubsectionFound(s);
    }
  }
}
