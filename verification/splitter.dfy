/**
  The chunking core of `LegalTextSplitter`: fixed-length windowing
  (`_split_by_length`), the overlap carried between packed chunks
  (`_get_overlap`), packing the parts of one separator (`_split_by_separator`)
  and the hierarchical descent over the separator list (`_recursive_split`).

  Each loop of the source is a method proved equal to a recursive
  specification function; the properties are stated about those functions.
 */
module TextSplitter {
  import opened Wrappers
  import opened Strings

  /** `Config.CHUNK_SIZE` and `Config.CHUNK_OVERLAP` when the environment sets neither. */
  const DEFAULT_CHUNK_SIZE: int := 1000
  const DEFAULT_CHUNK_OVERLAP: int := 200

  /** `_recursive_split`'s default `max_depth`. */
  const MAX_DEPTH: nat := 10

  /** The separators, in order of preference; "" is the character-level last resort. */
  const SEPARATORS: seq<string> := ["\n\n\n", "\n\n", "\n", ". ", ", ", " ", ""]

  const SENTENCE_END: string := ". "

  /** The splitter's configuration; the source never changes it after construction. */
  datatype Splitter = Splitter(chunkSize: int, chunkOverlap: int) {
    predicate Valid() {
      chunkSize >= 1 && chunkOverlap >= 0
    }
  }

  /** Python's `x or default` on an optional integer: `None` and `0` both fall back. */
  function OrDefault(x: Option<int>, default: int): int {
    if x.Some? && x.value != 0 then x.value else default
  }

  /**
    `LegalTextSplitter.__init__`. An explicit 0 is falsy in Python, so asking
    for no overlap silently gives the configured default.
   */
  function NewSplitter(chunkSize: Option<int>, chunkOverlap: Option<int>): (sp: Splitter)
    ensures chunkSize == None || chunkSize == Some(0) ==> sp.chunkSize == DEFAULT_CHUNK_SIZE
    ensures chunkSize.Some? && chunkSize.value != 0 ==> sp.chunkSize == chunkSize.value
    ensures chunkOverlap == None || chunkOverlap == Some(0) ==> sp.chunkOverlap == DEFAULT_CHUNK_OVERLAP
    ensures chunkOverlap.Some? && chunkOverlap.value != 0 ==> sp.chunkOverlap == chunkOverlap.value
    ensures (chunkSize == None || chunkSize.value >= 0) && (chunkOverlap == None || chunkOverlap.value >= 0)
      ==> sp.Valid() && sp.chunkOverlap > 0
  {
    Splitter(OrDefault(chunkSize, DEFAULT_CHUNK_SIZE), OrDefault(chunkOverlap, DEFAULT_CHUNK_OVERLAP))
  }

  // ---------------------------------------------------------------------------
  // _get_overlap

  /** `chunk[-chunk_overlap:]`; note that `chunk[-0:]` is the whole chunk. */
  function OverlapWindow(sp: Splitter, chunk: string): (w: string)
    requires sp.Valid()
    ensures IsSuffix(w, chunk)
    ensures |w| == if sp.chunkOverlap == 0 || |chunk| <= sp.chunkOverlap then |chunk| else sp.chunkOverlap
  {
    if sp.chunkOverlap == 0 || |chunk| <= sp.chunkOverlap then chunk else chunk[|chunk| - sp.chunkOverlap..]
  }

  /**
    `_get_overlap`: the tail of a closed chunk that is carried into the next
    one. It is always a suffix of the chunk.
   */
  function GetOverlap(sp: Splitter, chunk: string): (r: string)
    requires sp.Valid()
    ensures IsSuffix(r, chunk)
  {
    if |chunk| <= sp.chunkOverlap then chunk
    else
      var w := OverlapWindow(sp, chunk);
      var firstPeriod := Find(w, SENTENCE_END);
      if firstPeriod != -1 then w[firstPeriod + 2..] else w
  }

  /**
    A chunk no longer than the overlap is carried whole. Otherwise the
    carried text lies within the last `chunk_overlap` characters: it is what
    follows the first ". " there, or all of them when they hold no ". ".
   */
  lemma GetOverlapSpec(sp: Splitter, chunk: string)
    requires sp.Valid()
    ensures var r := GetOverlap(sp, chunk);
      (|chunk| <= sp.chunkOverlap ==> r == chunk)
      && (|chunk| > sp.chunkOverlap > 0 ==> |r| <= sp.chunkOverlap)
      && (|chunk| > sp.chunkOverlap ==>
            var w := OverlapWindow(sp, chunk);
            var cut := |w| - |r|;
            IsSuffix(r, w)
            && (cut == 0 <==> !Contains(w, SENTENCE_END))
            && (cut > 0 ==> cut >= 2 && OccursAt(w, SENTENCE_END, cut - 2)
                            && forall j :: 0 <= j < cut - 2 ==> !OccursAt(w, SENTENCE_END, j)))
  {
  }

  // ---------------------------------------------------------------------------
  // _split_by_length

  /** `search_start = max(0, int(chunk_size * 0.7))`, in integer arithmetic. */
  function SearchStart(sp: Splitter): nat
    requires sp.Valid()
  {
    (7 * sp.chunkSize) / 10
  }

  /** `max(start + 1, end - chunk_overlap)`. */
  function NextStart(sp: Splitter, start: nat, end: nat): nat {
    if start + 1 > end - sp.chunkOverlap then start + 1 else end - sp.chunkOverlap
  }

  /**
    The end of a window that is not the last one: `chunk_size` characters on,
    or just after the last ". " that starts strictly after `search_start`
    inside the window.
   */
  function WindowEnd(sp: Splitter, text: string, start: nat): (end: nat)
    requires sp.Valid() && start + sp.chunkSize < |text|
    ensures start < end <= start + sp.chunkSize
  {
    var lastPeriod := RFind(text[start..start + sp.chunkSize], SENTENCE_END, SearchStart(sp));
    if lastPeriod > SearchStart(sp) then start + lastPeriod + 2 else start + sp.chunkSize
  }

  /**
    The windows `(start, end)` that the loop of `_split_by_length` visits
    from `start` on, each at most `chunk_size` long.
   */
  function Windows(sp: Splitter, text: string, start: nat): (ws: seq<(nat, nat)>)
    requires sp.Valid() && start <= |text|
    decreases |text| - start
    ensures forall i :: 0 <= i < |ws| ==> start <= ws[i].0 < ws[i].1 <= |text| && ws[i].1 - ws[i].0 <= sp.chunkSize
    ensures start < |text| <==> ws != []
  {
    if start == |text| then []
    else if start + sp.chunkSize >= |text| then [(start, |text|)]
    else
      var end := WindowEnd(sp, text, start);
      [(start, end)] + Windows(sp, text, NextStart(sp, start, end))
  }

  /**
    The windows start where asked, start strictly later each time, leave no
    gap between one window and the next, and the last one reaches the end of
    the text.
   */
  lemma {:induction false} WindowsEnds(sp: Splitter, text: string, start: nat)
    requires sp.Valid() && start < |text|
    ensures var ws := Windows(sp, text, start);
      ws[0].0 == start && ws[|ws| - 1].1 == |text|
    decreases |text| - start
  {
    if start + sp.chunkSize < |text| {
      var end := WindowEnd(sp, text, start);
      var next := NextStart(sp, start, end);
      WindowsStep(sp, text, start);
      WindowsEnds(sp, text, next);
    }
  }

  lemma {:induction false} WindowsChain(sp: Splitter, text: string, start: nat)
    requires sp.Valid() && start < |text|
    ensures var ws := Windows(sp, text, start);
      forall i, j :: 0 <= i && j == i + 1 < |ws| ==> ws[i].0 < ws[j].0 <= ws[i].1 < |text|
    decreases |text| - start
  {
    if start + sp.chunkSize < |text| {
      var end := WindowEnd(sp, text, start);
      var next := NextStart(sp, start, end);
      var ws := Windows(sp, text, start);
      var rest := Windows(sp, text, next);
      WindowsStep(sp, text, start);
      WindowsEnds(sp, text, next);
      WindowsChain(sp, text, next);
      forall i, j | 0 <= i && j == i + 1 < |ws| ensures ws[i].0 < ws[j].0 <= ws[i].1 < |text| {
        if i > 0 {
          assert ws[i] == rest[i - 1] && ws[j] == rest[j - 1];
        } else {
          assert ws[i] == (start, end) && ws[j] == rest[0];
        }
      }
    }
  }

  /** No chunk is blank. */
  predicate AllNonBlank(chunks: seq<string>) {
    forall i :: 0 <= i < |chunks| ==> !IsBlank(chunks[i])
  }

  /** No chunk is longer than `width`. */
  predicate AllFit(chunks: seq<string>, width: int) {
    forall i :: 0 <= i < |chunks| ==> |chunks[i]| <= width
  }

  /** The non-blank window texts, in order. */
  function WindowChunks(text: string, ws: seq<(nat, nat)>, width: nat): (chunks: seq<string>)
    requires forall i :: 0 <= i < |ws| ==> ws[i].0 <= ws[i].1 <= |text| && ws[i].1 - ws[i].0 <= width
    ensures AllNonBlank(chunks) && AllFit(chunks, width)
  {
    if ws == [] then []
    else
      var w := text[ws[0].0..ws[0].1];
      (if IsBlank(w) then [] else [w]) + WindowChunks(text, ws[1..], width)
  }

  lemma {:induction false} WindowChunksAreWindows(text: string, ws: seq<(nat, nat)>, width: nat)
    requires forall i :: 0 <= i < |ws| ==> ws[i].0 <= ws[i].1 <= |text| && ws[i].1 - ws[i].0 <= width
    ensures forall c :: c in WindowChunks(text, ws, width) ==> exists i :: 0 <= i < |ws| && c == text[ws[i].0..ws[i].1]
  {
    if ws != [] {
      WindowChunksAreWindows(text, ws[1..], width);
      forall c | c in WindowChunks(text, ws, width)
        ensures exists i :: 0 <= i < |ws| && c == text[ws[i].0..ws[i].1]
      {
        if c != text[ws[0].0..ws[0].1] {
          assert c in WindowChunks(text, ws[1..], width);
          var i :| 0 <= i < |ws[1..]| && c == text[ws[1..][i].0..ws[1..][i].1];
          assert ws[1..][i] == ws[i + 1];
        }
      }
    }
  }

  /** Every chunk is a contiguous piece of the text. */
  ghost predicate AllSlices(chunks: seq<string>, text: string) {
    forall i :: 0 <= i < |chunks| ==> SliceOf(chunks[i], text)
  }

  /** `_split_by_length`: every chunk is non-blank and at most `chunk_size` long. */
  function LengthChunks(sp: Splitter, text: string): (chunks: seq<string>)
    requires sp.Valid()
    ensures AllNonBlank(chunks) && AllFit(chunks, sp.chunkSize)
  {
    if IsBlank(text) then [] else WindowChunks(text, Windows(sp, text, 0), sp.chunkSize)
  }

  /**
    A window that is not the last is cut early when ". " occurs in it
    strictly after `search_start`: it then ends just after the last such
    ". ".
   */
  lemma WindowCutEarly(sp: Splitter, text: string, start: nat, j: int)
    requires sp.Valid() && start + sp.chunkSize < |text|
    requires SearchStart(sp) < j && OccursAt(text[start..start + sp.chunkSize], SENTENCE_END, j)
    ensures var p := WindowEnd(sp, text, start) - start - 2;
      SearchStart(sp) < p && j <= p && OccursAt(text[start..start + sp.chunkSize], SENTENCE_END, p)
  {
  }

  /** Without such a ". " the window runs the full `chunk_size`. */
  lemma WindowFull(sp: Splitter, text: string, start: nat, w: string)
    requires sp.Valid() && start + sp.chunkSize < |text| && w == text[start..start + sp.chunkSize]
    requires forall j :: SearchStart(sp) < j ==> !OccursAt(w, SENTENCE_END, j)
    ensures WindowEnd(sp, text, start) == start + sp.chunkSize
  {
  }

  lemma WindowsStep(sp: Splitter, text: string, start: nat)
    requires sp.Valid() && start + sp.chunkSize < |text|
    ensures var end := WindowEnd(sp, text, start);
      Windows(sp, text, start) == [(start, end)] + Windows(sp, text, NextStart(sp, start, end))
  {
  }

  lemma WindowChunksCons(text: string, a: nat, b: nat, ws: seq<(nat, nat)>, width: nat)
    requires a <= b <= |text| && b - a <= width
    requires forall i :: 0 <= i < |ws| ==> ws[i].0 <= ws[i].1 <= |text| && ws[i].1 - ws[i].0 <= width
    ensures WindowChunks(text, [(a, b)] + ws, width)
      == (if IsBlank(text[a..b]) then [] else [text[a..b]]) + WindowChunks(text, ws, width)
  {
    assert ([(a, b)] + ws)[1..] == ws;
  }

  lemma {:induction false} WindowsCover(sp: Splitter, text: string, start: nat, p: nat)
    requires sp.Valid() && start <= p < |text|
    ensures var ws := Windows(sp, text, start);
      exists i :: 0 <= i < |ws| && ws[i].0 <= p < ws[i].1
    decreases |text| - start
  {
    var ws := Windows(sp, text, start);
    if start + sp.chunkSize < |text| {
      var end := WindowEnd(sp, text, start);
      WindowsStep(sp, text, start);
      if p >= end {
        var next := NextStart(sp, start, end);
        var rest := Windows(sp, text, next);
        WindowsCover(sp, text, next, p);
        var i :| 0 <= i < |rest| && rest[i].0 <= p < rest[i].1;
        assert ws[i + 1] == rest[i];
      } else {
        assert ws[0].0 <= p < ws[0].1;
      }
    } else {
      assert ws[0] == (start, |text|);
    }
  }

  lemma {:induction false} WindowChunksKeepNonBlank(text: string, ws: seq<(nat, nat)>, width: nat, i: nat, p: nat)
    requires forall k :: 0 <= k < |ws| ==> ws[k].0 <= ws[k].1 <= |text| && ws[k].1 - ws[k].0 <= width
    requires i < |ws| && ws[i].0 <= p < ws[i].1 && !IsSpace(text[p])
    ensures WindowChunks(text, ws, width) != []
  {
    if i > 0 {
      WindowChunksKeepNonBlank(text, ws[1..], width, i - 1, p);
    } else {
      assert text[ws[0].0..ws[0].1][p - ws[0].0] == text[p];
    }
  }

  /**
    Fixed-length splitting loses nothing and invents nothing: its chunks are
    slices of the text, and it yields no chunk exactly when the text is blank.
   */
  lemma LengthChunksSpec(sp: Splitter, text: string)
    requires sp.Valid()
    ensures AllSlices(LengthChunks(sp, text), text)
    ensures LengthChunks(sp, text) == [] <==> IsBlank(text)
  {
    if !IsBlank(text) {
      var ws := Windows(sp, text, 0);
      var chunks := LengthChunks(sp, text);
      WindowChunksAreWindows(text, ws, sp.chunkSize);
      forall k | 0 <= k < |chunks| ensures SliceOf(chunks[k], text) {
        assert chunks[k] in chunks;
        var i :| 0 <= i < |ws| && chunks[k] == text[ws[i].0..ws[i].1];
        SliceAt(text, ws[i].0, ws[i].1);
      }
      var p :| 0 <= p < |text| && !IsSpace(text[p]);
      WindowsCover(sp, text, 0, p);
      var i :| 0 <= i < |ws| && ws[i].0 <= p < ws[i].1;
      WindowChunksKeepNonBlank(text, ws, sp.chunkSize, i, p);
    }
  }

  lemma WindowEndFrom(sp: Splitter, text: string, start: nat, lastPeriod: int)
    requires sp.Valid() && start + sp.chunkSize < |text|
    requires lastPeriod == RFind(text[start..start + sp.chunkSize], SENTENCE_END, SearchStart(sp))
    ensures WindowEnd(sp, text, start)
      == if lastPeriod > SearchStart(sp) then start + lastPeriod + 2 else start + sp.chunkSize
  {
  }

  /** One turn of the loop of `_split_by_length` on a window that is not the last. */
  lemma LengthStep(sp: Splitter, text: string, start: nat, end: nat, next: nat)
    requires sp.Valid() && start + sp.chunkSize < |text|
    requires end == WindowEnd(sp, text, start) && next == NextStart(sp, start, end)
    ensures next <= |text|
    ensures WindowChunks(text, Windows(sp, text, start), sp.chunkSize)
      == (if IsBlank(text[start..end]) then [] else [text[start..end]]) + WindowChunks(text, Windows(sp, text, next), sp.chunkSize)
  {
    WindowsStep(sp, text, start);
    WindowChunksCons(text, start, end, Windows(sp, text, next), sp.chunkSize);
  }

  lemma AppendPiece(before: seq<string>, piece: seq<string>, rest: seq<string>, all: seq<string>)
    requires before + (piece + rest) == all
    ensures (before + piece) + rest == all
  {
  }

  /** The loop's last turn: the final window reaches the end of the text. */
  lemma LengthLast(sp: Splitter, text: string, start: nat)
    requires sp.Valid() && start < |text| <= start + sp.chunkSize
    ensures var w := text[start..];
      WindowChunks(text, Windows(sp, text, start), sp.chunkSize) == if IsBlank(w) then [] else [w]
  {
    assert Windows(sp, text, start) == [(start, |text|)] + [];
    WindowChunksCons(text, start, |text|, [], sp.chunkSize);
    assert text[start..] == text[start..|text|];
  }

  /** `_split_by_length`, the `while` loop over window starts. */
  method SplitByLength(sp: Splitter, text: string) returns (chunks: seq<string>)
    requires sp.Valid()
    ensures chunks == LengthChunks(sp, text)
  {
    if IsBlank(text) {
      return [];
    }
    ghost var all := WindowChunks(text, Windows(sp, text, 0), sp.chunkSize);
    assert all == LengthChunks(sp, text);
    chunks := [];
    var start := 0;
    while start < |text|
      invariant 0 <= start <= |text|
      invariant chunks + WindowChunks(text, Windows(sp, text, start), sp.chunkSize) == all
      decreases |text| - start
    {
      var end := if start + sp.chunkSize < |text| then start + sp.chunkSize else |text|;
      if end >= |text| {
        var chunk := text[start..];
        LengthLast(sp, text, start);
        if !IsBlank(chunk) {
          chunks := chunks + [chunk];
        }
        break;
      }
      var chunk := text[start..end];
      var searchStart := SearchStart(sp);
      var lastPeriod := RFind(chunk, SENTENCE_END, searchStart);
      WindowEndFrom(sp, text, start, lastPeriod);
      if lastPeriod > searchStart {
        end := start + lastPeriod + 2;
        chunk := text[start..end];
      }
      var next := if start + 1 > end - sp.chunkOverlap then start + 1 else end - sp.chunkOverlap;
      LengthStep(sp, text, start, end, next);
      AppendPiece(chunks, if IsBlank(chunk) then [] else [chunk], WindowChunks(text, Windows(sp, text, next), sp.chunkSize), all);
      if !IsBlank(chunk) {
        chunks := chunks + [chunk];
      } else {
        assert chunks + [] == chunks;
      }
      start := next;
    }
  }

  // ---------------------------------------------------------------------------
  // _split_by_separator

  /**
    `s.split(sep)` for a non-empty separator: the pieces between the
    left-to-right, non-overlapping occurrences of `sep`.
   */
  function SplitOn(s: string, sep: string): (parts: seq<string>)
    requires sep != []
    decreases |s|
    ensures |parts| >= 1
  {
    var i := Find(s, sep);
    if i < 0 then [s] else [s[..i]] + SplitOn(s[i + |sep|..], sep)
  }

  /**
    No part holds the separator, and the text splits into more than one part
    exactly when the separator occurs in it.
   */
  lemma {:induction false} SplitOnSpec(s: string, sep: string)
    requires sep != []
    ensures var parts := SplitOn(s, sep);
      (forall i :: 0 <= i < |parts| ==> !Contains(parts[i], sep))
      && (|parts| == 1 <==> !Contains(s, sep))
    decreases |s|
  {
    var i := Find(s, sep);
    if i >= 0 {
      var first := s[..i];
      var tail := s[i + |sep|..];
      PrefixBeforeFirst(s, sep, i);
      SplitOnSpec(tail, sep);
      var parts := SplitOn(s, sep);
      assert parts == [first] + SplitOn(tail, sep);
      forall k | 0 <= k < |parts| ensures !Contains(parts[k], sep) {
        if k > 0 {
          assert parts[k] == SplitOn(tail, sep)[k - 1];
        }
      }
    }
  }

  /** The parts as the packing loop sees them: the separator put back in front of every part but the first. */
  function Reprefixed(parts: seq<string>, sep: string): (pieces: seq<string>)
    ensures |pieces| == |parts|
    ensures forall i :: 0 <= i < |parts| ==> pieces[i] == if i == 0 then parts[i] else sep + parts[i]
  {
    if parts == [] then [] else [parts[0]] + Prefixed(parts[1..], sep)
  }

  function Prefixed(parts: seq<string>, sep: string): (pieces: seq<string>)
    ensures |pieces| == |parts|
    ensures forall i :: 0 <= i < |parts| ==> pieces[i] == sep + parts[i]
  {
    if parts == [] then [] else [sep + parts[0]] + Prefixed(parts[1..], sep)
  }

  lemma ConcatCons(a: string, rest: seq<string>)
    ensures Concat([a] + rest) == a + Concat(rest)
    decreases |rest|
  {
    if rest != [] {
      var n := |rest|;
      assert ([a] + rest)[..n] == [a] + rest[..n - 1];
      ConcatCons(a, rest[..n - 1]);
    } else {
      assert [a] + rest == [a];
    }
  }

  lemma ReprefixedCons(p: string, parts: seq<string>, sep: string)
    requires parts != []
    ensures Concat(Reprefixed([p] + parts, sep)) == p + sep + Concat(Reprefixed(parts, sep))
  {
    var tail := Prefixed(parts[1..], sep);
    var c := Concat(tail);
    assert ([p] + parts)[1..] == parts;
    assert Prefixed(parts, sep) == [sep + parts[0]] + tail;
    assert Reprefixed([p] + parts, sep) == [p] + ([sep + parts[0]] + tail);
    assert Reprefixed(parts, sep) == [parts[0]] + tail;
    ConcatCons(p, [sep + parts[0]] + tail);
    ConcatCons(sep + parts[0], tail);
    ConcatCons(parts[0], tail);
    Regroup(p, sep, parts[0], c);
  }

  lemma Regroup(a: string, b: string, c: string, d: string)
    ensures a + ((b + c) + d) == (a + b) + (c + d)
  {
  }

  /** Splitting on a separator and putting it back gives the text back: nothing is lost or added. */
  lemma {:induction false} SplitRoundTrip(s: string, sep: string)
    requires sep != []
    ensures Concat(Reprefixed(SplitOn(s, sep), sep)) == s
    decreases |s|
  {
    var i := Find(s, sep);
    if i < 0 {
      assert Reprefixed([s], sep) == [s];
      assert [s] == [s] + [];
      ConcatCons(s, []);
    } else {
      var tail := s[i + |sep|..];
      assert s[i..i + |sep|] == sep;
      assert s == s[..i] + sep + tail;
      var rest := SplitOn(tail, sep);
      assert SplitOn(s, sep) == [s[..i]] + rest;
      SplitRoundTrip(tail, sep);
      ReprefixedCons(s[..i], rest, sep);
    }
  }

  /** The packing loop's state: the closed chunks and the chunk being filled. */
  datatype PackState = PackState(chunks: seq<string>, current: string)

  /** `current` becomes a chunk only if it is not blank. */
  function Closed(chunks: seq<string>, current: string): (r: seq<string>)
    ensures !IsBlank(current) ==> r == chunks + [current]
    ensures IsBlank(current) ==> r == chunks
  {
    if IsBlank(current) then chunks else chunks + [current]
  }

  /**
    One turn of the packing loop: the piece joins the current chunk if both
    fit in `chunk_size`; otherwise the current chunk is closed and the next
    one starts with its overlap followed by the piece.
   */
  function PackStep(sp: Splitter, st: PackState, piece: string): PackState
    requires sp.Valid()
  {
    if |st.current| + |piece| <= sp.chunkSize then PackState(st.chunks, st.current + piece)
    else PackState(Closed(st.chunks, st.current), GetOverlap(sp, st.current) + piece)
  }

  /** The packing loop's state after the given pieces. */
  function Pack(sp: Splitter, pieces: seq<string>): (st: PackState)
    requires sp.Valid()
    ensures AllNonBlank(st.chunks)
  {
    if pieces == [] then PackState([], "")
    else PackStep(sp, Pack(sp, pieces[..|pieces| - 1]), pieces[|pieces| - 1])
  }

  /**
    Packing keeps to the text: the chunk being filled is always a suffix of
    the text packed so far, and every closed chunk is a slice of it.
   */
  lemma {:induction false} PackSlices(sp: Splitter, pieces: seq<string>)
    requires sp.Valid()
    ensures IsSuffix(Pack(sp, pieces).current, Concat(pieces))
    ensures AllSlices(Pack(sp, pieces).chunks, Concat(pieces))
  {
    if pieces != [] {
      var n := |pieces|;
      var init := pieces[..n - 1];
      var piece := pieces[n - 1];
      var done := Concat(init);
      assert Concat(pieces) == done + piece;
      var st := Pack(sp, init);
      var next := Pack(sp, pieces);
      assert pieces[..n - 1] == init;
      assert next == PackStep(sp, st, piece);
      PackSlices(sp, init);
      var closing := |st.current| + |piece| > sp.chunkSize && !IsBlank(st.current);
      if |st.current| + |piece| > sp.chunkSize {
        SuffixIsSlice(st.current, done);
        SliceOfExtend(st.current, done, piece);
        SuffixTransitive(GetOverlap(sp, st.current), st.current, done);
        SuffixExtend(GetOverlap(sp, st.current), done, piece);
      } else {
        SuffixExtend(st.current, done, piece);
      }
      assert next.chunks == if closing then st.chunks + [st.current] else st.chunks;
      forall i | 0 <= i < |next.chunks| ensures SliceOf(next.chunks[i], done + piece) {
        if i < |st.chunks| {
          SliceOfExtend(st.chunks[i], done, piece);
        }
      }
    }
  }

  /** After the loop: the chunk being filled is kept when it is not blank. */
  function FinishPack(st: PackState): (chunks: seq<string>)
    ensures AllNonBlank(st.chunks) ==> AllNonBlank(chunks)
  {
    Closed(st.chunks, st.current)
  }

  lemma PackNext(sp: Splitter, pieces: seq<string>, i: nat)
    requires sp.Valid() && i < |pieces|
    ensures Pack(sp, pieces[..i + 1]) == PackStep(sp, Pack(sp, pieces[..i]), pieces[i])
  {
    assert pieces[..i + 1][..i] == pieces[..i];
  }

  /**
    `_split_by_separator`: "" hands over to fixed-length windowing; a split
    into at most two parts of an over-long text gives nothing; otherwise the
    parts, with the separator put back, are packed into chunks.
   */
  function SeparatorChunks(sp: Splitter, text: string, sep: string): (chunks: seq<string>)
    requires sp.Valid()
    ensures AllNonBlank(chunks)
    ensures sep == [] ==> chunks == LengthChunks(sp, text)
    ensures sep != [] && |SplitOn(text, sep)| <= 2 && |text| > sp.chunkSize ==> chunks == []
  {
    if sep == [] then LengthChunks(sp, text)
    else
      var parts := SplitOn(text, sep);
      if |parts| <= 2 && |text| > sp.chunkSize then []
      else FinishPack(Pack(sp, Reprefixed(parts, sep)))
  }

  /** Every chunk that separator splitting yields is a piece of the text. */
  lemma SeparatorChunksSlices(sp: Splitter, text: string, sep: string)
    requires sp.Valid()
    ensures AllSlices(SeparatorChunks(sp, text, sep), text)
  {
    if sep == [] {
      LengthChunksSpec(sp, text);
    } else {
      var parts := SplitOn(text, sep);
      if !(|parts| <= 2 && |text| > sp.chunkSize) {
        var pieces := Reprefixed(parts, sep);
        var st := Pack(sp, pieces);
        SplitRoundTrip(text, sep);
        PackSlices(sp, pieces);
        SuffixIsSlice(st.current, text);
        ClosedSlices(st.chunks, st.current, text);
      }
    }
  }

  lemma ClosedSlices(chunks: seq<string>, current: string, text: string)
    requires AllSlices(chunks, text) && SliceOf(current, text)
    ensures AllSlices(Closed(chunks, current), text)
  {
  }

  /** `_split_by_separator`, the `for` loop that packs the parts. */
  method SplitBySeparator(sp: Splitter, text: string, sep: string) returns (chunks: seq<string>)
    requires sp.Valid()
    ensures chunks == SeparatorChunks(sp, text, sep)
  {
    if sep == [] {
      chunks := SplitByLength(sp, text);
      return;
    }
    var parts := SplitOn(text, sep);
    if |parts| <= 2 && |text| > sp.chunkSize {
      return [];
    }
    ghost var pieces := Reprefixed(parts, sep);
    chunks := [];
    var current := "";
    for i := 0 to |parts|
      invariant PackState(chunks, current) == Pack(sp, pieces[..i])
    {
      var part := parts[i];
      if i > 0 {
        part := sep + part;
      }
      PackNext(sp, pieces, i);
      if |current| + |part| <= sp.chunkSize {
        current := current + part;
      } else {
        if !IsBlank(current) {
          chunks := chunks + [current];
        }
        current := GetOverlap(sp, current) + part;
      }
    }
    assert pieces[..|parts|] == pieces;
    if !IsBlank(current) {
      chunks := chunks + [current];
    }
  }

  // ---------------------------------------------------------------------------
  // Losing no text

  /** Position `i` of `text` lies inside an occurrence `text[o..o + |c|]` of one of the chunks `c`. */
  ghost predicate CoveredAt(chunks: seq<string>, text: string, i: int) {
    exists k, o :: 0 <= k < |chunks| && OccursAt(text, chunks[k], o) && o <= i < o + |chunks[k]|
  }

  /** Every non-whitespace character of `text` lies inside an occurrence of some chunk. */
  ghost predicate Covers(chunks: seq<string>, text: string) {
    forall i :: 0 <= i < |text| && !IsSpace(text[i]) ==> CoveredAt(chunks, text, i)
  }

  lemma CoveredBy(chunks: seq<string>, text: string, k: nat, o: nat, i: int)
    requires k < |chunks| && OccursAt(text, chunks[k], o) && o <= i < o + |chunks[k]|
    ensures CoveredAt(chunks, text, i)
  {
  }

  lemma CoveredAppend(a: seq<string>, b: seq<string>, text: string, i: int)
    requires CoveredAt(a, text, i) || CoveredAt(b, text, i)
    ensures CoveredAt(a + b, text, i)
  {
    if CoveredAt(a, text, i) {
      var k, o :| 0 <= k < |a| && OccursAt(text, a[k], o) && o <= i < o + |a[k]|;
      assert (a + b)[k] == a[k];
      CoveredBy(a + b, text, k, o, i);
    } else {
      var k, o :| 0 <= k < |b| && OccursAt(text, b[k], o) && o <= i < o + |b[k]|;
      assert (a + b)[|a| + k] == b[k];
      CoveredBy(a + b, text, |a| + k, o, i);
    }
  }

  /** An occurrence inside the occurrence `text[o..o + |u|]` of `u` is an occurrence in `text`. */
  lemma CoveredWithin(chunks: seq<string>, u: string, text: string, o: nat, i: int)
    requires OccursAt(text, u, o)
    requires CoveredAt(chunks, u, i - o)
    ensures CoveredAt(chunks, text, i)
  {
    var k, p :| 0 <= k < |chunks| && OccursAt(u, chunks[k], p) && p <= i - o < p + |chunks[k]|;
    var c := chunks[k];
    forall m | 0 <= m < |c| ensures text[o + p..o + p + |c|][m] == c[m] {
      assert c[m] == u[p + m] == text[o + p + m];
    }
    assert text[o + p..o + p + |c|] == c;
    CoveredBy(chunks, text, k, o + p, i);
  }

  lemma {:induction false} WindowChunksKeep(text: string, ws: seq<(nat, nat)>, width: nat, i: nat, p: nat)
    requires forall k :: 0 <= k < |ws| ==> ws[k].0 <= ws[k].1 <= |text| && ws[k].1 - ws[k].0 <= width
    requires i < |ws| && ws[i].0 <= p < ws[i].1 && !IsSpace(text[p])
    ensures CoveredAt(WindowChunks(text, ws, width), text, p)
  {
    var w := text[ws[0].0..ws[0].1];
    var first := if IsBlank(w) then [] else [w];
    var rest := WindowChunks(text, ws[1..], width);
    assert WindowChunks(text, ws, width) == first + rest;
    if i > 0 {
      WindowChunksKeep(text, ws[1..], width, i - 1, p);
    } else {
      assert w[p - ws[0].0] == text[p];
      CoveredBy(first, text, 0, ws[0].0, p);
    }
    CoveredAppend(first, rest, text, p);
  }

  /** Fixed-length splitting loses no text: every non-whitespace character lies in some chunk. */
  lemma LengthChunksCover(sp: Splitter, text: string)
    requires sp.Valid()
    ensures Covers(LengthChunks(sp, text), text)
  {
    var ws := Windows(sp, text, 0);
    forall p | 0 <= p < |text| && !IsSpace(text[p]) ensures CoveredAt(LengthChunks(sp, text), text, p) {
      WindowsCover(sp, text, 0, p);
      var i :| 0 <= i < |ws| && ws[i].0 <= p < ws[i].1;
      WindowChunksKeep(text, ws, sp.chunkSize, i, p);
    }
  }

  /**
    Packing loses no text: every non-whitespace character of the pieces packed
    so far lies in a closed chunk, unless it lies in the chunk being filled
    (the suffix of length `|current|`).
   */
  lemma {:induction false} PackCovers(sp: Splitter, pieces: seq<string>)
    requires sp.Valid()
    ensures forall i :: 0 <= i < |Concat(pieces)| - |Pack(sp, pieces).current| && !IsSpace(Concat(pieces)[i])
                   ==> CoveredAt(Pack(sp, pieces).chunks, Concat(pieces), i)
  {
    if pieces != [] {
      var n := |pieces|;
      var init := pieces[..n - 1];
      var piece := pieces[n - 1];
      var done := Concat(init);
      var t := done + piece;
      assert Concat(pieces) == t;
      var st := Pack(sp, init);
      var next := Pack(sp, pieces);
      assert pieces[..n - 1] == init;
      assert next == PackStep(sp, st, piece);
      PackCovers(sp, init);
      PackSuffix(sp, init);
      assert t[..|done|] == done;
      var o := |done| - |st.current|;
      if |st.current| + |piece| <= sp.chunkSize {
        forall i | 0 <= i < |t| - |next.current| && !IsSpace(t[i]) ensures CoveredAt(next.chunks, t, i) {
          assert t[i] == done[i];
          CoveredWithin(st.chunks, done, t, 0, i);
        }
      } else {
        forall i | 0 <= i < |t| - |next.current| && !IsSpace(t[i]) ensures CoveredAt(next.chunks, t, i) {
          assert t[i] == done[i];
          if i < o {
            CoveredWithin(st.chunks, done, t, 0, i);
            if !IsBlank(st.current) {
              CoveredAppend(st.chunks, [st.current], t, i);
            }
          } else {
            assert t[o..o + |st.current|] == st.current;
            assert st.current[i - o] == t[i];
            CoveredBy([st.current], t, 0, o, i);
            CoveredAppend(st.chunks, [st.current], t, i);
          }
        }
      }
    }
  }

  lemma PackSuffix(sp: Splitter, pieces: seq<string>)
    requires sp.Valid()
    ensures IsSuffix(Pack(sp, pieces).current, Concat(pieces))
  {
    PackSlices(sp, pieces);
  }

  /**
    Closing a chunk loses no text: when the closed chunks hold every
    non-whitespace character before the chunk being filled, and that chunk
    is a suffix of the text, closing it leaves every such character covered.
   */
  lemma ClosedCovers(chunks: seq<string>, current: string, t: string)
    requires IsSuffix(current, t)
    requires forall i :: 0 <= i < |t| - |current| && !IsSpace(t[i]) ==> CoveredAt(chunks, t, i)
    ensures Covers(Closed(chunks, current), t)
  {
    var o := |t| - |current|;
    assert OccursAt(t, current, o);
    forall i | 0 <= i < |t| && !IsSpace(t[i]) ensures CoveredAt(Closed(chunks, current), t, i) {
      if i >= o {
        assert current[i - o] == t[i];
        CoveredBy([current], t, 0, o, i);
        CoveredAppend(chunks, [current], t, i);
      } else if !IsBlank(current) {
        CoveredAppend(chunks, [current], t, i);
      }
    }
  }

  /** Closing the last chunk after packing loses no text of the packed pieces. */
  lemma FinishPackCovers(sp: Splitter, pieces: seq<string>)
    requires sp.Valid()
    ensures Covers(FinishPack(Pack(sp, pieces)), Concat(pieces))
  {
    var st := Pack(sp, pieces);
    PackCovers(sp, pieces);
    PackSuffix(sp, pieces);
    ClosedCovers(st.chunks, st.current, Concat(pieces));
  }

  /**
    Separator splitting loses no text, unless it refuses a split into at most
    two parts of an over-long text: every non-whitespace character of the
    text lies in some chunk.
   */
  lemma SeparatorChunksCover(sp: Splitter, text: string, sep: string)
    requires sp.Valid()
    ensures sep == [] || |SplitOn(text, sep)| > 2 || |text| <= sp.chunkSize
      ==> Covers(SeparatorChunks(sp, text, sep), text)
  {
    if sep == [] {
      LengthChunksCover(sp, text);
    } else if |SplitOn(text, sep)| > 2 || |text| <= sp.chunkSize {
      SplitRoundTrip(text, sep);
      FinishPackCovers(sp, Reprefixed(SplitOn(text, sep), sep));
    }
  }

  // ---------------------------------------------------------------------------
  // _recursive_split

  /** The length of the longest chunk (0 for none). */
  function MaxLength(chunks: seq<string>): (m: nat)
    ensures forall i :: 0 <= i < |chunks| ==> |chunks[i]| <= m
    ensures chunks != [] ==> exists i :: 0 <= i < |chunks| && |chunks[i]| == m
  {
    if chunks == [] then 0
    else
      var m := MaxLength(chunks[..|chunks| - 1]);
      var last := |chunks[|chunks| - 1]|;
      assert forall i :: 0 <= i < |chunks| - 1 ==> chunks[..|chunks| - 1][i] == chunks[i];
      if last > m then last else m
  }

  /**
    A split is accepted only if it gave chunks and the longest is under 90%
    of the text (`max_chunk_size >= len(text) * 0.9` rejects it; in
    integers, `10 * max >= 9 * len`).
   */
  predicate MakesProgress(chunks: seq<string>, text: string) {
    chunks != [] && 10 * MaxLength(chunks) < 9 * |text|
  }

  /** `separator in text`; the empty separator is in every string. */
  predicate Occurs(sep: string, text: string) {
    sep == [] || Contains(text, sep)
  }

  /**
    `_recursive_split(text, depth, max_depth)`: at the depth cap, windowing;
    a short enough text is its own chunk; otherwise the separators are tried
    in order. Every piece is non-blank and at most `chunk_size` long.
   */
  function RecursiveChunks(sp: Splitter, text: string, depth: nat, maxDepth: nat): (pieces: seq<string>)
    requires sp.Valid()
    decreases maxDepth - depth, 2, 0
    ensures AllNonBlank(pieces) && AllFit(pieces, sp.chunkSize)
  {
    if depth >= maxDepth then LengthChunks(sp, text)
    else if |text| <= sp.chunkSize then (if IsBlank(text) then [] else [text])
    else Chosen(sp, text, FirstUseful(sp, text, 0), depth, maxDepth)
  }

  /**
    The separator loop once it has settled on the `j`-th separator: that
    separator's chunks, the over-long ones split again one level deeper;
    `j == |SEPARATORS|` means no separator was useful, and then windowing.
   */
  function Chosen(sp: Splitter, text: string, j: nat, depth: nat, maxDepth: nat): (pieces: seq<string>)
    requires sp.Valid() && depth < maxDepth && j <= |SEPARATORS|
    decreases maxDepth - depth, 1, 0
    ensures AllNonBlank(pieces) && AllFit(pieces, sp.chunkSize)
  {
    if j == |SEPARATORS| then LengthChunks(sp, text)
    else ResplitAll(sp, SeparatorChunks(sp, text, SEPARATORS[j]), depth, maxDepth)
  }

  lemma AllNonBlankPrefix(chunks: seq<string>, j: nat)
    requires AllNonBlank(chunks) && j <= |chunks|
    ensures AllNonBlank(chunks[..j])
  {
  }

  /** The chunk loop: a chunk that fits is kept, a longer one is split again at `depth + 1`. */
  function ResplitAll(sp: Splitter, chunks: seq<string>, depth: nat, maxDepth: nat): (pieces: seq<string>)
    requires sp.Valid() && depth < maxDepth
    requires AllNonBlank(chunks)
    decreases maxDepth - depth, 0, |chunks|
    ensures AllNonBlank(pieces) && AllFit(pieces, sp.chunkSize)
  {
    if chunks == [] then []
    else
      var last := chunks[|chunks| - 1];
      ResplitAll(sp, chunks[..|chunks| - 1], depth, maxDepth)
        + (if |last| <= sp.chunkSize then [last] else RecursiveChunks(sp, last, depth + 1, maxDepth))
  }

  /** The `k`-th separator occurs in the text and its split makes progress. */
  predicate Useful(sp: Splitter, text: string, k: nat)
    requires sp.Valid() && k < |SEPARATORS|
  {
    Occurs(SEPARATORS[k], text) && MakesProgress(SeparatorChunks(sp, text, SEPARATORS[k]), text)
  }

  lemma AllSlicesAppend(a: seq<string>, b: seq<string>, text: string)
    requires AllSlices(a, text) && AllSlices(b, text)
    ensures AllSlices(a + b, text)
  {
    forall i | 0 <= i < |a + b| ensures SliceOf((a + b)[i], text) {
      if i >= |a| {
        assert (a + b)[i] == b[i - |a|];
      }
    }
  }

  lemma AllSlicesWithin(chunks: seq<string>, u: string, text: string)
    requires AllSlices(chunks, u) && SliceOf(u, text)
    ensures AllSlices(chunks, text)
  {
    forall i | 0 <= i < |chunks| ensures SliceOf(chunks[i], text) {
      SliceOfTransitive(chunks[i], u, text);
    }
  }

  /** The recursive splitter invents no text: every piece is a contiguous piece of its input. */
  lemma {:induction false} RecursiveSlices(sp: Splitter, text: string, depth: nat, maxDepth: nat)
    requires sp.Valid()
    ensures AllSlices(RecursiveChunks(sp, text, depth, maxDepth), text)
    decreases maxDepth - depth, 2, 0
  {
    if depth >= maxDepth {
      LengthChunksSpec(sp, text);
    } else if |text| <= sp.chunkSize {
      SliceAt(text, 0, |text|);
      assert text[0..|text|] == text;
    } else {
      ChosenSlices(sp, text, FirstUseful(sp, text, 0), depth, maxDepth);
    }
  }

  lemma {:induction false} ChosenSlices(sp: Splitter, text: string, j: nat, depth: nat, maxDepth: nat)
    requires sp.Valid() && depth < maxDepth && j <= |SEPARATORS|
    ensures AllSlices(Chosen(sp, text, j, depth, maxDepth), text)
    decreases maxDepth - depth, 1, 0
  {
    if j == |SEPARATORS| {
      LengthChunksSpec(sp, text);
    } else {
      SeparatorChunksSlices(sp, text, SEPARATORS[j]);
      ResplitSlices(sp, SeparatorChunks(sp, text, SEPARATORS[j]), depth, maxDepth, text);
    }
  }

  lemma {:induction false} ResplitSlices(sp: Splitter, chunks: seq<string>, depth: nat, maxDepth: nat, text: string)
    requires sp.Valid() && depth < maxDepth
    requires AllNonBlank(chunks)
    requires AllSlices(chunks, text)
    ensures AllSlices(ResplitAll(sp, chunks, depth, maxDepth), text)
    decreases maxDepth - depth, 0, |chunks|
  {
    if chunks != [] {
      var n := |chunks|;
      var last := chunks[n - 1];
      assert SliceOf(last, text);
      ResplitSlices(sp, chunks[..n - 1], depth, maxDepth, text);
      if |last| > sp.chunkSize {
        RecursiveSlices(sp, last, depth + 1, maxDepth);
        AllSlicesWithin(RecursiveChunks(sp, last, depth + 1, maxDepth), last, text);
      }
      AllSlicesAppend(ResplitAll(sp, chunks[..n - 1], depth, maxDepth),
        if |last| <= sp.chunkSize then [last] else RecursiveChunks(sp, last, depth + 1, maxDepth), text);
    }
  }

  /** The recursive splitter yields nothing exactly when its input is blank. */
  lemma RecursiveEmpty(sp: Splitter, text: string, depth: nat, maxDepth: nat)
    requires sp.Valid()
    ensures RecursiveChunks(sp, text, depth, maxDepth) == [] <==> IsBlank(text)
  {
    if IsBlank(text) {
      RecursiveBlank(sp, text, depth, maxDepth);
    } else {
      RecursiveNonEmpty(sp, text, depth, maxDepth);
    }
  }

  lemma RecursiveBlank(sp: Splitter, text: string, depth: nat, maxDepth: nat)
    requires sp.Valid() && IsBlank(text)
    ensures RecursiveChunks(sp, text, depth, maxDepth) == []
  {
    if depth >= maxDepth {
      LengthChunksSpec(sp, text);
    } else if |text| > sp.chunkSize {
      ChosenBlank(sp, text, FirstUseful(sp, text, 0), depth, maxDepth);
    }
  }

  lemma ChosenBlank(sp: Splitter, text: string, j: nat, depth: nat, maxDepth: nat)
    requires sp.Valid() && depth < maxDepth && j <= |SEPARATORS| && IsBlank(text)
    ensures Chosen(sp, text, j, depth, maxDepth) == []
  {
    if j == |SEPARATORS| {
      LengthChunksSpec(sp, text);
    } else {
      var chunks := SeparatorChunks(sp, text, SEPARATORS[j]);
      SeparatorChunksSlices(sp, text, SEPARATORS[j]);
      if chunks != [] {
        SliceOfBlank(chunks[0], text);
      }
    }
  }

  lemma {:induction false} RecursiveNonEmpty(sp: Splitter, text: string, depth: nat, maxDepth: nat)
    requires sp.Valid() && !IsBlank(text)
    ensures RecursiveChunks(sp, text, depth, maxDepth) != []
    decreases maxDepth - depth, 2, 0
  {
    if depth >= maxDepth {
      LengthChunksSpec(sp, text);
    } else if |text| > sp.chunkSize {
      if FirstUseful(sp, text, 0) < |SEPARATORS| {
        FirstUsefulIsUseful(sp, text, 0);
      }
      ChosenNonEmpty(sp, text, FirstUseful(sp, text, 0), depth, maxDepth);
    }
  }

  lemma {:induction false} ChosenNonEmpty(sp: Splitter, text: string, j: nat, depth: nat, maxDepth: nat)
    requires sp.Valid() && depth < maxDepth && j <= |SEPARATORS| && !IsBlank(text)
    requires j < |SEPARATORS| ==> Useful(sp, text, j)
    ensures Chosen(sp, text, j, depth, maxDepth) != []
    decreases maxDepth - depth, 1, 0
  {
    if j == |SEPARATORS| {
      LengthChunksSpec(sp, text);
    } else {
      ResplitNonEmpty(sp, SeparatorChunks(sp, text, SEPARATORS[j]), depth, maxDepth);
    }
  }

  lemma {:induction false} ResplitNonEmpty(sp: Splitter, chunks: seq<string>, depth: nat, maxDepth: nat)
    requires sp.Valid() && depth < maxDepth && AllNonBlank(chunks) && chunks != []
    ensures ResplitAll(sp, chunks, depth, maxDepth) != []
    decreases maxDepth - depth, 0
  {
    var last := chunks[|chunks| - 1];
    if |last| > sp.chunkSize {
      RecursiveNonEmpty(sp, last, depth + 1, maxDepth);
    }
  }

  /**
    The recursive splitter loses no text: every non-whitespace character of
    its input lies inside an occurrence of some piece.
   */
  lemma {:induction false} RecursiveCovers(sp: Splitter, text: string, depth: nat, maxDepth: nat)
    requires sp.Valid()
    ensures Covers(RecursiveChunks(sp, text, depth, maxDepth), text)
    decreases maxDepth - depth, 2, 0
  {
    if depth >= maxDepth {
      LengthChunksCover(sp, text);
    } else if |text| <= sp.chunkSize {
      forall i | 0 <= i < |text| && !IsSpace(text[i]) ensures CoveredAt(RecursiveChunks(sp, text, depth, maxDepth), text, i) {
        assert !IsBlank(text);
        assert text[0..|text|] == text;
        CoveredBy([text], text, 0, 0, i);
      }
    } else {
      var j := FirstUseful(sp, text, 0);
      if j < |SEPARATORS| {
        FirstUsefulIsUseful(sp, text, 0);
      }
      ChosenCovers(sp, text, j, depth, maxDepth);
    }
  }

  lemma {:induction false} ChosenCovers(sp: Splitter, text: string, j: nat, depth: nat, maxDepth: nat)
    requires sp.Valid() && depth < maxDepth && j <= |SEPARATORS|
    requires j < |SEPARATORS| ==> SeparatorChunks(sp, text, SEPARATORS[j]) != []
    ensures Covers(Chosen(sp, text, j, depth, maxDepth), text)
    decreases maxDepth - depth, 1, 0
  {
    if j == |SEPARATORS| {
      LengthChunksCover(sp, text);
    } else {
      var chunks := SeparatorChunks(sp, text, SEPARATORS[j]);
      SeparatorChunksCover(sp, text, SEPARATORS[j]);
      forall i | 0 <= i < |text| && !IsSpace(text[i]) ensures CoveredAt(Chosen(sp, text, j, depth, maxDepth), text, i) {
        var k, o :| 0 <= k < |chunks| && OccursAt(text, chunks[k], o) && o <= i < o + |chunks[k]|;
        ResplitKeeps(sp, chunks, depth, maxDepth, text, k, o, i);
      }
    }
  }

  /** Re-splitting keeps every non-whitespace character of every chunk, where that chunk occurs in the text. */
  lemma {:induction false} ResplitKeeps(sp: Splitter, chunks: seq<string>, depth: nat, maxDepth: nat, text: string, k: nat, o: nat, i: int)
    requires sp.Valid() && depth < maxDepth && AllNonBlank(chunks)
    requires k < |chunks| && OccursAt(text, chunks[k], o) && o <= i < o + |chunks[k]|
    requires !IsSpace(text[i])
    ensures CoveredAt(ResplitAll(sp, chunks, depth, maxDepth), text, i)
    decreases maxDepth - depth, 0, |chunks|
  {
    var n := |chunks|;
    var init := chunks[..n - 1];
    var last := chunks[n - 1];
    AllNonBlankPrefix(chunks, n - 1);
    var tail := if |last| <= sp.chunkSize then [last] else RecursiveChunks(sp, last, depth + 1, maxDepth);
    var front := ResplitAll(sp, init, depth, maxDepth);
    assert ResplitAll(sp, chunks, depth, maxDepth) == front + tail;
    if k < n - 1 {
      assert init[k] == chunks[k];
      ResplitKeeps(sp, init, depth, maxDepth, text, k, o, i);
    } else if |last| <= sp.chunkSize {
      CoveredBy(tail, text, 0, o, i);
    } else {
      RecursiveCovers(sp, last, depth + 1, maxDepth);
      assert last[i - o] == text[i];
      CoveredWithin(tail, last, text, o, i);
    }
    CoveredAppend(front, tail, text, i);
  }

  /** The first useful separator from the `k`-th on, or `|SEPARATORS|` when there is none. */
  function FirstUseful(sp: Splitter, text: string, k: nat): (j: nat)
    requires sp.Valid() && k <= |SEPARATORS|
    decreases |SEPARATORS| - k
    ensures k <= j <= |SEPARATORS|
  {
    if k == |SEPARATORS| then k
    else if Useful(sp, text, k) then k
    else FirstUseful(sp, text, k + 1)
  }

  /** `FirstUseful`, when it names a separator, names a useful one. */
  lemma {:induction false} FirstUsefulIsUseful(sp: Splitter, text: string, k: nat)
    requires sp.Valid() && k <= |SEPARATORS| && FirstUseful(sp, text, k) < |SEPARATORS|
    ensures Useful(sp, text, FirstUseful(sp, text, k))
    decreases |SEPARATORS| - k
  {
    if !Useful(sp, text, k) {
      FirstUsefulIsUseful(sp, text, k + 1);
    }
  }

  /** A first useful separator, described by quantifiers, is the one `FirstUseful` finds. */
  lemma {:induction false} FirstUsefulIs(sp: Splitter, text: string, k: nat, j: nat)
    requires sp.Valid() && k <= j <= |SEPARATORS|
    requires j < |SEPARATORS| ==> Useful(sp, text, j)
    requires forall i :: k <= i < j ==> !Useful(sp, text, i)
    ensures FirstUseful(sp, text, k) == j
    decreases j - k
  {
    if k < j {
      FirstUsefulIs(sp, text, k + 1, j);
    }
  }

  /**
    `_recursive_split` on an over-long text below the depth cap uses the
    first separator that occurs in it and brings every chunk under 90% of
    its length, re-splitting that separator's over-long chunks one level
    deeper.
   */
  lemma SeparatorChoice(sp: Splitter, text: string, depth: nat, maxDepth: nat, j: nat)
    requires sp.Valid() && depth < maxDepth && |text| > sp.chunkSize
    requires j < |SEPARATORS| && Useful(sp, text, j)
    requires forall i :: 0 <= i < j ==> !Useful(sp, text, i)
    ensures RecursiveChunks(sp, text, depth, maxDepth)
      == ResplitAll(sp, SeparatorChunks(sp, text, SEPARATORS[j]), depth, maxDepth)
  {
    FirstUsefulIs(sp, text, 0, j);
  }

  /** Chunks that already fit are kept as they are. */
  lemma {:induction false} ResplitShort(sp: Splitter, chunks: seq<string>, depth: nat, maxDepth: nat)
    requires sp.Valid() && depth < maxDepth
    requires AllNonBlank(chunks) && AllFit(chunks, sp.chunkSize)
    ensures ResplitAll(sp, chunks, depth, maxDepth) == chunks
    decreases |chunks|
  {
    if chunks != [] {
      var n := |chunks|;
      ResplitShort(sp, chunks[..n - 1], depth, maxDepth);
      assert chunks[..n - 1] + [chunks[n - 1]] == chunks;
    }
  }

  /**
    Character-level splitting is the last resort: when none of the real
    separators ("\n\n\n" to " ") is useful, the result is exactly
    fixed-length windowing, whether or not "" counts as useful.
   */
  lemma WindowingFallback(sp: Splitter, text: string, depth: nat, maxDepth: nat)
    requires sp.Valid() && depth < maxDepth && |text| > sp.chunkSize
    requires forall j :: 0 <= j < |SEPARATORS| - 1 ==> !Useful(sp, text, j)
    ensures RecursiveChunks(sp, text, depth, maxDepth) == LengthChunks(sp, text)
  {
    if FirstUseful(sp, text, 0) < |SEPARATORS| {
      FirstUsefulIsUseful(sp, text, 0);
      assert FirstUseful(sp, text, 0) == |SEPARATORS| - 1;
      assert SEPARATORS[|SEPARATORS| - 1] == [];
      ResplitShort(sp, LengthChunks(sp, text), depth, maxDepth);
    }
  }

  lemma ResplitNext(sp: Splitter, chunks: seq<string>, j: nat, depth: nat, maxDepth: nat)
    requires sp.Valid() && depth < maxDepth && j < |chunks|
    requires AllNonBlank(chunks)
    ensures AllNonBlank(chunks[..j + 1])
    ensures ResplitAll(sp, chunks[..j + 1], depth, maxDepth)
      == ResplitAll(sp, chunks[..j], depth, maxDepth)
        + (if |chunks[j]| <= sp.chunkSize then [chunks[j]] else RecursiveChunks(sp, chunks[j], depth + 1, maxDepth))
  {
    AllNonBlankPrefix(chunks, j + 1);
    assert chunks[..j + 1][..j] == chunks[..j];
  }

  /** `_recursive_split`: the depth cap, the size check, then the loop over the separators. */
  method RecursiveSplit(sp: Splitter, text: string, depth: nat, maxDepth: nat) returns (result: seq<string>)
    requires sp.Valid()
    ensures result == RecursiveChunks(sp, text, depth, maxDepth)
    decreases maxDepth - depth, 2
  {
    if depth >= maxDepth {
      result := SplitByLength(sp, text);
    } else if |text| <= sp.chunkSize {
      result := if IsBlank(text) then [] else [text];
    } else {
      result := SplitOnSeparators(sp, text, depth, maxDepth);
    }
  }

  /**
    The loop over the separators in `_recursive_split`: the first separator
    that occurs in the text and makes progress decides the result.
   */
  method SplitOnSeparators(sp: Splitter, text: string, depth: nat, maxDepth: nat) returns (result: seq<string>)
    requires sp.Valid() && depth < maxDepth
    ensures result == Chosen(sp, text, FirstUseful(sp, text, 0), depth, maxDepth)
    decreases maxDepth - depth, 1
  {
    for k := 0 to |SEPARATORS|
      invariant FirstUseful(sp, text, k) == FirstUseful(sp, text, 0)
    {
      var separator := SEPARATORS[k];
      if Occurs(separator, text) {
        var chunks := SplitBySeparator(sp, text, separator);
        var maxChunkSize := if chunks != [] then MaxLength(chunks) else |text|;
        if 10 * maxChunkSize >= 9 * |text| {
          continue;
        }
        result := ResplitChunks(sp, chunks, depth, maxDepth);
        return;
      }
    }
    result := SplitByLength(sp, text);
  }

  /** The inner loop of `_recursive_split`: keep each chunk that fits, split the others one level deeper. */
  method ResplitChunks(sp: Splitter, chunks: seq<string>, depth: nat, maxDepth: nat) returns (finalChunks: seq<string>)
    requires sp.Valid() && depth < maxDepth && AllNonBlank(chunks)
    ensures finalChunks == ResplitAll(sp, chunks, depth, maxDepth)
    decreases maxDepth - depth, 0
  {
    finalChunks := [];
    for j := 0 to |chunks|
      invariant AllNonBlank(chunks[..j])
      invariant finalChunks == ResplitAll(sp, chunks[..j], depth, maxDepth)
    {
      var chunk := chunks[j];
      ResplitNext(sp, chunks, j, depth, maxDepth);
      if |chunk| <= sp.chunkSize {
        finalChunks := finalChunks + [chunk];
      } else {
        var subChunks := RecursiveSplit(sp, chunk, depth + 1, maxDepth);
        finalChunks := finalChunks + subChunks;
      }
    }
    assert chunks[..|chunks|] == chunks;
  }
}
