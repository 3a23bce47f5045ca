/**
  `LegalTextSplitter.split_text`: blank input gives no chunks; otherwise the
  text is cleaned, split recursively, and every non-blank chunk becomes a
  record carrying its stripped text, an id built from the document's file
  name and the chunk's position, the document's metadata, its length and the
  legal section labels found in it. Any exception (here: a missing
  "filename" or "file_type" key) makes the whole call return no chunks.
 */
module Chunking {
  import opened Strings
  import Cleaning
  import opened TextSplitter
  import LegalSections

  /** One chunk dictionary of `split_text`'s result. */
  datatype ChunkRecord = ChunkRecord(
    text: string,
    chunkId: string,
    chunkIndex: nat,
    sourceDocument: string,
    fileType: string,
    charCount: nat,
    legalSections: seq<string>)

  /** The document metadata handed to `split_text`; only two keys are read. */
  type Metadata = map<string, string>

  const FILENAME: string := "filename"
  const FILE_TYPE: string := "file_type"

  /** Both keys that `split_text` reads are present. */
  predicate HasKeys(metadata: Metadata) {
    FILENAME in metadata && FILE_TYPE in metadata
  }

  /** `f"{filename}_chunk_{i}"`. */
  function ChunkId(filename: string, i: nat): string {
    filename + "_chunk_" + Decimal(i)
  }

  /** The record built for the `i`-th chunk. */
  function MakeRecord(chunk: string, i: nat, filename: string, fileType: string): ChunkRecord {
    ChunkRecord(Strip(chunk), ChunkId(filename, i), i, filename, fileType, |chunk|,
                LegalSections.IdentifyLegalSections(chunk))
  }

  /** `MakeRecord` for one document, as a function of the chunk and its position. */
  function Builder(filename: string, fileType: string): (string, nat) -> ChunkRecord {
    (chunk: string, i: nat) => MakeRecord(chunk, i, filename, fileType)
  }

  /**
    The loop over `enumerate(chunks)`: blank chunks are skipped, every other
    chunk is handed with its position to `build`.
   */
  function Collect<R>(chunks: seq<string>, build: (string, nat) -> R): seq<R>
    decreases |chunks|
  {
    if chunks == [] then []
    else
      var i := |chunks| - 1;
      Collect(chunks[..i], build) + (if IsBlank(chunks[i]) then [] else [build(chunks[i], i)])
  }

  /** The positions of the non-blank chunks, in order. */
  function Kept(chunks: seq<string>): seq<nat>
    decreases |chunks|
  {
    if chunks == [] then []
    else
      var i := |chunks| - 1;
      Kept(chunks[..i]) + (if IsBlank(chunks[i]) then [] else [i])
  }

  /** The chunks `split_text` enumerates: none for blank input, else the recursive split of the cleaned text. */
  function Chunks(sp: Splitter, text: string): (chunks: seq<string>)
    requires sp.Valid()
  {
    if IsBlank(text) then [] else RecursiveChunks(sp, Cleaning.CleanText(text), 0, MAX_DEPTH)
  }

  /**
    The result of `split_text`. A missing key raises `KeyError`, either while
    building the first record or in the log line after the loop; the handler
    then returns no chunks.
   */
  function SplitTextResult(sp: Splitter, text: string, metadata: Metadata): seq<ChunkRecord>
    requires sp.Valid()
  {
    if IsBlank(text) || !HasKeys(metadata) then []
    else Collect(Chunks(sp, text), Builder(metadata[FILENAME], metadata[FILE_TYPE]))
  }

  /** `split_text(text, metadata)`. */
  method SplitText(sp: Splitter, text: string, metadata: Metadata) returns (records: seq<ChunkRecord>)
    requires sp.Valid()
    ensures records == SplitTextResult(sp, text, metadata)
  {
    if IsBlank(text) {
      return [];
    }
    var cleaned := Cleaning.CleanText(text);
    var chunks := RecursiveSplit(sp, cleaned, 0, MAX_DEPTH);
    records := [];
    for i := 0 to |chunks|
      invariant HasKeys(metadata) ==> records == Collect(chunks[..i], Builder(metadata[FILENAME], metadata[FILE_TYPE]))
      invariant !HasKeys(metadata) ==> records == []
    {
      assert chunks[..i + 1][..i] == chunks[..i];
      if !IsBlank(chunks[i]) {
        if !HasKeys(metadata) {
          return [];
        }
        var record := MakeRecord(chunks[i], i, metadata[FILENAME], metadata[FILE_TYPE]);
        records := records + [record];
      }
    }
    if !HasKeys(metadata) {
      return [];
    }
    assert chunks[..|chunks|] == chunks;
  }

  /** The collected results are `build` applied to the kept chunks and their positions. */
  lemma {:induction false} CollectKept<R>(chunks: seq<string>, build: (string, nat) -> R)
    ensures var r := Collect(chunks, build);
      var kept := Kept(chunks);
      |r| == |kept| && forall k :: 0 <= k < |r| ==> kept[k] < |chunks| && r[k] == build(chunks[kept[k]], kept[k])
    decreases |chunks|
  {
    if chunks != [] {
      var i := |chunks| - 1;
      CollectKept(chunks[..i], build);
      var kept := Kept(chunks[..i]);
      forall k | 0 <= k < |kept| ensures chunks[..i][kept[k]] == chunks[kept[k]] {
      }
    }
  }

  /**
    The filter keeps exactly the non-blank chunks, in order: every kept
    position holds a non-blank chunk, positions strictly increase, and no
    non-blank chunk is missed.
   */
  lemma {:induction false} KeptSpec(chunks: seq<string>)
    ensures var kept := Kept(chunks);
      (forall k :: 0 <= k < |kept| ==> kept[k] < |chunks| && !IsBlank(chunks[kept[k]]))
      && (forall k, l :: 0 <= k < l < |kept| ==> kept[k] < kept[l])
      && (forall i :: 0 <= i < |chunks| && !IsBlank(chunks[i]) ==> i in kept)
    decreases |chunks|
  {
    if chunks != [] {
      var i := |chunks| - 1;
      var front := chunks[..i];
      KeptSpec(front);
      var kf := Kept(front);
      forall k | 0 <= k < |kf| ensures kf[k] < i && chunks[kf[k]] == front[kf[k]] {
      }
      forall j | 0 <= j < i && !IsBlank(chunks[j]) ensures j in kf {
        assert front[j] == chunks[j];
      }
    }
  }

  /** When no chunk is blank the filter drops nothing: the `k`-th kept position is `k`. */
  lemma {:induction false} KeptAll(chunks: seq<string>)
    requires AllNonBlank(chunks)
    ensures |Kept(chunks)| == |chunks| && forall k :: 0 <= k < |chunks| ==> Kept(chunks)[k] == k
    decreases |chunks|
  {
    if chunks != [] {
      var i := |chunks| - 1;
      AllNonBlankPrefix(chunks, i);
      KeptAll(chunks[..i]);
    }
  }

  /** `t` occurs in `c` at a place that holds every non-whitespace character of `c`. */
  ghost predicate HoldsNonSpace(t: string, c: string) {
    exists a :: OccursAt(c, t, a) && forall p :: 0 <= p < |c| && !IsSpace(c[p]) ==> a <= p < a + |t|
  }

  /** Cutting off blank ends keeps the text: `c[a..a + |r|]` holds every non-whitespace character of `c`. */
  lemma BlankEndsHold(c: string, a: nat, r: string)
    requires a + |r| <= |c| && r == c[a..a + |r|] && IsBlank(c[..a]) && IsBlank(c[a + |r|..])
    ensures HoldsNonSpace(r, c)
  {
    forall j | 0 <= j < a ensures IsSpace(c[j]) {
      assert c[..a][j] == c[j];
    }
    forall j | a + |r| <= j < |c| ensures IsSpace(c[j]) {
      assert c[a + |r|..][j - a - |r|] == c[j];
    }
    assert OccursAt(c, r, a);
  }

  /** Stripping keeps the text: the stripped chunk holds every non-whitespace character of the chunk. */
  lemma StrippedKeeps(c: string)
    ensures HoldsNonSpace(Strip(c), c)
  {
    StripSlice(c);
    BlankEndsHold(c, |c| - |TrimLeft(c)|, Strip(c));
  }

  lemma StrippedAll(chunks: seq<string>, texts: seq<string>)
    requires |texts| == |chunks| && forall k :: 0 <= k < |chunks| ==> texts[k] == Strip(chunks[k])
    ensures forall k :: 0 <= k < |chunks| ==> HoldsNonSpace(texts[k], chunks[k])
  {
    forall k | 0 <= k < |chunks| ensures HoldsNonSpace(texts[k], chunks[k]) {
      StrippedKeeps(chunks[k]);
    }
  }

  /** The `text` field of every record, in order. */
  function Texts(records: seq<ChunkRecord>): (texts: seq<string>)
    ensures |texts| == |records| && forall k :: 0 <= k < |records| ==> texts[k] == records[k].text
  {
    seq(|records|, k requires 0 <= k < |records| => records[k].text)
  }

  /**
    Trimming every chunk keeps the text: a non-whitespace character inside
    an occurrence of a chunk lies inside an occurrence of its trimmed text.
   */
  lemma TrimmedCover(chunks: seq<string>, texts: seq<string>, cleaned: string, i: int)
    requires |texts| == |chunks| && forall k :: 0 <= k < |chunks| ==> HoldsNonSpace(texts[k], chunks[k])
    requires 0 <= i < |cleaned| && CoveredAt(chunks, cleaned, i) && !IsSpace(cleaned[i])
    ensures CoveredAt(texts, cleaned, i)
  {
    var k, o :| 0 <= k < |chunks| && OccursAt(cleaned, chunks[k], o) && o <= i < o + |chunks[k]|;
    var c := chunks[k];
    assert c[i - o] == cleaned[i];
    var a :| OccursAt(c, texts[k], a) && forall p :: 0 <= p < |c| && !IsSpace(c[p]) ==> a <= p < a + |texts[k]|;
    OccursWithin(texts[k], c, cleaned, a, o);
    CoveredBy(texts, cleaned, k, a + o, i);
  }

  /**
    `split_text` loses no text of the cleaned document: with both keys
    present, every non-whitespace character of it lies inside an occurrence
    of some record's text.
   */
  lemma SplitTextCovers(sp: Splitter, text: string, metadata: Metadata)
    requires sp.Valid() && HasKeys(metadata)
    ensures Covers(Texts(SplitTextResult(sp, text, metadata)), Cleaning.CleanText(text))
  {
    var cleaned := Cleaning.CleanText(text);
    Cleaning.CleanTextKeepsText(text);
    if !IsBlank(text) {
      var chunks := Chunks(sp, text);
      var texts := Texts(SplitTextResult(sp, text, metadata));
      RecursiveCovers(sp, cleaned, 0, MAX_DEPTH);
      SplitTextAllKept(sp, text, metadata);
      StrippedAll(chunks, texts);
      forall i | 0 <= i < |cleaned| && !IsSpace(cleaned[i]) ensures CoveredAt(texts, cleaned, i) {
        TrimmedCover(chunks, texts, cleaned, i);
      }
    }
  }

  /** With both keys present every chunk is kept: the `k`-th record's text is the `k`-th chunk stripped. */
  lemma SplitTextAllKept(sp: Splitter, text: string, metadata: Metadata)
    requires sp.Valid() && HasKeys(metadata) && !IsBlank(text)
    ensures var texts := Texts(SplitTextResult(sp, text, metadata));
      var chunks := Chunks(sp, text);
      |texts| == |chunks| && forall k :: 0 <= k < |chunks| ==> texts[k] == Strip(chunks[k])
  {
    var chunks := Chunks(sp, text);
    KeptAll(chunks);
    CollectKept(chunks, Builder(metadata[FILENAME], metadata[FILE_TYPE]));
    forall k | 0 <= k < |chunks| ensures Texts(SplitTextResult(sp, text, metadata))[k] == Strip(chunks[k]) {
      SplitTextAt(sp, text, metadata, k);
    }
  }

  /** Different positions give different chunk ids. */
  lemma ChunkIdsDistinct(filename: string, i: nat, j: nat)
    requires i != j
    ensures ChunkId(filename, i) != ChunkId(filename, j)
  {
    var prefix := filename + "_chunk_";
    if ChunkId(filename, i) == ChunkId(filename, j) {
      assert |Decimal(i)| == |Decimal(j)|;
      assert Decimal(i) == ChunkId(filename, i)[|prefix|..];
      assert Decimal(j) == ChunkId(filename, j)[|prefix|..];
      DecimalInjective(i, j);
    }
  }

  /** `split_text` returns nothing exactly when the text is blank or a metadata key is missing. */
  lemma SplitTextEmpty(sp: Splitter, text: string, metadata: Metadata)
    requires sp.Valid()
    ensures SplitTextResult(sp, text, metadata) == [] <==> IsBlank(text) || !HasKeys(metadata)
  {
    if !IsBlank(text) && HasKeys(metadata) {
      var cleaned := Cleaning.CleanText(text);
      Cleaning.CleanTextKeepsText(text);
      StripSpec(cleaned);
      assert !IsBlank(cleaned) by {
        Cleaning.CleanTextSpec(text);
      }
      RecursiveEmpty(sp, cleaned, 0, MAX_DEPTH);
      KeptAll(Chunks(sp, text));
      CollectKept(Chunks(sp, text), Builder(metadata[FILENAME], metadata[FILE_TYPE]));
    }
  }

  /**
    The text of a chunk that is a non-blank piece of `cleaned`, once
    stripped, is non-empty, no longer than the chunk, free of outer whitespace
    and still a piece of `cleaned`.
   */
  lemma StrippedChunk(c: string, cleaned: string)
    requires SliceOf(c, cleaned) && !IsBlank(c)
    ensures 1 <= |Strip(c)| <= |c|
    ensures !IsSpace(Strip(c)[0]) && !IsSpace(Strip(c)[|Strip(c)| - 1])
    ensures SliceOf(Strip(c), cleaned)
  {
    StripSpec(c);
    var a :| 0 <= a <= a + |Strip(c)| <= |c| && Strip(c) == c[a..a + |Strip(c)|];
    SliceAt(c, a, a + |Strip(c)|);
    SliceOfTransitive(Strip(c), c, cleaned);
  }

  /** The `k`-th record of `split_text` is built from the `k`-th chunk, a non-blank piece of the cleaned text. */
  lemma SplitTextAt(sp: Splitter, text: string, metadata: Metadata, k: nat)
    requires sp.Valid() && k < |SplitTextResult(sp, text, metadata)|
    ensures !IsBlank(text) && HasKeys(metadata) && k < |Chunks(sp, text)|
    ensures SplitTextResult(sp, text, metadata)[k] == MakeRecord(Chunks(sp, text)[k], k, metadata[FILENAME], metadata[FILE_TYPE])
    ensures !IsBlank(Chunks(sp, text)[k]) && |Chunks(sp, text)[k]| <= sp.chunkSize
    ensures SliceOf(Chunks(sp, text)[k], Cleaning.CleanText(text))
  {
    var chunks := Chunks(sp, text);
    KeptAll(chunks);
    CollectKept(chunks, Builder(metadata[FILENAME], metadata[FILE_TYPE]));
    RecursiveSlices(sp, Cleaning.CleanText(text), 0, MAX_DEPTH);
  }

  /**
    Each record of `split_text` carries its position as index, the id built
    from the file name and that position, and the document's metadata.
   */
  lemma SplitTextRecords(sp: Splitter, text: string, metadata: Metadata)
    requires sp.Valid() && HasKeys(metadata)
    ensures var r := SplitTextResult(sp, text, metadata);
      forall k :: 0 <= k < |r| ==>
        r[k].chunkIndex == k
        && r[k].chunkId == ChunkId(metadata[FILENAME], k)
        && r[k].sourceDocument == metadata[FILENAME] && r[k].fileType == metadata[FILE_TYPE]
  {
    var r := SplitTextResult(sp, text, metadata);
    forall k | 0 <= k < |r|
      ensures r[k].chunkIndex == k && r[k].chunkId == ChunkId(metadata[FILENAME], k)
      ensures r[k].sourceDocument == metadata[FILENAME] && r[k].fileType == metadata[FILE_TYPE]
    {
      SplitTextAt(sp, text, metadata, k);
    }
  }

  lemma SplitTextTextAt(sp: Splitter, text: string, metadata: Metadata, k: nat)
    requires sp.Valid() && k < |SplitTextResult(sp, text, metadata)|
    ensures var rec := SplitTextResult(sp, text, metadata)[k];
      1 <= |rec.text| <= rec.charCount <= sp.chunkSize
      && !IsSpace(rec.text[0]) && !IsSpace(rec.text[|rec.text| - 1])
      && SliceOf(rec.text, Cleaning.CleanText(text))
  {
    SplitTextAt(sp, text, metadata, k);
    var c := Chunks(sp, text)[k];
    var rec := SplitTextResult(sp, text, metadata)[k];
    assert rec.text == Strip(c) && rec.charCount == |c|;
    StrippedChunk(c, Cleaning.CleanText(text));
  }

  /**
    The text of each record is its stripped chunk: non-empty, free of outer
    whitespace, no longer than `char_count` (the unstripped chunk's length),
    which is at most `chunk_size`, and a piece of the cleaned text.
   */
  lemma SplitTextTexts(sp: Splitter, text: string, metadata: Metadata)
    requires sp.Valid()
    ensures var r := SplitTextResult(sp, text, metadata);
      forall k :: 0 <= k < |r| ==>
        1 <= |r[k].text| <= r[k].charCount <= sp.chunkSize
        && !IsSpace(r[k].text[0]) && !IsSpace(r[k].text[|r[k].text| - 1])
        && SliceOf(r[k].text, Cleaning.CleanText(text))
  {
    forall k | 0 <= k < |SplitTextResult(sp, text, metadata)| {
      SplitTextTextAt(sp, text, metadata, k);
    }
  }

  /** Chunk ids within one `split_text` result are pairwise distinct. */
  lemma SplitTextIdsUnique(sp: Splitter, text: string, metadata: Metadata)
    requires sp.Valid()
    ensures var r := SplitTextResult(sp, text, metadata);
      forall k, l :: 0 <= k < l < |r| ==> r[k].chunkId != r[l].chunkId
  {
    if HasKeys(metadata) {
      var r := SplitTextResult(sp, text, metadata);
      SplitTextRecords(sp, text, metadata);
      forall k, l | 0 <= k < l < |r| ensures r[k].chunkId != r[l].chunkId {
        ChunkIdsDistinct(metadata[FILENAME], k, l);
      }
    }
  }
}
