# legal-ingest core, modelled in Dafny

This project models the two algorithmic components of the legal-ingest
pipeline and proves properties of them:

- **`LegalTextSplitter`** (`src/text_splitter.py`) cuts a legal document
  into chunks. `_clean_text` normalises whitespace first. `_recursive_split`
  then works down a fixed list of separators (`"\n\n\n"`, `"\n\n"`, `"\n"`,
  `". "`, `", "`, `" "`, `""`). It accepts a separator only when the longest
  piece falls under 90% of the text, and it splits over-long pieces again,
  down to a depth cap of 10. `_split_by_separator` packs the parts into
  chunks and carries a sentence-aligned overlap from `_get_overlap`.
  `_split_by_length` is fixed-length windowing that prefers to cut after
  `". "`. Finally, `split_text` wraps each chunk in a record with its id,
  index, character count and legal-section tags.
- **`FAISSVectorStore`** (`src/vector_store.py`) is a store with three
  fields: `index`, `metadata` and `dimension`.
  - `add_embeddings` filters its input and fixes the dimension on the first
    insert. It refuses a different dimension and stamps each new metadata
    entry with `vector_id`.
  - `search` turns the FAISS hits into ranked copies of the metadata.
  - `get_stats` and `list_documents` aggregate the metadata.
  - `clear_all` resets the store.

Files:

| file | module | models |
|---|---|---|
| `wrappers.dfy` | `Wrappers` | `Option` |
| `strings.dfy` | `Strings` | `str.isspace`, `strip`, `find`, `rfind`, `''.join`, `str(n)` |
| `cleaning.dfy` | `Cleaning` | `_clean_text` (the four `re.sub` passes and `strip`) |
| `splitter.dfy` | `TextSplitter` | configuration, `_get_overlap`, `_split_by_length`, `_split_by_separator`, `_recursive_split` |
| `legal.dfy` | `LegalSections` | the seven legal patterns and `_identify_legal_sections` |
| `chunking.dfy` | `Chunking` | `split_text` and its chunk records |
| `tally.dfy` | `Tally` | grouping with a `dict` filled in a loop: distinct keys in first-seen order, counts |
| `entries.dfy` | `Entries` | metadata values and entries, Python truthiness and hashability |
| `aggregates.dfy` | `Aggregates` | `get_stats` and `list_documents` as functions of the metadata |
| `vectorstore.dfy` | `VectorStore` | the store state, `add_embeddings`, `search`, `clear_all`, and the `Store` class |

The splitter's loops (`_split_by_length`, `_split_by_separator`, the two
loops of `_recursive_split`, the loop of `split_text`) are methods. Each
method is proved equal to a recursive specification function, and the
properties are lemmas about those functions. The store is a class with the
three fields. Each of its methods is proved against a function of the old
state: `AddResult`, `SearchResult`, `StatsOf` or `DocumentsOf`. The FAISS
index is kept as the sequence of its stored vectors. `index.search` is an
oracle: its `(distance, idx)` pairs are a parameter of `Search`.

## Model

| member | source | states |
|---|---|---|
| `TextSplitter.NewSplitter` | src/text_splitter.py:20-23 | `chunk_size or default` and `chunk_overlap or default`: both `None` and `0` fall back to the defaults 1000 and 200; any other value is kept; non-negative arguments give a valid splitter with a positive overlap |
| `TextSplitter.GetOverlap` | src/text_splitter.py:217-229 | the carried overlap is always a suffix of the chunk |
| `TextSplitter.GetOverlapSpec` | src/text_splitter.py:217-229 | a chunk no longer than the overlap is returned whole. Otherwise the result is a suffix of the last `chunk_overlap` characters: exactly what follows their first `". "`, or all of them when they hold no `". "`. It is at most `chunk_overlap` long |
| `TextSplitter.WindowEnd` | src/text_splitter.py:189-206 | a window that is not the last ends after its start and at most `chunk_size` further on |
| `TextSplitter.WindowCutEarly` | src/text_splitter.py:200-206 | when `". "` occurs in the window strictly after `search_start`, the window is cut just after such a `". "`, at or after every other one (the last) |
| `TextSplitter.WindowFull` | src/text_splitter.py:198-206 | without such a `". "`, the window runs the full `chunk_size` |
| `TextSplitter.Windows` | src/text_splitter.py:186-213 | every window lies inside the text, is non-empty and is at most `chunk_size` long; there are windows exactly when `start < len(text)` |
| `TextSplitter.WindowsEnds` | src/text_splitter.py:188-195 | the first window starts at `start` and the last one runs to the end of the text |
| `TextSplitter.WindowsChain` | src/text_splitter.py:188-213 | window starts strictly increase, and each next start is no later than the previous end (no gap) |
| `TextSplitter.WindowsCover` | src/text_splitter.py:186-213 | every position of the text lies in some window |
| `TextSplitter.LengthChunks` | src/text_splitter.py:180-215 | every chunk of `_split_by_length` is non-blank and at most `chunk_size` long |
| `TextSplitter.LengthChunksSpec` | src/text_splitter.py:182-195 | every chunk is a contiguous slice of the text, and the result is `[]` exactly for blank text |
| `TextSplitter.SplitByLength` | src/text_splitter.py:180-215 | the `while` loop returns `LengthChunks` |
| `TextSplitter.SplitOn` | src/text_splitter.py:148 | `text.split(sep)` has at least one part |
| `TextSplitter.SplitOnSpec` | src/text_splitter.py:148 | no part contains the separator, and there is one part exactly when the separator does not occur |
| `TextSplitter.SplitRoundTrip` | src/text_splitter.py:148-161 | putting the separator back before every part but the first and joining gives the text back |
| `TextSplitter.Reprefixed` | src/text_splitter.py:158-161 | the pieces the packing loop sees: part 0 unchanged, every later part preceded by the separator |
| `TextSplitter.Pack` | src/text_splitter.py:155-173 | the closed chunks of the packing loop are all non-blank |
| `TextSplitter.PackSlices` | src/text_splitter.py:155-173 | the chunk being filled is a suffix of the joined pieces, and every closed chunk is a slice of them |
| `TextSplitter.SeparatorChunks` | src/text_splitter.py:143-178 | `""` gives `_split_by_length`; at most two parts of an over-long text give `[]`; every chunk is non-blank |
| `TextSplitter.SeparatorChunksSlices` | src/text_splitter.py:143-178 | every chunk of `_split_by_separator` is a contiguous slice of the text |
| `TextSplitter.SplitBySeparator` | src/text_splitter.py:143-178 | the packing `for` loop returns `SeparatorChunks` |
| `TextSplitter.MaxLength` | src/text_splitter.py:123 | the result bounds every chunk's length and is reached by one of them |
| `TextSplitter.RecursiveChunks` | src/text_splitter.py:100-141 | every piece of `_recursive_split` is non-blank and at most `chunk_size` long; it terminates on `max_depth - depth` |
| `TextSplitter.Chosen` | src/text_splitter.py:117-141 | the pieces after settling on a separator, or after windowing, are non-blank and fit |
| `TextSplitter.ResplitAll` | src/text_splitter.py:129-138 | the re-split pieces are non-blank and fit |
| `TextSplitter.RecursiveSlices` | src/text_splitter.py:100-141 | every piece is a contiguous slice of the input, so the splitter invents no text |
| `TextSplitter.RecursiveEmpty` | src/text_splitter.py:110-141 | the result is `[]` exactly when the input is blank |
| `TextSplitter.LengthChunksCover` | src/text_splitter.py:180-215 | `_split_by_length` loses no text: every non-whitespace character lies inside the occurrence of some chunk, because the windows leave no gap and only blank windows are dropped |
| `TextSplitter.PackCovers` | src/text_splitter.py:155-173 | every non-whitespace character packed so far lies inside the occurrence of a closed chunk, unless it lies in the chunk still being filled (the suffix of that length) |
| `TextSplitter.SeparatorChunksCover` | src/text_splitter.py:143-178 | unless it refuses an over-long text of at most two parts, `_split_by_separator` loses no text: every non-whitespace character lies inside the occurrence of some chunk |
| `TextSplitter.RecursiveCovers` | src/text_splitter.py:100-141 | `_recursive_split` loses no text: every non-whitespace character of its input lies inside the occurrence of some piece |
| `TextSplitter.FirstUseful` | src/text_splitter.py:118-126 | the index of the first separator that occurs and makes progress lies between the start and the end of the list |
| `TextSplitter.FirstUsefulIsUseful` | src/text_splitter.py:118-126 | the separator it names occurs in the text and its longest chunk is under 90% of the text |
| `TextSplitter.FirstUsefulIs` | src/text_splitter.py:118-126 | a separator that is useful, with none useful before it, is the one chosen |
| `TextSplitter.SeparatorChoice` | src/text_splitter.py:117-138 | below the depth cap, an over-long text is split with the first useful separator, and its over-long chunks are split again one level deeper |
| `TextSplitter.ResplitShort` | src/text_splitter.py:130-132 | chunks that already fit are kept unchanged |
| `TextSplitter.WindowingFallback` | src/text_splitter.py:140-146 | when no real separator is useful, the result is exactly fixed-length windowing |
| `TextSplitter.RecursiveSplit` | src/text_splitter.py:100-141 | the method returns `RecursiveChunks` |
| `TextSplitter.SplitOnSeparators` | src/text_splitter.py:117-141 | the separator loop returns `Chosen` for the first useful separator |
| `TextSplitter.ResplitChunks` | src/text_splitter.py:129-138 | the inner loop returns `ResplitAll` |
| `Strings.StripSpec` | src/text_splitter.py:98 | `s.strip()` is a slice of `s` with blank cut-off ends; it neither starts nor ends with whitespace, and it is empty exactly when `s` is blank |
| `Strings.Find` | src/text_splitter.py:225 | `find` returns -1 or the first index where the pattern occurs |
| `Strings.RFind` | src/text_splitter.py:202 | `rfind(pat, lo)` returns -1 or the last occurrence lying inside `s[lo:]` |
| `Strings.DecimalInjective` | src/text_splitter.py:74 | distinct numbers print differently |
| `Cleaning.CollapseBreaksKeepsText` | src/text_splitter.py:93-94 | the newline-collapsing passes change only whitespace |
| `Cleaning.CollapseBlanksKeepsText` | src/text_splitter.py:95 | collapsing spaces and tabs changes only whitespace |
| `Cleaning.CollapseBlanksClean` | src/text_splitter.py:95 | after that pass no tab is left and no two spaces are adjacent |
| `Cleaning.NormalizeLineEndingsKeepsText` | src/text_splitter.py:96 | rewriting `\r\n` changes only whitespace |
| `Cleaning.CollapseBreaksBound` | src/text_splitter.py:94 | after the paragraph pass no whitespace run holds more than two newlines |
| `Cleaning.CleanTextKeepsText` | src/text_splitter.py:90-98 | `_clean_text` keeps every non-whitespace character in order, and it yields `""` exactly for blank input |
| `Cleaning.CleanTextSpec` | src/text_splitter.py:93-98 | the cleaned text has no tab, no two adjacent spaces, no leading or trailing whitespace, and no three newlines in a row |
| `LegalSections.PatternAtFirstNonSpace` | src/text_splitter.py:38-44 | `kw\s*\d` matches at a keyword exactly when the first non-whitespace character after it is a digit |
| `LegalSections.IdentifyLegalSectionsSpec` | src/text_splitter.py:231-239 | the `i`-th label is reported exactly when its pattern is found somewhere in the text |
| `LegalSections.IdentifyLegalSectionsOrdered` | src/text_splitter.py:231-239 | only declared labels are reported, in declared order, without duplicates |
| `LegalSections.SubsectionImpliesSection` | src/text_splitter.py:38-42 | a chunk tagged `subsection` is always tagged `section` too |
| `Chunking.SplitText` | src/text_splitter.py:47-88 | the record loop returns `SplitTextResult`, and a missing metadata key gives `[]` |
| `Chunking.CollectKept` | src/text_splitter.py:69-81 | the records are built, in order, from the non-blank chunks, each with that chunk's position |
| `Chunking.KeptSpec` | src/text_splitter.py:70-71 | the kept positions are exactly the non-blank chunks, strictly increasing |
| `Chunking.SplitTextEmpty` | src/text_splitter.py:58-88 | `split_text` returns `[]` exactly for blank text or metadata missing `filename` or `file_type` |
| `Chunking.SplitTextRecords` | src/text_splitter.py:70-77 | record `k` has `chunk_index == k`, `chunk_id == f"{filename}_chunk_{k}"`, and the metadata's `source_document` and `file_type` |
| `Chunking.SplitTextTexts` | src/text_splitter.py:71-78 | each record's text is non-empty and has no outer whitespace. Its length is at most `char_count`, which is at most `chunk_size`, and it is a slice of the cleaned text |
| `Chunking.SplitTextIdsUnique` | src/text_splitter.py:74 | chunk ids within one result are pairwise distinct |
| `Chunking.StrippedKeeps` | src/text_splitter.py:73 | `chunk_text.strip()` occurs in the chunk at a place that holds every non-whitespace character of the chunk |
| `Chunking.SplitTextCovers` | src/text_splitter.py:59-81 | with both metadata keys present, every non-whitespace character of the cleaned text lies inside the occurrence of some record's stripped text |
| `Tally.DedupSpec` | src/vector_store.py:205-219 | a dict's keys are distinct, exactly the values seen, and in order of first occurrence |
| `Tally.DedupCard` | src/vector_store.py:176 | the number of distinct keys is `len(set(...))` |
| `Tally.CountsSum` | src/vector_store.py:216 | the per-key counts add up to the number of values |
| `Tally.TalliedStep` | src/vector_store.py:182-184 | one `d[x] = d.get(x, 0) + 1` step turns the tally of `xs` into the tally of `xs + [x]` |
| `Tally.TalliedTotal` | src/vector_store.py:181-185 | the tallied counts add up to the number of values tallied |
| `Aggregates.StatsSpec` | src/vector_store.py:164-191 | `get_stats` fails exactly on an unhashable `source_document` or `file_type`. Otherwise `total_vectors == len(metadata)`, and `unique_documents` is the number of distinct names. The type tally is present exactly when there are entries; it lists each type once in first-seen order, with counts summing to `total_vectors` |
| `Aggregates.SummariesStep` | src/vector_store.py:206-217 | one loop turn of `list_documents` turns the summaries of `m` into those of `m + [e]` |
| `Aggregates.DocumentsEmpty` | src/vector_store.py:200-223 | `list_documents` is `[]` exactly for empty metadata or when the loop raises (an unhashable name or a non-numeric `char_count`) |
| `Aggregates.DocumentsCount` | src/vector_store.py:205-219 | the `chunk_count` values add up to `len(metadata)` |
| `Aggregates.DocumentsNames` | src/vector_store.py:205-219 | each document is listed once, in order of first appearance, and every entry's document is listed |
| `Aggregates.DocumentsFields` | src/vector_store.py:207-217 | each summary has its first entry's `file_type`, its number of entries, and the sum of their `char_count` values |
| `Aggregates.DocumentsMatchStats` | src/vector_store.py:176-207 | when every entry names its document, `list_documents` has `unique_documents` entries |
| `VectorStore.Accepted` | src/vector_store.py:72-78 | only chunks with a truthy `embedding` are accepted |
| `VectorStore.AcceptedParts` | src/vector_store.py:72-78 | the embeddings and the stored metadata are those of the accepted chunks, in input order, minus the `embedding` key |
| `VectorStore.StampedSpec` | src/vector_store.py:101-104 | new entry `i` gets `vector_id == start_id + i` |
| `VectorStore.AddOutcome` | src/vector_store.py:63-116 | `add_embeddings` fails and leaves the state unchanged on empty input, on no embedding, on a non-matrix, or on a dimension mismatch. It succeeds otherwise |
| `VectorStore.AddAppends` | src/vector_store.py:77-104 | on success there is one vector and one entry per accepted chunk, in order; new entry `i` is the chunk minus `embedding` with `vector_id == old_len + i`; earlier entries and vectors are untouched |
| `VectorStore.AddKeepsDimension` | src/vector_store.py:88-95 | once an index exists its `dimension` never changes: the first-insert branch is skipped, and an add of another width is refused by the check of line 94 |
| `VectorStore.AddFixesDimension` | src/vector_store.py:88-91 | the first add into a store without an index sets `dimension` to the incoming vectors' length |
| `VectorStore.AddRejectsMismatch` | src/vector_store.py:94-116 | an incoming vector of another length than the index's gives `False` with no partial insert |
| `VectorStore.AddKeepsValid` | src/vector_store.py:88-99 | every stored vector keeps the store's one dimension |
| `VectorStore.AddKeepsAligned` | src/vector_store.py:98-104 | adding keeps one metadata entry per stored vector |
| `VectorStore.AddKeepsIds` | src/vector_store.py:98-104 | adding keeps every `vector_id` equal to its position |
| `VectorStore.ClearThenAdd` | src/vector_store.py:252-254 | after `clear_all`, an add fixes the dimension again from its own input |
| `VectorStore.RealHitsOrdered` | src/vector_store.py:150-151 | the hits kept name stored entries and keep FAISS order |
| `VectorStore.RealHitsComplete` | src/vector_store.py:150-151 | every hit naming a stored entry is kept |
| `VectorStore.HitResultsSpec` | src/vector_store.py:149-155 | each result is a copy of the entry its hit names, with `similarity_score` set to the distance and `rank` set to FAISS position + 1. Ranks strictly increase, and no real hit is dropped |
| `VectorStore.AsWrittenAgrees` | src/vector_store.py:150-155 | without padding in the hits, the loop as written and the guarded loop agree |
| `VectorStore.PaddingHitDuplicates` | src/vector_store.py:151 | with one stored entry and `k = 2`, the loop as written returns that entry twice (the padding `-1` as rank 2) |
| `VectorStore.SeparateEmbeddings` | src/vector_store.py:69-78 | the filtering loop returns `Embeddings` and `ChunkMetadata` |
| `VectorStore.StampInto` | src/vector_store.py:98-104 | the stamping loop appends `Stamped(chunk_metadata, start_id)` |
| `VectorStore.Store.constructor` | src/vector_store.py:21-51 | the state `_load_existing_index` leaves, including resetting only the index and metadata when the metadata file is unreadable |
| `VectorStore.Store.AddEmbeddings` | src/vector_store.py:53-116 | the result and the new state are `AddResult` of the old state, and the store stays valid |
| `VectorStore.Store.Search` | src/vector_store.py:118-162 | results are `SearchResult`: `[]` without an index, for an empty query or for a query of the wrong length; otherwise the guarded hit loop. The store is not modified |
| `VectorStore.Store.GetStats` | src/vector_store.py:164-191 | the counting loop returns `StatsOf` the metadata |
| `VectorStore.Store.ListDocuments` | src/vector_store.py:193-223 | the grouping loop returns `DocumentsOf` the metadata |
| `VectorStore.Store.ClearAll` | src/vector_store.py:243-268 | all three fields are reset; the result is `False` exactly when removing a file fails |

## Left out

- I/O is not modelled: `faiss.read_index`/`write_index`, the JSON metadata file and `os.remove`. Loading is reduced to its outcome (`IndexFile`, `MetadataFile`), and a failed file removal is the `removalFails` parameter. `_save_index` and `_save_metadata` swallow their own errors, so they cannot change what `add_embeddings` returns.
- FAISS itself is not modelled: L2 distances, float32 conversion and `IndexFlatL2`. `index.search` is an oracle whose hits are a parameter; its `k` lives in how many hits it returns.
- Logging, and the environment variables behind `Config` (the defaults 1000 and 200 are constants), are not modelled.
- `TextSplitter.SearchStart`: `int(chunk_size * 0.7)` is modelled as `(7 * chunk_size) / 10`. The two differ for some sizes because of binary floating point (90 gives 62 in Python), which is not modelled. The 90% test is exact in integers (`10 * max >= 9 * len`).
- `LegalSections`: `(?i)` is modelled as ASCII case-insensitivity and `\d` as the ASCII digits; Unicode case folding and Unicode digits are not modelled.
- `VectorStore.Width`: embeddings that numpy could still convert are treated as a conversion error. This covers numeric strings, or lists of them, given as embeddings.
- Metadata values with Python's cross-type equality are kept distinct (`1 == 1.0 == True`). The same goes for the `int`/`float` distinction of `total_chars`, which is a `real` here.
- The loaded metadata is assumed to be a list of dictionaries. A JSON file holding anything else is not modelled. Neither are boolean and nested-object values inside an entry (`Entries.Value` has no constructor for them): a `true` `char_count` that `list_documents` would sum as 1, or an unhashable dictionary as `source_document`.
- `Chunking.SplitText`: metadata values are strings. `filename` or `file_type` values of other types are not modelled.
- `TextSplitter.Splitter.Valid`: every splitter operation requires `chunk_size >= 1` and `chunk_overlap >= 0`. A negative `chunk_size` or `chunk_overlap`, which the constructor and `int(os.getenv(...))` in `src/config.py` accept, is not modelled; nor is what the source does with it (negative slice bounds in `_split_by_length`, `chunk[-chunk_overlap:]` with a positive index).
- `VectorStore.Search`: uses the guard `0 <= idx < len(metadata)` (see Findings); `SearchAsWritten` keeps the code's own guard.

Where the code and its documentation disagree, the model follows the code:

- `_clean_text`'s first pass does not keep runs of three or more newlines at three. Its own output is reduced to two newlines by the second pass, so the cleaned text never holds three newlines in a row.
- `_recursive_split` re-splits an over-long chunk from the first separator again, not from the next one.
- Exact reassembly does not hold: `split_text` strips every chunk text, and a re-split piece or a window carries no single overlap prefix that could be cut off. What holds is the weaker `RecursiveCovers` / `SplitTextCovers`: no non-whitespace character of the cleaned text is lost, and no chunk holds text that is not in it (`RecursiveSlices`).
- A failure to save the index or metadata does not make `add_embeddings` return `False`.
- `get_stats` counts a missing `source_document` as `''`, while `list_documents` files it under `'unknown'`. `DocumentsMatchStats` therefore assumes that every entry names its document.

## Findings

| source | as written | input that shows it | evidently intended | confidence | as-written member | corrected member |
|---|---|---|---|---|---|---|
| src/vector_store.py:151 | `if idx < len(self.metadata)` lets FAISS's padding index `-1` through, and `self.metadata[-1]` is the last entry | one stored entry `e` and `k = 2`: the hits are `[(d, 0), (pad, -1)]`, and `search` returns `e` twice, with ranks 1 and 2 | `0 <= idx < len(self.metadata)`: padding hits are skipped | not executed | `VectorStore.PaddingHitDuplicates` (on `VectorStore.HitsAsWritten`) | `VectorStore.HitResultsSpec` (on `VectorStore.HitResults`) |
