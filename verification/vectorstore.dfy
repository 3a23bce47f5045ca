/**
  `FAISSVectorStore`: the FAISS index (kept here as the sequence of its
  stored vectors), the metadata list with one entry per stored vector, and
  the index dimension. FAISS itself is not modelled: `index.search` is an
  oracle whose `(distance, idx)` pairs are a parameter, and reading or
  writing the index and metadata files is reduced to its outcome.
 */
module VectorStore {
  import opened Wrappers
  import opened Entries
  import opened Tally
  import opened Aggregates

  /** The three fields of the store, as a value. */
  datatype StoreState = StoreState(index: Option<seq<seq<real>>>, metadata: seq<Entry>, dimension: Option<nat>)

  /**
    The shape the store keeps: an index has a dimension and only vectors of
    that length, and there is no metadata without an index.
   */
  ghost predicate ValidState(st: StoreState) {
    (st.index.Some? ==> st.dimension.Some? && forall v :: v in st.index.value ==> |v| == st.dimension.value)
    && (st.index.None? ==> st.metadata == [])
  }

  /** Every vector has its metadata entry: one entry per stored vector. */
  predicate Aligned(st: StoreState) {
    st.index.Some? ==> |st.index.value| == |st.metadata|
  }

  /** Every entry's `vector_id` is its position. */
  predicate IdsArePositions(m: seq<Entry>) {
    forall i :: 0 <= i < |m| ==> VECTOR_ID in m[i] && m[i][VECTOR_ID] == Int(i)
  }

  const Empty: StoreState := StoreState(None, [], None)

  // ---------------------------------------------------------------- loading

  /** What `_load_existing_index` finds on disk. */
  datatype MetadataFile = NoMetadataFile | MetadataRead(entries: seq<Entry>) | MetadataUnreadable
  datatype IndexFile = NoIndexFile | IndexUnreadable | IndexRead(vectors: seq<seq<real>>, d: nat, meta: MetadataFile)

  /**
    The state `__init__` leaves: an unreadable metadata file resets the
    index and the metadata but keeps the dimension already read.
   */
  function Loaded(file: IndexFile): StoreState {
    match file
    case NoIndexFile => Empty
    case IndexUnreadable => Empty
    case IndexRead(vectors, d, meta) =>
      match meta
      case NoMetadataFile => StoreState(Some(vectors), [], Some(d))
      case MetadataRead(entries) => StoreState(Some(vectors), entries, Some(d))
      case MetadataUnreadable => StoreState(None, [], Some(d))
  }

  // ---------------------------------------------------------------- add_embeddings

  /** `'embedding' in chunk and chunk['embedding']`. */
  predicate HasEmbedding(chunk: Entry) {
    EMBEDDING in chunk && Truthy(chunk[EMBEDDING])
  }

  /** The chunks that carry an embedding, in input order. */
  function Accepted(chunks: seq<Entry>): (acc: seq<Entry>)
    ensures forall i :: 0 <= i < |acc| ==> HasEmbedding(acc[i])
  {
    if chunks == [] then []
    else
      var c := chunks[|chunks| - 1];
      Accepted(chunks[..|chunks| - 1]) + (if HasEmbedding(c) then [c] else [])
  }

  /** The `embeddings` list built by the first loop. */
  function Embeddings(chunks: seq<Entry>): seq<Value> {
    if chunks == [] then []
    else
      var c := chunks[|chunks| - 1];
      Embeddings(chunks[..|chunks| - 1]) + (if HasEmbedding(c) then [c[EMBEDDING]] else [])
  }

  /** The `chunk_metadata` list built by the first loop: each accepted chunk without its embedding. */
  function ChunkMetadata(chunks: seq<Entry>): seq<Entry> {
    if chunks == [] then []
    else
      var c := chunks[|chunks| - 1];
      ChunkMetadata(chunks[..|chunks| - 1]) + (if HasEmbedding(c) then [c - {EMBEDDING}] else [])
  }

  /** Every value is a list of `d` numbers. */
  predicate Rectangular(embs: seq<Value>, d: nat) {
    forall i :: 0 <= i < |embs| ==> embs[i].Vec? && |embs[i].v| == d
  }

  /**
    `np.array(embeddings).shape[1]`: the common length when every embedding
    is a list of numbers of one length; any other shape raises.
   */
  function Width(embs: seq<Value>): Option<nat> {
    if embs != [] && embs[0].Vec? && Rectangular(embs, |embs[0].v|) then Some(|embs[0].v|) else None
  }

  function Vectors(embs: seq<Value>): (vs: seq<seq<real>>)
    requires forall i :: 0 <= i < |embs| ==> embs[i].Vec?
    ensures |vs| == |embs|
  {
    seq(|embs|, i requires 0 <= i < |embs| => embs[i].v)
  }

  /** The entries the second loop appends: entry `i` gets `vector_id = start + i`. */
  function Stamped(entries: seq<Entry>, start: nat): (r: seq<Entry>)
    ensures |r| == |entries|
  {
    if entries == [] then []
    else
      var i := |entries| - 1;
      Stamped(entries[..i], start) + [entries[i][VECTOR_ID := Int(start + i)]]
  }

  /** The vectors in the index; none without one. */
  function StoredVectors(st: StoreState): seq<seq<real>> {
    if st.index.None? then [] else st.index.value
  }

  /** `add_embeddings`: its return value and the new state. */
  function AddResult(st: StoreState, chunks: seq<Entry>): (bool, StoreState) {
    if chunks == [] then (false, st)
    else
      var embs := Embeddings(chunks);
      if embs == [] then (false, st)
      else match Width(embs)
        case None => (false, st)
        case Some(d) =>
          var dim := if st.index.None? then Some(d) else st.dimension;
          if dim != Some(d) then (false, st)
          else
            (true, StoreState(Some(StoredVectors(st) + Vectors(embs)),
                              st.metadata + Stamped(ChunkMetadata(chunks), |st.metadata|), dim))
  }

  lemma {:induction false} AcceptedParts(chunks: seq<Entry>)
    ensures var acc := Accepted(chunks);
      |Embeddings(chunks)| == |acc| && |ChunkMetadata(chunks)| == |acc|
      && forall i :: 0 <= i < |acc| ==>
           Embeddings(chunks)[i] == acc[i][EMBEDDING] && ChunkMetadata(chunks)[i] == acc[i] - {EMBEDDING}
    decreases |chunks|
  {
    if chunks != [] {
      AcceptedParts(chunks[..|chunks| - 1]);
    }
  }

  lemma {:induction false} StampedSpec(entries: seq<Entry>, start: nat)
    ensures forall i :: 0 <= i < |entries| ==> Stamped(entries, start)[i] == entries[i][VECTOR_ID := Int(start + i)]
    decreases |entries|
  {
    if entries != [] {
      StampedSpec(entries[..|entries| - 1], start);
    }
  }

  /**
    `add_embeddings` fails, leaving the store as it was, on an empty input,
    when no chunk carries an embedding, when the embeddings do not form a
    matrix, and when an existing index has another dimension; otherwise it
    succeeds. There is no partial insert.
   */
  lemma AddOutcome(st: StoreState, chunks: seq<Entry>)
    ensures var (ok, st') := AddResult(st, chunks);
      !ok ==> st' == st
    ensures var (ok, st') := AddResult(st, chunks);
      ok <==> Accepted(chunks) != []
              && exists d :: Width(Embeddings(chunks)) == Some(d) && (st.index.None? || st.dimension == Some(d))
  {
    AcceptedParts(chunks);
    if chunks == [] {
      assert Accepted(chunks) == [];
    }
  }

  /**
    A successful add appends exactly one vector and one entry per accepted
    chunk, in input order: the `i`-th new vector is that chunk's embedding,
    the `i`-th new entry is the chunk without its embedding and with
    `vector_id == old_len + i`; earlier entries and vectors are untouched.
   */
  lemma AddAppends(st: StoreState, chunks: seq<Entry>)
    requires AddResult(st, chunks).0
    ensures var st' := AddResult(st, chunks).1;
      var acc := Accepted(chunks);
      var n := |st.metadata|;
      var old_vectors := StoredVectors(st);
      st'.index.Some? && |st'.index.value| == |old_vectors| + |acc| && |st'.metadata| == n + |acc|
      && st'.index.value[..|old_vectors|] == old_vectors && st'.metadata[..n] == st.metadata
      && forall i :: 0 <= i < |acc| ==>
           acc[i][EMBEDDING] == Vec(st'.index.value[|old_vectors| + i])
           && st'.metadata[n + i] == (acc[i] - {EMBEDDING})[VECTOR_ID := Int(n + i)]
  {
    var embs := Embeddings(chunks);
    AddSuccess(st, chunks);
    AcceptedParts(chunks);
    assert Rectangular(embs, Width(embs).value);
    AppendedVectors(StoredVectors(st), embs);
    AppendedEntries(st.metadata, ChunkMetadata(chunks));
  }

  /** The new state of a successful add. */
  lemma AddSuccess(st: StoreState, chunks: seq<Entry>)
    requires AddResult(st, chunks).0
    ensures Width(Embeddings(chunks)).Some?
    ensures forall i :: 0 <= i < |Embeddings(chunks)| ==> Embeddings(chunks)[i].Vec?
    ensures AddResult(st, chunks).1.index == Some(StoredVectors(st) + Vectors(Embeddings(chunks)))
    ensures AddResult(st, chunks).1.metadata == st.metadata + Stamped(ChunkMetadata(chunks), |st.metadata|)
    ensures AddResult(st, chunks).1.dimension == Width(Embeddings(chunks))
  {
  }

  lemma AppendedVectors(vs: seq<seq<real>>, embs: seq<Value>)
    requires forall i :: 0 <= i < |embs| ==> embs[i].Vec?
    ensures var r := vs + Vectors(embs);
      |r| == |vs| + |embs| && r[..|vs|] == vs
      && forall i :: 0 <= i < |embs| ==> embs[i] == Vec(r[|vs| + i])
  {
    var r := vs + Vectors(embs);
    assert r[..|vs|] == vs;
  }

  lemma AppendedEntries(m: seq<Entry>, cm: seq<Entry>)
    ensures var r := m + Stamped(cm, |m|);
      |r| == |m| + |cm| && r[..|m|] == m
      && forall i :: 0 <= i < |cm| ==> r[|m| + i] == cm[i][VECTOR_ID := Int(|m| + i)]
  {
    var r := m + Stamped(cm, |m|);
    StampedSpec(cm, |m|);
    assert r[..|m|] == m;
  }

  /** The first successful add into a store without an index fixes the dimension to the embeddings' length. */
  lemma AddFixesDimension(st: StoreState, chunks: seq<Entry>)
    requires st.index.None? && AddResult(st, chunks).0
    ensures var acc := Accepted(chunks);
      acc != [] && forall i :: 0 <= i < |acc| ==>
        acc[i][EMBEDDING].Vec? && AddResult(st, chunks).1.dimension == Some(|acc[i][EMBEDDING].v|)
  {
    AcceptedParts(chunks);
  }

  /** Once an index exists its dimension is fixed: no add, successful or not, changes it. */
  lemma AddKeepsDimension(st: StoreState, chunks: seq<Entry>)
    requires st.index.Some?
    ensures AddResult(st, chunks).1.dimension == st.dimension
  {
  }

  /** An add whose embeddings have another length than the existing index's dimension is refused. */
  lemma AddRejectsMismatch(st: StoreState, chunks: seq<Entry>, i: nat)
    requires st.index.Some? && i < |Accepted(chunks)|
    requires !(Accepted(chunks)[i][EMBEDDING].Vec? && st.dimension == Some(|Accepted(chunks)[i][EMBEDDING].v|))
    ensures AddResult(st, chunks) == (false, st)
  {
    AcceptedParts(chunks);
  }

  /** Adding keeps the store's shape: one dimension, and metadata only beside an index. */
  lemma AddKeepsValid(st: StoreState, chunks: seq<Entry>)
    requires ValidState(st)
    ensures ValidState(AddResult(st, chunks).1)
  {
    if AddResult(st, chunks).0 {
      var embs := Embeddings(chunks);
      var d := Width(embs).value;
      var old_vectors := StoredVectors(st);
      VectorsWidth(embs, d);
      AppendWidth(old_vectors, Vectors(embs), d);
    }
  }

  lemma VectorsWidth(embs: seq<Value>, d: nat)
    requires Rectangular(embs, d)
    ensures forall v :: v in Vectors(embs) ==> |v| == d
  {
    forall v | v in Vectors(embs) ensures |v| == d {
      var k :| 0 <= k < |embs| && Vectors(embs)[k] == v;
    }
  }

  lemma AppendWidth(vs: seq<seq<real>>, ws: seq<seq<real>>, d: nat)
    requires forall v :: v in vs ==> |v| == d
    requires forall w :: w in ws ==> |w| == d
    ensures forall u :: u in vs + ws ==> |u| == d
  {
  }

  /** Adding keeps one metadata entry per stored vector. */
  lemma AddKeepsAligned(st: StoreState, chunks: seq<Entry>)
    requires ValidState(st) && Aligned(st)
    ensures Aligned(AddResult(st, chunks).1)
  {
    AcceptedParts(chunks);
  }

  /** Adding keeps every entry's `vector_id` equal to its position. */
  lemma AddKeepsIds(st: StoreState, chunks: seq<Entry>)
    requires IdsArePositions(st.metadata)
    ensures IdsArePositions(AddResult(st, chunks).1.metadata)
  {
    if AddResult(st, chunks).0 {
      var cm := ChunkMetadata(chunks);
      var m' := st.metadata + Stamped(cm, |st.metadata|);
      assert AddResult(st, chunks).1.metadata == m';
      StampedSpec(cm, |st.metadata|);
      forall i | 0 <= i < |m'| ensures VECTOR_ID in m'[i] && m'[i][VECTOR_ID] == Int(i) {
        if i >= |st.metadata| {
          assert m'[i] == Stamped(cm, |st.metadata|)[i - |st.metadata|];
        }
      }
    }
  }

  /** After `clear_all`, an add fixes the dimension again from its own embeddings. */
  lemma ClearThenAdd(chunks: seq<Entry>)
    requires AddResult(Empty, chunks).0
    ensures Width(Embeddings(chunks)).Some?
    ensures AddResult(Empty, chunks).1 == StoreState(Some(Vectors(Embeddings(chunks))),
                                                     Stamped(ChunkMetadata(chunks), 0),
                                                     Width(Embeddings(chunks)))
  {
    var vs := Vectors(Embeddings(chunks));
    var st := Stamped(ChunkMetadata(chunks), 0);
    assert [] + vs == vs;
    assert [] + st == st;
  }

  // ---------------------------------------------------------------- search

  /** The copy of a stored entry that `search` returns for one hit. */
  function Annotated(e: Entry, distance: real, rank: int): Entry {
    e[SIMILARITY_SCORE := Num(distance)][RANK := Int(rank)]
  }

  /** Python's `m[idx]`: negative indices count from the end; out of range raises. */
  function PyIndex(m: seq<Entry>, idx: int): Option<Entry> {
    if 0 <= idx < |m| then Some(m[idx])
    else if -|m| <= idx < 0 then Some(m[|m| + idx])
    else None
  }

  /**
    The result loop of `search` as written: hits with `idx < len(metadata)`
    are kept, so FAISS's padding index -1 selects the last entry; `None`
    stands for the `IndexError` that `idx < -len(metadata)` raises.
   */
  function HitsAsWritten(m: seq<Entry>, hits: seq<(real, int)>): Option<seq<Entry>> {
    if hits == [] then Some([])
    else
      var i := |hits| - 1;
      match HitsAsWritten(m, hits[..i])
      case None => None
      case Some(r) =>
        if hits[i].1 < |m| then
          match PyIndex(m, hits[i].1)
          case None => None
          case Some(e) => Some(r + [Annotated(e, hits[i].0, i + 1)])
        else Some(r)
  }

  /** The result loop with the guard `0 <= idx < len(metadata)`, which skips padding. */
  function HitResults(m: seq<Entry>, hits: seq<(real, int)>): seq<Entry> {
    if hits == [] then []
    else
      var i := |hits| - 1;
      HitResults(m, hits[..i])
        + (if 0 <= hits[i].1 < |m| then [Annotated(m[hits[i].1], hits[i].0, i + 1)] else [])
  }

  /** The positions of the hits that name a stored entry. */
  function RealHits(m: seq<Entry>, hits: seq<(real, int)>): seq<nat> {
    if hits == [] then []
    else
      var i := |hits| - 1;
      RealHits(m, hits[..i]) + (if 0 <= hits[i].1 < |m| then [i] else [])
  }

  /** `search(query)` given the oracle's hits, with padding skipped. */
  function SearchResult(st: StoreState, query: seq<real>, hits: seq<(real, int)>): seq<Entry> {
    if st.index.None? || query == [] || st.dimension != Some(|query|) then []
    else HitResults(st.metadata, hits)
  }

  /** `search(query)` given the oracle's hits, exactly as written. */
  function SearchAsWritten(st: StoreState, query: seq<real>, hits: seq<(real, int)>): seq<Entry> {
    if st.index.None? || query == [] || st.dimension != Some(|query|) then []
    else match HitsAsWritten(st.metadata, hits)
      case None => []
      case Some(r) => r
  }

  /** The hits kept name stored entries and keep FAISS order. */
  lemma {:induction false} RealHitsOrdered(m: seq<Entry>, hits: seq<(real, int)>)
    ensures forall k :: 0 <= k < |RealHits(m, hits)| ==>
              RealHits(m, hits)[k] < |hits| && 0 <= hits[RealHits(m, hits)[k]].1 < |m|
    ensures forall k, l :: 0 <= k < l < |RealHits(m, hits)| ==> RealHits(m, hits)[k] < RealHits(m, hits)[l]
    decreases |hits|
  {
    if hits != [] {
      var i := |hits| - 1;
      var front := hits[..i];
      RealHitsOrdered(m, front);
      var pf := RealHits(m, front);
      assert RealHits(m, hits) == pf + (if 0 <= hits[i].1 < |m| then [i] else []);
      forall k | 0 <= k < |pf| ensures pf[k] < i && hits[pf[k]] == front[pf[k]] {
        assert pf[k] < |front|;
      }
    }
  }

  /** Every hit naming a stored entry is kept. */
  lemma {:induction false} RealHitsComplete(m: seq<Entry>, hits: seq<(real, int)>)
    ensures forall i :: 0 <= i < |hits| && 0 <= hits[i].1 < |m| ==> i in RealHits(m, hits)
    decreases |hits|
  {
    if hits != [] {
      var i := |hits| - 1;
      var front := hits[..i];
      RealHitsComplete(m, front);
      var pf := RealHits(m, front);
      assert RealHits(m, hits) == pf + (if 0 <= hits[i].1 < |m| then [i] else []);
      forall j | 0 <= j < i && 0 <= hits[j].1 < |m| ensures j in pf {
        assert front[j] == hits[j];
      }
    }
  }

  /** The `k`-th result belongs to the `k`-th kept hit. */
  lemma {:induction false} HitResultsAt(m: seq<Entry>, hits: seq<(real, int)>)
    ensures var r := HitResults(m, hits);
      var p := RealHits(m, hits);
      |r| == |p|
      && forall k :: 0 <= k < |r| ==>
           p[k] < |hits| && 0 <= hits[p[k]].1 < |m|
           && r[k] == Annotated(m[hits[p[k]].1], hits[p[k]].0, p[k] + 1)
    decreases |hits|
  {
    if hits != [] {
      var i := |hits| - 1;
      var front := hits[..i];
      HitResultsAt(m, front);
      var pf := RealHits(m, front);
      forall k | 0 <= k < |pf| ensures pf[k] < i && hits[pf[k]] == front[pf[k]] {
      }
    }
  }

  /**
    Each result is a copy of the entry its hit names, carrying the hit's
    distance as `similarity_score` and its FAISS position plus one as `rank`;
    ranks strictly increase; and every hit naming a stored entry yields a
    result.
   */
  lemma HitResultsSpec(m: seq<Entry>, hits: seq<(real, int)>)
    ensures var r := HitResults(m, hits);
      var p := RealHits(m, hits);
      |r| == |p| && |r| <= |hits|
      && (forall k :: 0 <= k < |r| ==>
            p[k] < |hits| && 0 <= hits[p[k]].1 < |m|
            && r[k] == Annotated(m[hits[p[k]].1], hits[p[k]].0, p[k] + 1))
      && (forall k, l :: 0 <= k < l < |r| ==> p[k] < p[l])
      && (forall i :: 0 <= i < |hits| && 0 <= hits[i].1 < |m| ==> i in p)
  {
    RealHitsOrdered(m, hits);
    RealHitsComplete(m, hits);
    HitResultsAt(m, hits);
    RanksBound(RealHits(m, hits), |hits|);
  }

  /** Strictly increasing positions below `n` number at most `n`. */
  lemma {:induction false} RanksBound(p: seq<nat>, n: nat)
    requires forall k :: 0 <= k < |p| ==> p[k] < n
    requires forall k, l :: 0 <= k < l < |p| ==> p[k] < p[l]
    ensures |p| <= n
    decreases |p|
  {
    if p != [] {
      var front := p[..|p| - 1];
      assert forall k :: 0 <= k < |front| ==> front[k] < p[|p| - 1];
      RanksBound(front, p[|p| - 1]);
    }
  }

  /** Without padding in the hits, the code as written and the guarded loop agree. */
  lemma {:induction false} AsWrittenAgrees(m: seq<Entry>, hits: seq<(real, int)>)
    requires forall i :: 0 <= i < |hits| ==> hits[i].1 >= 0
    ensures HitsAsWritten(m, hits) == Some(HitResults(m, hits))
    decreases |hits|
  {
    if hits != [] {
      var i := |hits| - 1;
      AsWrittenAgrees(m, hits[..i]);
      assert hits[i].1 >= 0;
      var r := HitResults(m, hits[..i]);
      assert HitsAsWritten(m, hits[..i]) == Some(r);
      if hits[i].1 < |m| {
        assert PyIndex(m, hits[i].1) == Some(m[hits[i].1]);
        assert HitsAsWritten(m, hits) == Some(r + [Annotated(m[hits[i].1], hits[i].0, i + 1)]);
        assert HitResults(m, hits) == r + [Annotated(m[hits[i].1], hits[i].0, i + 1)];
      } else {
        assert HitResults(m, hits) == r + [];
        assert r + [] == r;
      }
    }
  }

  /**
    A store holding one entry, searched with `k = 2`: FAISS pads the second
    slot with -1, and the code as written returns the single entry twice,
    the padding as a hit of rank 2; the guarded loop returns it once.
   */
  lemma PaddingHitDuplicates(e: Entry, d: real, pad: real)
    ensures HitsAsWritten([e], [(d, 0), (pad, -1)]) == Some([Annotated(e, d, 1), Annotated(e, pad, 2)])
    ensures HitResults([e], [(d, 0), (pad, -1)]) == [Annotated(e, d, 1)]
  {
    var hits := [(d, 0), (pad, -1)];
    assert hits[..1] == [(d, 0)];
    assert [(d, 0)][..0] == [];
    assert HitsAsWritten([e], []) == Some([]);
    assert PyIndex([e], 0) == Some(e);
    assert HitsAsWritten([e], [(d, 0)]) == Some([] + [Annotated(e, d, 1)]);
    assert [] + [Annotated(e, d, 1)] == [Annotated(e, d, 1)];
    assert PyIndex([e], -1) == Some(e);
    assert HitsAsWritten([e], hits) == Some([Annotated(e, d, 1)] + [Annotated(e, pad, 2)]);
    assert [Annotated(e, d, 1)] + [Annotated(e, pad, 2)] == [Annotated(e, d, 1), Annotated(e, pad, 2)];
    assert HitResults([e], [(d, 0)]) == [Annotated(e, d, 1)];
  }

  /** The first loop of `add_embeddings`: the embeddings and the chunks without them. */
  method SeparateEmbeddings(chunks: seq<Entry>) returns (embeddings: seq<Value>, chunkMetadata: seq<Entry>)
    ensures embeddings == Embeddings(chunks) && chunkMetadata == ChunkMetadata(chunks)
  {
    embeddings, chunkMetadata := [], [];
    for i := 0 to |chunks|
      invariant embeddings == Embeddings(chunks[..i])
      invariant chunkMetadata == ChunkMetadata(chunks[..i])
    {
      assert chunks[..i + 1][..i] == chunks[..i];
      var chunk := chunks[i];
      if EMBEDDING in chunk && Truthy(chunk[EMBEDDING]) {
        embeddings := embeddings + [chunk[EMBEDDING]];
        chunkMetadata := chunkMetadata + [chunk - {EMBEDDING}];
      }
    }
    assert chunks[..|chunks|] == chunks;
  }

  /** The second loop of `add_embeddings`: each entry is appended with `vector_id = start_id + i`. */
  method StampInto(metadata: seq<Entry>, chunkMetadata: seq<Entry>) returns (m: seq<Entry>)
    ensures m == metadata + Stamped(chunkMetadata, |metadata|)
  {
    m := metadata;
    var startId := |metadata|;
    for i := 0 to |chunkMetadata|
      invariant m == metadata + Stamped(chunkMetadata[..i], startId)
    {
      assert chunkMetadata[..i + 1][..i] == chunkMetadata[..i];
      m := m + [chunkMetadata[i][VECTOR_ID := Int(startId + i)]];
    }
    assert chunkMetadata[..|chunkMetadata|] == chunkMetadata;
  }

  // ---------------------------------------------------------------- the store

  class Store {
    var index: Option<seq<seq<real>>>
    var metadata: seq<Entry>
    var dimension: Option<nat>

    function State(): StoreState
      reads this
    {
      StoreState(index, metadata, dimension)
    }

    ghost predicate Valid()
      reads this
    {
      ValidState(State())
    }

    /** `__init__`, which runs `_load_existing_index` on what it finds on disk. */
    constructor(file: IndexFile)
      requires file.IndexRead? ==> forall v :: v in file.vectors ==> |v| == file.d
      ensures State() == Loaded(file) && Valid()
    {
      match file {
        case NoIndexFile =>
          index, metadata, dimension := None, [], None;
        case IndexUnreadable =>
          index, metadata, dimension := None, [], None;
        case IndexRead(vectors, d, meta) =>
          match meta {
            case NoMetadataFile =>
              index, metadata, dimension := Some(vectors), [], Some(d);
            case MetadataRead(entries) =>
              index, metadata, dimension := Some(vectors), entries, Some(d);
            case MetadataUnreadable =>
              index, metadata, dimension := None, [], Some(d);
          }
      }
    }

    /**
      `add_embeddings(chunks)`. Saving the index and the metadata swallows
      its own errors, so it cannot change the outcome.
     */
    method AddEmbeddings(chunks: seq<Entry>) returns (ok: bool)
      requires Valid()
      modifies this
      ensures Valid()
      ensures (ok, State()) == AddResult(old(State()), chunks)
    {
      AddKeepsValid(State(), chunks);
      if chunks == [] {
        return false;
      }
      var embeddings, chunkMetadata := SeparateEmbeddings(chunks);
      if embeddings == [] {
        return false;
      }
      var width := Width(embeddings);
      if width.None? {
        return false;
      }
      var d := width.value;
      var vectors := if index.None? then [] else index.value;
      if index.None? {
        dimension := Some(d);
      }
      if dimension != Some(d) {
        return false;
      }
      index := Some(vectors + Vectors(embeddings));
      metadata := StampInto(metadata, chunkMetadata);
      ok := true;
    }

    /** `search(query, k)`, with the oracle's `k` hits; padding hits are skipped. */
    method Search(query: seq<real>, hits: seq<(real, int)>) returns (results: seq<Entry>)
      ensures results == SearchResult(State(), query, hits)
    {
      if index.None? || query == [] || dimension != Some(|query|) {
        return [];
      }
      results := [];
      for i := 0 to |hits|
        invariant results == HitResults(metadata, hits[..i])
      {
        assert hits[..i + 1][..i] == hits[..i];
        var (distance, idx) := hits[i];
        if 0 <= idx < |metadata| {
          var result := Annotated(metadata[idx], distance, i + 1);
          results := results + [result];
        }
      }
      assert hits[..|hits|] == hits;
    }

    /** `get_stats()`; `None` is the `{}` returned on an error. */
    method GetStats() returns (stats: Option<Stats>)
      ensures stats == StatsOf(metadata, dimension, index.Some?)
    {
      if !AllHashable(SourceKeys(metadata)) {
        return None;
      }
      var unique := |set k | k in SourceKeys(metadata)|;
      var documentTypes: Option<seq<(Value, nat)>> := None;
      if metadata != [] {
        var docTypes: seq<(Value, nat)> := [];
        for i := 0 to |metadata|
          invariant AllHashable(TypeKeys(metadata)[..i])
          invariant docTypes == Tallied(TypeKeys(metadata)[..i])
        {
          var fileType := Get(metadata[i], FILE_TYPE, Str("unknown"));
          if !Hashable(fileType) {
            assert TypeKeys(metadata)[i] == fileType;
            return None;
          }
          assert TypeKeys(metadata)[..i + 1] == TypeKeys(metadata)[..i] + [fileType];
          TalliedStep(TypeKeys(metadata)[..i], fileType);
          docTypes := Bump(docTypes, fileType);
        }
        assert TypeKeys(metadata)[..|metadata|] == TypeKeys(metadata);
        documentTypes := Some(docTypes);
      }
      stats := Some(Stats(|metadata|, dimension, index.Some?, unique, documentTypes));
    }

    /** `list_documents()`. */
    method ListDocuments() returns (documents: seq<DocSummary>)
      ensures documents == DocumentsOf(metadata)
    {
      if metadata == [] {
        return [];
      }
      documents := [];
      for i := 0 to |metadata|
        invariant AllHashable(NameKeys(metadata[..i])) && Summable(metadata[..i])
        invariant documents == Summaries(metadata[..i])
      {
        var item := metadata[i];
        assert metadata[..i + 1] == metadata[..i] + [item];
        NameKeysAppend(metadata[..i], item);
        var docName := Name(item);
        if !Hashable(docName) {
          assert NameKeys(metadata)[i] == docName;
          return [];
        }
        if Chars(item).None? {
          assert metadata[i] == item;
          return [];
        }
        SummariesStep(metadata[..i], item);
        documents := Upsert(documents, item);
      }
      assert metadata[..|metadata|] == metadata;
    }

    /**
      `clear_all()`: the fields are reset before the files are removed, so
      a failed removal (`removalFails`) still leaves the store empty.
     */
    method ClearAll(removalFails: bool) returns (ok: bool)
      modifies this
      ensures State() == Empty && Valid()
      ensures ok == !removalFails
    {
      index := None;
      metadata := [];
      dimension := None;
      ok := !removalFails;
    }
  }
}
