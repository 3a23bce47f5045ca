/**
  The read-only aggregations of `FAISSVectorStore` over its metadata list:
  the figures of `get_stats` and the per-document summaries of
  `list_documents`. Both catch every exception and then return an empty
  result; the exceptions that can arise are an unhashable value used as a
  dictionary key or set member, and a `char_count` that cannot be added to
  a number.
 */
module Aggregates {
  import opened Wrappers
  import opened Entries
  import opened Tally

  /** `item.get('source_document', '')` for every entry, as `get_stats` reads it. */
  function SourceKeys(m: seq<Entry>): (ks: seq<Value>)
    ensures |ks| == |m|
  {
    seq(|m|, i requires 0 <= i < |m| => Get(m[i], SOURCE_DOCUMENT, Str("")))
  }

  /** `item.get('file_type', 'unknown')` for every entry. */
  function TypeKeys(m: seq<Entry>): (ks: seq<Value>)
    ensures |ks| == |m|
  {
    seq(|m|, i requires 0 <= i < |m| => Get(m[i], FILE_TYPE, Str("unknown")))
  }

  /** The statistics dictionary of `get_stats`; `documentTypes` is absent for an empty store. */
  datatype Stats = Stats(
    totalVectors: nat,
    dimension: Option<nat>,
    indexExists: bool,
    uniqueDocuments: nat,
    documentTypes: Option<seq<(Value, nat)>>)

  /**
    `get_stats` over the metadata `m`; `None` is the `{}` returned when
    building the set of documents or the type tally raises.
   */
  function StatsOf(m: seq<Entry>, dimension: Option<nat>, indexExists: bool): Option<Stats> {
    if !AllHashable(SourceKeys(m)) || !AllHashable(TypeKeys(m)) then None
    else Some(Stats(|m|, dimension, indexExists, |set k | k in SourceKeys(m)|,
                    if m == [] then None else Some(Tallied(TypeKeys(m)))))
  }

  /**
    What `get_stats` reports: it fails exactly on an unhashable document
    name or file type; otherwise `total_vectors` is the number of entries,
    `unique_documents` the number of distinct document names, and the type
    tally, present exactly when there are entries, lists each file type once
    in first-seen order with counts that add up to `total_vectors`.
   */
  lemma StatsSpec(m: seq<Entry>, dimension: Option<nat>, indexExists: bool)
    ensures StatsOf(m, dimension, indexExists).None? <==> !AllHashable(SourceKeys(m)) || !AllHashable(TypeKeys(m))
    ensures StatsOf(m, dimension, indexExists).Some? ==>
      var s := StatsOf(m, dimension, indexExists).value;
      s.totalVectors == |m| && s.dimension == dimension && s.indexExists == indexExists
      && s.uniqueDocuments == |Dedup(SourceKeys(m))|
      && (s.documentTypes.Some? <==> m != [])
      && (s.documentTypes.Some? ==>
            var t := s.documentTypes.value;
            Total(t) == s.totalVectors
            && |t| == |Dedup(TypeKeys(m))|
            && forall i :: 0 <= i < |t| ==> t[i].0 == Dedup(TypeKeys(m))[i] && t[i].1 == Count(TypeKeys(m), t[i].0))
  {
    DedupCard(SourceKeys(m));
    TalliedTotal(TypeKeys(m));
  }

  /** One entry of `list_documents`' result. */
  datatype DocSummary = DocSummary(filename: Value, fileType: Value, chunkCount: nat, totalChars: real)

  /** `item.get('source_document', 'unknown')`, the grouping key of `list_documents`. */
  function Name(e: Entry): Value {
    Get(e, SOURCE_DOCUMENT, Str("unknown"))
  }

  function NameKeys(m: seq<Entry>): (ks: seq<Value>)
    ensures |ks| == |m|
  {
    seq(|m|, i requires 0 <= i < |m| => Name(m[i]))
  }

  lemma NameKeysAppend(m: seq<Entry>, e: Entry)
    ensures NameKeys(m + [e]) == NameKeys(m) + [Name(e)]
  {
  }

  /** What `total_chars += value` accepts: an integer or a float. */
  function CharValue(v: Value): Option<real> {
    match v
    case Int(i) => Some(i as real)
    case Num(r) => Some(r)
    case _ => None
  }

  /** `item.get('char_count', 0)` as a number, when it is one. */
  function Chars(e: Entry): Option<real> {
    CharValue(Get(e, CHAR_COUNT, Int(0)))
  }

  predicate Summable(m: seq<Entry>) {
    forall i :: 0 <= i < |m| ==> Chars(m[i]).Some?
  }

  /** The `char_count` total of the entries named `name`. */
  function CharTotal(m: seq<Entry>, name: Value): real
    requires Summable(m)
  {
    if m == [] then 0.0
    else
      var e := m[|m| - 1];
      CharTotal(m[..|m| - 1], name) + (if Name(e) == name then Chars(e).value else 0.0)
  }

  /**
    The reference summary of document `name`: the file type of its first
    entry, its number of entries and their `char_count` total.
   */
  function Summary(m: seq<Entry>, name: Value): DocSummary
    requires Summable(m) && name in NameKeys(m)
  {
    DocSummary(name, Get(m[First(NameKeys(m), name)], FILE_TYPE, Str("unknown")),
               Count(NameKeys(m), name), CharTotal(m, name))
  }

  /** One summary per distinct document name, in first-seen order. */
  function Summaries(m: seq<Entry>): (docs: seq<DocSummary>)
    requires Summable(m)
    ensures |docs| == |Dedup(NameKeys(m))|
  {
    var ds := Dedup(NameKeys(m));
    seq(|ds|, i requires 0 <= i < |ds| => Summary(m, ds[i]))
  }

  /** `list_documents` over the metadata `m`: `[]` when it is empty or when the loop raises. */
  function DocumentsOf(m: seq<Entry>): seq<DocSummary> {
    if m == [] || !AllHashable(NameKeys(m)) || !Summable(m) then [] else Summaries(m)
  }

  /** Position of the summary for `name`, or `|docs|` when there is none yet. */
  function DocIndex(docs: seq<DocSummary>, name: Value): (j: nat)
    ensures j <= |docs|
    ensures j < |docs| ==> docs[j].filename == name
    ensures j == |docs| ==> forall i :: 0 <= i < |docs| ==> docs[i].filename != name
  {
    if docs == [] then 0
    else if docs[0].filename == name then 0
    else 1 + DocIndex(docs[1..], name)
  }

  /**
    One pass of the loop body of `list_documents`: create the document's
    summary on first sight, then count the entry and add its `char_count`.
   */
  function Upsert(docs: seq<DocSummary>, e: Entry): seq<DocSummary>
    requires Chars(e).Some?
  {
    var name := Name(e);
    var j := DocIndex(docs, name);
    if j < |docs| then
      docs[j := docs[j].(chunkCount := docs[j].chunkCount + 1, totalChars := docs[j].totalChars + Chars(e).value)]
    else
      docs + [DocSummary(name, Get(e, FILE_TYPE, Str("unknown")), 1, 0.0 + Chars(e).value)]
  }

  lemma SummableAppend(m: seq<Entry>, e: Entry)
    requires Summable(m + [e])
    ensures Summable(m) && Chars(e).Some?
  {
    assert (m + [e])[|m|] == e;
    forall i | 0 <= i < |m| ensures Chars(m[i]).Some? {
      assert (m + [e])[i] == m[i];
    }
  }

  lemma CharTotalAppend(m: seq<Entry>, e: Entry, name: Value)
    requires Summable(m + [e])
    ensures Summable(m) && Chars(e).Some?
    ensures CharTotal(m + [e], name) == CharTotal(m, name) + (if Name(e) == name then Chars(e).value else 0.0)
  {
    SummableAppend(m, e);
    assert (m + [e])[..|m|] == m;
  }

  /** A document already seen keeps its first entry, gains one entry and that entry's characters. */
  lemma SummaryAppend(m: seq<Entry>, e: Entry, name: Value)
    requires Summable(m + [e]) && name in NameKeys(m)
    ensures Summable(m) && name in NameKeys(m + [e])
    ensures Summary(m + [e], name) == DocSummary(name, Summary(m, name).fileType,
      Summary(m, name).chunkCount + (if Name(e) == name then 1 else 0),
      Summary(m, name).totalChars + (if Name(e) == name then Chars(e).value else 0.0))
  {
    SummableAppend(m, e);
    NameKeysAppend(m, e);
    FirstAppend(NameKeys(m), Name(e), name);
    CountAppend(NameKeys(m), Name(e), name);
    CharTotalAppend(m, e, name);
    assert (m + [e])[First(NameKeys(m), name)] == m[First(NameKeys(m), name)];
  }

  lemma SummaryFresh(m: seq<Entry>, e: Entry)
    requires Summable(m + [e]) && Name(e) !in NameKeys(m)
    ensures Summable(m) && Name(e) in NameKeys(m + [e])
    ensures Summary(m + [e], Name(e)) == DocSummary(Name(e), Get(e, FILE_TYPE, Str("unknown")), 1, 0.0 + Chars(e).value)
  {
    var name := Name(e);
    SummableAppend(m, e);
    NameKeysAppend(m, e);
    FirstAppend(NameKeys(m), name, name);
    CountAppend(NameKeys(m), name, name);
    CharTotalAppend(m, e, name);
    assert Count(NameKeys(m), name) == 0;
    assert CharTotal(m, name) == 0.0 by {
      CharTotalAbsent(m, name);
    }
  }

  lemma {:induction false} CharTotalAbsent(m: seq<Entry>, name: Value)
    requires Summable(m) && name !in NameKeys(m)
    ensures CharTotal(m, name) == 0.0
  {
    if m != [] {
      var front := m[..|m| - 1];
      assert m == front + [m[|m| - 1]];
      NameKeysAppend(front, m[|m| - 1]);
      SummableAppend(front, m[|m| - 1]);
      CharTotalAbsent(front, name);
    }
  }

  /** One pass of the loop body turns the summaries of `m` into those of `m + [e]`. */
  lemma SummariesStep(m: seq<Entry>, e: Entry)
    requires Summable(m + [e])
    ensures Summable(m) && Chars(e).Some?
    ensures Summaries(m + [e]) == Upsert(Summaries(m), e)
  {
    SummableAppend(m, e);
    NameKeysAppend(m, e);
    DedupAppend(NameKeys(m), Name(e));
    DedupSpec(NameKeys(m));
    if Name(e) in NameKeys(m) {
      SummariesSeen(m, e);
    } else {
      SummariesFresh(m, e);
    }
  }

  lemma SummariesSeen(m: seq<Entry>, e: Entry)
    requires Summable(m + [e]) && Summable(m) && Chars(e).Some? && Name(e) in Dedup(NameKeys(m))
    requires NameKeys(m + [e]) == NameKeys(m) + [Name(e)]
    requires Dedup(NameKeys(m + [e])) == Dedup(NameKeys(m)) && Distinct(Dedup(NameKeys(m)))
    ensures Summaries(m + [e]) == Upsert(Summaries(m), e)
  {
    var docs := Summaries(m);
    var ds := Dedup(NameKeys(m));
    var name := Name(e);
    var j := DocIndex(docs, name);
    assert j < |docs| by {
      var k :| 0 <= k < |ds| && ds[k] == name;
      assert docs[k].filename == name;
    }
    assert ds[j] == name;
    UpsertFound(docs, e);
    var docs' := Summaries(m + [e]);
    forall i | 0 <= i < |docs| ensures docs'[i] == Upsert(docs, e)[i] {
      SummariesSeenAt(m, e, i);
      if i != j {
        assert ds[i] != ds[j];
      }
    }
  }

  lemma SummariesSeenAt(m: seq<Entry>, e: Entry, i: nat)
    requires Summable(m + [e]) && Summable(m) && Chars(e).Some?
    requires Dedup(NameKeys(m + [e])) == Dedup(NameKeys(m)) && i < |Dedup(NameKeys(m))|
    ensures var d := Summaries(m)[i];
      Summaries(m + [e])[i]
        == if Dedup(NameKeys(m))[i] == Name(e)
           then d.(chunkCount := d.chunkCount + 1, totalChars := d.totalChars + Chars(e).value)
           else d
  {
    SummaryAppend(m, e, Dedup(NameKeys(m))[i]);
  }

  lemma UpsertFound(docs: seq<DocSummary>, e: Entry)
    requires Chars(e).Some? && DocIndex(docs, Name(e)) < |docs|
    ensures var j := DocIndex(docs, Name(e));
      |Upsert(docs, e)| == |docs|
      && Upsert(docs, e)[j] == docs[j].(chunkCount := docs[j].chunkCount + 1, totalChars := docs[j].totalChars + Chars(e).value)
      && forall i :: 0 <= i < |docs| && i != j ==> Upsert(docs, e)[i] == docs[i]
  {
  }

  lemma SummariesFresh(m: seq<Entry>, e: Entry)
    requires Summable(m + [e]) && Summable(m) && Chars(e).Some? && Name(e) !in NameKeys(m)
    requires NameKeys(m + [e]) == NameKeys(m) + [Name(e)]
    requires Dedup(NameKeys(m + [e])) == Dedup(NameKeys(m)) + [Name(e)]
    ensures Summaries(m + [e]) == Upsert(Summaries(m), e)
  {
    var docs := Summaries(m);
    var ds := Dedup(NameKeys(m));
    assert DocIndex(docs, Name(e)) == |docs| by {
      forall i | 0 <= i < |docs| ensures docs[i].filename != Name(e) {
        assert docs[i].filename == ds[i] && ds[i] in NameKeys(m);
      }
    }
    var docs' := Summaries(m + [e]);
    forall i | 0 <= i < |docs'| ensures docs'[i] == Upsert(docs, e)[i] {
      if i < |docs| {
        SummaryAppend(m, e, ds[i]);
      } else {
        SummaryFresh(m, e);
      }
    }
  }

  /** The sum of the chunk counts of a list of summaries. */
  function ChunkTotal(docs: seq<DocSummary>): nat {
    if docs == [] then 0 else ChunkTotal(docs[..|docs| - 1]) + docs[|docs| - 1].chunkCount
  }

  lemma {:induction false} ChunkTotalPrefix(m: seq<Entry>, k: nat)
    requires Summable(m) && k <= |Dedup(NameKeys(m))|
    ensures ChunkTotal(Summaries(m)[..k]) == SumCounts(Dedup(NameKeys(m))[..k], NameKeys(m))
  {
    if k > 0 {
      ChunkTotalPrefix(m, k - 1);
      assert Summaries(m)[..k][..k - 1] == Summaries(m)[..k - 1];
      assert Dedup(NameKeys(m))[..k][..k - 1] == Dedup(NameKeys(m))[..k - 1];
    }
  }

  /** `list_documents` returns `[]` exactly for an empty store or when its loop raises. */
  lemma DocumentsEmpty(m: seq<Entry>)
    ensures DocumentsOf(m) == [] <==> m == [] || !AllHashable(NameKeys(m)) || !Summable(m)
  {
    if m != [] && AllHashable(NameKeys(m)) && Summable(m) {
      assert NameKeys(m)[0] in Dedup(NameKeys(m));
    }
  }

  /** The chunk counts of `list_documents` add up to the number of entries. */
  lemma DocumentsCount(m: seq<Entry>)
    ensures DocumentsOf(m) != [] ==> ChunkTotal(DocumentsOf(m)) == |m|
  {
    if m != [] && AllHashable(NameKeys(m)) && Summable(m) {
      var ds := Dedup(NameKeys(m));
      var docs := Summaries(m);
      ChunkTotalPrefix(m, |ds|);
      assert docs[..|ds|] == docs && ds[..|ds|] == ds;
      CountsSum(NameKeys(m));
    }
  }

  /**
    Each summary of `list_documents` describes its document: the file type
    of its first entry, the number of its entries, and the total of their
    `char_count` values.
   */
  lemma DocumentsFields(m: seq<Entry>, i: nat)
    requires i < |DocumentsOf(m)|
    ensures Summable(m) && DocumentsOf(m)[i].filename in NameKeys(m)
    ensures var d := DocumentsOf(m)[i];
      var f := First(NameKeys(m), d.filename);
      d.fileType == Get(m[f], FILE_TYPE, Str("unknown"))
      && d.chunkCount == Count(NameKeys(m), d.filename)
      && d.totalChars == CharTotal(m, d.filename)
  {
    assert Dedup(NameKeys(m))[i] in Dedup(NameKeys(m));
  }

  /**
    `list_documents` names every document exactly once, in order of first
    appearance.
   */
  lemma DocumentsNames(m: seq<Entry>)
    ensures var docs := DocumentsOf(m);
      (forall i, j :: 0 <= i < j < |docs| ==> docs[i].filename != docs[j].filename)
      && (forall i, j :: 0 <= i < j < |docs| ==> First(NameKeys(m), docs[i].filename) < First(NameKeys(m), docs[j].filename))
    ensures DocumentsOf(m) != [] ==>
      forall k :: 0 <= k < |m| ==> exists i :: 0 <= i < |DocumentsOf(m)| && DocumentsOf(m)[i].filename == Name(m[k])
  {
    if m != [] && AllHashable(NameKeys(m)) && Summable(m) {
      var ds := Dedup(NameKeys(m));
      var docs := Summaries(m);
      DedupSpec(NameKeys(m));
      forall k | 0 <= k < |m| ensures exists i :: 0 <= i < |docs| && docs[i].filename == Name(m[k]) {
        assert NameKeys(m)[k] in ds;
        var i :| 0 <= i < |ds| && ds[i] == NameKeys(m)[k];
        assert docs[i].filename == ds[i];
      }
    }
  }

  /**
    When every entry names its document, `list_documents` has one summary
    per document counted by `get_stats` (the two use different defaults for
    a missing name, `'unknown'` and `''`).
   */
  lemma DocumentsMatchStats(m: seq<Entry>, dimension: Option<nat>, indexExists: bool)
    requires forall k :: 0 <= k < |m| ==> SOURCE_DOCUMENT in m[k]
    requires StatsOf(m, dimension, indexExists).Some? && Summable(m)
    ensures |DocumentsOf(m)| == StatsOf(m, dimension, indexExists).value.uniqueDocuments
  {
    assert NameKeys(m) == SourceKeys(m);
    DedupCard(SourceKeys(m));
  }
}
