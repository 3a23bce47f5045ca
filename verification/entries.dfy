/**
  The metadata entries the vector store keeps: one JSON-like dictionary per
  stored vector, holding the chunk record's fields.
 */
module Entries {

  /** A metadata value: the JSON shapes the chunk records carry. */
  datatype Value =
    | Null
    | Int(i: int)
    | Num(r: real)
    | Str(s: string)
    | Vec(v: seq<real>)
    | Labels(l: seq<string>)

  /** One metadata dictionary. */
  type Entry = map<string, Value>

  const EMBEDDING: string := "embedding"
  const VECTOR_ID: string := "vector_id"
  const SOURCE_DOCUMENT: string := "source_document"
  const FILE_TYPE: string := "file_type"
  const CHAR_COUNT: string := "char_count"
  const SIMILARITY_SCORE: string := "similarity_score"
  const RANK: string := "rank"

  /** Python truthiness: `None`, zero and empty containers are false. */
  predicate Truthy(v: Value) {
    match v
    case Null => false
    case Int(i) => i != 0
    case Num(r) => r != 0.0
    case Str(s) => s != []
    case Vec(xs) => xs != []
    case Labels(l) => l != []
  }

  /** Lists cannot be dictionary keys or set members (`TypeError: unhashable type`). */
  predicate Hashable(v: Value) {
    !v.Vec? && !v.Labels?
  }

  predicate AllHashable(vs: seq<Value>) {
    forall i :: 0 <= i < |vs| ==> Hashable(vs[i])
  }

  /** `entry.get(key, default)`. */
  function Get(entry: Entry, key: string, default: Value): Value {
    if key in entry then entry[key] else default
  }
}
