/** The BSON value model the connector manipulates.

    Numbers are unbounded integers (the connector never computes with them), dates are
    milliseconds, an ObjectID is represented by its hexadecimal text, and a regular
    expression is an opaque pattern/options pair. A document is an ordered list of
    (key, value) pairs; key uniqueness is the `Assoc.Unique` invariant. */
module Bson {
  import opened Wrappers
  import Assoc

  datatype BSON =
    | Null
    | Undefined
    | Bool(b: bool)
    | Int(i: int)
    | Str(s: string)
    | ObjectId(hex: string)
    | Date(millis: int)
    | RegularExpression(pattern: string, options: string)
    | Array(elems: seq<BSON>)
    | Document(fields: seq<(string, BSON)>)

  type Doc = seq<(string, BSON)>

  /** `value.documentValue`. */
  function DocumentValue(value: BSON): (r: Option<Doc>)
    ensures r.Some? <==> value.Document?
    ensures r.Some? ==> value == Document(r.value)
  {
    if value.Document? then Some(value.fields) else None
  }

  /** `[String].toBSON()`: an array of strings. */
  function StringArray(xs: seq<string>): (r: BSON)
    ensures r.Array? && |r.elems| == |xs|
    ensures forall i :: 0 <= i < |xs| ==> r.elems[i] == Str(xs[i])
  {
    Array(seq(|xs|, i requires 0 <= i < |xs| => Str(xs[i])))
  }

  /** A one-entry document `[key: value]`. */
  function Single(key: string, value: BSON): (d: Doc)
    ensures Assoc.Keys(d) == [key]
    ensures Assoc.Get(d, key) == Some(value)
  {
    [(key, value)]
  }
}
