/** JSON values as the strict parser hands them to the normaliser and the query engine,
    plus the two foreign steps (the strict parser and the unicode-escape codec) that the
    pipeline calls but does not define. */
module JsonValues {

  /** A decoded JSON value. `Obj` keeps its members in insertion order, as a Python dict
      built by the strict parser does. `Num` carries the text Python's `str()` gives for the
      number: number semantics are opaque here. `Null` is also how the model writes Python's
      `None`, because the source cannot tell the two apart after a parse. */
  datatype Json =
    | Obj(fields: seq<(string, Json)>)
    | Arr(items: seq<Json>)
    | Str(text: string)
    | Num(lexeme: string)
    | Bool(value: bool)
    | Null

  datatype Option<T> = None | Some(value: T)

  /** A call that either returns a value or lets a Python exception escape. */
  datatype Outcome<T> = Returned(value: T) | Raised(reason: string)

  /** What the strict parser does with one text: a value, or an exception with its message. */
  datatype Loaded = Parsed(value: Json) | Rejected(message: string)

  /** The foreign steps the pipeline is proved relative to. `loads` is the strict JSON
      parser; `unicodeEscape` is `encode("utf-8").decode("unicode_escape")`, which is partial
      (`None` when it raises). */
  datatype Foreign = Foreign(loads: string -> Loaded, unicodeEscape: string -> Option<string>)

  /** Number of direct children: members of an object, items of an array, none for a scalar. */
  function Width(v: Json): nat
  {
    match v
    case Obj(fs) => |fs|
    case Arr(items) => |items|
    case _ => 0
  }

  /** The i-th direct child, in iteration order. */
  function Child(v: Json, i: nat): (c: Json)
    requires i < Width(v)
    ensures c < v
    ensures v.Obj? ==> c == v.fields[i].1
    ensures v.Arr? ==> c == v.items[i]
  {
    match v
    case Obj(fs) => assert fs[i] in fs; fs[i].1
    case Arr(items) => items[i]
  }

  predicate IsContainer(v: Json)
  {
    v.Obj? || v.Arr?
  }
}
