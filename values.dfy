/**
  The Python values the collection code passes around: what `json.loads` can return,
  the empty `bytes` body, and the ordered dicts and lists the serialisers build
  (Python `None` is `Null`, an `OrderedDict` or `dict` is `Dict`).
*/
module Values {
  import opened Wrappers
  import Dicts

  newtype byte = x: int | 0 <= x < 256

  datatype Value =
    | Null
    | Bool(b: bool)
    | Num(literal: string)
    | Str(s: string)
    | Bytes(bytes: seq<byte>)
    | List(items: seq<Value>)
    | Dict(fields: seq<(string, Value)>)

  /** What `json.dumps` accepts: every value except `bytes`, at any depth. The `bytes`
      value `b""` is what an empty request body stays, and dumping it raises `TypeError`. */
  predicate Dumpable(v: Value)
  {
    match v
    case Bytes(_) => false
    case List(items) => forall i :: 0 <= i < |items| ==> Dumpable(items[i])
    case Dict(fields) => forall i :: 0 <= i < |fields| ==> Dumpable(fields[i].1)
    case _ => true
  }

  /** The two renderings of a body that the model does not define: Python's `str(value)`
      and `json.dumps(value, indent=4)`; the text `dumps` gives is used only for a
      `Dumpable` value. */
  datatype Codec = Codec(str: Value -> string, dumps: Value -> string)

  /** `obj.get(k)` of a dict value; absent when the key is missing or the value is no dict. */
  function Field(v: Value, k: string): Option<Value>
  {
    if v.Dict? then Dicts.Get(v.fields, k) else None
  }
}
