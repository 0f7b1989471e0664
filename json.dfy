/** The parsed JSON document that the loader consumes: json-glib's node tree
    (object, array, value and null nodes), with the declared scalar types that
    the loader's type switch distinguishes. */
module Json {

  datatype Option<+T> = None | Some(value: T)

  newtype int32 = x: int | -0x8000_0000 <= x < 0x8000_0000
  newtype int64 = x: int | -0x8000_0000_0000_0000 <= x < 0x8000_0000_0000_0000

  /** The payload of a value node, tagged by its declared GType. `Other`
      stands for any declared type the loader does not recognise. */
  datatype Scalar =
    | Int(i: int32)          // G_TYPE_INT
    | Int64(l: int64)        // G_TYPE_INT64
    | Double(d: real)        // G_TYPE_DOUBLE
    | Float(f: real)         // G_TYPE_FLOAT
    | Boolean(b: bool)       // G_TYPE_BOOLEAN
    | Str(s: string)         // G_TYPE_STRING
    | Other(typeName: string)

  /** A JSON node. An object is its members in document order. */
  datatype Node =
    | Null
    | Value(v: Scalar)
    | Array(elements: seq<Node>)
    | Object(members: seq<(string, Node)>)

  /** The index of the member called `key` (json_object_has_member and
      json_object_get_member); the first one when a name recurs. */
  function Find(ms: seq<(string, Node)>, key: string): (r: Option<nat>)
    ensures r.Some? ==> r.value < |ms| && ms[r.value].0 == key
    ensures r.Some? ==> forall j :: 0 <= j < r.value ==> ms[j].0 != key
    ensures r.None? <==> forall j :: 0 <= j < |ms| ==> ms[j].0 != key
  {
    if ms == [] then None
    else if ms[0].0 == key then Some(0)
    else match Find(ms[1..], key)
      case None => None
      case Some(i) => Some(i + 1)
  }

  /** No value node anywhere in `n` has a declared type the loader's type
      switch does not know; on such a node the loader aborts the process. */
  predicate Supported(n: Node)
    decreases n
  {
    match n
    case Null => true
    case Value(v) => !v.Other?
    case Array(es) => forall i :: 0 <= i < |es| ==> Supported(es[i])
    case Object(ms) => forall i :: 0 <= i < |ms| ==> Supported(ms[i].1)
  }

  /** Every member has a distinct name, as in every json-glib object. */
  predicate UniqueNames(ms: seq<(string, Node)>)
  {
    forall i, j :: 0 <= i < j < |ms| ==> ms[i].0 != ms[j].0
  }
}
