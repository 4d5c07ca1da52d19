/** JavaScript values as the session store sees them: JSON-shaped data,
    JavaScript truthiness, objects with ordered own keys, and
    JSON.stringify / JSON.parse kept abstract as a codec. */
module Js {

  datatype Option<+T> = None | Some(value: T)

  /** Exceptions the JavaScript runtime raises in the modelled code */
  datatype Exception = TypeError | SyntaxError

  /** A computation that either yields a value or throws */
  datatype Result<+T> = Ok(value: T) | Throw(exception: Exception) {
    predicate IsFailure() { Throw? }
    function PropagateFailure<U>(): Result<U> requires Throw? { Throw(exception) }
    function Extract(): T requires Ok? { value }
  }

  /** A JSON value. Numbers are integers (floating point is not modelled);
      an object lists its own keys in insertion order, which is JavaScript's
      enumeration order for keys that are not array indices. */
  datatype Json =
    | Null
    | Bool(b: bool)
    | Num(n: int)
    | Str(s: string)
    | Arr(items: seq<Json>)
    | Obj(keys: seq<string>, fields: map<string, Json>)

  const EmptyObject: Json := Obj([], map[])

  /** JavaScript truthiness: null, false, 0 and "" are falsy */
  predicate Truthy(v: Json): (b: bool)
    ensures !b <==> v == Null || v == Bool(false) || v == Num(0) || v == Str("")
  {
    match v
    case Null => false
    case Bool(b) => b
    case Num(n) => n != 0
    case Str(s) => s != ""
    case Arr(_) => true
    case Obj(_, _) => true
  }

  /** Truthiness of a property read; `undefined` (None) is falsy */
  predicate Present(p: Option<Json>): (b: bool)
    ensures p.None? ==> !b
    ensures p.Some? ==> (b <==> Truthy(p.value))
  {
    p.Some? && Truthy(p.value)
  }

  predicate Distinct(s: seq<string>) {
    forall i, j :: 0 <= i < j < |s| ==> s[i] != s[j]
  }

  /** An object as JavaScript has it: every own key listed exactly once */
  predicate IsRecord(v: Json) {
    && v.Obj?
    && Distinct(v.keys)
    && (forall k :: k in v.keys ==> k in v.fields)
    && (forall k :: k in v.fields ==> k in v.keys)
  }

  /** Property read `v[k]`; None stands for `undefined`. Only objects carry
      the properties this model reads. */
  function Prop(v: Json, k: string): Option<Json> {
    if v.Obj? && k in v.fields then Some(v.fields[k]) else None
  }

  /** Property write `o[k] = x`: an existing key keeps its place in the
      listing, a new key is listed last (as JavaScript enumerates it when
      it is not an array index, like `_original`). */
  function Assign(o: Json, k: string, x: Json): (r: Json)
    requires o.Obj?
    ensures r.Obj?
    ensures IsRecord(o) ==> IsRecord(r)
    ensures Prop(r, k) == Some(x)
    ensures forall j :: j != k ==> Prop(r, j) == Prop(o, j)
    ensures k in o.keys ==> r.keys == o.keys
    ensures k !in o.keys ==> r.keys == o.keys + [k]
  {
    Obj(if k in o.keys then o.keys else o.keys + [k], o.fields[k := x])
  }

  /** JSON.stringify and JSON.parse. Both are foreign to the model: the
      session store only relies on them through `IsJsonCodec`. */
  datatype Codec = Codec(encode: Json -> string, decode: string -> Option<Json>)

  /** What the store relies on: parsing the text that stringify produced
      gives the value back (stringify, being a function, is deterministic),
      and that text is never empty, hence always truthy. */
  ghost predicate IsJsonCodec(c: Codec) {
    && (forall v :: c.decode(c.encode(v)) == Some(v))
    && (forall v :: c.encode(v) != "")
  }

  /** Two values with the same encoding are equal */
  lemma EncodingDetermines(c: Codec, u: Json, v: Json)
    requires IsJsonCodec(c)
    requires c.encode(u) == c.encode(v)
    ensures u == v
  {
    assert c.decode(c.encode(u)) == Some(u) && c.decode(c.encode(v)) == Some(v);
  }
}
