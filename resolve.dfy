/** The read path, `RedisStore.prototype.get`: which stored shape is read,
    how a hash is decoded field by field, and the snapshot attached to the
    session it returns. */
module Resolve {
  import opened Js
  import opened Redis

  /** What `get` delivers: a session, "no session" (`fn()`), an error passed
      to the callback, or an exception thrown out of the reply handler,
      which never reaches the callback. */
  datatype Loaded =
    | Found(sess: Json)
    | NoSession
    | Failed(error: Error)
    | Threw(exception: Exception)

  /** The GET fallback is taken on ANY error of HGETALL, whatever
      `setexCompatible` says, and on an empty hash in compatibility mode;
      so after it, HGETALL's reply is never an error. */
  predicate FallsBack(first: Reply, setexCompatible: bool): (b: bool)
    ensures first.ErrorReply? ==> b
    ensures !setexCompatible ==> (b <==> first.ErrorReply?)
    ensures first.Answer? ==> (b <==> setexCompatible && |HashOf(first)| == 0)
  {
    first.ErrorReply? || (|HashOf(first)| == 0 && setexCompatible)
  }

  /** Parses every field of `h`, visiting them in `order`; None as soon as
      one field is not valid JSON. */
  function DecodeAll(c: Codec, order: seq<string>, h: map<string, string>): (r: Option<map<string, Json>>)
    requires forall f :: f in order ==> f in h
    ensures r.Some? <==> forall f :: f in order ==> c.decode(h[f]).Some?
    ensures r.Some? ==> forall f :: f in r.value <==> f in order
    ensures r.Some? ==> forall f :: f in order ==> c.decode(h[f]) == Some(r.value[f])
    decreases |order|
  {
    if order == [] then Some(map[])
    else
      var last := order[|order| - 1];
      match DecodeAll(c, order[..|order| - 1], h)
      case None => None
      case Some(m) =>
        match c.decode(h[last])
        case None => None
        case Some(v) => Some(m[last := v])
  }

  /** The decoded fields `data`, with `data._original` set to the encoding
      of `data` as it stood before that assignment */
  function Annotate(c: Codec, data: Json): (r: Json)
    requires data.Obj?
    ensures r.Obj? && (IsRecord(data) ==> IsRecord(r))
    ensures Prop(r, "_original") == Some(Str(c.encode(data)))
    ensures forall f :: f != "_original" ==> Prop(r, f) == Prop(data, f)
    ensures IsJsonCodec(c) ==> c.decode(r.fields["_original"].s) == Some(data)
  {
    Assign(data, "_original", Str(c.encode(data)))
  }

  /** A non-empty hash: each field parsed, then the snapshot attached.
      Nothing is silently dropped: the session loads exactly when every
      field parses, and one field that fails to parse throws. */
  function FromHash(c: Codec, order: seq<string>, h: map<string, string>): (r: Loaded)
    requires Enumerates(order, h)
    ensures r.Found? <==> forall f :: f in h ==> c.decode(h[f]).Some?
    ensures !r.Found? ==> r == Threw(SyntaxError)
    ensures r.Found? ==> forall f :: f in h && f != "_original" ==> c.decode(h[f]) == Prop(r.sess, f)
  {
    match DecodeAll(c, order, h)
    case None => Threw(SyntaxError)
    case Some(m) => Found(Annotate(c, Obj(order, m)))
  }

  /** A legacy single-blob session gets the empty-string snapshot marker.
      Setting a property on null throws; on a number, string or boolean the
      assignment is silently dropped (the file is not in strict mode). */
  function MarkLegacy(v: Json): (r: Loaded)
    ensures r.Threw? <==> v.Null?
    ensures r.Threw? ==> r.exception == TypeError
    ensures r.Found? || r.Threw?
    ensures v.Obj? ==> r.Found? && Prop(r.sess, "_original") == Some(Str(""))
    ensures v.Obj? ==> forall f :: f != "_original" ==> Prop(r.sess, f) == Prop(v, f)
    ensures IsRecord(v) ==> IsRecord(r.sess)
    ensures !v.Obj? && !v.Null? ==> r == Found(v)
  {
    match v
    case Null => Threw(TypeError)
    case Obj(_, _) => Found(Assign(v, "_original", Str("")))
    case _ => Found(v)
  }

  /** The GET fallback: an error reply is passed on, a missing or empty
      string is "no session", bad JSON is passed on as an error. */
  function FromBlob(c: Codec, second: Reply): (r: Loaded)
    ensures second.ErrorReply? ==> r == Failed(Store(second.error))
    ensures r.NoSession? <==>
      second.Answer? && (!second.value.Text? || second.value.text.None? || second.value.text.value == "")
    ensures r == Failed(Raised(SyntaxError)) <==>
      && second.Answer? && second.value.Text? && second.value.text.Some? && second.value.text.value != ""
      && c.decode(second.value.text.value).None?
    ensures r.Threw? ==> r == Threw(TypeError)
    ensures && second.Answer? && second.value.Text? && second.value.text.Some? && second.value.text.value != ""
            && c.decode(second.value.text.value).Some? ==>
      r == MarkLegacy(c.decode(second.value.text.value).value)
  {
    if second.ErrorReply? then Failed(Store(second.error))
    else if !second.value.Text? || second.value.text.None? || second.value.text.value == "" then NoSession
    else
      match c.decode(second.value.text.value)
      case None => Failed(Raised(SyntaxError))
      case Some(v) => MarkLegacy(v)
  }

  /** The whole of `get`, given the HGETALL reply (with the order it lists
      the fields in) and the reply GET would get */
  function LoadOutcome(c: Codec, setexCompatible: bool, first: Reply, order: seq<string>, second: Reply): (r: Loaded)
    requires Enumerates(order, HashOf(first))
    ensures first.ErrorReply? ==> r == FromBlob(c, second)
    ensures first.Answer? && |HashOf(first)| > 0 ==> r == FromHash(c, order, HashOf(first))
    ensures first.Answer? && |HashOf(first)| == 0 && !setexCompatible ==> r == NoSession
    ensures first.Answer? && |HashOf(first)| == 0 && setexCompatible ==> r == FromBlob(c, second)
    ensures r.Threw? ==> r == Threw(SyntaxError) || r == Threw(TypeError)
  {
    if FallsBack(first, setexCompatible) then FromBlob(c, second)
    else if |HashOf(first)| == 0 then NoSession
    else FromHash(c, order, HashOf(first))
  }

  /** The forEach that replaces each field's text by its parsed value */
  method DecodeFields(c: Codec, order: seq<string>, h: map<string, string>) returns (r: Option<map<string, Json>>)
    requires forall f :: f in order ==> f in h
    ensures r == DecodeAll(c, order, h)
  {
    var data: map<string, Json> := map[];
    for i := 0 to |order|
      invariant DecodeAll(c, order[..i], h) == Some(data)
    {
      var key := order[i];
      assert order[..i + 1][..i] == order[..i];
      match c.decode(h[key]) {
        case None =>
          return None;
        case Some(v) =>
          data := data[key := v];
      }
    }
    assert order[..|order|] == order;
    r := Some(data);
  }

  /** A loaded hash session holds every stored field (but `_original`)
      decoded, and its snapshot is the encoding of exactly the decoded
      fields in the order they were read: parsing it gives them back. */
  lemma LoadedFromHash(c: Codec, order: seq<string>, h: map<string, string>)
    requires IsJsonCodec(c)
    requires Enumerates(order, h)
    requires FromHash(c, order, h).Found?
    ensures var o := FromHash(c, order, h).sess;
      && IsRecord(o)
      && (forall f :: f in o.fields <==> f in h || f == "_original")
      && (forall f :: f in h && f != "_original" ==> c.decode(h[f]) == Prop(o, f))
      && o.fields["_original"].Str?
      && c.decode(o.fields["_original"].s) == Some(Obj(order, DecodeAll(c, order, h).value))
  {
    var m := DecodeAll(c, order, h).value;
    assert IsRecord(Obj(order, m));
  }

  /** A hash written from a record (each own key to the encoding of its
      value) loads back as that record with a snapshot added */
  lemma RecordHashLoads(c: Codec, sess: Json, h: map<string, string>, order: seq<string>)
    requires IsJsonCodec(c) && IsRecord(sess)
    requires forall f :: f in h <==> f in sess.fields
    requires forall f :: f in h ==> h[f] == c.encode(sess.fields[f])
    requires Enumerates(order, h)
    ensures var l := FromHash(c, order, h);
      && l.Found? && IsRecord(l.sess)
      && (forall f :: f in l.sess.fields <==> f in sess.fields || f == "_original")
      && (forall f :: f != "_original" ==> Prop(l.sess, f) == Prop(sess, f))
  {
    RecordFieldsDecode(c, sess, h, order);
    var m := DecodeAll(c, order, h).value;
    assert IsRecord(Obj(order, m));
  }

  /** Each field of such a hash parses back to the record's value */
  lemma RecordFieldsDecode(c: Codec, sess: Json, h: map<string, string>, order: seq<string>)
    requires IsJsonCodec(c) && sess.Obj?
    requires forall f :: f in h <==> f in sess.fields
    requires forall f :: f in h ==> h[f] == c.encode(sess.fields[f])
    requires Enumerates(order, h)
    ensures DecodeAll(c, order, h).Some?
    ensures forall f :: f in DecodeAll(c, order, h).value ==> DecodeAll(c, order, h).value[f] == sess.fields[f]
  {
    forall f | f in h ensures c.decode(h[f]) == Some(sess.fields[f]) {
      assert h[f] == c.encode(sess.fields[f]);
    }
  }

  /** A legacy blob holding an encoded object loads as that object with the
      empty-string snapshot marker */
  lemma LegacyBlobLoads(c: Codec, v: Json)
    requires IsJsonCodec(c)
    requires IsRecord(v)
    ensures var l := FromBlob(c, Answer(Text(Some(c.encode(v)))));
      && l.Found?
      && IsRecord(l.sess)
      && Prop(l.sess, "_original") == Some(Str(""))
      && forall f :: f != "_original" ==> Prop(l.sess, f) == Prop(v, f)
  {
  }
}
