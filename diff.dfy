/** The write path, `RedisStore.prototype.set`: the ttl it picks, the
    snapshot it parses, the fields it deletes and the fields it writes. */
module Diff {
  import opened Js
  import opened Redis

  /** One day in seconds, the ttl when nothing else gives one */
  const OneDay: int := 86400

  /** `ms / 1000 | 0`: milliseconds to whole seconds, truncated toward zero
      (so -1500 gives -1, where a floor would give -2) */
  function MillisToSeconds(ms: int): (s: int)
    ensures 0 <= ms ==> 0 <= 1000 * s <= ms < 1000 * s + 1000
    ensures ms < 0 ==> 1000 * s - 1000 < ms <= 1000 * s <= 0
  {
    if ms >= 0 then ms / 1000 else -((-ms) / 1000)
  }

  /** `sess.cookie.maxAge`; reading it throws when `sess.cookie` is
      undefined or null. Only an object cookie carries a `maxAge`. */
  function MaxAge(sess: Json): (r: Result<Option<Json>>)
    ensures r.Throw? <==> Prop(sess, "cookie").None? || Prop(sess, "cookie") == Some(Null)
    ensures r.Throw? ==> r.exception == TypeError
    ensures r.Ok? ==> r.value == Prop(Prop(sess, "cookie").value, "maxAge")
    ensures r.Ok? && r.value.Some? ==> Prop(sess, "cookie").value.Obj?
  {
    match Prop(sess, "cookie")
    case None => Throw(TypeError)
    case Some(cookie) => if cookie.Null? then Throw(TypeError) else Ok(Prop(cookie, "maxAge"))
  }

  /** `this.ttl || (typeof maxAge == 'number' ? maxAge / 1000 | 0 : oneDay)`:
      a configured ttl wins when truthy, then a numeric maxAge, then a day */
  function SelectTtl(configured: Option<int>, maxAge: Option<Json>): (t: int)
    ensures configured.Some? && configured.value != 0 ==> t == configured.value
    ensures !(configured.Some? && configured.value != 0) && maxAge.Some? && maxAge.value.Num? ==>
      t == MillisToSeconds(maxAge.value.n)
    ensures !(configured.Some? && configured.value != 0) && !(maxAge.Some? && maxAge.value.Num?) ==>
      t == OneDay
  {
    if configured.Some? && configured.value != 0 then configured.value
    else if maxAge.Some? && maxAge.value.Num? then MillisToSeconds(maxAge.value.n)
    else OneDay
  }

  /** `sess._original ? JSON.parse(sess._original) : {}`. A missing or
      falsy marker gives `{}`. A number or boolean marker is turned into its
      own text and parses back to itself; the text of an object or array
      marker is not JSON, so parsing it throws. */
  function ParseSnapshot(c: Codec, sess: Json): (r: Result<Json>)
    ensures !Present(Prop(sess, "_original")) ==> r == Ok(EmptyObject)
    ensures r.Throw? ==> r.exception == SyntaxError
    ensures var marker := Prop(sess, "_original");
      marker.Some? && marker.value.Str? && marker.value.s != "" ==>
        && (r.Ok? <==> c.decode(marker.value.s).Some?)
        && (r.Ok? ==> c.decode(marker.value.s) == Some(r.value))
    ensures IsJsonCodec(c) ==> forall v :: Prop(sess, "_original") == Some(Str(c.encode(v))) ==> r == Ok(v)
  {
    var marker := Prop(sess, "_original");
    if !Present(marker) then Ok(EmptyObject)
    else
      match marker.value
      case Str(text) =>
        (match c.decode(text)
         case Some(v) => Ok(v)
         case None => Throw(SyntaxError))
      case Num(_) => Ok(marker.value)
      case Bool(_) => Ok(marker.value)
      case _ => Throw(SyntaxError)
  }

  /** `Object.keys(original)`: throws on null; a primitive has no keys */
  function OwnKeys(original: Json): (r: Result<seq<string>>)
    ensures r.Throw? <==> original.Null?
    ensures r.Throw? ==> r.exception == TypeError
    ensures original.Obj? ==> r == Ok(original.keys)
    ensures r.Ok? && |r.value| > 0 ==> original.Obj?
  {
    match original
    case Null => Throw(TypeError)
    case Obj(keys, _) => Ok(keys)
    case _ => Ok([])
  }

  /** `s.indexOf(x)` */
  function IndexOf(s: seq<string>, x: string): (i: int)
    ensures -1 <= i < |s|
    ensures 0 <= i ==> s[i] == x && x !in s[..i]
    ensures i < 0 ==> x !in s
    decreases |s|
  {
    if s == [] then -1
    else if s[0] == x then 0
    else
      var j := IndexOf(s[1..], x);
      if j < 0 then -1 else j + 1
  }

  /** `newKeys`: the session's own keys with `_original` spliced out */
  function WithoutOriginal(keys: seq<string>): (r: seq<string>)
    ensures forall k :: k in r ==> k in keys
    ensures Distinct(keys) ==> Distinct(r) && forall k :: k in r <==> k in keys && k != "_original"
  {
    var i := IndexOf(keys, "_original");
    if i < 0 then keys
    else
      SpliceOut(keys, i);
      keys[..i] + keys[i + 1..]
  }

  /** Removing the one element at `i` from a list of distinct keys */
  lemma SpliceOut(keys: seq<string>, i: nat)
    requires i < |keys|
    ensures var r := keys[..i] + keys[i + 1..];
      && (forall k :: k in r ==> k in keys)
      && (Distinct(keys) ==> Distinct(r) && forall k :: k in r <==> k in keys && k != keys[i])
  {
    var r := keys[..i] + keys[i + 1..];
    assert forall k :: k in r ==> k in keys;
    if Distinct(keys) {
      forall a, b | 0 <= a < b < |r| ensures r[a] != r[b] {
        var a' := if a < i then a else a + 1;
        var b' := if b < i then b else b + 1;
        assert r[a] == keys[a'] && r[b] == keys[b'];
      }
      forall k | k in keys && k != keys[i] ensures k in r {
        var p :| 0 <= p < |keys| && keys[p] == k;
        if p < i { assert r[p] == k; } else { assert r[p - 1] == k; }
      }
      forall p | 0 <= p < |r| ensures r[p] != keys[i] {
        if p < i { assert r[p] == keys[p]; } else { assert r[p] == keys[p + 1]; }
      }
    }
  }

  /** The snapshot fields that are not in `newKeys` (the own keys other
      than `_original`), in snapshot order; so a snapshot's own `_original`
      is always among them */
  function Deletions(origKeys: seq<string>, newKeys: seq<string>): (r: seq<string>)
    ensures |r| <= |origKeys|
    ensures forall i :: 0 <= i < |r| ==> r[i] !in newKeys
    decreases |origKeys|
  {
    if origKeys == [] then []
    else
      var last := origKeys[|origKeys| - 1];
      Deletions(origKeys[..|origKeys| - 1], newKeys) + (if last in newKeys then [] else [last])
  }

  /** A field is deleted iff the snapshot has it and the session does not */
  lemma {:induction false} DeletionsMembers(origKeys: seq<string>, newKeys: seq<string>)
    ensures forall k :: k in Deletions(origKeys, newKeys) <==> k in origKeys && k !in newKeys
    decreases |origKeys|
  {
    if origKeys != [] {
      var prefix := origKeys[..|origKeys| - 1];
      DeletionsMembers(prefix, newKeys);
      assert origKeys == prefix + [origKeys[|origKeys| - 1]];
    }
  }

  /** Nothing is deleted when every snapshot field is still an own key */
  lemma {:induction false} NoDeletions(origKeys: seq<string>, newKeys: seq<string>)
    requires forall k :: k in origKeys ==> k in newKeys
    ensures Deletions(origKeys, newKeys) == []
    decreases |origKeys|
  {
    if origKeys != [] {
      NoDeletions(origKeys[..|origKeys| - 1], newKeys);
    }
  }

  /** `original[key] && JSON.stringify(original[key]) === val`: the field
      is skipped only when its snapshot value is truthy and encodes to the
      current value's encoding */
  predicate Unchanged(c: Codec, original: Json, sess: Json, k: string): (b: bool)
    requires sess.Obj? && k in sess.fields
    ensures b ==> Present(Prop(original, k))
    ensures IsJsonCodec(c) ==> (b <==> Present(Prop(original, k)) && Prop(original, k).value == sess.fields[k])
  {
    Present(Prop(original, k)) && c.encode(Prop(original, k).value) == c.encode(sess.fields[k])
  }

  /** The HMSET map of the diff branch */
  function Updates(c: Codec, original: Json, sess: Json, newKeys: seq<string>): (r: map<string, string>)
    requires sess.Obj? && forall k :: k in newKeys ==> k in sess.fields
    ensures forall k :: k in r ==> k in newKeys
    ensures IsJsonCodec(c) ==> forall k :: k in r ==> c.decode(r[k]) == Some(sess.fields[k])
    ensures IsJsonCodec(c) ==> forall k :: k in newKeys && k !in r ==>
      Prop(original, k) == Some(sess.fields[k]) && Truthy(sess.fields[k])
  {
    map k | k in newKeys && !Unchanged(c, original, sess, k) :: c.encode(sess.fields[k])
  }

  /** The HMSET map of the full-write branch: every own key, `_original`
      included */
  function FullWrite(c: Codec, sess: Json): (r: map<string, string>)
    requires IsRecord(sess)
    ensures forall k :: k in r <==> k in sess.fields
    ensures IsJsonCodec(c) ==> forall k :: k in r ==> c.decode(r[k]) == Some(sess.fields[k])
  {
    map k | k in sess.keys :: c.encode(sess.fields[k])
  }

  /** What one call of `set` decided: its ttl, which branch, and the two
      argument lists it built */
  datatype Save = Save(ttl: int, diff: bool, deletions: seq<string>, hmset: map<string, string>)

  /** Everything `set` computes inside its try block, in the source's order:
      maxAge, the snapshot, its keys, newKeys, the ttl, then the branch. */
  function PlanSave(c: Codec, configured: Option<int>, sess: Json): (r: Result<Save>)
    requires IsRecord(sess)
    ensures r.Throw? <==>
      || MaxAge(sess).Throw? || ParseSnapshot(c, sess).Throw?
      || ParseSnapshot(c, sess).value.Null?
    ensures r.Ok? ==> r.value.ttl == SelectTtl(configured, MaxAge(sess).value)
    ensures r.Ok? ==> (r.value.diff <==> ParseSnapshot(c, sess).value.Obj? && |ParseSnapshot(c, sess).value.keys| > 0)
    ensures r.Ok? && !r.value.diff ==> r.value.deletions == [] && r.value.hmset == FullWrite(c, sess)
    ensures r.Ok? && r.value.diff ==> "_original" !in r.value.hmset
    ensures r.Ok? ==> forall k :: k in r.value.hmset ==> k in sess.fields
  {
    var maxAge :- MaxAge(sess);
    var original :- ParseSnapshot(c, sess);
    var origKeys :- OwnKeys(original);
    var newKeys := WithoutOriginal(sess.keys);
    var ttl := SelectTtl(configured, maxAge);
    if |origKeys| > 0 then
      Ok(Save(ttl, true, Deletions(origKeys, newKeys), Updates(c, original, sess, newKeys)))
    else
      Ok(Save(ttl, false, [], FullWrite(c, sess)))
  }

  /** The plan `set` makes when the snapshot is an object with keys */
  lemma PlanDiff(c: Codec, configured: Option<int>, sess: Json, original: Json)
    requires IsRecord(sess)
    requires MaxAge(sess).Ok? && ParseSnapshot(c, sess) == Ok(original)
    requires original.Obj? && |original.keys| > 0
    ensures var newKeys := WithoutOriginal(sess.keys);
      PlanSave(c, configured, sess)
      == Ok(Save(SelectTtl(configured, MaxAge(sess).value), true,
                 Deletions(original.keys, newKeys), Updates(c, original, sess, newKeys)))
  {
  }

  /** The plan `set` makes when the snapshot has no keys */
  lemma PlanFull(c: Codec, configured: Option<int>, sess: Json, original: Json)
    requires IsRecord(sess)
    requires MaxAge(sess).Ok? && ParseSnapshot(c, sess) == Ok(original)
    requires OwnKeys(original).Ok? && OwnKeys(original).value == []
    ensures PlanSave(c, configured, sess)
      == Ok(Save(SelectTtl(configured, MaxAge(sess).value), false, [], FullWrite(c, sess)))
  {
  }

  /** The commands a plan issues: HDEL only when something is deleted, then
      HMSET (even with nothing to write), then EXPIRE */
  function SaveCommands(key: string, s: Save): (r: seq<Command>)
    ensures |r| == if |s.deletions| > 0 then 3 else 2
    ensures |s.deletions| > 0 ==> r[0] == HDel(key, s.deletions)
    ensures r[|r| - 2] == HMSet(key, s.hmset) && r[|r| - 1] == Expire(key, s.ttl)
    ensures forall i :: 0 <= i < |r| ==> r[i].key == key
  {
    (if |s.deletions| > 0 then [HDel(key, s.deletions)] else [])
    + [HMSet(key, s.hmset), Expire(key, s.ttl)]
  }

  /** The forEach over the snapshot keys that pushes each key missing from
      `newKeys` onto `hdel = [sid]` */
  method CollectDeletions(sid: string, origKeys: seq<string>, newKeys: seq<string>) returns (hdel: seq<string>)
    ensures hdel == [sid] + Deletions(origKeys, newKeys)
  {
    hdel := [sid];
    for i := 0 to |origKeys|
      invariant hdel == [sid] + Deletions(origKeys[..i], newKeys)
    {
      assert origKeys[..i + 1][..i] == origKeys[..i];
      if origKeys[i] !in newKeys {
        hdel := hdel + [origKeys[i]];
      }
    }
    assert origKeys[..|origKeys|] == origKeys;
  }

  /** The forEach over `newKeys` that assigns each changed field's encoding
      into `hmset` */
  method CollectUpdates(c: Codec, original: Json, sess: Json, newKeys: seq<string>) returns (hmset: map<string, string>)
    requires sess.Obj? && forall k :: k in newKeys ==> k in sess.fields
    ensures hmset == Updates(c, original, sess, newKeys)
  {
    hmset := map[];
    for i := 0 to |newKeys|
      invariant hmset == Updates(c, original, sess, newKeys[..i])
    {
      var key := newKeys[i];
      var val := c.encode(sess.fields[key]);
      assert forall k :: k in newKeys[..i + 1] <==> k in newKeys[..i] || k == key;
      if !(Present(Prop(original, key)) && c.encode(Prop(original, key).value) == val) {
        hmset := hmset[key := val];
      }
    }
    assert newKeys[..|newKeys|] == newKeys;
  }

  /** The forEach of the full-write branch over `Object.keys(sess)` */
  method EncodeAll(c: Codec, sess: Json) returns (hmset: map<string, string>)
    requires IsRecord(sess)
    ensures hmset == FullWrite(c, sess)
  {
    hmset := map[];
    for i := 0 to |sess.keys|
      invariant forall k :: k in hmset <==> k in sess.keys[..i]
      invariant forall k :: k in hmset ==> hmset[k] == c.encode(sess.fields[k])
    {
      assert forall k :: k in sess.keys[..i + 1] <==> k in sess.keys[..i] || k == sess.keys[i];
      hmset := hmset[sess.keys[i] := c.encode(sess.fields[sess.keys[i]])];
    }
    assert sess.keys[..|sess.keys|] == sess.keys;
  }

  /** The ttl precedence on concrete inputs */
  lemma TtlPrecedence()
    ensures SelectTtl(Some(60), Some(Num(5000))) == 60
    ensures SelectTtl(Some(0), Some(Num(5000))) == 5
    ensures SelectTtl(None, Some(Num(5000))) == 5
    ensures SelectTtl(None, Some(Num(-1500))) == -1
    ensures SelectTtl(None, Some(Num(999))) == 0
    ensures SelectTtl(None, Some(Str("5000"))) == OneDay
    ensures SelectTtl(None, Some(Null)) == OneDay
    ensures SelectTtl(None, None) == OneDay
  {
  }

  /** Without a usable cookie `set` throws before anything else */
  lemma MissingCookieThrows(c: Codec, configured: Option<int>, sess: Json)
    requires IsRecord(sess)
    requires Prop(sess, "cookie") == None || Prop(sess, "cookie") == Some(Null)
    ensures PlanSave(c, configured, sess) == Throw(TypeError)
  {
  }

  /** The deletion list keeps snapshot order: filtering a concatenation is
      the concatenation of the filtered parts */
  lemma {:induction false} DeletionsAppend(a: seq<string>, b: seq<string>, newKeys: seq<string>)
    ensures Deletions(a + b, newKeys) == Deletions(a, newKeys) + Deletions(b, newKeys)
    decreases |b|
  {
    if b == [] {
      assert a + b == a;
    } else {
      DeletionsAppend(a, b[..|b| - 1], newKeys);
      DeletionsAppendStep(a, b, newKeys);
    }
  }

  /** The inductive step of `DeletionsAppend`: one more element of `b` */
  lemma {:induction false} DeletionsAppendStep(a: seq<string>, b: seq<string>, newKeys: seq<string>)
    requires b != []
    requires Deletions(a + b[..|b| - 1], newKeys) == Deletions(a, newKeys) + Deletions(b[..|b| - 1], newKeys)
    ensures Deletions(a + b, newKeys) == Deletions(a, newKeys) + Deletions(b, newKeys)
  {
    var b', last := b[..|b| - 1], b[|b| - 1];
    assert b == b' + [last];
    assert a + b == (a + b') + [last];
    DeletionsSnoc(a + b', last, newKeys);
    DeletionsSnoc(b', last, newKeys);
  }

  /** Filtering a list with one more element at its end */
  lemma {:induction false} DeletionsSnoc(s: seq<string>, x: string, newKeys: seq<string>)
    ensures Deletions(s + [x], newKeys) == Deletions(s, newKeys) + (if x in newKeys then [] else [x])
  {
    assert (s + [x])[..|s|] == s;
  }

  /** The full-write branch deletes nothing and writes every own key */
  lemma FullBranch(c: Codec, configured: Option<int>, sess: Json)
    requires IsRecord(sess)
    requires PlanSave(c, configured, sess).Ok? && !PlanSave(c, configured, sess).value.diff
    ensures var s := PlanSave(c, configured, sess).value;
      s.deletions == [] && s.hmset == FullWrite(c, sess) && "cookie" in s.hmset
  {
  }

  /** The diff branch is taken only for a snapshot with keys, and then
      exactly: a field is deleted iff the snapshot has it and the session
      lost it, and a field is written iff it is an own key other than
      `_original` whose snapshot value is not both truthy and equal in
      encoding. */
  lemma DiffBranchExactly(c: Codec, configured: Option<int>, sess: Json)
    requires IsRecord(sess)
    requires PlanSave(c, configured, sess).Ok? && PlanSave(c, configured, sess).value.diff
    ensures var s := PlanSave(c, configured, sess).value;
      var original := ParseSnapshot(c, sess).value;
      && original.Obj? && |original.keys| > 0
      && (forall k :: k in s.deletions <==> k in original.keys && (k !in sess.keys || k == "_original"))
      && (forall k :: k in s.hmset <==> k in sess.keys && k != "_original" && !Unchanged(c, original, sess, k))
      && (forall k :: k in s.hmset ==> s.hmset[k] == c.encode(sess.fields[k]))
  {
    var original := ParseSnapshot(c, sess).value;
    DeletionsMembers(original.keys, WithoutOriginal(sess.keys));
  }

  /** Without a snapshot (missing, the legacy `''` marker, or one that
      parses to an object with no keys) nothing is deleted and every own
      key is written, `_original` included */
  lemma FullWriteWithoutSnapshot(c: Codec, configured: Option<int>, sess: Json)
    requires IsRecord(sess)
    requires MaxAge(sess).Ok?
    requires Prop(sess, "_original") == None || Prop(sess, "_original") == Some(Str(""))
             || exists text :: Prop(sess, "_original") == Some(Str(text)) && c.decode(text) == Some(EmptyObject)
    ensures PlanSave(c, configured, sess).Ok?
    ensures var s := PlanSave(c, configured, sess).value;
      && !s.diff && s.deletions == []
      && (forall k :: k in s.hmset <==> k in sess.keys)
      && (Prop(sess, "_original") == Some(Str("")) ==> s.hmset["_original"] == c.encode(Str("")))
  {
  }

  /** A session equal to its snapshot, all of whose values are truthy,
      deletes nothing and writes nothing */
  lemma UnchangedSessionWritesNothing(c: Codec, original: Json, sess: Json)
    requires IsRecord(sess) && original.Obj?
    requires forall k :: k in original.keys ==> k in sess.keys && k != "_original"
    requires forall k :: k in sess.keys && k != "_original" ==>
      Prop(original, k) == Some(sess.fields[k]) && Truthy(sess.fields[k])
    ensures Deletions(original.keys, WithoutOriginal(sess.keys)) == []
    ensures Updates(c, original, sess, WithoutOriginal(sess.keys)) == map[]
  {
    var newKeys := WithoutOriginal(sess.keys);
    NoDeletions(original.keys, newKeys);
    var u := Updates(c, original, sess, newKeys);
    forall k | k in newKeys ensures Unchanged(c, original, sess, k) {
      assert Prop(original, k) == Some(sess.fields[k]);
    }
    assert forall k :: k !in u;
  }

  /** A falsy snapshot value (0, false, "", null) never counts as unchanged:
      the field is written again even when its value is the same */
  lemma FalsyFieldRewritten(c: Codec, original: Json, sess: Json, k: string)
    requires IsRecord(sess)
    requires k in sess.keys && k != "_original"
    requires Prop(original, k) == Some(sess.fields[k]) && !Truthy(sess.fields[k])
    ensures k in Updates(c, original, sess, WithoutOriginal(sess.keys))
  {
  }

  /** Snapshot {a:"1", b:"2"} and session {a:"1", c:"3"}: b is deleted, only
      c is written */
  lemma SnapshotScenario(c: Codec)
    ensures var original := Obj(["a", "b"], map["a" := Str("1"), "b" := Str("2")]);
      var sess := Obj(["a", "c"], map["a" := Str("1"), "c" := Str("3")]);
      var newKeys := WithoutOriginal(sess.keys);
      && Deletions(original.keys, newKeys) == ["b"]
      && Updates(c, original, sess, newKeys) == map["c" := c.encode(Str("3"))]
  {
    var original := Obj(["a", "b"], map["a" := Str("1"), "b" := Str("2")]);
    var sess := Obj(["a", "c"], map["a" := Str("1"), "c" := Str("3")]);
    assert WithoutOriginal(sess.keys) == ["a", "c"];
    assert ["a", "b"][..1] == ["a"];
    assert Unchanged(c, original, sess, "a");
  }

  /** The diff is sound: when the stored hash `h` is what the snapshot was
      read from, deleting the listed fields and then writing the update map
      leaves a hash with exactly the session's fields (but `_original`),
      each of which parses to the session's value. */
  lemma DiffConverges(c: Codec, order: seq<string>, h: map<string, string>, m: map<string, Json>, sess: Json)
    requires IsJsonCodec(c)
    requires IsRecord(sess)
    requires Enumerates(order, h)
    requires forall f :: f in m <==> f in h
    requires forall f :: f in h ==> c.decode(h[f]) == Some(m[f])
    ensures var newKeys := WithoutOriginal(sess.keys);
      var after := Removed(h, Deletions(order, newKeys)) + Updates(c, Obj(order, m), sess, newKeys);
      && (forall f :: f in after <==> f in sess.fields && f != "_original")
      && (forall f :: f in after ==> c.decode(after[f]) == Some(sess.fields[f]))
  {
    var original := Obj(order, m);
    var newKeys := WithoutOriginal(sess.keys);
    var dels := Deletions(order, newKeys);
    var ups := Updates(c, original, sess, newKeys);
    var after := Removed(h, dels) + ups;
    DeletionsMembers(order, newKeys);
    forall f | f in sess.fields && f != "_original"
      ensures f in after && c.decode(after[f]) == Some(sess.fields[f])
    {
      assert f in newKeys;
      if f !in ups {
        assert Unchanged(c, original, sess, f);
        assert f in m;
        EncodingDetermines(c, m[f], sess.fields[f]);
        assert f !in dels;
      }
    }
    forall f | f in after
      ensures f in sess.fields && f != "_original"
    {
      if f !in ups {
        assert f in h && f !in dels;
        assert f in newKeys;
      }
    }
  }
}
