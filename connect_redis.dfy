/** `RedisStore`: key naming, and `get`, `set` and `destroy` issuing their
    commands to the server one after another; then what a whole
    load-change-save cycle does to the stored record. */
module ConnectRedis {
  import opened Js
  import opened Redis
  import opened Resolve
  import opened Diff

  /** The constructor's options; None stands for null or undefined */
  datatype Options = Options(prefix: Option<string>, ttl: Option<int>, setexCompatible: bool)

  /** `null == options.prefix ? 'sess:' : options.prefix`: only a null or
      undefined prefix is replaced, so an empty prefix is kept */
  function PrefixOf(p: Option<string>): (r: string)
    ensures p.Some? ==> r == p.value
    ensures p.None? ==> r == "sess:"
  {
    if p.None? then "sess:" else p.value
  }

  /** `this.prefix + sid` */
  function Key(prefix: string, sid: string): (k: string)
    ensures |k| == |prefix| + |sid| && k[..|prefix|] == prefix && k[|prefix|..] == sid
  {
    prefix + sid
  }

  /** Under one prefix, distinct session ids never share a record */
  lemma KeyInjective(prefix: string, sid1: string, sid2: string)
    requires Key(prefix, sid1) == Key(prefix, sid2)
    ensures sid1 == sid2
  {
    assert sid1 == Key(prefix, sid1)[|prefix|..];
  }

  class RedisStore {
    const prefix: string
    const ttl: Option<int>
    const setexCompatible: bool
    const codec: Codec
    const client: Client

    constructor (options: Options, codec: Codec, client: Client)
      ensures prefix == PrefixOf(options.prefix)
      ensures ttl == options.ttl && setexCompatible == options.setexCompatible
      ensures this.codec == codec && this.client == client
    {
      prefix := PrefixOf(options.prefix);
      ttl := options.ttl;
      setexCompatible := options.setexCompatible;
      this.codec := codec;
      this.client := client;
    }

    /** `get`: HGETALL, and GET as well when the fallback is taken; the
        result is the resolved session (the order in which the hash reply
        lists its fields is left open) */
    method Get(sid: string) returns (loaded: Loaded)
      modifies client
      ensures client.db == old(client.db) && client.down == old(client.down)
      ensures var key := Key(prefix, sid);
        var first := Dispatch(old(client.db), client.down, HGetAll(key)).reply;
        var second := Dispatch(old(client.db), client.down, Redis.Get(key)).reply;
        && client.log == old(client.log) + [HGetAll(key)]
                         + (if FallsBack(first, setexCompatible) then [Redis.Get(key)] else [])
        && exists order :: Enumerates(order, HashOf(first))
                           && loaded == LoadOutcome(codec, setexCompatible, first, order, second)
    {
      var key := Key(prefix, sid);
      var first, order := client.HGetAllInOrder(key);
      if FallsBack(first, setexCompatible) {
        var second := client.Send(Redis.Get(key));
        loaded := FromBlob(codec, second);
        assert Enumerates(order, HashOf(first))
               && loaded == LoadOutcome(codec, setexCompatible, first, order, second);
        return;
      }
      // Not falling back, HGETALL answered: the `if (err)` that follows the
      // fallback in the source never sees an error.
      var data := HashOf(first);
      if |data| == 0 {
        loaded := NoSession;
      } else {
        var decoded := DecodeFields(codec, order, data);
        match decoded {
          case None =>
            loaded := Threw(SyntaxError);
          case Some(m) =>
            loaded := Found(Annotate(codec, Obj(order, m)));
        }
      }
      ghost var second := Dispatch(old(client.db), client.down, Redis.Get(key)).reply;
      assert Enumerates(order, HashOf(first))
             && loaded == LoadOutcome(codec, setexCompatible, first, order, second);
    }

    /** `set`: when the try block throws, the exception goes to the callback
        and nothing is sent; otherwise the planned commands are sent in
        order and the callback gets HMSET's outcome only. */
    method Set(sid: string, sess: Json) returns (err: Option<Error>)
      requires IsRecord(sess)
      modifies client
      ensures client.down == old(client.down)
      ensures PlanSave(codec, ttl, sess).Throw? ==>
        && err == Some(Raised(PlanSave(codec, ttl, sess).exception))
        && client.log == old(client.log)
        && client.db == old(client.db)
      ensures PlanSave(codec, ttl, sess).Ok? ==>
        var cmds := SaveCommands(Key(prefix, sid), PlanSave(codec, ttl, sess).value);
        var trace := Run(old(client.db), client.down, cmds);
        && client.log == old(client.log) + cmds
        && client.db == trace.db
        && err == ErrorOf(trace.replies[|cmds| - 2])
    {
      var key := Key(prefix, sid);
      var maxAge := MaxAge(sess);
      if maxAge.Throw? {
        return Some(Raised(maxAge.exception));
      }
      var original := ParseSnapshot(codec, sess);
      if original.Throw? {
        return Some(Raised(original.exception));
      }
      var origKeys := OwnKeys(original.value);
      if origKeys.Throw? {
        return Some(Raised(origKeys.exception));
      }
      var newKeys := WithoutOriginal(sess.keys);
      var t := SelectTtl(ttl, maxAge.value);
      if |origKeys.value| > 0 {
        var hdel := CollectDeletions(key, origKeys.value, newKeys);
        var hmset := CollectUpdates(codec, original.value, sess, newKeys);
        PlanDiff(codec, ttl, sess, original.value);
        err := Write(hdel, key, hmset, t, Save(t, true, hdel[1..], hmset));
      } else {
        var hmset := EncodeAll(codec, sess);
        PlanFull(codec, ttl, sess, original.value);
        err := Write([key], key, hmset, t, Save(t, false, [], hmset));
      }
    }

    /** The end of `set`: HDEL when `hdel` lists a field after the key, then
        HMSET, whose outcome is passed to the callback, then EXPIRE */
    method Write(hdel: seq<string>, key: string, hmset: map<string, string>, t: int, ghost plan: Save)
        returns (err: Option<Error>)
      requires |hdel| > 0 && hdel[0] == key
      requires plan.deletions == hdel[1..] && plan.hmset == hmset && plan.ttl == t
      modifies client
      ensures client.down == old(client.down)
      ensures var cmds := SaveCommands(key, plan);
        var trace := Run(old(client.db), client.down, cmds);
        && client.log == old(client.log) + cmds
        && client.db == trace.db
        && err == ErrorOf(trace.replies[|cmds| - 2])
    {
      ghost var db0 := client.db;
      var tail := [HMSet(key, hmset), Expire(key, t)];
      if |hdel| > 1 {
        var _ := client.Send(HDel(hdel[0], hdel[1..]));
        assert SaveCommands(key, plan) == [HDel(key, plan.deletions)] + tail;
      } else {
        assert SaveCommands(key, plan) == tail;
      }
      ghost var db1 := client.db;
      var reply := client.Send(HMSet(key, hmset));
      err := ErrorOf(reply);
      ghost var db2 := client.db;
      var _ := client.Send(Expire(key, t));
      RunSave(db0, client.down, key, plan, db1, reply, db2, client.db);
    }

    /** `destroy`: one DEL on the record's key, its outcome passed straight
        to the callback */
    method Destroy(sid: string) returns (err: Option<Error>)
      modifies client
      ensures var step := Dispatch(old(client.db), client.down, Del(Key(prefix, sid)));
        client.db == step.db && err == ErrorOf(step.reply)
      ensures client.log == old(client.log) + [Del(Key(prefix, sid))]
      ensures client.down == old(client.down)
    {
      var reply := client.Send(Del(Key(prefix, sid)));
      err := ErrorOf(reply);
    }
  }

  /** Sending a plan's commands one at a time is running them in sequence;
      `db1` is the store after the optional HDEL, `db2` after HMSET */
  lemma RunSave(db0: Db, down: set<Verb>, key: string, plan: Save,
                db1: Db, reply: Reply, db2: Db, db3: Db)
    requires |plan.deletions| > 0 ==> db1 == Dispatch(db0, down, HDel(key, plan.deletions)).db
    requires |plan.deletions| == 0 ==> db1 == db0
    requires Dispatch(db1, down, HMSet(key, plan.hmset)) == Step(db2, reply)
    requires db3 == Dispatch(db2, down, Expire(key, plan.ttl)).db
    ensures var cmds := SaveCommands(key, plan);
      var trace := Run(db0, down, cmds);
      trace.db == db3 && trace.replies[|cmds| - 2] == reply
  {
    var tail := [HMSet(key, plan.hmset), Expire(key, plan.ttl)];
    RunPair(db1, down, tail[0], tail[1]);
    if |plan.deletions| > 0 {
      assert SaveCommands(key, plan) == [HDel(key, plan.deletions)] + tail;
      RunCons(db0, down, HDel(key, plan.deletions), tail);
    } else {
      assert SaveCommands(key, plan) == tail;
    }
  }

  /** HMSET then EXPIRE with a positive ttl, on a key holding the hash
      `h` (or nothing, with `h` empty): the key ends up holding `h`
      overwritten with the written fields, provided that leaves some field */
  lemma WriteOnHash(db: Db, key: string, h: map<string, string>, m: map<string, string>, ttl: int)
    requires HoldsHash(db, key, h) && ttl > 0 && |h + m| > 0
    ensures var after := Run(db, {}, [HMSet(key, m), Expire(key, ttl)]).db;
      key in after.data && after.data[key] == Hash(h + m)
  {
    var step := Exec(db, HMSet(key, m));
    if |m| > 0 {
      HMSetOnHash(db, key, h, m);
    } else {
      HMSetEmpty(db, key, m);
      assert h + m == h;
    }
    ExpireKeepsData(step.db, key, ttl);
    RunPair(db, {}, HMSet(key, m), Expire(key, ttl));
  }

  /** HMSET with nothing to write is refused, whatever the key holds */
  lemma EmptyWriteRefused(db: Db, key: string, ttl: int)
    ensures Run(db, {}, [HMSet(key, map[]), Expire(key, ttl)]).replies[0] == ErrorReply(WrongArity)
  {
    HMSetEmpty(db, key, map[]);
    RunPair(db, {}, HMSet(key, map[]), Expire(key, ttl));
  }

  /** A whole save with a positive ttl over a link that loses nothing: the
      key ends up holding `h` less the deleted fields, overwritten with the
      written ones, provided that leaves some field */
  lemma SaveOnHash(db: Db, key: string, h: map<string, string>, plan: Save)
    requires HoldsHash(db, key, h)
    requires plan.ttl > 0
    requires |Removed(h, plan.deletions) + plan.hmset| > 0
    ensures var after := Run(db, {}, SaveCommands(key, plan)).db;
      key in after.data && after.data[key] == Hash(Removed(h, plan.deletions) + plan.hmset)
  {
    if |plan.deletions| > 0 {
      DeleteThenWrite(db, key, h, plan);
    } else {
      assert plan.deletions == [];
      RemovedNothing(h, plan.deletions);
      WriteOnHash(db, key, h, plan.hmset, plan.ttl);
      assert SaveCommands(key, plan) == [HMSet(key, plan.hmset), Expire(key, plan.ttl)];
    }
  }

  /** `SaveOnHash` when HDEL is sent first */
  lemma DeleteThenWrite(db: Db, key: string, h: map<string, string>, plan: Save)
    requires HoldsHash(db, key, h)
    requires plan.ttl > 0 && |plan.deletions| > 0
    requires |Removed(h, plan.deletions) + plan.hmset| > 0
    ensures var after := Run(db, {}, SaveCommands(key, plan)).db;
      key in after.data && after.data[key] == Hash(Removed(h, plan.deletions) + plan.hmset)
  {
    var tail := [HMSet(key, plan.hmset), Expire(key, plan.ttl)];
    HDelOnHash(db, key, h, plan.deletions);
    var db1 := Exec(db, HDel(key, plan.deletions)).db;
    WriteOnHash(db1, key, Removed(h, plan.deletions), plan.hmset, plan.ttl);
    assert SaveCommands(key, plan) == [HDel(key, plan.deletions)] + tail;
    RunCons(db, {}, HDel(key, plan.deletions), tail);
  }

  /** The snapshot a hash-loaded session carries parses to the decoded
      fields in the order they were read */
  lemma LoadedSnapshot(c: Codec, order: seq<string>, h: map<string, string>, sess: Json)
    requires IsJsonCodec(c)
    requires Enumerates(order, h)
    requires FromHash(c, order, h).Found?
    requires Prop(sess, "_original") == Prop(FromHash(c, order, h).sess, "_original")
    ensures ParseSnapshot(c, sess) == Ok(Obj(order, DecodeAll(c, order, h).value))
  {
    var m := DecodeAll(c, order, h).value;
    var text := c.encode(Obj(order, m));
    assert Prop(sess, "_original") == Some(Str(text));
    assert text != "" && c.decode(text) == Some(Obj(order, m));
  }

  /** The round trip: a new session (no record under its key) written in
      full and then read back yields exactly the fields that were saved,
      plus a fresh snapshot, whichever order the hash lists its fields in */
  lemma FullWriteThenLoad(c: Codec, configured: Option<int>, sess: Json, key: string, db: Db,
                          order: seq<string>, setexCompatible: bool)
    requires IsJsonCodec(c) && IsRecord(sess)
    requires key !in db.data
    requires PlanSave(c, configured, sess).Ok?
    requires !PlanSave(c, configured, sess).value.diff && PlanSave(c, configured, sess).value.ttl > 0
    requires Enumerates(order, FullWrite(c, sess))
    ensures var after := Run(db, {}, SaveCommands(key, PlanSave(c, configured, sess).value)).db;
      var first := Exec(after, HGetAll(key)).reply;
      HashOf(first) == FullWrite(c, sess)
      && (var loaded := LoadOutcome(c, setexCompatible, first, order, Exec(after, Redis.Get(key)).reply);
          && loaded.Found? && IsRecord(loaded.sess)
          && (forall f :: f in loaded.sess.fields <==> f in sess.fields || f == "_original")
          && (forall f :: f != "_original" ==> Prop(loaded.sess, f) == Prop(sess, f)))
  {
    var plan := PlanSave(c, configured, sess).value;
    var m := FullWrite(c, sess);
    FullBranch(c, configured, sess);
    assert Removed(map[], plan.deletions) + plan.hmset == m;
    SaveOnHash(db, key, map[], plan);
    var after := Run(db, {}, SaveCommands(key, plan)).db;
    ReadHash(c, setexCompatible, after, key, m, order);
    RecordHashLoads(c, sess, m, order);
  }

  /** Reading a key that holds a non-empty hash takes no fallback and
      decodes that hash */
  lemma ReadHash(c: Codec, setexCompatible: bool, db: Db, key: string, h: map<string, string>, order: seq<string>)
    requires key in db.data && db.data[key] == Hash(h) && |h| > 0
    requires Enumerates(order, h)
    ensures var first := Exec(db, HGetAll(key)).reply;
      HashOf(first) == h
      && LoadOutcome(c, setexCompatible, first, order, Exec(db, Redis.Get(key)).reply) == FromHash(c, order, h)
  {
  }

  /** A key with no record reads as no session: with compatibility mode
      on through the GET fallback, which finds nothing either, and with it
      off straight from the empty HGETALL reply */
  lemma MissingRecordNoSession(c: Codec, db: Db, key: string, setexCompatible: bool)
    requires key !in db.data
    ensures var first := Exec(db, HGetAll(key)).reply;
      && (FallsBack(first, setexCompatible) <==> setexCompatible)
      && LoadOutcome(c, setexCompatible, first, [], Exec(db, Redis.Get(key)).reply) == NoSession
  {
  }

  /** Any HGETALL error takes the GET fallback, even with compatibility
      mode off, and `get` then reports what GET gives */
  lemma ReadErrorFallsBack(c: Codec, db: Db, down: set<Verb>, key: string, setexCompatible: bool)
    requires HGETALL in down
    ensures var first := Dispatch(db, down, HGetAll(key)).reply;
      var second := Dispatch(db, down, Redis.Get(key)).reply;
      && FallsBack(first, setexCompatible)
      && LoadOutcome(c, setexCompatible, first, [], second) == FromBlob(c, second)
      && (GET in down ==> LoadOutcome(c, setexCompatible, first, [], second) == Failed(Store(ConnectionLost)))
  {
  }

  /** A record still in the legacy single-string shape is read through the
      GET fallback even with compatibility mode off (HGETALL on a string is
      an error), and loads with the empty-string snapshot marker */
  lemma LegacyRecordLoads(c: Codec, v: Json, key: string, db: Db, setexCompatible: bool)
    requires IsJsonCodec(c) && IsRecord(v)
    requires key in db.data && db.data[key] == Blob(c.encode(v))
    ensures var first := Exec(db, HGetAll(key)).reply;
      var loaded := LoadOutcome(c, setexCompatible, first, [], Exec(db, Redis.Get(key)).reply);
      && FallsBack(first, setexCompatible)
      && loaded.Found?
      && Prop(loaded.sess, "_original") == Some(Str(""))
      && (forall f :: f != "_original" ==> Prop(loaded.sess, f) == Prop(v, f))
  {
    LegacyBlobLoads(c, v);
  }

  /** A legacy record whose text is not JSON: `get` passes a SyntaxError to
      the callback (the fallback catches the parse error), where a hash field
      that does not parse throws instead */
  lemma BadBlobFails(c: Codec, db: Db, key: string, s: string, setexCompatible: bool)
    requires key in db.data && db.data[key] == Blob(s)
    requires s != "" && c.decode(s).None?
    ensures LoadOutcome(c, setexCompatible, Exec(db, HGetAll(key)).reply, [], Exec(db, Redis.Get(key)).reply)
            == Failed(Raised(SyntaxError))
  {
  }

  /** A legacy record holding the JSON text `null`: setting `_original` on
      the parsed null throws a TypeError out of `get` */
  lemma NullBlobThrows(c: Codec, db: Db, key: string, setexCompatible: bool)
    requires IsJsonCodec(c)
    requires key in db.data && db.data[key] == Blob(c.encode(Null))
    ensures LoadOutcome(c, setexCompatible, Exec(db, HGetAll(key)).reply, [], Exec(db, Redis.Get(key)).reply)
            == Threw(TypeError)
  {
    assert c.decode(c.encode(Null)) == Some(Null);
  }

  /** A full write onto a key that still holds a hash (a session that lost
      its snapshot) merges into that hash rather than replacing it: a field
      the session no longer has survives the save, and the next load
      returns it */
  lemma FullWriteKeepsStale(c: Codec, configured: Option<int>, sess: Json, key: string, db: Db,
                            h: map<string, string>, f: string)
    requires IsJsonCodec(c) && IsRecord(sess)
    requires key in db.data && db.data[key] == Hash(h)
    requires f in h && f !in sess.fields && f != "_original"
    requires PlanSave(c, configured, sess).Ok?
    requires !PlanSave(c, configured, sess).value.diff && PlanSave(c, configured, sess).value.ttl > 0
    ensures var after := Run(db, {}, SaveCommands(key, PlanSave(c, configured, sess).value)).db;
      && key in after.data && after.data[key].Hash?
      && f in after.data[key].h && after.data[key].h[f] == h[f]
      && forall order :: Enumerates(order, after.data[key].h) && FromHash(c, order, after.data[key].h).Found? ==>
           Prop(FromHash(c, order, after.data[key].h).sess, f) == c.decode(h[f])
  {
    var plan := PlanSave(c, configured, sess).value;
    RemovedNothing(h, plan.deletions);
    SaveOnHash(db, key, h, plan);
  }

  /** A session loaded from the legacy shape is saved with a full write,
      whose HMSET lands on the string still stored under the key: the
      callback gets a wrong-type error and the record is not converted. */
  lemma LegacySaveRefused(c: Codec, configured: Option<int>, sess: Json, key: string, db: Db)
    requires IsRecord(sess)
    requires Prop(sess, "_original") == Some(Str(""))
    requires MaxAge(sess).Ok?
    requires key in db.data && db.data[key].Blob?
    ensures PlanSave(c, configured, sess).Ok?
    ensures var plan := PlanSave(c, configured, sess).value;
      var cmds := SaveCommands(key, plan);
      var trace := Run(db, {}, cmds);
      && !plan.diff
      && "_original" in plan.hmset
      && trace.replies[|cmds| - 2] == ErrorReply(WrongType)
      && (plan.ttl > 0 ==> key in trace.db.data && trace.db.data[key] == db.data[key])
  {
    FullWriteWithoutSnapshot(c, configured, sess);
    var plan := PlanSave(c, configured, sess).value;
    assert "_original" in plan.hmset;
    var db3 := Exec(db, Expire(key, plan.ttl)).db;
    assert plan.ttl > 0 ==> key in db3.data && db3.data[key] == db.data[key];
    RunSave(db, {}, key, plan, db, ErrorReply(WrongType), db, db3);
  }

  /** Saving a hash-loaded session unchanged, when all its values are truthy,
      deletes nothing and sends HMSET with an empty map, which the server
      refuses: the callback gets a wrong-arity error. */
  lemma UnchangedResave(c: Codec, configured: Option<int>, order: seq<string>, h: map<string, string>,
                        key: string, db: Db)
    requires IsJsonCodec(c)
    requires Enumerates(order, h) && |h| > 0 && "_original" !in h
    requires forall f :: f in h ==> Present(c.decode(h[f]))
    requires FromHash(c, order, h).Found?
    requires MaxAge(FromHash(c, order, h).sess).Ok?
    ensures var sess := FromHash(c, order, h).sess;
      var plan := PlanSave(c, configured, sess);
      && plan.Ok? && plan.value.diff
      && plan.value.deletions == [] && plan.value.hmset == map[]
      && Run(db, {}, SaveCommands(key, plan.value)).replies[0] == ErrorReply(WrongArity)
  {
    var sess := FromHash(c, order, h).sess;
    LoadedAllTruthyUnchanged(c, order, h);
    PlanAfterLoad(c, configured, order, h, sess);
    var plan := PlanSave(c, configured, sess).value;
    assert SaveCommands(key, plan) == [HMSet(key, map[]), Expire(key, plan.ttl)];
    EmptyWriteRefused(db, key, plan.ttl);
  }

  /** A session that keeps the snapshot it was loaded with from a
      non-empty hash is saved through the diff branch, against the decoded
      fields in the order they were read */
  lemma PlanAfterLoad(c: Codec, configured: Option<int>, order: seq<string>, h: map<string, string>, sess: Json)
    requires IsJsonCodec(c)
    requires Enumerates(order, h) && |h| > 0
    requires FromHash(c, order, h).Found?
    requires IsRecord(sess) && MaxAge(sess).Ok?
    requires Prop(sess, "_original") == Prop(FromHash(c, order, h).sess, "_original")
    ensures var original := Obj(order, DecodeAll(c, order, h).value);
      var newKeys := WithoutOriginal(sess.keys);
      PlanSave(c, configured, sess)
      == Ok(Save(SelectTtl(configured, MaxAge(sess).value), true,
                 Deletions(order, newKeys), Updates(c, original, sess, newKeys)))
  {
    var original := Obj(order, DecodeAll(c, order, h).value);
    LoadedSnapshot(c, order, h, sess);
    assert |order| > 0 by {
      var f :| f in h;
    }
    PlanDiff(c, configured, sess, original);
  }

  /** A hash-loaded session whose values are all truthy, left as loaded,
      has nothing to delete and nothing to write */
  lemma LoadedAllTruthyUnchanged(c: Codec, order: seq<string>, h: map<string, string>)
    requires IsJsonCodec(c)
    requires Enumerates(order, h) && "_original" !in h
    requires forall f :: f in h ==> Present(c.decode(h[f]))
    requires FromHash(c, order, h).Found?
    ensures var sess := FromHash(c, order, h).sess;
      var newKeys := WithoutOriginal(sess.keys);
      var original := Obj(order, DecodeAll(c, order, h).value);
      && IsRecord(sess)
      && Deletions(order, newKeys) == []
      && Updates(c, original, sess, newKeys) == map[]
  {
    LoadedFromHash(c, order, h);
    var sess := FromHash(c, order, h).sess;
    var m := DecodeAll(c, order, h).value;
    var original := Obj(order, m);
    forall k | k in sess.keys && k != "_original"
      ensures Prop(original, k) == Some(sess.fields[k]) && Truthy(sess.fields[k])
    {
      assert Prop(sess, k) == Prop(original, k);
      assert k in h && c.decode(h[k]) == Some(m[k]);
    }
    UnchangedSessionWritesNothing(c, original, sess);
  }

  /** The load-change-save cycle is sound: the session loaded from the
      hash `h`, changed in any way that keeps its snapshot, then saved with
      a positive ttl over a link that loses nothing, leaves under its key a
      hash with exactly the session's fields (`_original` aside), each
      parsing to the session's value. */
  lemma SaveAfterLoadConverges(c: Codec, configured: Option<int>, order: seq<string>, h: map<string, string>,
                               sess: Json, key: string, db: Db)
    requires IsJsonCodec(c)
    requires key in db.data && db.data[key] == Hash(h)
    requires Enumerates(order, h) && |h| > 0
    requires FromHash(c, order, h).Found?
    requires IsRecord(sess)
    requires Prop(sess, "_original") == Prop(FromHash(c, order, h).sess, "_original")
    requires PlanSave(c, configured, sess).Ok? && PlanSave(c, configured, sess).value.ttl > 0
    ensures var after := Run(db, {}, SaveCommands(key, PlanSave(c, configured, sess).value)).db;
      && key in after.data && after.data[key].Hash?
      && (forall f :: f in after.data[key].h <==> f in sess.fields && f != "_original")
      && (forall f :: f in after.data[key].h ==> c.decode(after.data[key].h[f]) == Some(sess.fields[f]))
  {
    var m := DecodeAll(c, order, h).value;
    assert MaxAge(sess).Ok?;
    PlanAfterLoad(c, configured, order, h, sess);
    var plan := PlanSave(c, configured, sess).value;
    var newKeys := WithoutOriginal(sess.keys);
    DiffConverges(c, order, h, m, sess);
    var target := Removed(h, plan.deletions) + plan.hmset;
    assert "cookie" in target;
    SaveOnHash(db, key, h, plan);
  }
}
