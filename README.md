# connect-redis session store, modelled in Dafny

This project models `RedisStore`, the session store of connect-redis
(`lib/connect-redis.js`). The store keeps each session under the key
`prefix + sid` as a Redis hash with one field per session property. Each
field holds the JSON text of that property's value. The modelled behaviour:

- **Key naming.** The default prefix `sess:` applies only when the option is
  null or undefined.
- **`get`.** It sends HGETALL. It falls back to GET for the legacy
  single-string shape of a session. It decodes every field and attaches the
  `_original` snapshot, which is the JSON text of the decoded fields.
- **`set`.**
  - It chooses a ttl.
  - It parses the snapshot.
  - Against a snapshot with keys, it sends HDEL for the snapshot fields not
    in `newKeys` (the own keys other than `_original`, so a snapshot's own
    `_original` field is always deleted) and HMSET for the changed ones.
  - Otherwise it writes every own key.
  - Finally it sends EXPIRE.
- **`destroy`.** It sends one DEL.

The Redis server is modelled as a keyspace of hashes and strings
(`Redis.Exec`). It raises a wrong-type error for a hash command on a string
and the reverse. It raises a wrong-arity error for HMSET or HDEL with no
fields. EXPIRE with a ttl of zero or less deletes the key. A client object
(`Redis.Client`) sends commands one at a time and records them. It travels
over a link that may lose any chosen kinds of command. `JSON.stringify` and
`JSON.parse` are an abstract codec. Their one assumption is a hypothesis on
the lemmas that need it (`Js.IsJsonCodec`): parsing the text that stringify
produced gives the value back, and that text is never empty.

Modules:

- `Js` (js.dfy) holds JSON values, JavaScript truthiness, and objects with
  ordered own keys.
- `Redis` (redis.dfy) holds the server and the client.
- `Resolve` (resolve.dfy) is the read path.
- `Diff` (diff.dfy) is the write path's computation: the ttl, the snapshot,
  the deletions and the updates. The `forEach` loops are methods proved
  against these functions.
- `ConnectRedis` (connect_redis.dfy) holds the `RedisStore` class and the
  properties of whole load/save cycles.

Where the source's behaviour is surprising, the model follows the source:

- Any HGETALL error falls back to GET, even with `setexCompatible` off.
  `&&` binds tighter than `||` at line 94.
- A falsy snapshot value is always written again (line 158).
- The full write includes `_original` (lines 180-182).
- A field that is not valid JSON makes `get` throw rather than call back
  (line 115).
- `maxAge / 1000 | 0` truncates toward zero (line 147).

Some consequences are proved against the server model:

- **A legacy-loaded session cannot be saved.** Its full-write HMSET lands on
  the string still stored under the key. The callback gets a wrong-type
  error, and the record is never converted (`LegacySaveRefused`).
- **A full write does not replace a stored hash.** A session whose snapshot
  was dropped is written in full with HMSET, which merges into the hash still
  stored under the key. A field the session no longer has survives, and the
  next load returns it (`FullWriteKeepsStale`).
- **An unchanged save is refused.** A session saved without changes, whose
  values are all truthy, sends HMSET with an empty map. The server refuses
  it with a wrong-arity error (`UnchangedResave`).

## Model

| member | source | states |
|---|---|---|
| Js.Assign | lib/connect-redis.js:117 | a property write makes the property read back as the value written, leaves every other property alone, keeps an existing key's place, lists a new non-index key such as `_original` last, and keeps an object well formed |
| Js.EncodingDetermines | lib/connect-redis.js:158 | under a round-tripping codec, two values with the same JSON text are equal, so the comparison of encodings at line 158 compares values |
| Js.Truthy | lib/connect-redis.js:158 | a value is falsy exactly when it is null, false, 0 or the empty string |
| Js.Present | lib/connect-redis.js:135 | a property read is truthy exactly when the property exists and its value is truthy; `undefined` is falsy |
| Redis.ErrorOf | lib/connect-redis.js:171-174 | the callback receives an error exactly when the server's reply is an error |
| Redis.Enumerate | lib/connect-redis.js:114 | the fields of a hash reply are listed each exactly once, in an order left open |
| Redis.Client.Send | lib/connect-redis.js:163-175 | a command moves the store as the server dictates, returns the server's reply, and is appended to the log |
| Redis.Client.HGetAllInOrder | lib/connect-redis.js:93 | HGETALL, returning the reply and some listing of its fields |
| Resolve.DecodeAll | lib/connect-redis.js:114-116 | decoding succeeds iff every field parses; the result has exactly the listed fields, each the parse of the stored text |
| Resolve.DecodeFields | lib/connect-redis.js:114-116 | the `forEach` that parses each field in place computes `DecodeAll` |
| Resolve.FallsBack | lib/connect-redis.js:94 | any HGETALL error takes the GET fallback whatever `setexCompatible` says; an answered HGETALL falls back iff compatibility mode is on and the hash is empty; with the mode off only an error falls back |
| Resolve.Annotate | lib/connect-redis.js:117 | the decoded object gains `_original`, the JSON text of the object before the assignment, which parses back to it; every other property is unchanged |
| Resolve.FromHash | lib/connect-redis.js:111-118 | a non-empty hash loads iff every field parses, each loaded property being the parse of its field; otherwise `get` throws a SyntaxError instead of returning partial data |
| Resolve.MarkLegacy | lib/connect-redis.js:107 | setting `_original = ''` throws a TypeError exactly on a parsed `null`; an object gains the empty marker with its other properties kept; any other value is returned as it is |
| Resolve.FromBlob | lib/connect-redis.js:96-108 | a GET error goes to the callback; a missing or empty string is no session; text that is not JSON goes to the callback as a SyntaxError; text that parses to a value gets the legacy marker as `MarkLegacy` sets it; the only exception thrown is the TypeError of a `null` blob |
| Resolve.LoadOutcome | lib/connect-redis.js:89-120 | an HGETALL error gives GET's outcome; a non-empty hash is decoded without consulting GET; an empty hash gives GET's outcome with compatibility mode on and no session with it off; only a SyntaxError or a TypeError is ever thrown |
| Resolve.LoadedFromHash | lib/connect-redis.js:111-118 | a session loaded from a hash is a well-formed object holding every stored field decoded, plus `_original`, whose text parses to exactly the decoded fields in reading order |
| Resolve.RecordHashLoads | lib/connect-redis.js:111-118 | a hash holding each own key of a record mapped to its JSON text loads back as that record, with `_original` added |
| Resolve.RecordFieldsDecode | lib/connect-redis.js:115 | each field of such a hash parses to the record's value |
| Resolve.LegacyBlobLoads | lib/connect-redis.js:96-108 | a string record holding an encoded object loads as that object with `_original` set to `''` |
| Diff.MillisToSeconds | lib/connect-redis.js:147 | milliseconds become seconds truncated toward zero, for positive and negative inputs |
| Diff.MaxAge | lib/connect-redis.js:133 | reading `sess.cookie.maxAge` throws a TypeError iff the cookie is undefined or null; otherwise it yields the cookie's `maxAge`, present only on an object cookie |
| Diff.SelectTtl | lib/connect-redis.js:146-148 | a truthy configured ttl wins, then a numeric `maxAge` in truncated seconds, then one day |
| Diff.TtlPrecedence | lib/connect-redis.js:146-148 | on concrete inputs: 60 configured gives 60; `maxAge` 5000 gives 5 (a configured 0 is ignored); -1500 gives -1; 999 gives 0; a non-numeric or missing `maxAge` gives 86400 |
| Diff.MissingCookieThrows | lib/connect-redis.js:133 | a missing or null `sess.cookie` makes `set` throw a TypeError before anything is computed |
| Diff.ParseSnapshot | lib/connect-redis.js:135 | a missing or falsy `_original` gives `{}`; a non-empty string snapshot succeeds iff it parses, giving its parse, so the text of any value gives that value back; a failure is a SyntaxError |
| Diff.OwnKeys | lib/connect-redis.js:136 | `Object.keys` throws a TypeError iff the snapshot is null; an object gives its own keys; only an object has any |
| Diff.IndexOf | lib/connect-redis.js:141 | the result is the first index holding the element, or -1 when it is absent |
| Diff.WithoutOriginal | lib/connect-redis.js:141-144 | for distinct keys, `newKeys` holds exactly the own keys other than `_original`, each once |
| Diff.SpliceOut | lib/connect-redis.js:143 | splicing one element out of a list of distinct keys leaves exactly the other keys, each once |
| Diff.Deletions | lib/connect-redis.js:150-155 | the HDEL field list is no longer than the snapshot's keys and never names a key of `newKeys` (the own keys other than `_original`) |
| Diff.DeletionsMembers | lib/connect-redis.js:150-155 | a field is in the HDEL list iff the snapshot has it and `newKeys` does not |
| Diff.NoDeletions | lib/connect-redis.js:150-155 | nothing is deleted when every snapshot field is still an own key |
| Diff.DeletionsAppend | lib/connect-redis.js:151-155 | the deletion list keeps snapshot order: the deletions of a concatenation are the concatenated deletions |
| Diff.Unchanged | lib/connect-redis.js:158 | a field is skipped only when its snapshot value is truthy; with a round-tripping codec, equal encodings mean the snapshot value equals the session's value |
| Diff.Updates | lib/connect-redis.js:156-161 | the diff branch writes only keys of `newKeys`, each as text parsing to the session's value; a key it leaves out is stored with the same truthy value in the snapshot |
| Diff.FullWrite | lib/connect-redis.js:179-182 | the full write covers exactly the session's own keys, `_original` included, each as text parsing to the session's value |
| Diff.PlanSave | lib/connect-redis.js:132-182 | `set` throws iff the cookie is missing, the snapshot does not parse, or it parses to null; the ttl is the selected one; the diff branch is taken iff the snapshot is an object with keys, and never writes `_original`; the full branch deletes nothing and writes the full map; only own keys are written |
| Diff.SaveCommands | lib/connect-redis.js:162-189 | HDEL first exactly when there are deletions, then HMSET with the write map, then EXPIRE with the ttl, all on the same key |
| Diff.CollectDeletions | lib/connect-redis.js:140-155 | the `forEach` that pushes onto `hdel` yields the key followed by exactly the deletions, in snapshot order |
| Diff.CollectUpdates | lib/connect-redis.js:156-161 | the `forEach` that fills `hmset` in the diff branch computes exactly the update map |
| Diff.EncodeAll | lib/connect-redis.js:179-182 | the `forEach` of the full write maps every own key, `_original` included, to its JSON text |
| Diff.PlanDiff | lib/connect-redis.js:132-161 | with a snapshot that has keys, `set` takes the diff branch with exactly those deletions and updates |
| Diff.PlanFull | lib/connect-redis.js:132-182 | with a snapshot without keys, `set` takes the full-write branch |
| Diff.FullBranch | lib/connect-redis.js:178-182 | the full-write branch deletes nothing, writes every own key, and so always writes `cookie` |
| Diff.DiffBranchExactly | lib/connect-redis.js:150-161 | the diff branch is taken only for a snapshot with keys; a field is deleted iff the snapshot has it and the session lost it; a field is written iff it is an own key other than `_original` whose snapshot value is not both truthy and equal in encoding; each written value is the field's JSON text |
| Diff.FullWriteWithoutSnapshot | lib/connect-redis.js:135-182 | with `_original` missing, `''`, or parsing to an empty object, nothing is deleted and every own key is written, `''` for `_original` included |
| Diff.UnchangedSessionWritesNothing | lib/connect-redis.js:150-161 | a session equal to its snapshot, with all values truthy, has no deletions and an empty update map |
| Diff.FalsyFieldRewritten | lib/connect-redis.js:158 | a field whose snapshot value is falsy is written even when unchanged |
| Diff.SnapshotScenario | lib/connect-redis.js:150-161 | snapshot {a:"1", b:"2"} against session {a:"1", c:"3"}: b is deleted and only c is written |
| Diff.DiffConverges | lib/connect-redis.js:150-177 | applying the deletions and then the updates to the hash the snapshot came from leaves exactly the session's fields (`_original` aside), each parsing to the session's value |
| ConnectRedis.PrefixOf | lib/connect-redis.js:48-50 | the default `sess:` is used iff the option is null or undefined; any given prefix, `''` included, is kept |
| ConnectRedis.Key | lib/connect-redis.js:91 | the key is the prefix followed by the session id |
| ConnectRedis.KeyInjective | lib/connect-redis.js:131 | under one prefix, distinct session ids never share a key |
| ConnectRedis.RedisStore.constructor | lib/connect-redis.js:43-60 | the store keeps the prefix, ttl and compatibility options it was given |
| ConnectRedis.RedisStore.Get | lib/connect-redis.js:89-120 | `get` sends HGETALL on `prefix + sid`, and GET only when the fallback is taken; it changes no data, and the result is the read resolution of the replies |
| ConnectRedis.RedisStore.Set | lib/connect-redis.js:130-194 | when the computation throws, the exception goes to the callback and nothing is sent; otherwise exactly the planned commands are sent in order on `prefix + sid`, the store is as after running them, and the callback gets HMSET's outcome |
| ConnectRedis.RedisStore.Write | lib/connect-redis.js:162-189 | HDEL is sent only when `hdel` lists a field, then HMSET and EXPIRE; only HMSET's reply reaches the callback |
| ConnectRedis.RedisStore.Destroy | lib/connect-redis.js:203-206 | one DEL on `prefix + sid`, its outcome passed straight to the callback |
| ConnectRedis.RunSave | lib/connect-redis.js:162-189 | sending the plan's commands one at a time is running the command list in sequence |
| ConnectRedis.WriteOnHash | lib/connect-redis.js:171-177 | HMSET then EXPIRE with a positive ttl leaves the key holding the hash overwritten with the written fields |
| ConnectRedis.EmptyWriteRefused | lib/connect-redis.js:171-174 | HMSET with an empty map is refused with a wrong-arity error |
| ConnectRedis.SaveOnHash | lib/connect-redis.js:162-177 | a save with a positive ttl leaves the key holding the stored hash, less the deleted fields, overwritten with the written ones |
| ConnectRedis.DeleteThenWrite | lib/connect-redis.js:162-177 | the same, when HDEL is sent first |
| ConnectRedis.LoadedSnapshot | lib/connect-redis.js:117 | a session that keeps its loaded `_original` has a snapshot that parses to the decoded fields in reading order |
| ConnectRedis.FullWriteThenLoad | lib/connect-redis.js:111-118 | round trip: a new session written in full and read back has exactly the saved fields plus `_original`, each with its saved value, whatever order the hash lists them in |
| ConnectRedis.ReadHash | lib/connect-redis.js:93-118 | a key holding a non-empty hash takes no fallback and is decoded |
| ConnectRedis.MissingRecordNoSession | lib/connect-redis.js:94-112 | a missing key reads as no session, through the fallback iff compatibility mode is on |
| ConnectRedis.ReadErrorFallsBack | lib/connect-redis.js:94-97 | any HGETALL error takes the GET fallback, even with compatibility mode off; the outcome is then GET's, and a lost GET is reported as an error |
| ConnectRedis.LegacyRecordLoads | lib/connect-redis.js:94-108 | a legacy string record is read through the fallback in either mode, and loads with `_original` set to `''` |
| ConnectRedis.BadBlobFails | lib/connect-redis.js:96-106 | a legacy record that is not JSON reaches the callback as a SyntaxError, in either mode |
| ConnectRedis.NullBlobThrows | lib/connect-redis.js:96-108 | a legacy record holding `null` makes `get` throw a TypeError when `_original` is set |
| ConnectRedis.FullWriteKeepsStale | lib/connect-redis.js:178-186 | a full write onto an existing hash merges into it: a field the session no longer has survives the save and comes back on the next load |
| ConnectRedis.LegacySaveRefused | lib/connect-redis.js:178-186 | a legacy-loaded session is saved with a full write that includes `_original`; on the string still stored, HMSET fails with a wrong-type error and the record is unchanged |
| ConnectRedis.UnchangedResave | lib/connect-redis.js:150-174 | re-saving an unchanged hash-loaded session with truthy values deletes nothing and sends an empty HMSET, which gets a wrong-arity error |
| ConnectRedis.PlanAfterLoad | lib/connect-redis.js:132-161 | a session that keeps the snapshot it was loaded with takes the diff branch against the decoded fields |
| ConnectRedis.LoadedAllTruthyUnchanged | lib/connect-redis.js:150-161 | a hash-loaded session with all values truthy, saved as loaded, has nothing to delete and nothing to write |
| ConnectRedis.SaveAfterLoadConverges | lib/connect-redis.js:130-177 | load, any change that keeps the snapshot, then a save with a positive ttl: the key then holds a hash of exactly the session's fields (`_original` aside), each parsing to the session's value |

## Left out

- Redis client construction, `auth`, `select` and the `send_anyways` re-selection, and the forwarding of `connect`/`disconnect` events (lines 52-72): connection plumbing over a library that is not part of this model.
- Inheritance from connect's `Store` (lines 34, 47, 79): a runtime-object detail with no behaviour here.
- `debug(...)` and `console.log`: logging only.
- The internals of `JSON.stringify` and `JSON.parse`: an abstract codec, assumed only to round-trip and to produce non-empty text.
- Asynchronous completion order: commands are sent and answered one at a time, in the order they are issued. Interleaving with other clients is not modelled.
- Key expiry over time: EXPIRE records the ttl. No clock removes keys.
- `Diff.MillisToSeconds`: `maxAge` is an integer number of milliseconds. Floating-point division and the 32-bit wrap of `| 0` are not modelled.
- Option values are typed. The ttl is an integer, truthy when non-zero. `setexCompatible` is a boolean. A missing `options` object is not modelled.
- `Diff.ParseSnapshot`: a truthy `_original` that is a number or boolean parses to itself. One that is an object or array is treated as a parse failure.
- `Diff.OwnKeys`: a snapshot that parses to a non-empty string or array would list index keys in JavaScript. The model gives it no keys.
- `Resolve.MarkLegacy`: a legacy blob that parses to an array does not get the `_original` property.
- Object key order: keys are listed in insertion order. JavaScript lists array-index keys such as `"1"` first, in numeric order. The only key the store adds is `_original`, which is not an index, and the order in which `get` lists a hash's fields is left open.
- Session values are JSON data with integer numbers. NaN, -0, fractions, `undefined` properties and function values, which `JSON.stringify` drops or changes, are not modelled.
- Hash field values are not typed beyond strings, and binary replies (`data.toString()`) are not modelled.
