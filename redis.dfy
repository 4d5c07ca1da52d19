/** The Redis server as the session store uses it: a keyspace of hashes and
    strings, the six commands the store issues, and a client object that
    sends them one after another and records them. */
module Redis {
  import opened Js

  /** A stored value: a hash of fields, or a plain string (the legacy
      single-blob shape of a session) */
  datatype Entry = Hash(h: map<string, string>) | Blob(s: string)

  /** The keyspace, and the time-to-live in seconds set on some keys */
  datatype Db = Db(data: map<string, Entry>, expires: map<string, int>)

  datatype Command =
    | HGetAll(key: string)
    | Get(key: string)
    | HDel(key: string, fields: seq<string>)
    | HMSet(key: string, pairs: map<string, string>)
    | Expire(key: string, seconds: int)
    | Del(key: string)

  /** Command names, used to say which commands a faulty link loses */
  datatype Verb = HGETALL | GET | HDEL | HMSET | EXPIRE | DEL

  function VerbOf(cmd: Command): Verb {
    match cmd
    case HGetAll(_) => HGETALL
    case Get(_) => GET
    case HDel(_, _) => HDEL
    case HMSet(_, _) => HMSET
    case Expire(_, _) => EXPIRE
    case Del(_) => DEL
  }

  /** WrongType: a hash command on a string or the reverse; WrongArity: a
      field command with no fields; ConnectionLost: the link failed. */
  datatype ReplyError = WrongType | WrongArity | ConnectionLost

  datatype Value =
    | Fields(h: map<string, string>)
    | Text(text: Option<string>)
    | Count(n: nat)
    | Status

  datatype Reply = Answer(value: Value) | ErrorReply(error: ReplyError)

  /** What reaches a callback's `err` argument: a thrown JavaScript
      exception or an error reply from the server */
  datatype Error = Raised(exception: Exception) | Store(reply: ReplyError)

  function ErrorOf(r: Reply): (e: Option<Error>)
    ensures e.None? <==> r.Answer?
  {
    if r.ErrorReply? then Some(Store(r.error)) else None
  }

  datatype Step = Step(db: Db, reply: Reply)

  function Drop(db: Db, k: string): Db {
    Db(db.data - {k}, db.expires - {k})
  }

  /** The fields a field list names */
  function FieldSet(fs: seq<string>): set<string> {
    set f | f in fs
  }

  /** A hash with the listed fields removed */
  function Removed(h: map<string, string>, fs: seq<string>): (r: map<string, string>)
    ensures forall f :: f in r <==> f in h && f !in fs
    ensures forall f :: f in r ==> r[f] == h[f]
  {
    h - FieldSet(fs)
  }

  /** Removing no fields leaves a hash as it is */
  lemma RemovedNothing(h: map<string, string>, fs: seq<string>)
    requires fs == []
    ensures Removed(h, fs) == h
  {
    assert FieldSet(fs) == {};
  }

  /** The server's response to one command */
  function Exec(db: Db, cmd: Command): Step {
    match cmd
    case HGetAll(k) =>
      if k !in db.data then Step(db, Answer(Fields(map[])))
      else if db.data[k].Blob? then Step(db, ErrorReply(WrongType))
      else Step(db, Answer(Fields(db.data[k].h)))
    case Get(k) =>
      if k !in db.data then Step(db, Answer(Text(None)))
      else if db.data[k].Hash? then Step(db, ErrorReply(WrongType))
      else Step(db, Answer(Text(Some(db.data[k].s))))
    case HDel(k, fs) =>
      if |fs| == 0 then Step(db, ErrorReply(WrongArity))
      else if k !in db.data then Step(db, Answer(Count(0)))
      else if db.data[k].Blob? then Step(db, ErrorReply(WrongType))
      else
        var h := db.data[k].h;
        var left := Removed(h, fs);
        Step(if |left| == 0 then Drop(db, k) else db.(data := db.data[k := Hash(left)]),
             Answer(Count(|h.Keys * FieldSet(fs)|)))
    case HMSet(k, m) =>
      if |m| == 0 then Step(db, ErrorReply(WrongArity))
      else if k !in db.data then Step(db.(data := db.data[k := Hash(m)]), Answer(Status))
      else if db.data[k].Blob? then Step(db, ErrorReply(WrongType))
      else Step(db.(data := db.data[k := Hash(db.data[k].h + m)]), Answer(Status))
    case Expire(k, t) =>
      if k !in db.data then Step(db, Answer(Count(0)))
      else if t <= 0 then Step(Drop(db, k), Answer(Count(1)))
      else Step(db.(expires := db.expires[k := t]), Answer(Count(1)))
    case Del(k) =>
      Step(Drop(db, k), Answer(Count(if k in db.data then 1 else 0)))
  }

  /** One command over a link that loses the commands named in `down` */
  function Dispatch(db: Db, down: set<Verb>, cmd: Command): Step {
    if VerbOf(cmd) in down then Step(db, ErrorReply(ConnectionLost)) else Exec(db, cmd)
  }

  datatype Trace = Trace(db: Db, replies: seq<Reply>)

  /** Commands issued one after another, with the replies they get */
  function Run(db: Db, down: set<Verb>, cmds: seq<Command>): (t: Trace)
    ensures |t.replies| == |cmds|
    decreases |cmds|
  {
    if cmds == [] then Trace(db, [])
    else
      var s := Dispatch(db, down, cmds[0]);
      var rest := Run(s.db, down, cmds[1..]);
      Trace(rest.db, [s.reply] + rest.replies)
  }

  /** Running a non-empty sequence: the first command, then the rest */
  lemma RunCons(db: Db, down: set<Verb>, cmd: Command, rest: seq<Command>)
    ensures var s := Dispatch(db, down, cmd);
      var t := Run(s.db, down, rest);
      Run(db, down, [cmd] + rest) == Trace(t.db, [s.reply] + t.replies)
  {
    assert ([cmd] + rest)[1..] == rest;
  }

  /** Running two commands */
  lemma RunPair(db: Db, down: set<Verb>, a: Command, b: Command)
    ensures var s1 := Dispatch(db, down, a);
      var s2 := Dispatch(s1.db, down, b);
      Run(db, down, [a, b]) == Trace(s2.db, [s1.reply, s2.reply])
  {
    assert [a, b] == [a] + [b];
    RunCons(db, down, a, [b]);
    var s1 := Dispatch(db, down, a);
    assert [b] == [b] + [];
    RunCons(s1.db, down, b, []);
  }

  /** What a key holds as a hash: `h`, or nothing when `h` is empty */
  predicate HoldsHash(db: Db, key: string, h: map<string, string>) {
    if key in db.data then db.data[key] == Hash(h) else h == map[]
  }

  /** HDEL removes the listed fields from a hash, dropping the key with the
      last one */
  lemma HDelOnHash(db: Db, key: string, h: map<string, string>, fs: seq<string>)
    requires |fs| > 0 && HoldsHash(db, key, h)
    ensures HoldsHash(Exec(db, HDel(key, fs)).db, key, Removed(h, fs))
  {
    var left := Removed(h, fs);
    if key in db.data && |left| == 0 {
      assert left == map[];
    }
  }

  /** HMSET with a non-empty map adds its fields to a hash, overwriting */
  lemma HMSetOnHash(db: Db, key: string, h: map<string, string>, m: map<string, string>)
    requires |m| > 0 && HoldsHash(db, key, h)
    ensures Exec(db, HMSet(key, m)) == Step(db.(data := db.data[key := Hash(h + m)]), Answer(Status))
  {
    if key !in db.data {
      assert h + m == m;
    }
  }

  /** HMSET with an empty map is refused and changes nothing */
  lemma HMSetEmpty(db: Db, key: string, m: map<string, string>)
    requires |m| == 0
    ensures Exec(db, HMSet(key, m)) == Step(db, ErrorReply(WrongArity))
  {
  }

  /** EXPIRE with a positive ttl leaves the keyspace's contents alone */
  lemma ExpireKeepsData(db: Db, key: string, t: int)
    requires t > 0
    ensures Exec(db, Expire(key, t)).db.data == db.data
  {
  }

  /** Some listing of a set of field names, each exactly once */
  predicate Enumerates(order: seq<string>, h: map<string, string>) {
    && Distinct(order)
    && (forall f :: f in order ==> f in h)
    && (forall f :: f in h ==> f in order)
  }

  /** Lists the fields of a hash in an order the model leaves open, as the
      server's hash iteration order is not specified */
  method Enumerate(h: map<string, string>) returns (order: seq<string>)
    ensures Enumerates(order, h)
  {
    order := [];
    var rest := h.Keys;
    while rest != {}
      invariant rest <= h.Keys
      invariant Distinct(order)
      invariant forall f :: f in order <==> f in h && f !in rest
      decreases rest
    {
      var f :| f in rest;
      order := order + [f];
      rest := rest - {f};
    }
  }

  /** The connection to the server. `log` records every command sent. */
  class Client {
    var db: Db
    var down: set<Verb>
    var log: seq<Command>

    constructor (db0: Db, down0: set<Verb>)
      ensures db == db0 && down == down0 && log == []
    {
      db, down, log := db0, down0, [];
    }

    method Send(cmd: Command) returns (reply: Reply)
      modifies this
      ensures Dispatch(old(db), down, cmd) == Step(db, reply)
      ensures down == old(down) && log == old(log) + [cmd]
    {
      var s := Dispatch(db, down, cmd);
      db, reply, log := s.db, s.reply, log + [cmd];
    }

    /** HGETALL, with the hash's fields in the order the reply lists them */
    method HGetAllInOrder(key: string) returns (reply: Reply, order: seq<string>)
      modifies this
      ensures Dispatch(old(db), down, HGetAll(key)) == Step(db, reply)
      ensures down == old(down) && log == old(log) + [HGetAll(key)]
      ensures Enumerates(order, HashOf(reply))
    {
      reply := Send(HGetAll(key));
      order := Enumerate(HashOf(reply));
    }
  }

  /** The fields an HGETALL reply carries; none for an error */
  function HashOf(r: Reply): map<string, string> {
    if r.Answer? && r.value.Fields? then r.value.h else map[]
  }
}
