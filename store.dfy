/**
 * The Redis server the metrics write to, reduced to the commands the library sends. String
 * keys hold integers, set keys hold sets of member names, and a key may carry a time to live.
 * Time passing is an explicit event, and so is the server becoming unreachable.
 */
module Store {
  import opened Errors

  datatype DB = DB(values: map<string, int>, ttl: map<string, nat>, sets: map<string, set<string>>)

  const Empty: DB := DB(map[], map[], map[])

  /** The number stored at `k`, with a missing key read as 0 the way `INCRBY` reads it. */
  function Value(db: DB, k: string): int
  {
    if k in db.values then db.values[k] else 0
  }

  /** `SMEMBERS k`: a missing key is the empty set. */
  function Members(db: DB, k: string): set<string>
  {
    if k in db.sets then db.sets[k] else {}
  }

  /** The commands a pipeline carries. `Set` with `ex == 0` is `SET` without `EX`. */
  datatype Command =
    | SAdd(key: string, members: set<string>)
    | SRem(key: string, members: set<string>)
    | Set(key: string, value: int, ex: nat)
    | IncrBy(key: string, amount: int)
    | Expire(key: string, seconds: nat)
    | Delete(keys: set<string>)

  /** What the client returns for a command: a count or new value, or the `OK`/flag of `SET` and `EXPIRE`. */
  datatype Reply = IntReply(n: int) | BoolReply(b: bool)

  function Incr(key: string): Command { IncrBy(key, 1) }

  predicate Exists(db: DB, k: string)
  {
    k in db.values || k in db.sets
  }

  function DeleteKeys(db: DB, ks: set<string>): (r: DB)
    ensures forall k :: Exists(r, k) <==> Exists(db, k) && k !in ks
  {
    DB(map k | k in db.values && k !in ks :: db.values[k],
       map k | k in db.ttl && k !in ks :: db.ttl[k],
       map k | k in db.sets && k !in ks :: db.sets[k])
  }

  /** The set at `k` replaced by `ms`; a set that becomes empty is removed, as Redis removes it. */
  function WithMembers(db: DB, k: string, ms: set<string>): (r: DB)
    ensures r.values == db.values && r.ttl == db.ttl
    ensures forall k' :: Members(r, k') == if k' == k then ms else Members(db, k')
  {
    if ms == {} then db.(sets := db.sets - {k}) else db.(sets := db.sets[k := ms])
  }

  /** Replacing a set twice is replacing it with the second set. */
  lemma WithMembersTwice(db: DB, k: string, a: set<string>, b: set<string>)
    ensures WithMembers(WithMembers(db, k, a), k, b) == WithMembers(db, k, b)
  {
    var r, r' := WithMembers(WithMembers(db, k, a), k, b), WithMembers(db, k, b);
    assert r.sets == r'.sets;
  }

  /** Replacing a set by the members it already has changes nothing. */
  lemma WithSameMembers(db: DB, k: string)
    requires Members(db, k) != {}
    ensures WithMembers(db, k, Members(db, k)) == db
  {
    assert WithMembers(db, k, Members(db, k)).sets == db.sets;
  }

  /** One command's effect and reply. */
  function Apply(db: DB, c: Command): (DB, Reply)
  {
    match c
    case SAdd(k, ms) =>
      (WithMembers(db, k, Members(db, k) + ms), IntReply(|ms - Members(db, k)|))
    case SRem(k, ms) =>
      (WithMembers(db, k, Members(db, k) - ms), IntReply(|ms * Members(db, k)|))
    case Set(k, v, ex) =>
      var ttl := if ex == 0 then db.ttl - {k} else db.ttl[k := ex];
      (db.(values := db.values[k := v], ttl := ttl), BoolReply(true))
    case IncrBy(k, n) =>
      (db.(values := db.values[k := Value(db, k) + n]), IntReply(Value(db, k) + n))
    case Expire(k, s) =>
      if !Exists(db, k) then (db, BoolReply(false))
      else if s == 0 then (DeleteKeys(db, {k}), BoolReply(true))
      else (db.(ttl := db.ttl[k := s]), BoolReply(true))
    case Delete(ks) =>
      var present := set k | k in ks && Exists(db, k);
      (DeleteKeys(db, ks), IntReply(|present|))
  }

  /** A pipeline run as one transaction: the commands in order, and their replies in order. */
  function Exec(db: DB, cs: seq<Command>): (r: (DB, seq<Reply>))
    ensures |r.1| == |cs|
    decreases |cs|
  {
    if |cs| == 0 then (db, [])
    else
      var step := Apply(db, cs[0]);
      var rest := Exec(step.0, cs[1..]);
      (rest.0, [step.1] + rest.1)
  }

  /** Running two pipelines one after the other is running their concatenation. */
  lemma {:induction false} ExecConcat(db: DB, a: seq<Command>, b: seq<Command>)
    ensures Exec(db, a + b).0 == Exec(Exec(db, a).0, b).0
    ensures Exec(db, a + b).1 == Exec(db, a).1 + Exec(Exec(db, a).0, b).1
    decreases |a|
  {
    if |a| > 0 {
      assert (a + b)[0] == a[0] && (a + b)[1..] == a[1..] + b;
      ExecConcat(Apply(db, a[0]).0, a[1..], b);
    } else {
      assert a + b == b;
    }
  }

  /** Time passing: keys whose time to live runs out are gone, the others have less left. */
  function Elapse(db: DB, seconds: nat): (r: DB)
    ensures forall k :: k in r.values <==> k in db.values && !(k in db.ttl && db.ttl[k] <= seconds)
    ensures forall k :: k in r.sets <==> k in db.sets && !(k in db.ttl && db.ttl[k] <= seconds)
    ensures forall k :: k in r.values ==> r.values[k] == db.values[k]
    ensures forall k :: k in db.values && k !in db.ttl ==> k in r.values
  {
    var gone := set k | k in db.ttl && db.ttl[k] <= seconds;
    DB(map k | k in db.values && k !in gone :: db.values[k],
       map k | k in db.ttl && k !in gone :: db.ttl[k] - seconds,
       map k | k in db.sets && k !in gone :: db.sets[k])
  }

  /** The server as the client sees it: its data, and whether it can be reached. */
  class Redis {
    var db: DB
    var available: bool

    constructor (db: DB)
      ensures this.db == db && available
    {
      this.db := db;
      available := true;
    }

    /** `pipeline.execute()`: all commands or, when the server cannot be reached, none and an error. */
    method Execute(cmds: seq<Command>) returns (r: Outcome<seq<Reply>>)
      modifies this
      ensures available == old(available)
      ensures old(available) ==> db == Exec(old(db), cmds).0 && r == Returned(Exec(old(db), cmds).1)
      ensures !old(available) ==> db == old(db) && r == Raised(ConnectionError)
    {
      if !available {
        return Raised(ConnectionError);
      }
      var (d, replies) := Exec(db, cmds);
      db := d;
      r := Returned(replies);
    }

    /** A single command sent on its own. */
    method Run(cmd: Command) returns (r: Outcome<Reply>)
      modifies this
      ensures available == old(available)
      ensures old(available) ==> db == Apply(old(db), cmd).0 && r == Returned(Apply(old(db), cmd).1)
      ensures !old(available) ==> db == old(db) && r == Raised(ConnectionError)
    {
      if !available {
        return Raised(ConnectionError);
      }
      var (d, reply) := Apply(db, cmd);
      db := d;
      r := Returned(reply);
    }

    /** `GET k`. */
    method Get(k: string) returns (r: Outcome<Option<int>>)
      ensures available ==> r == Returned(if k in db.values then Some(db.values[k]) else None)
      ensures !available ==> r == Raised(ConnectionError)
    {
      if !available {
        return Raised(ConnectionError);
      }
      r := Returned(if k in db.values then Some(db.values[k]) else None);
    }

    /** `SMEMBERS k`. */
    method SMembers(k: string) returns (r: Outcome<set<string>>)
      ensures available ==> r == Returned(Members(db, k))
      ensures !available ==> r == Raised(ConnectionError)
    {
      if !available {
        return Raised(ConnectionError);
      }
      r := Returned(Members(db, k));
    }

    /** The expiry event: `seconds` pass on the server's clock. */
    method Tick(seconds: nat)
      modifies this
      ensures db == Elapse(old(db), seconds) && available == old(available)
    {
      db := Elapse(db, seconds);
    }

    /** The server goes away or comes back. */
    method SetAvailable(up: bool)
      modifies this
      ensures available == up && db == old(db)
    {
      available := up;
    }
  }
}
