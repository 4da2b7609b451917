/** The engine: liveness decided at one instant, effects derived, appended and
    applied under one lock (internal/engine/engine.go, internal/engine/incr.go).

    Each operation is a plan computed from the store and the clock; performing it
    lets the admission gate and the log have their say. Class Engine is proved
    against that. */
module Engine {
  import opened Bytes
  import opened Decimal
  import opened Store
  import opened Aof
  import opened Replay
  import opened Log

  datatype Error = Draining | PersistenceUnavailable | LogIsClosed | BadRecord | NotAnInteger | IncrOverflow

  datatype Reply =
    | Done
    | Value(value: Option<Bytes>)
    | Values(values: seq<Option<Bytes>>)
    | Count(count: int)
    | Left(left: Remaining)
    | Flag(flag: bool)
    | Number(number: int)
    | Names(names: set<Bytes>)
    | Failure(error: Error)

  datatype Op =
    | Get(k: Bytes)
    | MGet(keys: seq<Bytes>)
    | Exists(keys: seq<Bytes>)
    | TTL(k: Bytes)
    | DBSize
    | LiveNames
    | Set(k: Bytes, v: Bytes, ttl: Option<int>)
    | Expire(k: Bytes, d: int)
    | Persist(k: Bytes)
    | Delete(keys: seq<Bytes>)
    | IncrBy(k: Bytes, delta: int)

  predicate IsMutation(op: Op) {
    op.Set? || op.Expire? || op.Persist? || op.Delete? || op.IncrBy?
  }

  // ---- plans ------------------------------------------------------------------------

  /** time.Time{}: what readNow gives when no key carries a deadline. */
  const ZERO_TIME: Time := -62_135_596_800 * 1_000_000_000

  function ReadNow(db: Db, now: Time): Time {
    if db.expires == map[] then ZERO_TIME else now
  }

  function Look(db: Db, keys: seq<Bytes>, now: Time): (r: seq<Option<Bytes>>)
    ensures |r| == |keys|
  {
    if keys == [] then [] else Look(db, keys[..|keys| - 1], now) + [db.Get(keys[|keys| - 1], now)]
  }

  function CountLive(db: Db, keys: seq<Bytes>, now: Time): nat {
    if keys == [] then 0
    else CountLive(db, keys[..|keys| - 1], now) + if db.Get(keys[|keys| - 1], now).Some? then 1 else 0
  }

  /** The live keys of a list, each once, in order of first occurrence. */
  function LiveOnes(db: Db, keys: seq<Bytes>, now: Time): seq<Bytes> {
    if keys == [] then []
    else
      var front, last := keys[..|keys| - 1], keys[|keys| - 1];
      if last in front || db.Get(last, now) == None then LiveOnes(db, front, now)
      else LiveOnes(db, front, now) + [last]
  }

  lemma {:induction false} LiveOnesExact(db: Db, keys: seq<Bytes>, now: Time)
    ensures forall k :: k in LiveOnes(db, keys, now) <==> k in keys && db.Get(k, now).Some?
    ensures forall i, j :: 0 <= i < j < |LiveOnes(db, keys, now)| ==> LiveOnes(db, keys, now)[i] != LiveOnes(db, keys, now)[j]
  {
    if keys != [] {
      var front := keys[..|keys| - 1];
      LiveOnesExact(db, front, now);
      assert keys == front + [keys[|keys| - 1]];
    }
  }

  /** Answer changes nothing; Tidy changes only what nobody can see and is not
      logged; Commit is logged and applied together. */
  datatype Plan =
    | Answer(reply: Reply)
    | Tidy(db: Db, reply: Reply)
    | Commit(record: Record, db: Db, reply: Reply)

  predicate Overflows(current: int, delta: int) {
    (delta > 0 && current > INT64_MAX - delta) || (delta < 0 && current < INT64_MIN - delta)
  }

  function Current(db: Db, k: Bytes, now: Time): Option<int> {
    match db.Get(k, now)
    case None => Some(0)
    case Some(text) => StoredInt(text)
  }

  function PlanPut(db: Db, k: Bytes, v: Bytes, deadline: Option<Time>, reply: Reply): Plan {
    Commit(DeriveSet(k, v, deadline), db.Put(k, v, deadline), reply)
  }

  function PlanOf(db: Db, op: Op, now: Time): Plan {
    match op
    case Get(k) => Answer(Value(db.Get(k, ReadNow(db, now))))
    case MGet(keys) => Answer(Values(Look(db, keys, ReadNow(db, now))))
    case Exists(keys) => Answer(Count(CountLive(db, keys, ReadNow(db, now))))
    case TTL(k) => Answer(Left(db.TTL(k, ReadNow(db, now))))
    case DBSize => Answer(Count(|db.Live(ReadNow(db, now)).data|))
    case LiveNames => Answer(Names(db.Live(ReadNow(db, now)).data.Keys))
    case Set(k, v, ttl) => PlanPut(db, k, v, if ttl.Some? then Some(now + ttl.value) else None, Done)
    case Expire(k, d) =>
      (match db.Get(k, now)
       case None => Answer(Flag(false))
       case Some(v) => PlanPut(db, k, v, Some(now + d), Flag(true)))
    case Persist(k) =>
      (match db.Get(k, now)
       case None => Answer(Flag(false))
       case Some(v) => if db.TTL(k, now).HasTTL? then PlanPut(db, k, v, None, Flag(true)) else Answer(Flag(false)))
    case Delete(keys) =>
      var live, rest := LiveOnes(db, keys, ReadNow(db, now)), db.Without(Named(keys));
      if live == [] then Tidy(rest, Count(0)) else Commit(DeriveDel(live), rest, Count(|live|))
    case IncrBy(k, delta) =>
      var t := ReadNow(db, now);
      match Current(db, k, t)
      case None => Answer(Failure(NotAnInteger))
      case Some(n) =>
        if Overflows(n, delta) then Answer(Failure(IncrOverflow))
        else PlanPut(db, k, FormatInt(n + delta), if db.Get(k, t).Some? then db.Deadline(k) else None, Number(n + delta))
  }

  // ---- performing a plan ---------------------------------------------------------------

  datatype Eng = Eng(db: Db, accepting: bool)

  datatype Outcome = Outcome(db: Db, reply: Reply, logged: Option<Record>)

  /** One operation under the lock. gate is the log's answer, None without a log. */
  function Perform(e: Eng, gate: Option<Gate>, op: Op, now: Time): Outcome {
    if IsMutation(op) && !e.accepting then Outcome(e.db, Failure(Draining), None)
    else
      match PlanOf(e.db, op, now)
      case Answer(reply) => Outcome(e.db, reply, None)
      case Tidy(db, reply) => Outcome(db, reply, None)
      case Commit(r, db, reply) =>
        match gate
        case None => Outcome(db, reply, None)
        case Some(Accepts) => Outcome(db, reply, Some(r))
        case Some(HasFailed) => Outcome(e.db, Failure(PersistenceUnavailable), None)
        case Some(IsClosed) => Outcome(e.db, Failure(LogIsClosed), None)
  }

  // ---- the object -----------------------------------------------------------------------

  class Engine {
    const store: Store
    const log: Log?
    var accepting: bool
    var appliedSeq: nat

    ghost function Model(): Eng
      reads this, store
    {
      Eng(store.Model(), accepting)
    }

    ghost function LogGate(): Option<Gate>
      reads this, log
    {
      if log == null then None else Some(log.Model().Gate())
    }

    constructor (log: Log?)
      ensures this.log == log && fresh(store) && store.Valid() && Model() == Eng(EMPTY, true)
    {
      var s := new Store();
      store := s;
      this.log := log;
      accepting := true;
      appliedSeq := 0;
    }

    /** The operation happened as performed: the reply, the store, and exactly
        the record it says on the log, numbered as the last applied. */
    twostate predicate Did(op: Op, now: Time, reply: Reply, seqNo: nat)
      reads this, store, log
    {
      var out := Perform(old(Model()), old(LogGate()), op, now);
      && reply == out.reply && Model() == Eng(out.db, old(accepting))
      && (log != null ==>
            log.Model() == if out.logged.Some? then old(log.Model()).Append(out.logged.value) else old(log.Model()))
      && (out.logged.Some? && log != null ==> seqNo == appliedSeq == log.appended)
      && (out.logged == None ==> seqNo == 0 && appliedSeq == old(appliedSeq))
    }

    function Clock(now: Time): (t: Time)
      reads this, store
      ensures t == ReadNow(store.Model(), now)
    {
      if !store.HasExpirations() then ZERO_TIME else now
    }

    method GetKey(key: Bytes, now: Time) returns (v: Option<Bytes>)
      ensures Answer(Value(v)) == PlanOf(store.Model(), Get(key), now)
    {
      v := store.Get(key, Clock(now));
    }

    method MGetKeys(keys: seq<Bytes>, now: Time) returns (out: seq<Option<Bytes>>)
      ensures Answer(Values(out)) == PlanOf(store.Model(), MGet(keys), now)
    {
      var t := Clock(now);
      out := [];
      var i := 0;
      while i < |keys|
        invariant 0 <= i <= |keys| && out == Look(store.Model(), keys[..i], t)
      {
        out := out + [store.Get(keys[i], t)];
        assert keys[..i + 1][..i] == keys[..i];
        i := i + 1;
      }
      assert keys[..i] == keys;
    }

    method CountExisting(keys: seq<Bytes>, now: Time) returns (n: nat)
      ensures Answer(Count(n)) == PlanOf(store.Model(), Exists(keys), now)
    {
      var t := Clock(now);
      n := 0;
      var i := 0;
      while i < |keys|
        invariant 0 <= i <= |keys| && n == CountLive(store.Model(), keys[..i], t)
      {
        if store.Get(keys[i], t).Some? { n := n + 1; }
        assert keys[..i + 1][..i] == keys[..i];
        i := i + 1;
      }
      assert keys[..i] == keys;
    }

    method TimeLeft(key: Bytes, now: Time) returns (left: Remaining)
      ensures Answer(Left(left)) == PlanOf(store.Model(), TTL(key), now)
    {
      left := store.TTL(key, Clock(now));
    }

    method Size(now: Time) returns (n: nat)
      ensures Answer(Count(n)) == PlanOf(store.Model(), DBSize, now)
    {
      n := store.Len(Clock(now));
    }

    /** Why commit refuses a record: the log's gate, then the encoder, which has
        no text for a deletion of no keys. */
    function Refusal(gate: Gate, rec: Record): Option<Error> {
      match gate
      case HasFailed => Some(PersistenceUnavailable)
      case IsClosed => Some(LogIsClosed)
      case Accepts => if rec == Record.Del([]) then Some(BadRecord) else None
    }

    /** commit: append; on refusal the caller must not apply. */
    method CommitRecord(rec: Record) returns (seqNo: nat, err: Option<Error>)
      modifies this`appliedSeq, log
      ensures log == null ==> seqNo == 0 && err == None && appliedSeq == old(appliedSeq)
      ensures log != null ==>
        && err == Refusal(old(log.Model()).Gate(), rec)
        && log.Model() == (if err == None then old(log.Model()).Append(rec) else old(log.Model()))
        && (if err == None then seqNo == appliedSeq == log.appended else seqNo == 0 && appliedSeq == old(appliedSeq))
    {
      if log == null { return 0, None; }
      var failure: AppendError;
      seqNo, failure := log.Append(rec);
      if failure == Shut(HasFailed) { return 0, Some(PersistenceUnavailable); }
      if failure == NotEncodable { return 0, Some(BadRecord); }
      if failure != NoError { return 0, Some(LogIsClosed); }
      appliedSeq := seqNo;
      return seqNo, None;
    }

    /** commitSet where what is applied is a plain store: both or neither. */
    method CommitSet(key: Bytes, value: Bytes, deadline: Option<Time>) returns (seqNo: nat, err: Option<Error>)
      requires store.Valid()
      modifies this`appliedSeq, store, log
      ensures store.Valid()
      ensures store.Model() == if err == None then old(store.Model()).Put(key, value, deadline) else old(store.Model())
      ensures log == null ==> seqNo == 0 && err == None && appliedSeq == old(appliedSeq)
      ensures log != null ==>
        && err == Refusal(old(log.Model()).Gate(), DeriveSet(key, value, deadline))
        && log.Model() == (if err == None then old(log.Model()).Append(DeriveSet(key, value, deadline)) else old(log.Model()))
        && (if err == None then seqNo == appliedSeq == log.appended else seqNo == 0 && appliedSeq == old(appliedSeq))
    {
      hide RecordText;
      seqNo, err := CommitRecord(DeriveSet(key, value, deadline));
      if err == None { store.Set(key, value, if deadline.Some? then deadline.value else ZERO_TIME, deadline.Some?); }
    }

    method SetKey(key: Bytes, value: Bytes, ttl: Option<int>, now: Time) returns (reply: Reply, seqNo: nat)
      requires store.Valid()
      modifies this`appliedSeq, store, log
      ensures store.Valid() && Did(Op.Set(key, value, ttl), now, reply, seqNo)
    {
      hide Db.Put;
      hide RecordText;
      if !accepting { return Failure(Draining), 0; }
      var deadline := if ttl.Some? then Some(now + ttl.value) else None;
      var err: Option<Error>;
      seqNo, err := CommitSet(key, value, deadline);
      if err.Some? { return Failure(err.value), 0; }
      return Done, seqNo;
    }

    method ExpireKey(key: Bytes, d: int, now: Time) returns (reply: Reply, seqNo: nat)
      requires store.Valid()
      modifies this`appliedSeq, store, log
      ensures store.Valid() && Did(Expire(key, d), now, reply, seqNo)
    {
      hide Db.Live;
      hide FormatInt;
      hide StoredInt;
      hide LiveOnes;
      hide Db.Put;
      hide RecordText;
      if !accepting { return Failure(Draining), 0; }
      var value := store.Get(key, now);
      if value == None { return Flag(false), 0; }
      var err: Option<Error>;
      seqNo, err := CommitRecord(DeriveSet(key, value.value, Some(now + d)));
      if err.Some? { return Failure(err.value), 0; }
      var _ := store.Expire(key, now + d, now);
      return Flag(true), seqNo;
    }

    method PersistKey(key: Bytes, now: Time) returns (reply: Reply, seqNo: nat)
      requires store.Valid()
      modifies this`appliedSeq, store, log
      ensures store.Valid() && Did(Persist(key), now, reply, seqNo)
    {
      hide Db.Live;
      hide FormatInt;
      hide StoredInt;
      hide LiveOnes;
      hide Db.Put;
      hide RecordText;
      if !accepting { return Failure(Draining), 0; }
      var value := store.Get(key, now);
      if value == None { return Flag(false), 0; }
      if !store.TTL(key, now).HasTTL? { return Flag(false), 0; }
      var err: Option<Error>;
      seqNo, err := CommitRecord(DeriveSet(key, value.value, None));
      if err.Some? { return Failure(err.value), 0; }
      var _ := store.Persist(key, now);
      return Flag(true), seqNo;
    }

    method DeleteKeys(keys: seq<Bytes>, now: Time) returns (reply: Reply, seqNo: nat)
      requires store.Valid()
      modifies this`appliedSeq, store, log
      ensures store.Valid() && Did(Delete(keys), now, reply, seqNo)
    {
      hide Db.Live;
      hide FormatInt;
      hide StoredInt;
      hide LiveOnes;
      hide RecordText;
      if !accepting { return Failure(Draining), 0; }
      var live := FindLive(keys, Clock(now));
      if |live| == 0 {
        RemoveEach(keys);
        return Count(0), 0;
      }
      var err: Option<Error>;
      seqNo, err := CommitRecord(DeriveDel(live));
      if err.Some? { return Failure(err.value), 0; }
      RemoveEach(keys);
      return Count(|live|), seqNo;
    }

    /** The deduplicating scan of Delete. */
    method FindLive(keys: seq<Bytes>, t: Time) returns (live: seq<Bytes>)
      ensures live == LiveOnes(store.Model(), keys, t)
    {
      live := [];
      var seen: set<Bytes> := {};
      var i := 0;
      while i < |keys|
        invariant 0 <= i <= |keys| && live == LiveOnes(store.Model(), keys[..i], t)
        invariant forall k :: k in seen <==> k in keys[..i]
      {
        var k := keys[i];
        assert keys[..i + 1][..i] == keys[..i];
        if k !in seen {
          seen := seen + {k};
          if store.Get(k, t).Some? { live := live + [k]; }
        }
        i := i + 1;
      }
      assert keys[..i] == keys;
    }

    method RemoveEach(keys: seq<Bytes>)
      requires store.Valid()
      modifies store
      ensures store.Valid() && store.Model() == old(store.Model()).Without(Named(keys))
    {
      var i := 0;
      while i < |keys|
        invariant 0 <= i <= |keys| && store.Valid()
        invariant store.Model() == old(store.Model()).Without(Named(keys[..i]))
      {
        var _ := store.Delete(keys[i]);
        assert keys[..i + 1] == keys[..i] + [keys[i]];
        assert Named(keys[..i + 1]) == Named(keys[..i]) + {keys[i]};
        i := i + 1;
      }
      assert keys[..i] == keys;
    }

    /** The integer a key holds, zero when it is absent. */
    method CounterOf(key: Bytes, t: Time) returns (n: Option<int>)
      ensures n == Current(store.Model(), key, t)
    {
      hide StoredInt;
      var value := store.Get(key, t);
      if value == None { return Some(0); }
      n := ParseStoredInt(value.value);
    }

    method IncrKeyBy(key: Bytes, delta: int, now: Time) returns (reply: Reply, seqNo: nat)
      requires store.Valid()
      modifies this`appliedSeq, store, log
      ensures store.Valid() && Did(IncrBy(key, delta), now, reply, seqNo)
    {
      hide Db.Live;
      hide StoredInt;
      hide LiveOnes;
      hide Db.Put;
      hide RecordText;
      hide FormatInt;
      hide Current;
      if !accepting { return Failure(Draining), 0; }
      var t := Clock(now);
      var current := CounterOf(key, t);
      if current == None { return Failure(NotAnInteger), 0; }
      if Overflows(current.value, delta) { return Failure(IncrOverflow), 0; }
      var result := current.value + delta;
      var text := FormatInt(result);
      var deadline := if store.Get(key, t).Some? then store.ExpiresAt(key) else None;
      var err: Option<Error>;
      seqNo, err := CommitSet(key, text, deadline);
      if err.Some? { return Failure(err.value), 0; }
      return Number(result), seqNo;
    }

    method BeginDrain()
      modifies this`accepting
      ensures Model() == old(Model()).(accepting := false)
    {
      accepting := false;
    }
  }
}
