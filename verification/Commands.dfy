/** What each command does, said on the store's two maps: its reply, its effect on
    the key it names and on every other, the record it logs, and when it is
    refused. None of it mentions plans. */
module Commands {
  import opened Bytes
  import opened Decimal
  import opened Store
  import opened Aof
  import opened Replay
  import opened Log
  import opened Engine
  import opened Mirror

  // ---- what is there to be seen ------------------------------------------------------------

  /** A key is there: held, and its deadline, if it has one, still to come. */
  predicate There(db: Db, k: Bytes, now: Time) {
    k in db.data && (k in db.expires ==> now < db.expires[k])
  }

  function ValueOf(db: Db, k: Bytes, now: Time): Option<Bytes> {
    if There(db, k, now) then Some(db.data[k]) else None
  }

  /** Keys outside a set have the value and the deadline they had. */
  ghost predicate OthersKept(a: Db, b: Db, keys: set<Bytes>) {
    forall k :: k !in keys ==>
      && (k in b.data <==> k in a.data) && (k in a.data ==> b.data[k] == a.data[k])
      && (k in b.expires <==> k in a.expires) && (k in a.expires ==> b.expires[k] == a.expires[k])
  }

  /** The key has this value and this deadline, or none. */
  predicate Has(db: Db, k: Bytes, v: Bytes, deadline: Option<Time>) {
    && k in db.data && db.data[k] == v
    && (deadline.Some? <==> k in db.expires) && (deadline.Some? ==> db.expires[k] == deadline.value)
  }

  /** Whatever instant readNow picks, it decides as the real one would. */
  lemma ThereNow(db: Db, k: Bytes, now: Time)
    requires db.Wf()
    ensures db.Get(k, ReadNow(db, now)) == ValueOf(db, k, now) == db.Get(k, now)
    ensures db.TTL(k, ReadNow(db, now)) == db.TTL(k, now)
  {
  }

  // ---- reading ----------------------------------------------------------------------------------

  /** A read answers, whatever the gate and the log, and changes and logs nothing. */
  lemma ReadsOnly(e: Eng, gate: Option<Gate>, op: Op, now: Time)
    requires !IsMutation(op)
    ensures var out := Perform(e, gate, op, now); out.db == e.db && out.logged == None && !out.reply.Failure?
  {
    hide Look;
    hide CountLive;
  }

  lemma GetAnswers(e: Eng, gate: Option<Gate>, k: Bytes, now: Time)
    requires e.db.Wf()
    ensures Perform(e, gate, Get(k), now).reply == Value(ValueOf(e.db, k, now))
  {
    ThereNow(e.db, k, now);
    hide ReadNow;
  }

  lemma {:induction false} LookExact(db: Db, keys: seq<Bytes>, t: Time, now: Time)
    requires db.Wf() && t == ReadNow(db, now)
    ensures |Look(db, keys, t)| == |keys|
    ensures forall i :: 0 <= i < |keys| ==> Look(db, keys, t)[i] == ValueOf(db, keys[i], now)
    ensures CountLive(db, keys, t) == |set i | 0 <= i < |keys| && There(db, keys[i], now)|
  {
    hide ReadNow;
    hide There;
    if keys != [] {
      var n := |keys| - 1;
      var front := keys[..n];
      LookExact(db, front, t, now);
      ThereNow(db, keys[n], now);
      var a, b := set i | 0 <= i < n && There(db, front[i], now), set i | 0 <= i < |keys| && There(db, keys[i], now);
      assert b == if There(db, keys[n], now) then a + {n} else a;
    }
  }

  /** MGET: one answer per key asked for, in the order asked. */
  lemma MGetAnswers(e: Eng, gate: Option<Gate>, keys: seq<Bytes>, now: Time)
    requires e.db.Wf()
    ensures var r := Perform(e, gate, MGet(keys), now).reply;
            r.Values? && |r.values| == |keys| && forall i :: 0 <= i < |keys| ==> r.values[i] == ValueOf(e.db, keys[i], now)
  {
    LookExact(e.db, keys, ReadNow(e.db, now), now);
    hide Look;
  }

  /** EXISTS: how many of the places in the list hold a key that is there. */
  lemma ExistsAnswers(e: Eng, gate: Option<Gate>, keys: seq<Bytes>, now: Time)
    requires e.db.Wf()
    ensures Perform(e, gate, Exists(keys), now).reply == Count(|set i | 0 <= i < |keys| && There(e.db, keys[i], now)|)
  {
    LookExact(e.db, keys, ReadNow(e.db, now), now);
    hide CountLive;
  }

  lemma TTLAnswers(e: Eng, gate: Option<Gate>, k: Bytes, now: Time)
    requires e.db.Wf()
    ensures Perform(e, gate, TTL(k), now).reply ==
            Left(if !There(e.db, k, now) then NoKey
                 else if k in e.db.expires then HasTTL(e.db.expires[k] - now) else NoTTL)
  {
    ThereNow(e.db, k, now);
    hide ReadNow;
  }

  /** DBSIZE and the names KEYS and SCAN list: the keys that are there. */
  lemma SizeAnswers(e: Eng, gate: Option<Gate>, now: Time)
    requires e.db.Wf()
    ensures var names := set k | k in e.db.data && There(e.db, k, now);
            && Perform(e, gate, DBSize, now).reply == Count(|names|)
            && Perform(e, gate, LiveNames, now).reply == Names(names)
  {
    ReadNowHarmless(e.db, now);
    hide ReadNow;
    assert e.db.Live(now).data.Keys == set k | k in e.db.data && There(e.db, k, now);
  }

  // ---- when a write is refused -----------------------------------------------------------------

  /** The log takes records exactly while it has neither failed nor begun to close. */
  lemma GateExact(c: Core)
    ensures c.Gate() == Accepts <==> !c.failed && !c.closing && !c.closed
    ensures c.Gate() == HasFailed <==> c.failed
  {
  }

  /** Why a write that has something to log is refused, if it is. */
  function Obstacle(e: Eng, gate: Option<Gate>): Option<Error> {
    if !e.accepting then Some(Draining)
    else if gate == Some(HasFailed) then Some(PersistenceUnavailable)
    else if gate == Some(IsClosed) then Some(LogIsClosed)
    else None
  }

  /** A reply that tells the client something was written. */
  predicate Claims(reply: Reply) {
    reply == Done || reply == Flag(true) || reply.Number? || (reply.Count? && reply.count > 0)
  }

  /** A write that claims an effect met no obstacle and is on the log, if there is
      one; a write that fails has changed and logged nothing; and what is logged
      has been claimed. */
  lemma ClaimsAreLogged(e: Eng, gate: Option<Gate>, op: Op, now: Time)
    requires IsMutation(op)
    ensures var out := Perform(e, gate, op, now);
            && (Claims(out.reply) ==> Obstacle(e, gate) == None && (gate.Some? <==> out.logged.Some?))
            && (out.reply.Failure? ==> out.db == e.db && out.logged == None)
            && (out.logged.Some? ==> Claims(out.reply))
  {
    hide LiveOnes;
    hide FormatInt;
    hide StoredInt;
    hide Db.Put;
    hide Db.Without;
  }

  /** Each obstacle, alone, is reported as itself; none leaves no such failure. */
  lemma ObstacleReported(e: Eng, gate: Option<Gate>, op: Op, now: Time)
    requires IsMutation(op)
    ensures var out := Perform(e, gate, op, now);
            && (!e.accepting ==> out.reply == Failure(Draining))
            && (out.reply.Failure? && out.reply.error != NotAnInteger && out.reply.error != IncrOverflow ==>
                  Obstacle(e, gate) == Some(out.reply.error))
  {
    hide LiveOnes;
    hide FormatInt;
    hide StoredInt;
  }

  // ---- writing -----------------------------------------------------------------------------------

  /** A write of one pair: performed, or refused with the obstacle. */
  ghost predicate Wrote(e: Eng, gate: Option<Gate>, out: Outcome, k: Bytes, v: Bytes, deadline: Option<Time>, reply: Reply) {
    if Obstacle(e, gate).Some? then out == Outcome(e.db, Failure(Obstacle(e, gate).value), None)
    else
      && out.reply == reply && Has(out.db, k, v, deadline) && OthersKept(e.db, out.db, {k})
      && out.logged == (if gate == None then None else Some(Record.Set(k, v, if deadline == None then None else Some(deadline.value / 1_000_000))))
  }

  lemma PutWrites(e: Eng, gate: Option<Gate>, k: Bytes, v: Bytes, deadline: Option<Time>, reply: Reply, op: Op, now: Time)
    requires IsMutation(op) && PlanOf(e.db, op, now) == PlanPut(e.db, k, v, deadline, reply)
    ensures Wrote(e, gate, Perform(e, gate, op, now), k, v, deadline, reply)
  {
    hide PlanOf;
  }

  /** SET: the key has the value and the deadline given, or no deadline if none is
      given, and nothing else changes. */
  lemma SetWrites(e: Eng, gate: Option<Gate>, k: Bytes, v: Bytes, ttl: Option<int>, now: Time)
    ensures Wrote(e, gate, Perform(e, gate, Op.Set(k, v, ttl), now), k, v, if ttl == None then None else Some(now + ttl.value), Done)
  {
    PutWrites(e, gate, k, v, if ttl == None then None else Some(now + ttl.value), Done, Op.Set(k, v, ttl), now);
  }

  /** EXPIRE: a key that is there keeps its value and gets the deadline; for any
      other the answer is no, whatever the log says, and nothing changes. */
  lemma ExpireWrites(e: Eng, gate: Option<Gate>, k: Bytes, d: int, now: Time)
    ensures var out := Perform(e, gate, Expire(k, d), now);
            if There(e.db, k, now) then Wrote(e, gate, out, k, e.db.data[k], Some(now + d), Flag(true))
            else out == Outcome(e.db, if e.accepting then Flag(false) else Failure(Draining), None)
  {
    hide Wrote;
    if There(e.db, k, now) { PutWrites(e, gate, k, e.db.data[k], Some(now + d), Flag(true), Expire(k, d), now); }
  }

  /** PERSIST: a key that is there with a deadline keeps its value and loses the
      deadline; for any other the answer is no and nothing changes. */
  lemma PersistWrites(e: Eng, gate: Option<Gate>, k: Bytes, now: Time)
    ensures var out := Perform(e, gate, Persist(k), now);
            if There(e.db, k, now) && k in e.db.expires then Wrote(e, gate, out, k, e.db.data[k], None, Flag(true))
            else out == Outcome(e.db, if e.accepting then Flag(false) else Failure(Draining), None)
  {
    hide Wrote;
    if There(e.db, k, now) && k in e.db.expires { PutWrites(e, gate, k, e.db.data[k], None, Flag(true), Persist(k), now); }
  }

  /** INCRBY: the integer the key holds, or 0 if it is not there, and the deadline
      it has, or none; a value that no integer writes is refused, and so is a sum
      outside int64. */
  lemma IncrWrites(e: Eng, gate: Option<Gate>, k: Bytes, delta: int, n: int, now: Time)
    requires e.db.Wf() && IsInt64(n)
    requires if There(e.db, k, now) then e.db.data[k] == FormatInt(n) else n == 0
    ensures var out := Perform(e, gate, IncrBy(k, delta), now);
            var deadline := if There(e.db, k, now) && k in e.db.expires then Some(e.db.expires[k]) else None;
            if e.accepting && !IsInt64(n + delta) then out == Outcome(e.db, Failure(IncrOverflow), None)
            else Wrote(e, gate, out, k, FormatInt(n + delta), deadline, Number(n + delta))
  {
    hide Wrote;
    hide FormatInt;
    hide StoredInt;
    hide ReadNow;
    var t := ReadNow(e.db, now);
    ThereNow(e.db, k, now);
    FormattedStoredInt(n);
    assert Current(e.db, k, t) == Some(n);
    var deadline := if There(e.db, k, now) && k in e.db.expires then Some(e.db.expires[k]) else None;
    if IsInt64(n + delta) {
      PutWrites(e, gate, k, FormatInt(n + delta), deadline, Number(n + delta), IncrBy(k, delta), now);
    } else if !e.accepting {
      DrainingWrote(e, gate, IncrBy(k, delta), k, FormatInt(n + delta), deadline, Number(n + delta), now);
    }
  }

  lemma DrainingWrote(e: Eng, gate: Option<Gate>, op: Op, k: Bytes, v: Bytes, deadline: Option<Time>, reply: Reply, now: Time)
    requires IsMutation(op) && !e.accepting
    ensures Wrote(e, gate, Perform(e, gate, op, now), k, v, deadline, reply)
  {
    hide PlanOf;
  }

  lemma IncrRefuses(e: Eng, gate: Option<Gate>, k: Bytes, delta: int, now: Time)
    requires e.db.Wf() && e.accepting && There(e.db, k, now)
    requires forall n :: IsInt64(n) ==> e.db.data[k] != FormatInt(n)
    ensures Perform(e, gate, IncrBy(k, delta), now) == Outcome(e.db, Failure(NotAnInteger), None)
  {
    hide FormatInt;
    hide StoredInt;
    hide ReadNow;
    ThereNow(e.db, k, now);
    StoredIntExact(e.db.data[k]);
  }

  /** DEL: every key named is gone, dead ones included, and nothing else changes;
      the count is of the different ones that were there, and exactly those are
      logged. If none was, there is nothing to log and no log can refuse it. */
  lemma DeleteWrites(e: Eng, gate: Option<Gate>, keys: seq<Bytes>, now: Time)
    requires e.db.Wf()
    ensures var out := Perform(e, gate, Delete(keys), now);
            var live := set k | k in keys && There(e.db, k, now);
            if !e.accepting then out == Outcome(e.db, Failure(Draining), None)
            else if live != {} && Obstacle(e, gate).Some? then out == Outcome(e.db, Failure(Obstacle(e, gate).value), None)
            else
              && out.reply == Count(|live|)
              && (forall k :: k in keys ==> k !in out.db.data && k !in out.db.expires)
              && OthersKept(e.db, out.db, Named(keys))
              && (out.logged.Some? <==> live != {} && gate.Some?)
              && (out.logged.Some? ==> out.logged.value.Del? && Listing(out.logged.value.keys, live))
  {
    hide LiveOnes;
    hide ReadNow;
    var t := ReadNow(e.db, now);
    LiveListing(e.db, keys, now);
    var ones, live := LiveOnes(e.db, keys, t), set k | k in keys && There(e.db, k, now);
    ListingSize(ones, live);
    if live == {} { assert |ones| == 0; }
  }

  lemma LiveListing(db: Db, keys: seq<Bytes>, now: Time)
    requires db.Wf()
    ensures Listing(LiveOnes(db, keys, ReadNow(db, now)), set k | k in keys && There(db, k, now))
  {
    hide ReadNow;
    hide There;
    LiveOnesExact(db, keys, ReadNow(db, now));
    forall k
      ensures db.Get(k, ReadNow(db, now)).Some? <==> There(db, k, now)
    {
      ThereNow(db, k, now);
    }
  }

  lemma {:induction false} ListingSize(xs: seq<Bytes>, s: set<Bytes>)
    requires Listing(xs, s)
    ensures |xs| == |s|
  {
    if xs == [] {
      assert s == {};
    } else {
      var last, front := xs[|xs| - 1], xs[..|xs| - 1];
      assert xs == front + [last] && last in s;
      assert forall i :: 0 <= i < |front| ==> front[i] == xs[i];
      ListingSize(front, s - {last});
    }
  }

  // ---- reading back what was written --------------------------------------------------------------

  /** The keys a command may change. */
  function Touches(op: Op): set<Bytes> {
    match op
    case Set(k, _, _) => {k}
    case Expire(k, _) => {k}
    case Persist(k) => {k}
    case Delete(keys) => Named(keys)
    case IncrBy(k, _) => {k}
    case _ => {}
  }

  /** No command changes a key it does not name, nor logs a record that does. */
  lemma OnlyTouched(e: Eng, gate: Option<Gate>, op: Op, now: Time)
    requires e.db.Wf()
    ensures var out := Perform(e, gate, op, now);
            && out.db.Wf() && OthersKept(e.db, out.db, Touches(op))
            && (out.logged.Some? ==> RecordKeys(out.logged.value) <= Touches(op))
  {
    hide PlanOf;
    hide OthersKept;
    hide RecordKeys;
    hide Db.Live;
    PlanWithin(e.db, op, now);
    PerformSame(e, e, gate, op, now);
    NothingChanged(e.db, Touches(op));
  }

  ghost predicate Within(db: Db, p: Plan, keys: set<Bytes>) {
    match p
    case Answer(_) => true
    case Tidy(d, _) => OthersKept(db, d, keys)
    case Commit(r, d, _) => OthersKept(db, d, keys) && RecordKeys(r) <= keys
  }

  lemma PutWithin(db: Db, k: Bytes, v: Bytes, deadline: Option<Time>, reply: Reply)
    ensures Within(db, PlanPut(db, k, v, deadline, reply), {k})
  {
  }

  lemma DeleteWithin(db: Db, keys: seq<Bytes>, now: Time)
    ensures Within(db, PlanOf(db, Delete(keys), now), Named(keys))
  {
    hide LiveOnes;
    LiveOnesExact(db, keys, ReadNow(db, now));
  }

  lemma PlanWithin(db: Db, op: Op, now: Time)
    ensures Within(db, PlanOf(db, op, now), Touches(op))
  {
    hide LiveOnes;
    hide FormatInt;
    hide StoredInt;
    hide PlanPut;
    hide OthersKept;
    hide RecordKeys;
    match op
    case Set(k, v, ttl) => PutWithin(db, k, v, if ttl.Some? then Some(now + ttl.value) else None, Done);
    case Expire(k, d) => if db.Get(k, now).Some? { PutWithin(db, k, db.Get(k, now).value, Some(now + d), Flag(true)); }
    case Persist(k) => if db.Get(k, now).Some? { PutWithin(db, k, db.Get(k, now).value, None, Flag(true)); }
    case Delete(keys) => DeleteWithin(db, keys, now);
    case IncrBy(k, delta) =>
      var t := ReadNow(db, now);
      var n := Current(db, k, t);
      if n.Some? {
        PutWithin(db, k, FormatInt(n.value + delta), if db.Get(k, t).Some? then db.Deadline(k) else None, Number(n.value + delta));
      }
    case _ =>
  }

  lemma NothingChanged(db: Db, keys: set<Bytes>)
    ensures OthersKept(db, db, keys)
  {
  }

  function RecordKeys(r: Record): set<Bytes> {
    match r
    case Set(k, _, _) => {k}
    case Del(keys) => Named(keys)
  }

  /** What may happen between a write and a read: commands, under whatever the log
      answers, reclamation, and the beginning of a drain. */
  datatype Event =
    | Client(op: Op, gate: Option<Gate>, now: Time)
    | Sweep(now: Time, gone: set<Bytes>)
    | Drain

  function After(e: Eng, ev: Event): Eng {
    match ev
    case Client(op, gate, now) => e.(db := Perform(e, gate, op, now).db)
    case Sweep(_, gone) => e.(db := e.db.Without(gone))
    case Drain => e.(accepting := false)
  }

  function AfterAll(e: Eng, evs: seq<Event>): Eng
    decreases |evs|
  {
    if evs == [] then e else AfterAll(After(e, evs[0]), evs[1..])
  }

  /** Nothing touches the key, only expired keys are swept, and all by an instant. */
  ghost predicate Apart(e: Eng, evs: seq<Event>, k: Bytes, end: Time)
    decreases |evs|
  {
    evs == [] ||
    (&& (evs[0].Client? ==> k !in Touches(evs[0].op) && evs[0].now <= end)
     && (evs[0].Sweep? ==> evs[0].now <= end && forall x :: x in evs[0].gone ==> e.db.Expired(x, evs[0].now))
     && Apart(After(e, evs[0]), evs[1..], k, end))
  }

  lemma {:induction false} HeldThroughout(e: Eng, evs: seq<Event>, k: Bytes, v: Bytes, deadline: Option<Time>, end: Time)
    requires e.db.Wf() && Has(e.db, k, v, deadline) && Apart(e, evs, k, end) && (deadline.Some? ==> end < deadline.value)
    ensures AfterAll(e, evs).db.Wf() && Has(AfterAll(e, evs).db, k, v, deadline)
    decreases |evs|
  {
    hide Perform;
    if evs != [] {
      if evs[0].Client? { OnlyTouched(e, evs[0].gate, evs[0].op, evs[0].now); }
      HeldThroughout(After(e, evs[0]), evs[1..], k, v, deadline, end);
    }
  }

  /** A SET that was answered Done is read back by GET, and its time left by TTL, at
      any later instant before its deadline, whatever was done to other keys,
      reclaimed or refused in between. */
  lemma WriteIsRead(e: Eng, gate: Option<Gate>, k: Bytes, v: Bytes, ttl: Option<int>, now: Time, evs: seq<Event>, end: Time, g: Option<Gate>)
    requires e.db.Wf() && Perform(e, gate, Op.Set(k, v, ttl), now).reply == Done
    requires Apart(After(e, Client(Op.Set(k, v, ttl), gate, now)), evs, k, end) && (ttl.Some? ==> end < now + ttl.value)
    ensures var f := AfterAll(After(e, Client(Op.Set(k, v, ttl), gate, now)), evs);
            && Perform(f, g, Get(k), end).reply == Value(Some(v))
            && Perform(f, g, TTL(k), end).reply == Left(if ttl == None then NoTTL else HasTTL(now + ttl.value - end))
  {
    hide Perform;
    var f := After(e, Client(Op.Set(k, v, ttl), gate, now));
    SetWrites(e, gate, k, v, ttl, now);
    OnlyTouched(e, gate, Op.Set(k, v, ttl), now);
    HeldThroughout(f, evs, k, v, if ttl == None then None else Some(now + ttl.value), end);
    GetAnswers(AfterAll(f, evs), g, k, end);
    TTLAnswers(AfterAll(f, evs), g, k, end);
  }
}
