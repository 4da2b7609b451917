/** Which commands leave a log that cannot be read back, when clients are held to
    the default limits (internal/resp/reader.go, internal/aof/record.go).

    Replay decodes records with those limits too, but a record is not the frame
    that caused it: EXPIRE writes the value the key holds, and a deadline is
    written as milliseconds. The only records at fault are SETs with a deadline,
    and a bound on sizes says which. */
module Sizes {
  import opened Bytes
  import opened Decimal
  import opened Resp
  import opened Store
  import opened Aof
  import opened Replay
  import opened Log
  import opened Engine
  import opened System

  /** What a frame within the limits says about the operation it carries. */
  predicate Framed(op: Op) {
    match op
    case Set(k, v, _) => CommandFits([VERB_SET, k, v], DEFAULT_LIMITS)
    case Delete(keys) => CommandFits([VERB_DEL] + keys, DEFAULT_LIMITS)
    case IncrBy(k, _) => |k| <= DEFAULT_LIMITS.maxBulkLength
    case _ => true
  }

  /** Every key could be logged again without a deadline, and every deadline is
      one a record can hold. */
  ghost predicate Relogs(db: Db) {
    && (forall k :: k in db.data ==> Recoverable(Record.Set(k, db.data[k], None)))
    && forall k :: k in db.expires ==> IsInt64(db.expires[k] / MILLISECOND)
  }

  /** The verb, key, value, option and deadline of a SET within the limit. */
  predicate DeadlineFits(k: Bytes, v: Bytes, at: Time) {
    var ms := at / MILLISECOND;
    IsInt64(ms) && 7 + |k| + |v| + |FormatInt(ms)| <= DEFAULT_LIMITS.maxCommandBytes
  }

  /** What a caller can check before an operation: only SET with a deadline and
      EXPIRE of a live key, which logs the value held, have anything to fit. */
  predicate Safe(db: Db, op: Op, now: Time) {
    match op
    case Set(k, v, Some(ttl)) => DeadlineFits(k, v, now + ttl)
    case Expire(k, d) => db.Get(k, now).Some? ==> DeadlineFits(k, db.Get(k, now).value, now + d)
    case _ => true
  }

  /** A SET of a pair that could be logged without a deadline. */
  lemma SetExact(k: Bytes, v: Bytes, deadline: Option<Time>)
    requires Recoverable(Record.Set(k, v, None))
    ensures Recoverable(DeriveSet(k, v, deadline)) <==> deadline == None || DeadlineFits(k, v, deadline.value)
  {
    hide Recoverable;
    hide FormatInt;
    SetRecoverable(k, v, None);
    SetRecoverable(k, v, DeriveSet(k, v, deadline).expireAtMs);
  }

  /** A counter's text is short, so any key within the limits can hold one. */
  lemma CounterRelogs(k: Bytes, n: int)
    requires |k| <= DEFAULT_LIMITS.maxBulkLength && IsInt64(n)
    ensures Recoverable(Record.Set(k, FormatInt(n), None))
  {
    hide Recoverable;
    hide FormatInt;
    Int64TextLength(n);
    SetRecoverable(k, FormatInt(n), None);
  }

  /** Dropping dead keys and repeats makes a deletion no larger. */
  lemma {:induction false} LiveOnesSmaller(db: Db, keys: seq<Bytes>, now: Time)
    ensures |LiveOnes(db, keys, now)| <= |keys|
    ensures TotalBytes(LiveOnes(db, keys, now)) <= TotalBytes(keys)
  {
    if keys != [] {
      var front, last := keys[..|keys| - 1], keys[|keys| - 1];
      LiveOnesSmaller(db, front, now);
      assert keys == front + [last];
      TotalAppend(front, [last]);
      TotalAppend(LiveOnes(db, front, now), [last]);
    }
  }

  lemma DeletionRecoverable(db: Db, keys: seq<Bytes>, now: Time)
    requires CommandFits([VERB_DEL] + keys, DEFAULT_LIMITS) && LiveOnes(db, keys, now) != []
    ensures Recoverable(DeriveDel(LiveOnes(db, keys, now)))
  {
    var live := LiveOnes(db, keys, now);
    LiveOnesSmaller(db, keys, now);
    LiveOnesExact(db, keys, now);
    hide LiveOnes;
    hide TotalBytes;
    BulksFitTotal([VERB_DEL] + keys, 0, DEFAULT_LIMITS);
    BulksFitTotal([VERB_DEL] + live, 0, DEFAULT_LIMITS);
    TotalAppend([VERB_DEL], keys);
    TotalAppend([VERB_DEL], live);
    forall i | 0 <= i < |[VERB_DEL] + live|
      ensures |([VERB_DEL] + live)[i]| <= DEFAULT_LIMITS.maxBulkLength
    {
      if i > 0 {
        assert live[i - 1] in live;
        var j :| 0 <= j < |keys| && keys[j] == live[i - 1];
        assert ([VERB_DEL] + keys)[j + 1] == live[i - 1];
      }
    }
  }

  /** A plan whose record can be read back if and only if something fits, and
      that then leaves a store that relogs. */
  ghost predicate Sized(p: Plan, fits: bool) {
    match p
    case Answer(_) => true
    case Tidy(db, _) => Relogs(db)
    case Commit(r, db, _) => (Recoverable(r) <==> fits) && (fits ==> Relogs(db))
  }

  lemma PutSized(db: Db, k: Bytes, v: Bytes, deadline: Option<Time>, reply: Reply)
    requires Relogs(db) && Recoverable(Record.Set(k, v, None))
    ensures Sized(PlanPut(db, k, v, deadline, reply), deadline == None || DeadlineFits(k, v, deadline.value))
  {
    SetExact(k, v, deadline);
    hide Recoverable;
    hide FormatInt;
  }

  /** From a store that relogs, a framed operation plans a record that can be read
      back if and only if the operation is safe, and then leaves a store that
      relogs. */
  lemma PlanSized(db: Db, op: Op, now: Time)
    requires Relogs(db) && Framed(op)
    ensures Sized(PlanOf(db, op, now), Safe(db, op, now))
  {
    hide CommandFits;
    hide LiveOnes;
    hide FormatInt;
    hide StoredInt;
    hide DeadlineFits;
    match op
    case Set(k, v, ttl) =>
      assert Parts(Record.Set(k, v, None)) == [VERB_SET, k, v];
      PutSized(db, k, v, if ttl.Some? then Some(now + ttl.value) else None, Done);
    case Expire(k, d) =>
      if db.Get(k, now).Some? { PutSized(db, k, db.data[k], Some(now + d), Flag(true)); }
    case Persist(k) =>
      if db.Get(k, now).Some? { PutSized(db, k, db.data[k], None, Flag(true)); }
    case Delete(keys) =>
      var t := ReadNow(db, now);
      if LiveOnes(db, keys, t) != [] { DeletionRecoverable(db, keys, t); }
    case IncrBy(k, delta) => IncrSized(db, k, delta, now);
    case _ =>
  }

  /** A counter and any deadline held fit beside any key. */
  lemma IncrSized(db: Db, k: Bytes, delta: int, now: Time)
    requires Relogs(db) && |k| <= DEFAULT_LIMITS.maxBulkLength
    ensures Sized(PlanOf(db, IncrBy(k, delta), now), true)
  {
    hide Recoverable;
    hide FormatInt;
    hide StoredInt;
    var t := ReadNow(db, now);
    if Current(db, k, t).Some? && !Overflows(Current(db, k, t).value, delta) {
      var n := Current(db, k, t).value + delta;
      assert IsInt64(Current(db, k, t).value) by {
        if db.Get(k, t).Some? { StoredIntExact(db.data[k]); }
      }
      CounterRelogs(k, n);
      Int64TextLength(n);
      var deadline := if db.Get(k, t).Some? then db.Deadline(k) else None;
      if deadline.Some? { Int64TextLength(deadline.value / MILLISECOND); }
      PutSized(db, k, FormatInt(n), deadline, Number(n));
    }
  }

  // ---- over runs -------------------------------------------------------------------------

  /** Replaying records that can be read back gives a store that relogs. */
  lemma {:induction false} ReplayRelogs(rs: seq<Record>, now: Time, db: Db)
    requires AllRecoverable(rs) && Relogs(db)
    ensures Relogs(ApplyAll(rs, now, db))
  {
    hide Recoverable;
    if rs != [] {
      var r := rs[0];
      if r.Set? {
        SetRecoverable(r.key, r.value, r.expireAtMs);
        SetRecoverable(r.key, r.value, None);
      }
      assert Relogs(Apply(r, now, db));
      ReplayRelogs(rs[1..], now, Apply(r, now, db));
    }
  }

  ghost predicate Ready(s: Sys) {
    SysInv(s) && (s.up ==> Relogs(s.eng.db))
  }

  lemma OperateReady(s: Sys, op: Op, now: Time)
    requires Ready(s) && CanStep(s, Operate(op, now)) && Framed(op)
    ensures Relogs(DoStep(s, Operate(op, now)).eng.db)
  {
    hide PlanOf;
    hide Recoverable;
    hide SysInv;
    hide Do;
    hide Can;
    hide Safe;
    hide Relogs;
    hide Framed;
    PlanSized(s.eng.db, op, now);
  }

  lemma ReopenReady(s: Sys, now: Time, policy: Policy)
    requires Ready(s) && CanStep(s, Reopen(now, policy))
    ensures Relogs(DoStep(s, Reopen(now, policy)).eng.db)
  {
    hide Recoverable;
    hide ReplayFile;
    hide FileText;
    ImageRecovers(s, s.log.disk.bytes, now);
    var k := ReplayFile(s.log.disk.bytes, now, EMPTY).res.records;
    ReplayRelogs(s.log.history[..k], now, EMPTY);
  }

  lemma ReclaimReady(s: Sys, now: Time, gone: set<Bytes>)
    requires Ready(s) && CanStep(s, ReclaimOnce(now, gone))
    ensures Relogs(DoStep(s, ReclaimOnce(now, gone)).eng.db)
  {
    hide Recoverable;
    hide SysInv;
  }

  /** No other step changes the store or starts a process. */
  lemma OtherReady(s: Sys, st: Step)
    requires CanStep(s, st) && !st.Operate? && !st.ReclaimOnce? && !st.Reopen?
    ensures DoStep(s, st).eng.db == s.eng.db && (DoStep(s, st).up ==> s.up)
  {
    hide Do;
    hide Can;
  }

  lemma StepReady(s: Sys, st: Step)
    requires Ready(s) && CanStep(s, st) && (st.Operate? ==> Framed(st.op))
    ensures Ready(DoStep(s, st))
  {
    hide CanStep;
    hide DoStep;
    hide SysInv;
    hide Relogs;
    hide Framed;
    StepKeeps(s, st);
    match st
    case Operate(op, now) => OperateReady(s, op, now);
    case ReclaimOnce(now, gone) => ReclaimReady(s, now, gone);
    case Reopen(now, policy) => ReopenReady(s, now, policy);
    case _ => OtherReady(s, st);
  }

  lemma {:induction false} RunReady(s: Sys, steps: seq<Step>)
    requires Ready(s) && IsRun(s, steps)
    requires forall i :: 0 <= i < |steps| && steps[i].Operate? ==> Framed(steps[i].op)
    ensures Ready(Run(s, steps))
    decreases |steps|
  {
    hide Ready;
    hide CanStep;
    hide DoStep;
    if steps != [] {
      StepReady(s, steps[0]);
      RunReady(DoStep(s, steps[0]), steps[1..]);
    }
  }

  /** After any run of framed operations, crashes and restarts included, the
      record a framed operation logs can be read back if and only if the operation
      is safe on the store it meets. SET without a deadline, PERSIST, DEL and
      INCRBY always are. */
  lemma OnlyDeadlinesPoison(start: Time, steps: seq<Step>, op: Op, now: Time)
    requires IsRun(Init(start), steps) && Run(Init(start), steps).up && Framed(op)
    requires forall i :: 0 <= i < |steps| && steps[i].Operate? ==> Framed(steps[i].op)
    ensures var s := Run(Init(start), steps);
            Effect(s, op, now).logged.Some? ==>
              (Recoverable(Effect(s, op, now).logged.value) <==> Safe(s.eng.db, op, now))
  {
    hide CanStep;
    hide DoStep;
    hide SysInv;
    hide Effect;
    hide Recoverable;
    hide Safe;
    InitHolds(start);
    RunReady(Init(start), steps);
    EffectSized(Run(Init(start), steps), op, now);
  }

  lemma EffectSized(s: Sys, op: Op, now: Time)
    requires Relogs(s.eng.db) && Framed(op)
    ensures Effect(s, op, now).logged.Some? ==>
              (Recoverable(Effect(s, op, now).logged.value) <==> Safe(s.eng.db, op, now))
  {
    PlanSized(s.eng.db, op, now);
    hide PlanOf;
    hide Recoverable;
    hide Safe;
  }
}
