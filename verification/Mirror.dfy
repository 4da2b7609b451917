/** What the log and the store have to do with each other, operation by
    operation and over whole runs. */
module Mirror {
  import opened Bytes
  import opened Decimal
  import opened Resp
  import opened Store
  import opened Aof
  import opened Replay
  import opened Log
  import opened Engine

  // ---- replaying the log gives the store ------------------------------------------------

  /** Replaying the records at this instant gives exactly what the store shows at
      it, with deadlines as the log keeps them. */
  ghost predicate Mirrors(rs: seq<Record>, db: Db, now: Time) {
    ApplyAll(rs, now, EMPTY) == db.Floor().Live(now)
  }

  /** Replaying later gives the part of an earlier replay that is still alive. */
  lemma {:induction false} ReplayLater(rs: seq<Record>, now: Time, later: Time, db: Db)
    requires db.Wf() && now <= later
    ensures ApplyAll(rs, later, db.Live(later)) == ApplyAll(rs, now, db).Live(later)
    ensures ApplyAll(rs, now, db).Wf()
  {
    if rs != [] {
      ApplyWf(rs[0], now, db);
      ApplyLater(rs[0], now, later, db);
      ReplayLater(rs[1..], now, later, Apply(rs[0], now, db));
    }
  }

  lemma ApplyLater(r: Record, now: Time, later: Time, db: Db)
    requires db.Wf() && now <= later
    ensures Apply(r, later, db.Live(later)) == Apply(r, now, db).Live(later)
  {
    match r
    case Set(k, v, None) => PutLive(db, k, v, None, later);
    case Set(k, v, Some(ms)) =>
      PutLive(db, k, v, Some(ms * MILLISECOND), later);
      WithoutLive(db, {k}, later);
    case Del(keys) => WithoutLive(db, Named(keys), later);
  }

  /** A mirror at one instant is a mirror at every later one. */
  lemma MirrorLater(rs: seq<Record>, db: Db, now: Time, later: Time)
    requires Mirrors(rs, db, now) && db.Wf() && now <= later
    ensures Mirrors(rs, db, later)
  {
    ReplayLater(rs, now, later, EMPTY);
    assert EMPTY.Live(later) == EMPTY;
    LiveLater(db.Floor(), now, later);
  }

  lemma ExtendReplay(rs: seq<Record>, r: Record, now: Time)
    ensures ApplyAll(rs + [r], now, EMPTY) == Apply(r, now, ApplyAll(rs, now, EMPTY))
  {
    ApplyAllAppend(rs, [r], now, EMPTY);
    ApplyOne(r, now, ApplyAll(rs, now, EMPTY));
  }

  /** Logging and applying a write keeps the mirror. */
  lemma PutMirrors(rs: seq<Record>, db: Db, now: Time, k: Bytes, v: Bytes, deadline: Option<Time>)
    requires Mirrors(rs, db, now) && db.Wf()
    ensures Mirrors(rs + [DeriveSet(k, v, deadline)], db.Put(k, v, deadline), now)
    ensures db.Put(k, v, deadline).Wf()
  {
    var floored := if deadline.Some? then Some(FloorMs(deadline.value)) else None;
    ExtendReplay(rs, DeriveSet(k, v, deadline), now);
    PutFloor(db, k, v, deadline);
    PutLive(db.Floor(), k, v, floored, now);
  }

  /** Removing keys whose live ones are all in the record keeps it. */
  lemma DeleteMirrors(rs: seq<Record>, db: Db, now: Time, keys: seq<Bytes>, t: Time)
    requires Mirrors(rs, db, now) && db.Wf() && t == ReadNow(db, now)
    ensures var live := LiveOnes(db, keys, t);
            Mirrors(if live == [] then rs else rs + [DeriveDel(live)], db.Without(Named(keys)), now)
    ensures db.Without(Named(keys)).Wf()
  {
    hide Db.Live;
    hide Db.Floor;
    hide LiveOnes;
    var live, seen := LiveOnes(db, keys, t), db.Floor().Live(now);
    WithoutFloor(db, Named(keys));
    FloorWf(db);
    WithoutLive(db.Floor(), Named(keys), now);
    DeadUnseen(db, keys, t, now);
    if live == [] {
      assert seen.Without(Named(live)) == seen;
    } else {
      ExtendReplay(rs, DeriveDel(live), now);
    }
  }

  lemma FloorWf(db: Db)
    requires db.Wf()
    ensures db.Floor().Wf()
  {
  }

  /** Removing the live ones among some keys is removing all of them from what a
      replay shows. */
  lemma DeadUnseen(db: Db, keys: seq<Bytes>, t: Time, now: Time)
    requires db.Wf() && t == ReadNow(db, now)
    ensures var live, seen := LiveOnes(db, keys, t), db.Floor().Live(now);
            seen.Without(Named(keys)) == seen.Without(Named(live))
  {
    hide LiveOnes;
    var live, seen := LiveOnes(db, keys, t), db.Floor().Live(now);
    LiveOnesExact(db, keys, t);
    if db.expires == map[] { TimelessWithoutDeadlines(db, t, now); }
    forall k | k in keys && k !in live
      ensures k !in seen.data && k !in seen.expires
    {
      LiveAnswers(db, k, now);
      LiveAnswers(db, k, t);
      FloorHides(db, k, now);
      FloorWf(db);
    }
  }

  /** Physically removing expired keys, which is never logged, keeps it. */
  lemma ReclaimMirrors(rs: seq<Record>, db: Db, now: Time, gone: set<Bytes>)
    requires Mirrors(rs, db, now) && db.Wf() && forall k :: k in gone ==> db.Expired(k, now)
    ensures Mirrors(rs, db.Without(gone), now) && db.Without(gone).Wf()
  {
    var seen := db.Floor().Live(now);
    WithoutFloor(db, gone);
    WithoutLive(db.Floor(), gone, now);
    forall k | k in gone
      ensures k !in seen.data && k !in seen.expires
    {
      FloorMsBounds(db.expires[k]);
    }
    assert seen.Without(gone) == seen;
  }

  function Logged(rs: seq<Record>, r: Option<Record>): seq<Record> {
    if r.Some? then rs + [r.value] else rs
  }

  /** Every operation, whatever the log answers, keeps the mirror between the
      logged records and the store. */
  lemma PerformMirrors(rs: seq<Record>, e: Eng, gate: Gate, op: Op, now: Time)
    requires Mirrors(rs, e.db, now) && e.db.Wf()
    ensures var out := Perform(e, Some(gate), op, now);
            out.db.Wf() && Mirrors(Logged(rs, out.logged), out.db, now)
  {
    hide Mirrors;
    hide PlanOf;
    PlanMirrors(rs, e.db, op, now);
  }

  /** A plan that keeps the mirror, whether or not it comes to be performed. */
  ghost predicate PlanKeeps(rs: seq<Record>, p: Plan, now: Time) {
    match p
    case Answer(_) => true
    case Tidy(db, _) => db.Wf() && Mirrors(rs, db, now)
    case Commit(r, db, _) => db.Wf() && Mirrors(rs + [r], db, now)
  }

  lemma PutKeeps(rs: seq<Record>, db: Db, k: Bytes, v: Bytes, deadline: Option<Time>, reply: Reply, now: Time)
    requires Mirrors(rs, db, now) && db.Wf()
    ensures PlanKeeps(rs, PlanPut(db, k, v, deadline, reply), now)
  {
    hide Mirrors;
    PutMirrors(rs, db, now, k, v, deadline);
  }

  lemma PlanMirrors(rs: seq<Record>, db: Db, op: Op, now: Time)
    requires Mirrors(rs, db, now) && db.Wf()
    ensures PlanKeeps(rs, PlanOf(db, op, now), now)
  {
    hide Mirrors;
    hide LiveOnes;
    hide FormatInt;
    hide StoredInt;
    hide PlanPut;
    hide Db.Live;
    match op
    case Set(k, v, ttl) => PutKeeps(rs, db, k, v, if ttl.Some? then Some(now + ttl.value) else None, Done, now);
    case Expire(k, d) =>
      if db.Get(k, now).Some? { PutKeeps(rs, db, k, db.Get(k, now).value, Some(now + d), Flag(true), now); }
    case Persist(k) =>
      if db.Get(k, now).Some? { PutKeeps(rs, db, k, db.Get(k, now).value, None, Flag(true), now); }
    case Delete(keys) => DeleteMirrors(rs, db, now, keys, ReadNow(db, now));
    case IncrBy(k, delta) =>
      var t := ReadNow(db, now);
      var n := Current(db, k, t);
      if n.Some? {
        PutKeeps(rs, db, k, FormatInt(n.value + delta), if db.Get(k, t).Some? then db.Deadline(k) else None, Number(n.value + delta), now);
      }
    case _ =>
  }

  /** Reopening: the recovered store mirrors the records it came from. */
  lemma RecoveredMirrors(rs: seq<Record>, now: Time)
    ensures Mirrors(rs, ApplyAll(rs, now, EMPTY), now) && ApplyAll(rs, now, EMPTY).Wf()
  {
    var db := ApplyAll(rs, now, EMPTY);
    ReplayLater(rs, now, now, EMPTY);
    WholeMs(rs, now, EMPTY);
    assert EMPTY.Live(now) == EMPTY;
    assert db.Floor().expires == db.expires;
  }

  /** Every deadline is a whole number of milliseconds. */
  ghost predicate Whole(db: Db) {
    forall k :: k in db.expires ==> FloorMs(db.expires[k]) == db.expires[k]
  }

  lemma {:induction false} WholeMs(rs: seq<Record>, now: Time, db: Db)
    requires Whole(db)
    ensures Whole(ApplyAll(rs, now, db))
  {
    if rs != [] {
      assert Whole(Apply(rs[0], now, db));
      WholeMs(rs[1..], now, Apply(rs[0], now, db));
    }
  }

  /** A recovered store shows the same keys as the live one, at an instant, if and
      only if no key is in the last fraction of a millisecond of its life. */
  lemma FlooringLosesOnlyDyingKeys(db: Db, now: Time)
    requires db.Wf()
    ensures db.Floor().Live(now).data == db.Live(now).data <==>
            !exists k :: k in db.expires && FloorMs(db.expires[k]) <= now < db.expires[k]
  {
    var a, b := db.Floor().Live(now).data, db.Live(now).data;
    forall k | k in db.expires
      ensures FloorMs(db.expires[k]) <= db.expires[k]
    {
      FloorMsBounds(db.expires[k]);
    }
    if k :| k in db.expires && FloorMs(db.expires[k]) <= now < db.expires[k] {
      assert k in b && k !in a;
    } else {
      assert a == b;
    }
  }

  /** Such a key exists: set to live a millisecond and a half, it is still shown
      when its record has already lapsed. */
  lemma DyingKeyLost()
    ensures var db := EMPTY.Put([107], [118], Some(1_500_000));
            db.Live(1_200_000).data != db.Floor().Live(1_200_000).data
  {
    var db := EMPTY.Put([107], [118], Some(1_500_000));
    assert [107] in db.Live(1_200_000).data;
  }

  const VERB_EXPIRE: Bytes := [69, 88, 80, 73, 82, 69]

  /** The recovery promise has a limit: two commands the server accepts, a SET
      that fills the command limit and an EXPIRE of that key, leave a log that
      replay refuses as corrupt. Aof.SetRecoverable gives the exact condition. */
  lemma ExpireCanPoisonLog(e: Eng, now: Time, d: int, later: Time)
    requires e.accepting && IsInt64((now + d) / MILLISECOND)
    ensures exists k: Bytes, v: Bytes ::
              && CommandFits([VERB_SET, k, v], DEFAULT_LIMITS) && CommandFits([VERB_EXPIRE, k, [49]], DEFAULT_LIMITS)
              && var first := Perform(e, Some(Accepts), Op.Set(k, v, None), now);
                 var second := Perform(e.(db := first.db), Some(Accepts), Expire(k, d), now);
                 && first.reply == Done && second.reply == Flag(true)
                 && first.logged.Some? && second.logged.Some?
                 && ReplayRecords(LogText([first.logged.value, second.logged.value]), later, EMPTY, Result(0, HEADER_SIZE, false)).Corrupted?
  {
    hide ReplayRecords;
    hide LogText;
    hide LiveOnes;
    hide StoredInt;
    hide Db.Live;
    hide Digits;
    var k: Bytes := seq(DEFAULT_LIMITS.maxBulkLength, i => 0);
    var v: Bytes := seq(DEFAULT_LIMITS.maxBulkLength - 3, i => 0);
    var a, b := Record.Set(k, v, None), Record.Set(k, v, Some((now + d) / MILLISECOND));
    SetRecoverable(k, v, None);
    SetRecoverable(k, v, Some((now + d) / MILLISECOND));
    TotalOf3(VERB_EXPIRE, k, [49]);
    BulksFitTotal([VERB_EXPIRE, k, [49]], 0, DEFAULT_LIMITS);
    hide BulksFit;
    hide FormatInt;
    assert CommandFits([VERB_SET, k, v], DEFAULT_LIMITS) by { assert Parts(a) == [VERB_SET, k, v]; }
    var first := Perform(e, Some(Accepts), Op.Set(k, v, None), now);
    var second := Perform(e.(db := first.db), Some(Accepts), Expire(k, d), now);
    assert first.logged == Some(a) && second.logged == Some(b);
    WholeLogExact([a, b], later, EMPTY, Result(0, HEADER_SIZE, false));
    assert !Recoverable([a, b][1]);
  }

  // ---- stores that show the same -------------------------------------------------------------

  lemma {:induction false} LookSame(a: Db, b: Db, keys: seq<Bytes>, s: Time, t: Time)
    requires forall k :: a.Get(k, s) == b.Get(k, t)
    ensures Look(a, keys, s) == Look(b, keys, t)
    ensures CountLive(a, keys, s) == CountLive(b, keys, t)
    ensures LiveOnes(a, keys, s) == LiveOnes(b, keys, t)
  {
    if keys != [] { LookSame(a, b, keys[..|keys| - 1], s, t); }
  }

  /** Whichever instant readNow picks, the answers are those of the visible part. */
  lemma ReadNowHarmless(db: Db, now: Time)
    requires db.Wf()
    ensures db.Live(ReadNow(db, now)) == db.Live(now)
    ensures forall k :: db.Get(k, ReadNow(db, now)) == db.Live(now).Get(k, now)
    ensures forall k :: db.TTL(k, ReadNow(db, now)) == db.Live(now).TTL(k, now)
    ensures forall k :: db.Get(k, now).Some? ==> db.Deadline(k) == db.Live(now).Deadline(k) && db.Get(k, now) == db.Live(now).Get(k, now)
  {
    if db.expires == map[] { TimelessWithoutDeadlines(db, ReadNow(db, now), now); }
    forall k
      ensures db.Get(k, now) == db.Live(now).Get(k, now) && db.TTL(k, now) == db.Live(now).TTL(k, now)
      ensures db.Get(k, now).Some? ==> db.Deadline(k) == db.Live(now).Deadline(k)
    {
      LiveAnswers(db, k, now);
    }
  }

  lemma PutSame(a: Db, b: Db, k: Bytes, v: Bytes, deadline: Option<Time>, now: Time)
    requires a.Wf() && b.Wf() && a.Live(now) == b.Live(now)
    ensures a.Put(k, v, deadline).Live(now) == b.Put(k, v, deadline).Live(now)
    ensures a.Put(k, v, deadline).Wf() && b.Put(k, v, deadline).Wf()
  {
    PutLive(a, k, v, deadline, now);
    PutLive(b, k, v, deadline, now);
  }

  /** Plans that say the same to the client and the log, with stores that show
      the same. */
  ghost predicate SamePlan(p: Plan, q: Plan, a: Db, b: Db, now: Time) {
    && p.reply == q.reply && p.Commit? == q.Commit?
    && (p.Commit? ==> p.record == q.record)
    && Planned(p, a).Wf() && Planned(q, b).Wf()
    && Planned(p, a).Live(now) == Planned(q, b).Live(now)
  }

  function Planned(p: Plan, db: Db): Db {
    if p.Answer? then db else p.db
  }

  lemma AnswersSame(a: Db, b: Db, reply: Reply, now: Time)
    requires a.Wf() && b.Wf() && a.Live(now) == b.Live(now)
    ensures SamePlan(Answer(reply), Answer(reply), a, b, now)
  {
  }

  lemma PutPlansSame(a: Db, b: Db, k: Bytes, v: Bytes, deadline: Option<Time>, reply: Reply, now: Time)
    requires a.Wf() && b.Wf() && a.Live(now) == b.Live(now)
    ensures SamePlan(PlanPut(a, k, v, deadline, reply), PlanPut(b, k, v, deadline, reply), a, b, now)
  {
    PutSame(a, b, k, v, deadline, now);
  }

  lemma ReadsSame(a: Db, b: Db, op: Op, now: Time)
    requires a.Wf() && b.Wf() && a.Live(now) == b.Live(now) && !IsMutation(op)
    ensures SamePlan(PlanOf(a, op, now), PlanOf(b, op, now), a, b, now)
  {
    hide Look;
    hide CountLive;
    ReadNowHarmless(a, now);
    ReadNowHarmless(b, now);
    if op.MGet? || op.Exists? { LookSame(a, b, op.keys, ReadNow(a, now), ReadNow(b, now)); }
  }

  lemma DeleteSame(a: Db, b: Db, keys: seq<Bytes>, now: Time)
    requires a.Wf() && b.Wf() && a.Live(now) == b.Live(now)
    ensures SamePlan(PlanOf(a, Delete(keys), now), PlanOf(b, Delete(keys), now), a, b, now)
  {
    hide LiveOnes;
    ReadNowHarmless(a, now);
    ReadNowHarmless(b, now);
    LookSame(a, b, keys, ReadNow(a, now), ReadNow(b, now));
    WithoutLive(a, Named(keys), now);
    WithoutLive(b, Named(keys), now);
  }

  /** The value and deadline a write goes by are the same in both. */
  lemma WritesSame(a: Db, b: Db, op: Op, now: Time)
    requires a.Wf() && b.Wf() && a.Live(now) == b.Live(now) && (op.Set? || op.Expire? || op.Persist?)
    ensures SamePlan(PlanOf(a, op, now), PlanOf(b, op, now), a, b, now)
  {
    hide SamePlan;
    hide PlanPut;
    hide Db.Live;
    hide LiveOnes;
    hide FormatInt;
    hide StoredInt;
    LiveAnswers(a, op.k, now);
    LiveAnswers(b, op.k, now);
    AnswersSame(a, b, Flag(false), now);
    match op
    case Set(k, v, ttl) => PutPlansSame(a, b, k, v, if ttl.Some? then Some(now + ttl.value) else None, Done, now);
    case Expire(k, d) => if a.Get(k, now).Some? { PutPlansSame(a, b, k, a.data[k], Some(now + d), Flag(true), now); }
    case Persist(k) => if a.Get(k, now).Some? { PutPlansSame(a, b, k, a.data[k], None, Flag(true), now); }
  }

  lemma IncrSame(a: Db, b: Db, k: Bytes, delta: int, now: Time)
    requires a.Wf() && b.Wf() && a.Live(now) == b.Live(now)
    ensures SamePlan(PlanOf(a, IncrBy(k, delta), now), PlanOf(b, IncrBy(k, delta), now), a, b, now)
  {
    hide FormatInt;
    hide StoredInt;
    hide LiveOnes;
    hide Db.Live;
    hide ReadNow;
    hide SamePlan;
    hide PlanPut;
    var s := ReadNow(a, now);
    KeySame(a, b, k, now);
    AnswersSame(a, b, Failure(NotAnInteger), now);
    AnswersSame(a, b, Failure(IncrOverflow), now);
    var deadline := if a.Get(k, s).Some? then a.Deadline(k) else None;
    var n := Current(a, k, s);
    if n.Some? { PutPlansSame(a, b, k, FormatInt(n.value + delta), deadline, Number(n.value + delta), now); }
  }

  /** What a counter operation sees of its key. */
  lemma KeySame(a: Db, b: Db, k: Bytes, now: Time)
    requires a.Wf() && b.Wf() && a.Live(now) == b.Live(now)
    ensures var s, t := ReadNow(a, now), ReadNow(b, now);
            a.Get(k, s) == b.Get(k, t) && (a.Get(k, s).Some? ==> a.Deadline(k) == b.Deadline(k))
  {
    ReadNowHarmless(a, now);
    ReadNowHarmless(b, now);
    LiveAnswers(a, k, now);
    LiveAnswers(b, k, now);
  }

  /** Two stores that show the same at an instant plan the same answer and the
      same record, and still show the same after it. */
  lemma PlansSame(a: Db, b: Db, op: Op, now: Time)
    requires a.Wf() && b.Wf() && a.Live(now) == b.Live(now)
    ensures SamePlan(PlanOf(a, op, now), PlanOf(b, op, now), a, b, now)
  {
    hide PlanOf;
    if op.Delete? { DeleteSame(a, b, op.keys, now); }
    else if op.IncrBy? { IncrSame(a, b, op.k, op.delta, now); }
    else if IsMutation(op) { WritesSame(a, b, op, now); }
    else { ReadsSame(a, b, op, now); }
  }

  /** One client operation on two engines that show the same. */
  lemma PerformSame(e: Eng, f: Eng, gate: Option<Gate>, op: Op, now: Time)
    requires e.db.Wf() && f.db.Wf() && e.db.Live(now) == f.db.Live(now) && e.accepting == f.accepting
    ensures var x, y := Perform(e, gate, op, now), Perform(f, gate, op, now);
            && x.reply == y.reply && x.logged == y.logged
            && x.db.Wf() && y.db.Wf() && x.db.Live(now) == y.db.Live(now)
  {
    hide PlanOf;
    PlansSame(e.db, f.db, op, now);
  }

  // ---- counters ------------------------------------------------------------------------------

  datatype Increment = Increment(delta: int, now: Time)

  /** The true sum, leaving out the increments that would leave int64. */
  function Tally(n: int, steps: seq<Increment>): int
    decreases |steps|
  {
    if steps == [] then n
    else Tally(if IsInt64(n + steps[0].delta) then n + steps[0].delta else n, steps[1..])
  }

  function RunIncrements(e: Eng, gate: Option<Gate>, k: Bytes, steps: seq<Increment>): Eng
    decreases |steps|
  {
    if steps == [] then e
    else RunIncrements(e.(db := Perform(e, gate, IncrBy(k, steps[0].delta), steps[0].now).db), gate, k, steps[1..])
  }

  /** The key holds this integer, with this deadline, and is alive at an instant. */
  predicate Holds(db: Db, k: Bytes, n: int, deadline: Option<Time>, now: Time) {
    db.Get(k, now) == Some(FormatInt(n)) && db.Deadline(k) == deadline
  }

  /** One increment of a live integer: the exact sum with the same deadline, or
      the overflow reply with value, deadline and log untouched. */
  lemma IncrementExact(e: Eng, gate: Option<Gate>, k: Bytes, n: int, deadline: Option<Time>, step: Increment)
    requires e.accepting && (gate == None || gate == Some(Accepts)) && IsInt64(n)
    requires Holds(e.db, k, n, deadline, step.now)
    ensures var out := Perform(e, gate, IncrBy(k, step.delta), step.now);
            if IsInt64(n + step.delta) then
              && out.reply == Number(n + step.delta)
              && Holds(out.db, k, n + step.delta, deadline, step.now)
              && (gate.Some? ==> out.logged == Some(DeriveSet(k, FormatInt(n + step.delta), deadline)))
            else
              out == Outcome(e.db, Failure(IncrOverflow), None)
  {
    hide FormatInt;
    hide StoredInt;
    hide LiveOnes;
    hide Db.Live;
    FormattedStoredInt(n);
    assert AliveAt(deadline, step.now);
    assert e.db.Get(k, ReadNow(e.db, step.now)) == e.db.Get(k, step.now);
  }

  /** Any run of increments on a live integer key stores the true sum. */
  lemma {:induction false} IncrementsExact(e: Eng, gate: Option<Gate>, k: Bytes, n: int, deadline: Option<Time>, steps: seq<Increment>, end: Time)
    requires e.accepting && (gate == None || gate == Some(Accepts)) && IsInt64(n)
    requires forall i :: 0 <= i < |steps| ==> steps[i].now <= end
    requires Holds(e.db, k, n, deadline, end)
    ensures Holds(RunIncrements(e, gate, k, steps).db, k, Tally(n, steps), deadline, end)
    decreases |steps|
  {
    if steps != [] {
      var step := steps[0];
      assert Holds(e.db, k, n, deadline, step.now);
      IncrementExact(e, gate, k, n, deadline, step);
      var next := e.(db := Perform(e, gate, IncrBy(k, step.delta), step.now).db);
      var m := if IsInt64(n + step.delta) then n + step.delta else n;
      hide Perform;
      assert Holds(next.db, k, m, deadline, end);
      IncrementsExact(next, gate, k, m, deadline, steps[1..], end);
    }
  }
}
