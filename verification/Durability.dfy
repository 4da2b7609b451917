/** From a client's command to the answer after a crash: what was acknowledged under
    Always is what GET gives once the server is back. */
module Durability {
  import opened Bytes
  import opened Store
  import opened Aof
  import opened Replay
  import opened Log
  import opened Engine
  import opened Mirror
  import opened Commands
  import opened System

  // ---- the last record wins ----------------------------------------------------------------

  /** What a record leaves of a key it names. */
  function Leaves(r: Record, now: Time): Option<Bytes> {
    match r
    case Set(_, v, None) => Some(v)
    case Set(_, v, Some(ms)) => if now < ms * 1_000_000 then Some(v) else None
    case Del(_) => None
  }

  lemma ApplyExact(r: Record, now: Time, db: Db, k: Bytes)
    ensures k in RecordKeys(r) ==> ValueOf(Apply(r, now, db), k, now) == Leaves(r, now)
    ensures k !in RecordKeys(r) ==> ValueOf(Apply(r, now, db), k, now) == ValueOf(db, k, now)
  {
  }

  ghost predicate Untouched(rs: seq<Record>, k: Bytes) {
    forall i :: 0 <= i < |rs| ==> k !in RecordKeys(rs[i])
  }

  lemma {:induction false} UntouchedKept(rs: seq<Record>, now: Time, db: Db, k: Bytes)
    requires Untouched(rs, k)
    ensures ValueOf(ApplyAll(rs, now, db), k, now) == ValueOf(db, k, now)
  {
    hide Apply;
    hide ValueOf;
    if rs != [] {
      ApplyExact(rs[0], now, db, k);
      UntouchedKept(rs[1..], now, Apply(rs[0], now, db), k);
    }
  }

  /** Replay leaves of a key what the last record that names it says. */
  lemma {:induction false} LastRecordWins(rs: seq<Record>, i: nat, now: Time, db: Db, k: Bytes)
    requires i < |rs| && k in RecordKeys(rs[i]) && Untouched(rs[i + 1..], k)
    ensures ValueOf(ApplyAll(rs, now, db), k, now) == Leaves(rs[i], now)
    decreases i
  {
    hide Apply;
    hide ValueOf;
    hide Leaves;
    if i == 0 {
      ApplyExact(rs[0], now, db, k);
      UntouchedKept(rs[1..], now, Apply(rs[0], now, db), k);
    } else {
      assert rs[1..][i..] == rs[i + 1..];
      LastRecordWins(rs[1..], i - 1, now, Apply(rs[0], now, db), k);
    }
  }

  // ---- over runs -------------------------------------------------------------------------------

  ghost predicate NoneTouches(steps: seq<Step>, k: Bytes) {
    forall i :: 0 <= i < |steps| && steps[i].Operate? ==> k !in Touches(steps[i].op)
  }

  /** A step that does not touch a key appends no record that names it. */
  lemma StepAppends(s: Sys, st: Step, k: Bytes)
    requires SysInv(s) && s.up && CanStep(s, st) && !Restarts(st) && (st.Operate? ==> k !in Touches(st.op))
    ensures s.log.history <= DoStep(s, st).log.history
    ensures Untouched(DoStep(s, st).log.history[|s.log.history|..], k)
  {
    hide DoStep;
    hide CanStep;
    hide Inv;
    hide Mirrors;
    hide RecordKeys;
    if st.Operate? {
      OnlyTouched(s.eng, Some(s.log.core.Gate()), st.op, st.now);
      hide Perform;
      OperateAppends(s, st.op, st.now);
    } else {
      AppendsNothing(s, st);
    }
  }

  lemma OperateAppends(s: Sys, op: Op, now: Time)
    requires CanStep(s, Operate(op, now))
    ensures DoStep(s, Operate(op, now)).log.history ==
            s.log.history + if Effect(s, op, now).logged.Some? then [Effect(s, op, now).logged.value] else []
  {
    hide Perform;
    hide Recoverable;
  }

  lemma AppendsNothing(s: Sys, st: Step)
    requires SysInv(s) && CanStep(s, st) && !st.Operate? && !Restarts(st)
    ensures DoStep(s, st).log.history == s.log.history
  {
    hide Inv;
    hide Mirrors;
    hide Perform;
    hide FileText;
    hide Do;
    if st.Writer? { WriterFrame(s.log, st.a); }
    if st.FinalizeBegin? { WriterFrame(s.log, CloseBegin); }
    if st.FinalizeSignal? { WriterFrame(s.log, CloseSignal); }
  }

  lemma {:induction false} RunAppends(s: Sys, steps: seq<Step>, k: Bytes)
    requires SysInv(s) && s.up && IsRun(s, steps) && OneProcess(steps) && NoneTouches(steps, k)
    ensures SysInv(Run(s, steps)) && s.log.history <= Run(s, steps).log.history
    ensures Untouched(Run(s, steps).log.history[|s.log.history|..], k)
    decreases |steps|
  {
    hide SysInv;
    hide CanStep;
    hide DoStep;
    if steps != [] {
      var t := DoStep(s, steps[0]);
      StepAppends(s, steps[0], k);
      StepKeeps(s, steps[0]);
      StaysUp(s, steps[0]);
      assert forall i :: 1 <= i < |steps| ==> steps[i] == steps[1..][i - 1];
      RunAppends(t, steps[1..], k);
      var a, b, c := s.log.history, t.log.history, Run(s, steps).log.history;
      assert c[|a|..] == b[|a|..] + c[|b|..];
    }
  }

  lemma StaysUp(s: Sys, st: Step)
    requires s.up && CanStep(s, st) && !Restarts(st)
    ensures DoStep(s, st).up
  {
    hide Perform;
    hide Do;
  }

  /** After any run, a key whose last record was acknowledged under Always is, once
      recovered from whatever a crash kept, as that record left it. */
  lemma DurableIsRecovered(s: Sys, kept: nat, now: Time, i: nat, k: Bytes)
    requires SysInv(s) && CanStep(s, Crash(kept))
    requires i < s.ackedDurable && i < |s.log.history| && k in RecordKeys(s.log.history[i]) && Untouched(s.log.history[i + 1..], k)
    ensures kept <= |s.log.disk.bytes|
    ensures var r := ReplayFile(s.log.disk.bytes[..kept], now, EMPTY);
            r.Recovered? && ValueOf(r.db, k, now) == Leaves(s.log.history[i], now)
  {
    hide SysInv;
    hide CanStep;
    hide ReplayFile;
    hide ApplyAll;
    hide ValueOf;
    hide Leaves;
    CrashRecovers(s, kept, now);
    var hs, n := s.log.history, ReplayFile(s.log.disk.bytes[..kept], now, EMPTY).res.records;
    assert hs[..n][i] == hs[i];
    assert hs[..n][i + 1..] == hs[i + 1..][..n - i - 1];
    LastRecordWins(hs[..n], i, now, EMPTY, k);
  }

  /** A SET answered Done and acknowledged under Always is what GET answers after a
      crash that keeps whatever it keeps and a restart, until its deadline in whole
      milliseconds, unless some command touched the key in between. */
  lemma AcknowledgedSetIsRead(start: Time, before: seq<Step>, k: Bytes, v: Bytes, ttl: Option<int>, at: Time, after: seq<Step>, kept: nat, now: Time, g: Option<Gate>)
    requires IsRun(Init(start), before) && Run(Init(start), before).up
    requires CanStep(Run(Init(start), before), Operate(Op.Set(k, v, ttl), at))
    requires Effect(Run(Init(start), before), Op.Set(k, v, ttl), at).reply == Done
    requires var s := DoStep(Run(Init(start), before), Operate(Op.Set(k, v, ttl), at));
             && IsRun(s, after) && OneProcess(after) && NoneTouches(after, k)
             && CanStep(Run(s, after), Crash(kept)) && Run(s, after).ackedDurable > |Run(Init(start), before).log.history|
    requires ttl.Some? ==> now < (at + ttl.value) / 1_000_000 * 1_000_000
    ensures var t := Run(DoStep(Run(Init(start), before), Operate(Op.Set(k, v, ttl), at)), after);
            && kept <= |t.log.disk.bytes|
            && var r := ReplayFile(t.log.disk.bytes[..kept], now, EMPTY);
               r.Recovered? && Perform(Eng(r.db, true), g, Get(k), now).reply == Value(Some(v))
  {
    hide SysInv;
    hide CanStep;
    hide DoStep;
    hide Run;
    hide IsRun;
    hide ReplayFile;
    hide Perform;
    var op := Op.Set(k, v, ttl);
    var s := Run(Init(start), before);
    InitHolds(start);
    RunKeeps(Init(start), before);
    var u, i := DoStep(s, Operate(op, at)), |s.log.history|;
    StepKeeps(s, Operate(op, at));
    StaysUp(s, Operate(op, at));
    SetAppends(s, k, v, ttl, at);
    RunAppends(u, after, k);
    var t := Run(u, after);
    assert t.log.history[i] == u.log.history[i];
    assert t.log.history[i + 1..] == t.log.history[|u.log.history|..];
    DurableIsRecovered(t, kept, now, i, k);
    RecoveredWf(t, kept, now);
    GetAnswers(Eng(ReplayFile(t.log.disk.bytes[..kept], now, EMPTY).db, true), g, k, now);
  }

  lemma RecoveredWf(s: Sys, kept: nat, now: Time)
    requires SysInv(s) && CanStep(s, Crash(kept))
    ensures kept <= |s.log.disk.bytes|
    ensures ReplayFile(s.log.disk.bytes[..kept], now, EMPTY).Recovered? && ReplayFile(s.log.disk.bytes[..kept], now, EMPTY).db.Wf()
  {
    hide SysInv;
    hide CanStep;
    hide ReplayFile;
    hide ApplyAll;
    CrashRecovers(s, kept, now);
    RecoveredMirrors(s.log.history[..ReplayFile(s.log.disk.bytes[..kept], now, EMPTY).res.records], now);
  }

  /** A SET answered Done is the next record of the history. */
  lemma SetAppends(s: Sys, k: Bytes, v: Bytes, ttl: Option<int>, at: Time)
    requires SysInv(s) && CanStep(s, Operate(Op.Set(k, v, ttl), at)) && Effect(s, Op.Set(k, v, ttl), at).reply == Done
    ensures DoStep(s, Operate(Op.Set(k, v, ttl), at)).log.history ==
            s.log.history + [Record.Set(k, v, if ttl == None then None else Some((at + ttl.value) / 1_000_000))]
  {
    hide SysInv;
    hide Perform;
    hide Recoverable;
    SetWrites(s.eng, Some(s.log.core.Gate()), k, v, ttl, at);
  }

  // ---- acknowledgements do come ------------------------------------------------------------------

  function WriterSteps(acts: seq<Action>): seq<Step> {
    seq(|acts|, i requires 0 <= i < |acts| => Writer(acts[i]))
  }

  /** The writer's moves are steps of the server and change its log alone. */
  lemma {:induction false} WriterSteady(s: Sys, acts: seq<Action>)
    requires s.up && WriterRun(s.log, acts)
    ensures IsRun(s, WriterSteps(acts)) && Run(s, WriterSteps(acts)) == s.(log := RunWriter(s.log, acts))
    decreases |acts|
  {
    hide Do;
    hide Can;
    if acts != [] {
      var steps := WriterSteps(acts);
      assert steps[0] == Writer(acts[0]) && steps[1..] == WriterSteps(acts[1..]);
      var t := s.(log := Do(s.log, acts[0]));
      WriterMoves(s, acts[0]);
      hide CanStep;
      hide DoStep;
      WriterSteady(t, acts[1..]);
      RunFolds(s, steps);
    }
  }

  lemma WriterMoves(s: Sys, a: Action)
    requires s.up && Working(a) && Can(s.log, a)
    ensures CanStep(s, Writer(a)) && DoStep(s, Writer(a)) == s.(log := Do(s.log, a))
  {
    hide Do;
    hide Can;
  }

  /** In any running state whose log is in health, once the writer has come to rest
      without a fault of the file, every record can be acknowledged, and under
      Always counts as durable for good. */
  lemma WritesAreAcknowledged(s: Sys, acts: seq<Action>, seqNo: nat)
    requires SysInv(s) && s.up && Healthy(s.log) && WriterRun(s.log, acts)
    requires forall i :: 0 <= i < |acts| ==> !Faulty(acts[i])
    requires forall a :: Working(a) ==> !Can(RunWriter(s.log, acts), a)
    requires 0 < seqNo <= s.log.core.appended
    ensures IsRun(s, WriterSteps(acts))
    ensures var t := Run(s, WriterSteps(acts));
            && CanStep(t, Acknowledge(seqNo))
            && DoStep(t, Acknowledge(seqNo)).ackedStored >= s.log.base + seqNo
            && (s.log.policy == Always ==> DoStep(t, Acknowledge(seqNo)).ackedDurable >= s.log.base + seqNo)
  {
    WriterSteady(s, acts);
    LogInvOf(s);
    HealthyWriterGrants(s.log, acts, seqNo);
    WriterFrames(s.log, acts);
    hide Inv;
    hide Can;
    hide RunWriter;
    hide WriterRun;
    hide Run;
    hide IsRun;
  }

  lemma LogInvOf(s: Sys)
    requires SysInv(s) && s.up
    ensures Inv(s.log)
  {
    hide Inv;
    hide Mirrors;
  }

  lemma {:induction false} WriterFrames(s: State, acts: seq<Action>)
    requires WriterRun(s, acts)
    ensures var t := RunWriter(s, acts);
            t.base == s.base && t.policy == s.policy && t.core.appended == s.core.appended
    decreases |acts|
  {
    if acts != [] {
      WriterFramesStep(s, acts[0]);
      hide Do;
      hide Can;
      WriterFrames(Do(s, acts[0]), acts[1..]);
    }
  }

  lemma WriterFramesStep(s: State, a: Action)
    requires Can(s, a) && Working(a)
    ensures var t := Do(s, a); t.base == s.base && t.policy == s.policy && t.core.appended == s.core.appended
  {
    hide LastWithin;
  }
}
