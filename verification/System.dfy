/** The whole server over its life: client operations, reclamation, the log
    writer, acknowledgements, shutdown, crashes and restarts, in any order.

    A crash keeps some prefix of the bytes the operating system had, at least
    the durable ones, and either none or all of the header. Clock readings never
    go back, not even across a restart, and every logged record can be read back
    (Aof.Recoverable; module Sizes says which commands that excludes). */
module System {
  import opened Bytes
  import opened Decimal
  import opened Store
  import opened Aof
  import opened Replay
  import opened Log
  import opened Engine
  import opened Mirror

  datatype Return = Nil | Fatal | Timeout

  /** gracefulShutdown, step by step; all says whether the handlers drained. */
  datatype Shutdown =
    | Serving
    | DrainBegun
    | Waited(all: bool)
    | CloseBegun(all: bool)
    | CloseSignalled(all: bool)
    | Finalized(all: bool)
    | Returned(result: Return)

  /** ackedDurable and ackedStored count the records of the history up to the
      last one acknowledged under Always, and at all. */
  datatype Sys = Sys(
    up: bool, eng: Eng, clock: Time, log: State,
    ackedDurable: nat, ackedStored: nat,
    shut: Shutdown, fired: bool)

  datatype Step =
    | Operate(op: Op, now: Time)
    | ReclaimOnce(now: Time, gone: set<Bytes>)
    | Writer(a: Action)
    | Acknowledge(seqNo: nat)
    | BeginDrain
    | WaitConns(all: bool)
    | FinalizeBegin
    | FinalizeSignal
    | FinalizeEnd(timeout: bool)
    | ReturnResult
    | ReportFatal
    | Crash(kept: nat)
    | Reopen(now: Time, policy: Policy)

  function Effect(s: Sys, op: Op, now: Time): Outcome {
    Perform(s.eng, Some(s.log.core.Gate()), op, now)
  }

  predicate CanStep(s: Sys, st: Step) {
    match st
    case Operate(op, now) =>
      s.up && s.clock <= now && (Effect(s, op, now).logged.Some? ==> Recoverable(Effect(s, op, now).logged.value))
    case ReclaimOnce(now, gone) => s.up && s.clock <= now && forall k :: k in gone ==> s.eng.db.Expired(k, now)
    case Writer(a) => s.up && !a.Append? && Can(s.log, a)
    case Acknowledge(seqNo) =>
      s.up && 0 < seqNo <= s.log.core.appended && AwaitVerdict(s.log.core, seqNo, s.log.policy) == Durable
    case BeginDrain => s.up && s.shut == Serving
    case WaitConns(_) => s.up && s.shut == DrainBegun
    case FinalizeBegin => s.up && s.shut.Waited?
    case FinalizeSignal => s.up && s.shut.CloseBegun? && Can(s.log, CloseSignal)
    case FinalizeEnd(timeout) => s.up && s.shut.CloseSignalled? && (timeout || s.log.phase == Stopped)
    case ReturnResult => s.up && s.shut.Finalized?
    case ReportFatal => s.up
    case Crash(kept) =>
      s.up && s.log.disk.durable <= kept <= |s.log.disk.bytes| && (kept == 0 || kept >= HEADER_SIZE)
    case Reopen(now, _) => !s.up && s.clock <= now
  }

  /** A process that has just accepted a file it recovered k records from. */
  function Started(s: Sys, file: Bytes, k: nat, db: Db, now: Time, policy: Policy): Sys
    requires k <= |s.log.history|
  {
    s.(up := true, eng := Eng(db, true), clock := now,
       log := State(FRESH_CORE, Idle, Disk(file, Min(s.log.disk.durable, |file|)), s.log.history[..k], k, policy),
       shut := Serving, fired := false)
  }

  function DoStep(s: Sys, st: Step): Sys
    requires CanStep(s, st)
  {
    match st
    case Operate(op, now) =>
      var out := Effect(s, op, now);
      AppendsOnlyWhenAccepted(s, op, now);
      s.(eng := s.eng.(db := out.db), clock := now,
         log := if out.logged.Some? then Do(s.log, Action.Append(out.logged.value)) else s.log)
    case ReclaimOnce(now, gone) => s.(eng := s.eng.(db := s.eng.db.Without(gone)), clock := now)
    case Writer(a) => s.(log := Do(s.log, a))
    case Acknowledge(seqNo) =>
      var i := s.log.base + seqNo;
      s.(ackedStored := Max(s.ackedStored, i),
         ackedDurable := if s.log.policy == Always then Max(s.ackedDurable, i) else s.ackedDurable)
    case BeginDrain => s.(eng := s.eng.(accepting := false), shut := DrainBegun)
    case WaitConns(all) => s.(shut := Waited(all))
    case FinalizeBegin => s.(log := Do(s.log, CloseBegin), shut := CloseBegun(s.shut.all))
    case FinalizeSignal => s.(log := Do(s.log, CloseSignal), shut := CloseSignalled(s.shut.all))
    case FinalizeEnd(timeout) =>
      var err := timeout || s.log.core.failed;
      s.(shut := Finalized(s.shut.all), fired := s.fired || err)
    case ReturnResult => s.(shut := Returned(if s.fired then Fatal else if s.shut.all then Nil else Timeout))
    case ReportFatal => s.(fired := true)
    case Crash(kept) =>
      s.(up := false, log := s.log.(disk := s.log.disk.(bytes := s.log.disk.bytes[..kept])),
         ackedStored := if kept == |s.log.disk.bytes| then s.ackedStored else s.ackedDurable)
    case Reopen(now, policy) =>
      var r := ReplayFile(s.log.disk.bytes, now, EMPTY);
      if r.Recovered? && r.res.records <= |s.log.history| && r.res.lastValid <= |s.log.disk.bytes|
      then Started(s, Reopened(s.log.disk.bytes, r.res), r.res.records, r.db, now, policy)
      else s
  }

  lemma AppendsOnlyWhenAccepted(s: Sys, op: Op, now: Time)
    ensures Effect(s, op, now).logged.Some? ==> Can(s.log, Action.Append(Effect(s, op, now).logged.value))
  {
    hide RecordText;
    hide LiveOnes;
    hide FormatInt;
    hide StoredInt;
  }

  // ---- the invariant ----------------------------------------------------------------------

  ghost predicate Acked(s: Sys) {
    && (s.ackedDurable > 0 ==> s.ackedDurable <= |s.log.history| && |Upto(s.log, s.ackedDurable)| <= s.log.disk.durable)
    && (s.ackedStored > 0 ==> s.ackedStored <= |s.log.history| && |Upto(s.log, s.ackedStored)| <= |s.log.disk.bytes|)
  }

  ghost predicate Running(s: Sys) {
    && Inv(s.log) && s.eng.db.Wf() && Mirrors(s.log.history, s.eng.db, s.clock)
    && (s.shut != Serving ==> !s.eng.accepting)
    && (s.shut.CloseBegun? || s.shut.CloseSignalled? ==> s.log.core.closing)
    && (s.shut.Finalized? && !s.fired ==> s.log.core.closed && !s.log.core.failed)
    && (s.shut == Returned(Nil) ==> s.log.core.closed && !s.log.core.failed)
  }

  ghost predicate Crashed(s: Sys) {
    && s.log.disk.durable <= |s.log.disk.bytes|
    && s.log.disk.bytes <= FileText(s.log.history)
    && (s.log.disk.bytes == [] || |s.log.disk.bytes| >= HEADER_SIZE)
  }

  ghost predicate SysInv(s: Sys) {
    && AllRecoverable(s.log.history) && Acked(s)
    && (if s.up then Running(s) else Crashed(s))
  }

  /** The machine before its first start: no file. */
  function Init(now: Time): Sys {
    Sys(false, Eng(EMPTY, true), now, State(FRESH_CORE, Idle, Disk([], 0), [], 0, Always), 0, 0, Serving, false)
  }

  lemma InitHolds(now: Time)
    ensures SysInv(Init(now))
  {
  }

  // ---- every step keeps it -------------------------------------------------------------------

  /** Appending to the history leaves the text of what was there. */
  lemma HistoryGrows(s: State, t: State, i: nat)
    requires s.history <= t.history && i <= |s.history|
    ensures Upto(t, i) == Upto(s, i)
  {
    assert t.history[..i] == s.history[..i];
  }

  lemma OperateKeeps(s: Sys, op: Op, now: Time)
    requires SysInv(s) && CanStep(s, Operate(op, now))
    ensures SysInv(DoStep(s, Operate(op, now)))
  {
    hide Inv;
    hide Mirrors;
    hide Perform;
    hide Upto;
    hide Recoverable;
    var t, out := DoStep(s, Operate(op, now)), Effect(s, op, now);
    AppendsOnlyWhenAccepted(s, op, now);
    MirrorLater(s.log.history, s.eng.db, s.clock, now);
    PerformMirrors(s.log.history, s.eng, s.log.core.Gate(), op, now);
    if out.logged.Some? {
      AppendKeepsClosed(s.log, out.logged.value);
      HistoryGrows(s.log, t.log, Min(s.ackedDurable, |s.log.history|));
      HistoryGrows(s.log, t.log, Min(s.ackedStored, |s.log.history|));
    }
  }

  lemma AppendKeepsClosed(s: State, r: Record)
    requires Inv(s) && Can(s, Action.Append(r))
    ensures Inv(Do(s, Action.Append(r)))
    ensures var t := Do(s, Action.Append(r));
            t.history == s.history + [r] && t.disk == s.disk && t.core.closing == s.core.closing
            && t.core.closed == s.core.closed && t.core.failed == s.core.failed
  {
    ActionKeeps(s, Action.Append(r));
  }

  lemma ReclaimKeeps(s: Sys, now: Time, gone: set<Bytes>)
    requires SysInv(s) && CanStep(s, ReclaimOnce(now, gone))
    ensures SysInv(DoStep(s, ReclaimOnce(now, gone)))
  {
    hide Inv;
    hide Mirrors;
    hide Upto;
    MirrorLater(s.log.history, s.eng.db, s.clock, now);
    ReclaimMirrors(s.log.history, s.eng.db, now, gone);
  }

  /** What the writer's actions leave alone. */
  lemma WriterFrame(s: State, a: Action)
    requires Inv(s) && Can(s, a) && !a.Append?
    ensures var t := Do(s, a);
            && Inv(t) && t.history == s.history && t.base == s.base
            && |s.disk.bytes| <= |t.disk.bytes| && s.disk.durable <= t.disk.durable
            && (s.core.closing ==> t.core.closing)
            && (s.core.closed && !s.core.failed ==> t.core.closed && !t.core.failed)
  {
    ActionKeeps(s, a);
    hide FileText;
    hide LogText;
    hide Marks;
    hide LastWithin;
  }

  lemma WriterKeeps(s: Sys, a: Action)
    requires SysInv(s) && CanStep(s, Writer(a))
    ensures SysInv(DoStep(s, Writer(a)))
  {
    hide Inv;
    hide Mirrors;
    hide Do;
    hide FileText;
    hide Recoverable;
    WriterFrame(s.log, a);
  }

  lemma AcknowledgeKeeps(s: Sys, seqNo: nat)
    requires SysInv(s) && CanStep(s, Acknowledge(seqNo))
    ensures SysInv(DoStep(s, Acknowledge(seqNo)))
  {
    hide Inv;
    hide Mirrors;
    hide FileText;
    hide AwaitVerdict;
    NumberedHistory(s.log);
    AcknowledgedIsStored(s.log, seqNo, s.log.policy);
  }

  lemma NumberedHistory(s: State)
    requires Inv(s)
    ensures |s.history| == s.base + s.core.appended
  {
  }

  lemma ShutdownKeeps(s: Sys, st: Step)
    requires SysInv(s) && CanStep(s, st)
    requires st.BeginDrain? || st.WaitConns? || st.FinalizeBegin? || st.FinalizeSignal? || st.FinalizeEnd? || st.ReturnResult? || st.ReportFatal?
    ensures SysInv(DoStep(s, st))
  {
    hide Inv;
    hide Mirrors;
    hide FileText;
    if st.FinalizeBegin? { WriterFrame(s.log, CloseBegin); }
    if st.FinalizeSignal? { WriterFrame(s.log, CloseSignal); }
    if st.FinalizeEnd? { StoppedIsClosed(s.log); }
  }

  lemma StoppedIsClosed(s: State)
    requires Inv(s)
    ensures s.phase == Stopped <==> s.core.closed
  {
  }

  lemma CrashKeeps(s: Sys, kept: nat)
    requires SysInv(s) && CanStep(s, Crash(kept))
    ensures SysInv(DoStep(s, Crash(kept)))
  {
    hide Inv;
    hide Mirrors;
    hide FileText;
    hide Recoverable;
    FileIsPrefix(s.log);
    var t := DoStep(s, Crash(kept));
    assert t.log.history == s.log.history;
  }

  /** What replay finds in any image that kept the durable bytes: whole records
      from the start of the history, and every acknowledged one among them. */
  lemma ImageRecovers(s: Sys, bytes: Bytes, now: Time)
    requires AllRecoverable(s.log.history) && Acked(s)
    requires bytes <= FileText(s.log.history) && (bytes == [] || |bytes| >= HEADER_SIZE)
    requires s.log.disk.durable <= |bytes|
    ensures var r := ReplayFile(bytes, now, EMPTY);
            && r.Recovered? && s.ackedDurable <= r.res.records <= |s.log.history|
            && r.res.lastValid <= |bytes| && Reopened(bytes, r.res) == FileText(s.log.history[..r.res.records])
            && r.db == ApplyAll(s.log.history[..r.res.records], now, EMPTY)
            && r.res.truncated == (bytes != [] && |Reopened(bytes, r.res)| < |bytes|)
            && (|bytes| == |s.log.disk.bytes| ==> s.ackedStored <= r.res.records)
  {
    hide RecordText;
    hide Recoverable;
    hide ReplayFile;
    hide Complete;
    hide LogText;
    var hs, c := s.log.history, |bytes|;
    assert bytes == FileText(hs)[..c];
    ImageReplays(hs, c, now, EMPTY);
    ReopenKeepsWholeRecords(hs, c, now, EMPTY);
    if s.ackedDurable > 0 { CompleteCovers(hs, c, s.ackedDurable); }
    if s.ackedStored > 0 && c == |s.log.disk.bytes| { CompleteCovers(hs, c, s.ackedStored); }
  }

  /** A cut that leaves the text of the first i records leaves them complete. */
  lemma CompleteCovers(hs: seq<Record>, c: nat, i: nat)
    requires 0 < i <= |hs| && |FileText(hs[..i])| <= c <= |FileText(hs)|
    ensures HEADER_SIZE < c && i <= Complete(hs, c - HEADER_SIZE) <= |hs|
  {
    hide RecordText;
    TextGrows(hs, 0, i);
    CompleteExact(hs, c - HEADER_SIZE);
    var k := Complete(hs, c - HEADER_SIZE);
    if k < i { TextSplit(hs, k + 1, i); }
  }

  lemma ReopenKeeps(s: Sys, now: Time, policy: Policy)
    requires SysInv(s) && CanStep(s, Reopen(now, policy))
    ensures SysInv(DoStep(s, Reopen(now, policy))) && DoStep(s, Reopen(now, policy)).up
    ensures s.log.history[..s.ackedDurable] <= DoStep(s, Reopen(now, policy)).log.history
  {
    hide RecordText;
    hide Recoverable;
    hide ReplayFile;
    hide LogText;
    hide ApplyAll;
    var bytes, hs := s.log.disk.bytes, s.log.history;
    ImageRecovers(s, bytes, now);
    var r := ReplayFile(bytes, now, EMPTY);
    var t, k := DoStep(s, Reopen(now, policy)), r.res.records;
    RecoveredMirrors(hs[..k], now);
    StartedInv(t.log, hs[..k], policy);
    StartedAcked(s, t, k);
  }

  lemma StartedInv(t: State, rs: seq<Record>, policy: Policy)
    requires t.core == FRESH_CORE && t.phase == Idle && t.history == rs && t.base == |rs|
    requires t.disk.bytes == FileText(rs) && t.disk.durable <= |t.disk.bytes|
    ensures Inv(t)
  {
    assert rs[|rs|..] == [] && rs[..|rs|] == rs;
  }

  lemma StartedAcked(s: Sys, t: Sys, k: nat)
    requires Acked(s) && s.ackedDurable <= k <= |s.log.history| && t.log.history == s.log.history[..k]
    requires s.log.disk.durable <= |s.log.disk.bytes|
    requires t.ackedDurable == s.ackedDurable && t.ackedStored == s.ackedStored <= k
    requires t.log.disk.bytes == FileText(t.log.history)
    requires t.log.disk.durable == Min(s.log.disk.durable, |t.log.disk.bytes|)
    ensures Acked(t)
  {
    var hs := s.log.history;
    assert t.log.history[..k] == t.log.history;
    if s.ackedDurable > 0 {
      assert t.log.history[..s.ackedDurable] == hs[..s.ackedDurable];
      UptoMonotone(t.log, s.ackedDurable, k);
    }
    if s.ackedStored > 0 {
      assert t.log.history[..s.ackedStored] == hs[..s.ackedStored];
      UptoMonotone(t.log, s.ackedStored, k);
    }
  }

  lemma StepKeeps(s: Sys, st: Step)
    requires SysInv(s) && CanStep(s, st)
    ensures SysInv(DoStep(s, st))
  {
    hide SysInv;
    hide CanStep;
    hide DoStep;
    match st
    case Operate(op, now) => OperateKeeps(s, op, now);
    case ReclaimOnce(now, gone) => ReclaimKeeps(s, now, gone);
    case Writer(a) => WriterKeeps(s, a);
    case Acknowledge(seqNo) => AcknowledgeKeeps(s, seqNo);
    case Crash(kept) => CrashKeeps(s, kept);
    case Reopen(now, policy) => ReopenKeeps(s, now, policy);
    case _ => ShutdownKeeps(s, st);
  }

  // ---- whole runs ---------------------------------------------------------------------------

  ghost predicate IsRun(s: Sys, steps: seq<Step>)
    decreases |steps|
  {
    steps == [] || (CanStep(s, steps[0]) && IsRun(DoStep(s, steps[0]), steps[1..]))
  }

  ghost function Run(s: Sys, steps: seq<Step>): Sys
    requires IsRun(s, steps)
    decreases |steps|
  {
    if steps == [] then s else Run(DoStep(s, steps[0]), steps[1..])
  }

  lemma {:induction false} RunKeeps(s: Sys, steps: seq<Step>)
    requires SysInv(s) && IsRun(s, steps)
    ensures SysInv(Run(s, steps))
    decreases |steps|
  {
    hide SysInv;
    hide CanStep;
    hide DoStep;
    if steps != [] {
      StepKeeps(s, steps[0]);
      RunKeeps(DoStep(s, steps[0]), steps[1..]);
    }
  }

  /** Crash safety. After any run, whatever a crash keeps, replay never reports
      corruption; it restores exactly the effects of a prefix of the committed
      records, and that prefix includes every record acknowledged under Always,
      and every acknowledged record when all delivered bytes survive. */
  lemma CrashSafety(start: Time, steps: seq<Step>, kept: nat, now: Time)
    requires IsRun(Init(start), steps)
    requires CanStep(Run(Init(start), steps), Crash(kept))
    ensures var s := Run(Init(start), steps);
            var r := ReplayFile(s.log.disk.bytes[..kept], now, EMPTY);
            && r.Recovered? && s.ackedDurable <= r.res.records <= |s.log.history|
            && r.db == ApplyAll(s.log.history[..r.res.records], now, EMPTY)
            && (kept == |s.log.disk.bytes| ==> s.ackedStored <= r.res.records)
  {
    hide SysInv;
    hide CanStep;
    hide ReplayFile;
    hide Run;
    hide IsRun;
    hide ApplyAll;
    InitHolds(start);
    RunKeeps(Init(start), steps);
    CrashRecovers(Run(Init(start), steps), kept, now);
  }

  /** What a crash leaves of a running process, in any state the invariant allows. */
  lemma CrashRecovers(s: Sys, kept: nat, now: Time)
    requires SysInv(s) && CanStep(s, Crash(kept))
    ensures kept <= |s.log.disk.bytes|
    ensures var r := ReplayFile(s.log.disk.bytes[..kept], now, EMPTY);
            && r.Recovered? && s.ackedDurable <= r.res.records <= |s.log.history|
            && r.db == ApplyAll(s.log.history[..r.res.records], now, EMPTY)
            && (kept == |s.log.disk.bytes| ==> s.ackedStored <= r.res.records)
  {
    hide Inv;
    hide Mirrors;
    hide FileText;
    hide ReplayFile;
    hide Recoverable;
    hide ApplyAll;
    FileIsPrefix(s.log);
    ImageRecovers(s, s.log.disk.bytes[..kept], now);
  }

  /** In every reachable running state, at every instant from the last clock
      reading on, replaying the whole history gives exactly the live store's
      visible keys, values and deadlines with deadlines floored to milliseconds. */
  lemma LiveIsRecoverable(start: Time, steps: seq<Step>, now: Time)
    requires IsRun(Init(start), steps)
    requires var s := Run(Init(start), steps); s.up && s.clock <= now
    ensures var s := Run(Init(start), steps);
            ApplyAll(s.log.history, now, EMPTY) == s.eng.db.Floor().Live(now)
  {
    InitHolds(start);
    RunKeeps(Init(start), steps);
    var s := Run(Init(start), steps);
    MirrorLater(s.log.history, s.eng.db, s.clock, now);
  }

  /** The header, the first k records, and at most a strict part of one more. */
  ghost predicate WholeUpTo(hs: seq<Record>, bytes: Bytes, k: nat) {
    && k <= |hs| && FileText(hs[..k]) <= bytes
    && (k == |hs| ==> bytes == FileText(hs[..k]))
    && (k < |hs| ==> |bytes| < |FileText(hs[..k + 1])| && bytes <= FileText(hs[..k + 1]))
  }

  /** The file's shape over any number of crashes, restarts and appends: of the
      file of a running process, and of what a crash left, unless it left nothing. */
  lemma FileShape(start: Time, steps: seq<Step>)
    requires IsRun(Init(start), steps)
    ensures var s := Run(Init(start), steps);
            || (!s.up && s.log.disk.bytes == [])
            || exists k :: WholeUpTo(s.log.history, s.log.disk.bytes, k)
  {
    hide WholeUpTo;
    InitHolds(start);
    RunKeeps(Init(start), steps);
    var s := Run(Init(start), steps);
    hide Run;
    hide IsRun;
    if s.up { FileIsPrefix(s.log); }
    hide Inv;
    if s.up || s.log.disk.bytes != [] {
      var k := ShapeOf(s.log.history, s.log.disk.bytes);
    }
  }

  /** A prefix of a log's text ends within one record at most. */
  lemma ShapeOf(hs: seq<Record>, bytes: Bytes) returns (k: nat)
    requires bytes <= FileText(hs) && |bytes| >= HEADER_SIZE
    ensures WholeUpTo(hs, bytes, k)
  {
    hide RecordText;
    var c := |bytes| - HEADER_SIZE;
    k := Complete(hs, c);
    CompleteExact(hs, c);
    hide Complete;
    TextSplit(hs, k, |hs|);
    assert hs[..|hs|] == hs;
    if k < |hs| { TextSplit(hs, k + 1, |hs|); }
    hide LogText;
  }

  /** Only a restart shortens the history. */
  lemma HistoryKept(s: Sys, st: Step)
    requires SysInv(s) && CanStep(s, st) && !st.Reopen?
    ensures s.log.history <= DoStep(s, st).log.history && s.ackedDurable <= DoStep(s, st).ackedDurable
  {
    hide Inv;
    hide Mirrors;
    hide Perform;
    hide FileText;
    hide Do;
    if st.Writer? { WriterFrame(s.log, st.a); }
    if st.FinalizeBegin? { WriterFrame(s.log, CloseBegin); }
    if st.FinalizeSignal? { WriterFrame(s.log, CloseSignal); }
    if st.Operate? {
      AppendsOnlyWhenAccepted(s, st.op, st.now);
      var out := Effect(s, st.op, st.now);
      if out.logged.Some? { AppendKeepsClosed(s.log, out.logged.value); }
    }
  }

  lemma StepKeepsAcked(s: Sys, st: Step)
    requires SysInv(s) && CanStep(s, st)
    ensures s.ackedDurable <= |s.log.history|
    ensures var t := DoStep(s, st);
            s.ackedDurable <= t.ackedDurable && s.log.history[..s.ackedDurable] <= t.log.history
  {
    hide Inv;
    hide Mirrors;
    hide DoStep;
    hide CanStep;
    hide FileText;
    if st.Reopen? {
      ReopenKeeps(s, st.now, st.policy);
      AckedAfterReopen(s, st.now, st.policy);
    } else {
      HistoryKept(s, st);
    }
  }

  lemma AckedAfterReopen(s: Sys, now: Time, policy: Policy)
    requires CanStep(s, Reopen(now, policy))
    ensures DoStep(s, Reopen(now, policy)).ackedDurable == s.ackedDurable
  {
    hide ReplayFile;
  }

  /** Acknowledged under Always is never lost: whatever happens next, any number
      of crashes and restarts included, those records stay at the head of the
      history. */
  lemma {:induction false} AcknowledgedNeverLost(s: Sys, steps: seq<Step>)
    requires SysInv(s) && IsRun(s, steps)
    ensures s.ackedDurable <= |s.log.history|
    ensures s.log.history[..s.ackedDurable] <= Run(s, steps).log.history
    decreases |steps|
  {
    hide CanStep;
    hide DoStep;
    if steps != [] {
      var t := DoStep(s, steps[0]);
      StepKeepsAcked(s, steps[0]);
      StepKeeps(s, steps[0]);
      hide SysInv;
      AcknowledgedNeverLost(t, steps[1..]);
      assert s.log.history[..s.ackedDurable] <= t.log.history[..t.ackedDurable];
    }
  }

  /** Every crash along the run keeps all the bytes that were delivered. */
  ghost predicate KeepsDelivered(s: Sys, steps: seq<Step>)
    requires IsRun(s, steps)
    decreases |steps|
  {
    steps == [] ||
    (&& (steps[0].Crash? ==> steps[0].kept == |s.log.disk.bytes|)
     && KeepsDelivered(DoStep(s, steps[0]), steps[1..]))
  }

  lemma StepKeepsStored(s: Sys, st: Step)
    requires SysInv(s) && CanStep(s, st) && (st.Crash? ==> st.kept == |s.log.disk.bytes|)
    ensures s.ackedStored <= |s.log.history|
    ensures var t := DoStep(s, st);
            s.ackedStored <= t.ackedStored && s.log.history[..s.ackedStored] <= t.log.history
  {
    hide Inv;
    hide Mirrors;
    hide FileText;
    if st.Reopen? {
      ReopenKeepsStored(s, st.now, st.policy);
    } else {
      HistoryKept(s, st);
      StoredGrows(s, st);
    }
  }

  lemma StoredGrows(s: Sys, st: Step)
    requires CanStep(s, st) && !st.Reopen? && (st.Crash? ==> st.kept == |s.log.disk.bytes|)
    ensures s.ackedStored <= DoStep(s, st).ackedStored
  {
    hide Perform;
    hide Do;
  }

  lemma ReopenKeepsStored(s: Sys, now: Time, policy: Policy)
    requires SysInv(s) && CanStep(s, Reopen(now, policy))
    ensures var t := DoStep(s, Reopen(now, policy));
            t.ackedStored == s.ackedStored <= |s.log.history| && s.log.history[..s.ackedStored] <= t.log.history
  {
    hide RecordText;
    hide Recoverable;
    hide ReplayFile;
    hide LogText;
    hide ApplyAll;
    ImageRecovers(s, s.log.disk.bytes, now);
  }

  /** The same for every acknowledged record, whatever the policy, as long as no
      crash loses delivered bytes: only the operating system's failure loses what
      EverySec acknowledged. */
  lemma {:induction false} AcknowledgedSurvivesProcess(s: Sys, steps: seq<Step>)
    requires SysInv(s) && IsRun(s, steps) && KeepsDelivered(s, steps)
    ensures s.ackedStored <= |s.log.history|
    ensures s.log.history[..s.ackedStored] <= Run(s, steps).log.history
    decreases |steps|
  {
    hide CanStep;
    hide DoStep;
    if steps != [] {
      var t := DoStep(s, steps[0]);
      StepKeepsStored(s, steps[0]);
      StepKeeps(s, steps[0]);
      hide SysInv;
      AcknowledgedSurvivesProcess(t, steps[1..]);
      assert s.log.history[..s.ackedStored] <= t.log.history[..t.ackedStored];
    }
  }

  // ---- shutdown -------------------------------------------------------------------------------

  predicate Restarts(st: Step) {
    st.Crash? || st.Reopen?
  }

  /** After BeginDrain, one step appends nothing and changes nothing visible. */
  lemma DrainedStep(s: Sys, st: Step)
    requires SysInv(s) && s.up && !s.eng.accepting && CanStep(s, st) && !Restarts(st)
    ensures var t := DoStep(s, st);
            && t.up && !t.eng.accepting && s.clock <= t.clock && t.log.history == s.log.history
            && t.eng.db.Live(t.clock) == s.eng.db.Live(t.clock)
  {
    hide Inv;
    hide Mirrors;
    hide LastWithin;
    hide RecordText;
    hide LiveOnes;
    if st.ReclaimOnce? { WithoutInvisible(s.eng.db, st.gone, st.now); }
  }

  /** After BeginDrain, no run of the process appends a record, and what is
      visible later is what was visible then, less what has expired. */
  lemma {:induction false} DrainedRun(s: Sys, steps: seq<Step>)
    requires SysInv(s) && s.up && !s.eng.accepting && IsRun(s, steps)
    requires forall i :: 0 <= i < |steps| ==> !Restarts(steps[i])
    ensures var t := Run(s, steps);
            && s.clock <= t.clock && t.log.history == s.log.history
            && t.eng.db.Live(t.clock) == s.eng.db.Live(t.clock)
    decreases |steps|
  {
    hide CanStep;
    hide DoStep;
    if steps != [] {
      var u := DoStep(s, steps[0]);
      DrainedStep(s, steps[0]);
      StepKeeps(s, steps[0]);
      hide SysInv;
      DrainedRun(u, steps[1..]);
      var t := Run(s, steps);
      LiveLater(u.eng.db, u.clock, t.clock);
      LiveLater(s.eng.db, u.clock, t.clock);
    }
  }

  /** The steps of one process. */
  predicate OneProcess(steps: seq<Step>) {
    forall i :: 0 <= i < |steps| ==> !Restarts(steps[i])
  }

  /** Where the shutdown returns, the length if it does not. */
  function ReturnAt(steps: seq<Step>): (i: nat)
    ensures i <= |steps| && (i < |steps| ==> steps[i] == ReturnResult)
  {
    if steps == [] || steps[0] == ReturnResult then 0 else 1 + ReturnAt(steps[1..])
  }

  /** No fatal condition reported, no timeout while finalizing, no handler left
      behind. */
  predicate Calm(st: Step) {
    st != ReportFatal && st != FinalizeEnd(true) && st != WaitConns(false)
  }

  predicate AllCalm(steps: seq<Step>) {
    forall i :: 0 <= i < |steps| ==> Calm(steps[i])
  }

  /** Shutdown has not returned, and could still return nil; or it could not. */
  predicate Hopeful(s: Sys) {
    !s.fired && match s.shut
      case Serving => true
      case DrainBegun => true
      case Waited(all) => all
      case CloseBegun(all) => all
      case CloseSignalled(all) => all
      case Finalized(all) => all
      case Returned(_) => false
  }

  /** Nothing takes back a recorded fatal condition, a handler left behind or a
      result returned. */
  lemma HopeStep(s: Sys, st: Step)
    requires CanStep(s, st) && !Restarts(st)
    ensures var t := DoStep(s, st);
            && (s.log.core.failed ==> t.log.core.failed)
            && (s.shut.Returned? ==> t.shut == s.shut)
            && (!s.shut.Returned? && !Hopeful(s) ==> !Hopeful(t) && t.shut != Returned(Nil))
            && (Hopeful(s) && st == ReturnResult ==> t.shut == Returned(Nil))
            && (Hopeful(s) && st != ReturnResult ==>
                  && !t.shut.Returned?
                  && (Hopeful(t) <==> Calm(st) && !(st.FinalizeEnd? && s.log.core.failed)))
  {
    hide Effect;
    hide Do;
    hide Can;
    FailedStep(s, st);
  }

  lemma FailedStep(s: Sys, st: Step)
    requires CanStep(s, st) && !Restarts(st)
    ensures s.log.core.failed ==> DoStep(s, st).log.core.failed
  {
    hide Effect;
    hide Do;
    if s.log.core.failed {
      match st
      case Operate(op, now) =>
        AppendsOnlyWhenAccepted(s, op, now);
        if Effect(s, op, now).logged.Some? { FailureSticks(s.log, Action.Append(Effect(s, op, now).logged.value)); }
      case Writer(a) => FailureSticks(s.log, a);
      case FinalizeBegin => FailureSticks(s.log, CloseBegin);
      case FinalizeSignal => FailureSticks(s.log, CloseSignal);
      case _ =>
    }
  }

  lemma FailureSticks(s: State, a: Action)
    requires Can(s, a) && s.core.failed
    ensures Do(s, a).core.failed
  {
    hide LastWithin;
    hide RecordText;
  }

  /** Once hope is lost nil is not returned; once returned the result stays. */
  lemma {:induction false} HopeRun(s: Sys, steps: seq<Step>)
    requires IsRun(s, steps) && OneProcess(steps)
    ensures s.log.core.failed ==> Run(s, steps).log.core.failed
    ensures s.shut.Returned? ==> Run(s, steps).shut == s.shut
    ensures !s.shut.Returned? && !Hopeful(s) ==> Run(s, steps).shut != Returned(Nil) && !Hopeful(Run(s, steps))
    decreases |steps|
  {
    hide CanStep;
    hide DoStep;
    if steps != [] {
      HopeStep(s, steps[0]);
      HopeRun(DoStep(s, steps[0]), steps[1..]);
    }
  }

  lemma {:induction false} RunSplit(s: Sys, steps: seq<Step>, i: nat)
    requires IsRun(s, steps) && i <= |steps|
    ensures IsRun(s, steps[..i]) && IsRun(Run(s, steps[..i]), steps[i..])
    ensures Run(s, steps) == Run(Run(s, steps[..i]), steps[i..])
    decreases i
  {
    hide CanStep;
    hide DoStep;
    if i == 0 {
      assert steps[..0] == [] && steps[0..] == steps;
    } else {
      RunUnfolds(s, steps);
      hide IsRun;
      hide Run;
      var t, rest, front := DoStep(s, steps[0]), steps[1..], steps[..i];
      RunSplit(t, rest, i - 1);
      assert front[0] == steps[0] && front[1..] == rest[..i - 1];
      assert rest[i - 1..] == steps[i..];
      RunFolds(s, front);
    }
  }

  lemma RunUnfolds(s: Sys, steps: seq<Step>)
    requires IsRun(s, steps) && steps != []
    ensures CanStep(s, steps[0]) && IsRun(DoStep(s, steps[0]), steps[1..])
    ensures Run(s, steps) == Run(DoStep(s, steps[0]), steps[1..])
  {
    hide CanStep;
    hide DoStep;
  }

  lemma RunFolds(s: Sys, steps: seq<Step>)
    requires steps != [] && CanStep(s, steps[0]) && IsRun(DoStep(s, steps[0]), steps[1..])
    ensures IsRun(s, steps) && Run(s, steps) == Run(DoStep(s, steps[0]), steps[1..])
  {
    hide CanStep;
    hide DoStep;
  }

  /** Before its return, a process that was hopeful still is only if every step
      was calm, and is if moreover the log has not failed. */
  lemma {:induction false} HopeKept(s: Sys, steps: seq<Step>)
    requires IsRun(s, steps) && OneProcess(steps) && Hopeful(s) && ReturnResult !in steps
    ensures Run(s, steps).shut != Returned(Nil)
    ensures Hopeful(Run(s, steps)) ==> AllCalm(steps)
    ensures AllCalm(steps) && !Run(s, steps).log.core.failed ==> Hopeful(Run(s, steps))
    decreases |steps|
  {
    hide CanStep;
    hide DoStep;
    hide Calm;
    if steps != [] {
      var t := DoStep(s, steps[0]);
      HopeStep(s, steps[0]);
      hide Hopeful;
      assert AllCalm(steps) <==> Calm(steps[0]) && AllCalm(steps[1..]) by {
        assert forall i :: 1 <= i < |steps| ==> steps[i] == steps[1..][i - 1];
      }
      HopeRun(t, steps[1..]);
      if Hopeful(t) { HopeKept(t, steps[1..]); }
    }
  }

  predicate JustStarted(s: Sys) {
    s.up && s.shut == Serving && !s.fired
  }

  /** The state shutdown decides in. */
  ghost function AtReturn(s: Sys, steps: seq<Step>): Sys
    requires IsRun(s, steps)
  {
    RunSplit(s, steps, ReturnAt(steps));
    Run(s, steps[..ReturnAt(steps)])
  }

  /** A process returns nil if and only if it returns, and until then no fatal
      condition was reported, finalizing did not time out, every handler was
      waited for, and the log had not failed. What is reported later does not
      count. */
  lemma NilMeansNoFatal(s: Sys, steps: seq<Step>)
    requires SysInv(s) && JustStarted(s) && IsRun(s, steps) && OneProcess(steps)
    ensures Run(s, steps).shut == Returned(Nil) <==>
            ReturnAt(steps) < |steps| && AllCalm(steps[..ReturnAt(steps)]) && !AtReturn(s, steps).log.core.failed
  {
    var i := ReturnAt(steps);
    RunSplit(s, steps, i);
    NoEarlierReturn(steps);
    HopeKept(s, steps[..i]);
    RunKeeps(s, steps[..i]);
    var u := AtReturn(s, steps);
    if i == |steps| {
      assert steps[..i] == steps;
    } else {
      assert steps[i..][0] == ReturnResult;
      HopeStep(u, ReturnResult);
      FinalizedSound(u);
      HopeRun(DoStep(u, ReturnResult), steps[i..][1..]);
    }
  }

  /** A fatal condition reported, or a finalization that timed out, before the
      return is what is returned. */
  lemma FatalIsReturned(s: Sys, steps: seq<Step>, j: nat)
    requires SysInv(s) && JustStarted(s) && IsRun(s, steps) && OneProcess(steps)
    requires j < ReturnAt(steps) < |steps| && (steps[j] == ReportFatal || steps[j] == FinalizeEnd(true))
    ensures Run(s, steps).shut == Returned(Fatal)
  {
    hide SysInv;
    hide CanStep;
    hide DoStep;
    var i := ReturnAt(steps);
    RunSplit(s, steps, i);
    var front, back := steps[..i], steps[i..];
    assert back[0] == ReturnResult && front[j] == steps[j];
    RunSplit(s, front, j);
    var u := Run(s, front[..j]);
    assert front[j..][0] == steps[j];
    FiresStep(u, steps[j]);
    FiredRun(DoStep(u, steps[j]), front[j..][1..]);
    var t := Run(s, front);
    ReturnsFatal(t);
    HopeRun(DoStep(t, ReturnResult), back[1..]);
  }

  lemma FiresStep(s: Sys, st: Step)
    requires CanStep(s, st) && !Restarts(st) && (s.fired || st == ReportFatal || st == FinalizeEnd(true))
    ensures DoStep(s, st).fired
  {
    hide Effect;
    hide Do;
    hide Can;
  }

  lemma {:induction false} FiredRun(s: Sys, steps: seq<Step>)
    requires IsRun(s, steps) && OneProcess(steps) && s.fired
    ensures Run(s, steps).fired
    decreases |steps|
  {
    hide CanStep;
    hide DoStep;
    if steps != [] {
      FiresStep(s, steps[0]);
      FiredRun(DoStep(s, steps[0]), steps[1..]);
    }
  }

  lemma ReturnsFatal(s: Sys)
    requires CanStep(s, ReturnResult) && s.fired
    ensures DoStep(s, ReturnResult).shut == Returned(Fatal)
  {
  }

  lemma {:induction false} NoEarlierReturn(steps: seq<Step>)
    ensures ReturnResult !in steps[..ReturnAt(steps)]
  {
    if steps != [] && steps[0] != ReturnResult {
      NoEarlierReturn(steps[1..]);
      var i := ReturnAt(steps);
      assert steps[..i] == [steps[0]] + steps[1..][..i - 1];
    }
  }

  lemma FinalizedSound(s: Sys)
    requires SysInv(s) && CanStep(s, ReturnResult)
    ensures Hopeful(s) ==> !s.log.core.failed
    ensures !s.shut.Returned?
  {
    hide Inv;
    hide Mirrors;
  }

  /** The end of the last restart in a run. */
  function LastStart(steps: seq<Step>): (n: nat)
    ensures n <= |steps| && (n > 0 ==> steps[n - 1].Reopen?)
    ensures forall j :: n <= j < |steps| ==> !steps[j].Reopen?
  {
    if steps == [] then 0
    else if steps[|steps| - 1].Reopen? then |steps|
    else LastStart(steps[..|steps| - 1])
  }

  /** Without a restart, a run that ends running had no crash. */
  lemma {:induction false} UpThroughout(s: Sys, steps: seq<Step>)
    requires IsRun(s, steps) && Run(s, steps).up
    requires forall j :: 0 <= j < |steps| ==> !steps[j].Reopen?
    ensures s.up && OneProcess(steps)
    decreases |steps|
  {
    hide CanStep;
    hide DoStep;
    if steps != [] {
      UpThroughout(DoStep(s, steps[0]), steps[1..]);
      UpBefore(s, steps[0]);
      assert forall i :: 1 <= i < |steps| ==> steps[i] == steps[1..][i - 1];
    }
  }

  lemma UpBefore(s: Sys, st: Step)
    requires CanStep(s, st) && !st.Reopen? && DoStep(s, st).up
    ensures s.up && !st.Crash?
  {
    hide Perform;
    hide Do;
  }

  lemma ReopenStarts(s: Sys, st: Step)
    requires SysInv(s) && CanStep(s, st) && st.Reopen?
    ensures JustStarted(DoStep(s, st)) && SysInv(DoStep(s, st))
  {
    ReopenKeeps(s, st.now, st.policy);
    hide SysInv;
    hide ReplayFile;
  }

  /** The process that a run ends in: what came before left it just started, and
      the rest are its own steps. */
  lemma LastProcess(start: Time, steps: seq<Step>)
    requires IsRun(Init(start), steps) && Run(Init(start), steps).up
    ensures var n := LastStart(steps);
            && OneProcess(steps[n..]) && IsRun(Init(start), steps[..n])
            && var s := Run(Init(start), steps[..n]);
               SysInv(s) && JustStarted(s) && IsRun(s, steps[n..]) && Run(s, steps[n..]) == Run(Init(start), steps)
  {
    hide SysInv;
    hide CanStep;
    hide DoStep;
    var n := LastStart(steps);
    RunSplit(Init(start), steps, n);
    UpThroughout(Run(Init(start), steps[..n]), steps[n..]);
    if n > 0 {
      var front := steps[..n];
      RunSplit(Init(start), front, n - 1);
      InitHolds(start);
      RunKeeps(Init(start), front[..n - 1]);
      assert front[n - 1..] == [steps[n - 1]];
      var s := Run(Init(start), front[..n - 1]);
      assert Run(s, [steps[n - 1]]) == DoStep(s, steps[n - 1]);
      ReopenStarts(s, steps[n - 1]);
    }
  }

  /** Clean shutdown. Once the last process has returned nil: it had no fatal
      condition, timeout, handler left behind or log failure before that; every
      committed record is on the disk, a crash can lose nothing, and replaying
      the file gives the final view of memory with floored deadlines. */
  lemma CleanShutdown(start: Time, steps: seq<Step>, kept: nat, now: Time)
    requires IsRun(Init(start), steps)
    requires var s := Run(Init(start), steps);
             s.up && s.shut == Returned(Nil) && s.clock <= now && CanStep(s, Crash(kept))
    ensures var own := steps[LastStart(steps)..];
            ReturnAt(own) < |own| && AllCalm(own[..ReturnAt(own)])
    ensures var s := Run(Init(start), steps);
            && !s.eng.accepting && s.log.core.synced == s.log.core.appended && !s.log.core.failed
            && kept == |s.log.disk.bytes|
            && ReplayFile(s.log.disk.bytes[..kept], now, EMPTY) ==
               Recovered(Replay.Result(|s.log.history|, |s.log.disk.bytes|, false), s.eng.db.Floor().Live(now))
  {
    hide SysInv;
    hide CanStep;
    hide DoStep;
    LastProcess(start, steps);
    var n := LastStart(steps);
    NilMeansNoFatal(Run(Init(start), steps[..n]), steps[n..]);
    InitHolds(start);
    RunKeeps(Init(start), steps);
    CleanState(Run(Init(start), steps), kept, now);
  }

  lemma CleanState(s: Sys, kept: nat, now: Time)
    requires SysInv(s) && s.up && s.shut == Returned(Nil) && s.clock <= now && CanStep(s, Crash(kept))
    ensures !s.eng.accepting && s.log.core.synced == s.log.core.appended && !s.log.core.failed && kept == |s.log.disk.bytes|
    ensures ReplayFile(s.log.disk.bytes[..kept], now, EMPTY) ==
            Recovered(Replay.Result(|s.log.history|, |s.log.disk.bytes|, false), s.eng.db.Floor().Live(now))
  {
    hide Inv;
    hide FileText;
    hide Recoverable;
    hide ReplayFile;
    AwaitNeverClosed(s.log, 0, Always);
    MirrorLater(s.log.history, s.eng.db, s.clock, now);
    WholeFileReplays(s.log.history, now);
    assert s.log.disk.bytes[..kept] == s.log.disk.bytes;
  }

  lemma WholeFileReplays(hs: seq<Record>, now: Time)
    requires AllRecoverable(hs)
    ensures ReplayFile(FileText(hs), now, EMPTY) ==
            Recovered(Replay.Result(|hs|, |FileText(hs)|, false), ApplyAll(hs, now, EMPTY))
  {
    hide RecordText;
    hide Recoverable;
    var c := |FileText(hs)|;
    ImageReplays(hs, c, now, EMPTY);
    assert FileText(hs)[..c] == FileText(hs);
    CompleteExact(hs, c - HEADER_SIZE);
    var k := Complete(hs, c - HEADER_SIZE);
    assert hs[..|hs|] == hs;
    if k < |hs| { WholeWithin(hs, k + 1); }
  }
}
