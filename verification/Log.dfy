/** The append-only log (internal/aof/log.go).

    The object's fields and its mutex-delimited sections are class Log. The
    writer goroutine's progress between those sections, the file and the history
    of appended records are added by State, whose actions interleave freely. */
module Log {
  import opened Bytes
  import opened Aof
  import opened Replay

  datatype Policy = EverySec | Always

  /** Where one record ends in the batch being assembled. */
  datatype Pending = Pending(seqNo: nat, end: nat)

  /** Whether Append would take a record. */
  datatype Gate = Accepts | HasFailed | IsClosed

  /** The fields the mutex protects, with the two wake-up channels. */
  datatype Core = Core(
    buf: Bytes, pend: seq<Pending>,
    appended: nat, written: nat, synced: nat,
    failed: bool, closing: bool, closed: bool,
    notify: bool, closeSignal: bool)
  {
    function Gate(): Gate {
      if failed then HasFailed else if closing || closed then IsClosed else Accepts
    }

    function Append(r: Record): Core {
      var text := buf + RecordText(r);
      this.(buf := text, pend := pend + [Pending(appended + 1, |text|)], appended := appended + 1, notify := true)
    }

    predicate Reached(seqNo: nat, p: Policy) {
      if p == Always then synced >= seqNo else written >= seqNo
    }
  }

  const FRESH_CORE: Core := Core([], [], 0, 0, 0, false, false, false, false, false)

  /** advanceWritten's scan: the last record whose end was reached. */
  function LastWithin(recs: seq<Pending>, n: nat, i: nat, w: nat): nat
    requires i <= |recs|
    decreases |recs| - i
  {
    if i == |recs| || recs[i].end > n then w else LastWithin(recs, n, i + 1, recs[i].seqNo)
  }

  datatype Verdict = Waiting | Durable | LogFailed | LogClosed

  /** What Await decides each time it holds the mutex. */
  function AwaitVerdict(c: Core, seqNo: nat, p: Policy): Verdict {
    if c.failed then LogFailed
    else if c.Reached(seqNo, p) then Durable
    else if c.closed then LogClosed
    else Waiting
  }

  // ---- the sections under the mutex -----------------------------------------------

  /** A file whose writes may deliver any part of what they are given. broken says
      that a write or a sync has failed: reported an error, or made no headway. */
  class File {
    var delivered: Bytes
    var durable: nat
    ghost var broken: bool

    method Sync() returns (err: bool)
      modifies this`durable, this`broken
      ensures !err ==> durable == |delivered|
      ensures err ==> durable == old(durable)
      ensures broken == (old(broken) || err)
    {
      err :| err || !err;
      if !err { durable := |delivered|; }
      broken := broken || err;
    }

    method Write(p: Bytes) returns (n: int, err: bool)
      modifies this`delivered, this`broken
      ensures -1 <= n <= |p|
      ensures delivered == old(delivered) + p[..Max(n, 0)]
      ensures broken == (old(broken) || err || n <= 0)
    {
      n :| -1 <= n <= |p|;
      err :| err || !err;
      delivered := delivered + p[..Max(n, 0)];
      broken := broken || err || n <= 0;
    }
  }

  /** writeFull: the count returned is exactly what reached the file, whatever
      the pattern of partial writes; no error means everything did, and an error
      that a write failed. */
  method WriteFull(f: File, p: Bytes) returns (total: nat, err: bool)
    modifies f`delivered, f`broken
    ensures total <= |p| && f.delivered == old(f.delivered) + p[..total]
    ensures !err ==> total == |p| && f.broken == old(f.broken)
    ensures err ==> f.broken
  {
    total, err := 0, false;
    while total < |p|
      invariant total <= |p| && f.delivered == old(f.delivered) + p[..total]
      invariant f.broken == old(f.broken)
      decreases |p| - total
    {
      var n, failed := f.Write(p[total..]);
      if n < 0 { return total, true; }
      assert p[..total] + p[total..][..n] == p[..total + n];
      total := total + n;
      if failed { return total, true; }
      if n == 0 { return total, true; }
    }
  }

  datatype AppendError = NoError | Shut(gate: Gate) | NotEncodable

  class Log {
    var buf: Bytes
    var records: seq<Pending>
    var appended: nat
    var written: nat
    var synced: nat
    var failed: bool
    var closing: bool
    var closed: bool
    var notify: bool
    var closeSignal: bool

    ghost function Model(): Core
      reads this
    {
      Core(buf, records, appended, written, synced, failed, closing, closed, notify, closeSignal)
    }

    constructor ()
      ensures Model() == FRESH_CORE
    {
      buf, records := [], [];
      appended, written, synced := 0, 0, 0;
      failed, closing, closed, notify, closeSignal := false, false, false, false, false;
    }

    method Append(r: Record) returns (seqNo: nat, err: AppendError)
      modifies this
      ensures err == if old(Model()).Gate() != Accepts then Shut(old(Model()).Gate())
                     else if r == Del([]) then NotEncodable else NoError
      ensures Model() == if err == NoError then old(Model()).Append(r) else old(Model())
      ensures seqNo == if err == NoError then old(appended) + 1 else 0
    {
      hide RecordText;
      if failed { return 0, Shut(HasFailed); }
      if closing || closed { return 0, Shut(IsClosed); }
      var w := new TextBuffer();
      var ok := Encode(w, r);
      if !ok { return 0, NotEncodable; }
      buf := buf + w.text;
      appended := appended + 1;
      records := records + [Pending(appended, |buf|)];
      notify := true;
      return appended, NoError;
    }

    /** The first section of flush: the batch leaves the buffer, unless failed. */
    method Swap() returns (batch: Bytes, recs: seq<Pending>, stop: bool)
      modifies this
      ensures stop == old(failed)
      ensures stop ==> Model() == old(Model())
      ensures !stop ==> batch == old(buf) && recs == old(records) && Model() == old(Model()).(buf := [], pend := [])
    {
      batch, recs := [], [];
      if failed { return batch, recs, true; }
      batch, buf := buf, [];
      recs, records := records, [];
      return batch, recs, false;
    }

    method AdvanceWritten(recs: seq<Pending>, n: nat)
      modifies this
      ensures Model() == old(Model()).(written := LastWithin(recs, n, 0, old(written)))
    {
      var i := 0;
      while i < |recs|
        invariant 0 <= i <= |recs|
        invariant LastWithin(recs, n, 0, old(written)) == LastWithin(recs, n, i, written)
        invariant Model() == old(Model()).(written := written)
      {
        if recs[i].end > n { break; }
        written := recs[i].seqNo;
        i := i + 1;
      }
    }

    method AdvanceSynced()
      modifies this
      ensures Model() == old(Model()).(synced := old(written))
    {
      synced := written;
    }

    method Fail()
      modifies this
      ensures Model() == old(Model()).(failed := true)
    {
      if !failed { failed := true; }
    }

    method Finish()
      modifies this
      ensures Model() == old(Model()).(closed := true)
    {
      closed := true;
    }

    method BeginClose()
      modifies this
      ensures Model() == old(Model()).(closing := true)
    {
      closing := true;
    }

    /** One pass of Await's loop. */
    method Await(seqNo: nat, p: Policy) returns (v: Verdict)
      ensures v == AwaitVerdict(Model(), seqNo, p)
    {
      if failed { return LogFailed; }
      var reached := if p == Always then synced >= seqNo else written >= seqNo;
      if reached { return Durable; }
      if closed { return LogClosed; }
      return Waiting;
    }
  }

  /** flush with nothing else running: what the file received, where the markers
      stand and whether the log failed, for every pattern of partial writes. */
  method Flush(l: Log, f: File, policy: Policy, forceSync: bool)
    requires l.buf == [] ==> l.records == []
    modifies l, f
    ensures old(l.failed) ==> l.Model() == old(l.Model()) && f.delivered == old(f.delivered)
    ensures !old(l.failed) ==> exists n: nat | n <= |old(l.buf)| ::
      && f.delivered == old(f.delivered) + old(l.buf)[..n]
      && l.written == LastWithin(old(l.records), n, 0, old(l.written))
      && l.buf == [] && l.records == [] && l.appended == old(l.appended)
      && (!l.failed ==> n == |old(l.buf)|)
      && (l.synced == old(l.synced) || (l.synced == l.written && f.durable == |f.delivered|))
      && (!l.failed && (forceSync || policy == Always) ==> l.synced == l.written && f.durable == |f.delivered|)
    ensures l.failed && !old(l.failed) ==> f.broken
  {
    var batch, recs, stop := l.Swap();
    if stop { return; }
    var n := 0;
    assert batch[..0] == [];
    if |batch| > 0 {
      var err: bool;
      n, err := WriteFull(f, batch);
      l.AdvanceWritten(recs, n);
      if err { l.Fail(); return; }
    }
    assert batch[..n] == old(l.buf)[..n];
    if !forceSync && policy != Always { return; }
    var err := f.Sync();
    if err { l.Fail(); return; }
    l.AdvanceSynced();
  }

  // ---- the running log --------------------------------------------------------------

  /** Where the writer goroutine is between mutex sections. force and fin say
      whether this flush must sync and whether the writer stops after it. */
  datatype Phase =
    | Idle
    | Flushing(force: bool, fin: bool)
    | Writing(batch: Bytes, recs: seq<Pending>, total: nat, force: bool, fin: bool)
    | Wrote(batch: Bytes, recs: seq<Pending>, total: nat, err: bool, force: bool, fin: bool)
    | Syncing(fin: bool)
    | Synced(fin: bool)
    | Failing(fin: bool)
    | Finishing
    | Stopped

  /** bytes is what the operating system has; the first durable of them are on
      the disk for good. */
  datatype Disk = Disk(bytes: Bytes, durable: nat)

  /** history is every record of the file: base of them were there at opening. */
  datatype State = State(core: Core, phase: Phase, disk: Disk, history: seq<Record>, base: nat, policy: Policy)

  datatype Action =
    | Append(r: Record)
    | WakeNotify | WakeTick | WakeClose
    | Swap
    | Write(n: int, err: bool)
    | Advance
    | SyncOk | SyncFail
    | MarkSynced
    | MarkFailed
    | Finish
    | CloseBegin | CloseSignal

  function After(fin: bool): Phase {
    if fin then Finishing else Idle
  }

  predicate Can(s: State, a: Action) {
    match a
    case Append(r) => s.core.Gate() == Accepts && r != Del([])
    case WakeNotify => s.phase == Idle && s.core.notify
    case WakeTick => s.phase == Idle
    case WakeClose => s.phase == Idle && s.core.closeSignal
    case Swap => s.phase.Flushing?
    case Write(n, _) => s.phase.Writing? && s.phase.total < |s.phase.batch| && -1 <= n <= |s.phase.batch| - s.phase.total
    case Advance => s.phase.Wrote?
    case SyncOk => s.phase.Syncing?
    case SyncFail => s.phase.Syncing?
    case MarkSynced => s.phase.Synced?
    case MarkFailed => s.phase.Failing?
    case Finish => s.phase == Finishing
    case CloseBegin => true
    case CloseSignal => s.core.closing
  }

  /** What follows a delivered batch. */
  function AfterWrite(s: State, err: bool, force: bool, fin: bool): Phase {
    if err then Failing(fin) else if force || s.policy == Always then Syncing(fin) else After(fin)
  }

  function Do(s: State, a: Action): State
    requires Can(s, a)
  {
    match a
    case Append(r) => s.(core := s.core.Append(r), history := s.history + [r])
    case WakeNotify => s.(core := s.core.(notify := false), phase := Flushing(false, false))
    case WakeTick => s.(phase := Flushing(true, false))
    case WakeClose => s.(phase := Flushing(true, true))
    case Swap =>
      var force, fin := s.phase.force, s.phase.fin;
      if s.core.failed then s.(phase := After(fin))
      else s.(core := s.core.(buf := [], pend := []),
              phase := if s.core.buf != [] then Writing(s.core.buf, s.core.pend, 0, force, fin)
                       else AfterWrite(s, false, force, fin))
    case Write(n, err) =>
      var ph := s.phase;
      var total := ph.total + Max(n, 0);
      var stop := n <= 0 || err;
      s.(disk := s.disk.(bytes := s.disk.bytes + ph.batch[ph.total..total]),
         phase := if stop || total == |ph.batch| then Wrote(ph.batch, ph.recs, total, stop, ph.force, ph.fin)
                  else Writing(ph.batch, ph.recs, total, ph.force, ph.fin))
    case Advance =>
      s.(core := s.core.(written := LastWithin(s.phase.recs, s.phase.total, 0, s.core.written)),
         phase := AfterWrite(s, s.phase.err, s.phase.force, s.phase.fin))
    case SyncOk => s.(disk := s.disk.(durable := |s.disk.bytes|), phase := Synced(s.phase.fin))
    case SyncFail => s.(phase := Failing(s.phase.fin))
    case MarkSynced => s.(core := s.core.(synced := s.core.written), phase := After(s.phase.fin))
    case MarkFailed => s.(core := s.core.(failed := true), phase := After(s.phase.fin))
    case Finish => s.(core := s.core.(closed := true), phase := Stopped)
    case CloseBegin => s.(core := s.core.(closing := true))
    case CloseSignal => s.(core := s.core.(closeSignal := true))
  }

  // ---- the invariant -------------------------------------------------------------------

  /** The file text of the first i records. */
  function Upto(s: State, i: nat): Bytes
    requires i <= |s.history|
  {
    FileText(s.history[..i])
  }

  /** Consecutive records rs, numbered from from + 1, with their ends. */
  ghost predicate Marks(recs: seq<Pending>, from: nat, rs: seq<Record>) {
    && |recs| == |rs|
    && forall i :: 0 <= i < |recs| ==> recs[i] == Pending(from + i + 1, |LogText(rs[..i + 1])|)
  }

  /** Numbering: the history is what was there plus what was appended, and the
      markers are ordered. */
  ghost predicate Numbered(s: State) {
    && |s.history| == s.base + s.core.appended
    && s.core.synced <= s.core.written && s.core.written + |s.core.pend| <= s.core.appended
  }

  /** The first record not yet taken out of the buffer. */
  function FirstPending(s: State): int {
    |s.history| - |s.core.pend|
  }

  ghost predicate PendingExact(s: State)
    requires Numbered(s)
  {
    var q := FirstPending(s);
    s.core.buf == LogText(s.history[q..]) && Marks(s.core.pend, s.core.appended - |s.core.pend|, s.history[q..])
  }

  /** A batch in flight: the records after written, of which total bytes are in
      the file. */
  ghost predicate InFlight(s: State, batch: Bytes, recs: seq<Pending>, total: nat)
    requires Numbered(s)
  {
    var w, q := s.base + s.core.written, FirstPending(s);
    && w < q && total <= |batch|
    && batch == LogText(s.history[w..q]) && Marks(recs, s.core.written, s.history[w..q])
    && s.disk.bytes == Upto(s, w) + batch[..total]
  }

  /** Every record taken out of the buffer is in the file, and nothing more. */
  ghost predicate Settled(s: State)
    requires Numbered(s)
  {
    s.base + s.core.written == FirstPending(s) && s.disk.bytes == Upto(s, FirstPending(s))
  }

  /** After a failed write: the file is a prefix of the log's text, and written
      counts exactly the records wholly in it. */
  ghost predicate Broken(s: State)
    requires Numbered(s)
  {
    var w := s.base + s.core.written;
    && s.disk.bytes <= FileText(s.history)
    && |Upto(s, w)| <= |s.disk.bytes|
    && (w < |s.history| ==> |s.disk.bytes| < |Upto(s, w + 1)|)
  }

  ghost predicate PhaseExact(s: State)
    requires Numbered(s)
  {
    match s.phase
    case Writing(batch, recs, total, _, _) => !s.core.failed && total < |batch| && InFlight(s, batch, recs, total)
    case Wrote(batch, recs, total, err, _, _) =>
      !s.core.failed && InFlight(s, batch, recs, total) && (!err ==> total == |batch|)
    case Failing(_) => !s.core.failed && Broken(s)
    case Syncing(_) => !s.core.failed && Settled(s)
    case Synced(_) => !s.core.failed && Settled(s) && s.disk.durable == |s.disk.bytes|
    case _ => if s.core.failed then Broken(s) else Settled(s)
  }

  /** Synced records are on the disk for good. */
  ghost predicate SyncedDurable(s: State)
    requires Numbered(s)
  {
    && s.disk.durable <= |s.disk.bytes|
    && (s.core.synced > 0 ==> |Upto(s, s.base + s.core.synced)| <= s.disk.durable)
  }

  /** No pending record is left with nobody to write it. */
  predicate Woken(s: State) {
    s.core.pend != [] ==> s.core.notify || s.phase.Flushing? || s.core.failed
  }

  predicate Closing(s: State) {
    && (s.core.closeSignal ==> s.core.closing)
    && (s.core.closed <==> s.phase == Stopped)
    && (Last(s.phase) ==> s.core.closing)
    && (s.phase.Flushing? && s.phase.fin ==> s.phase.force)
    && (Last(s.phase) && !s.phase.Flushing? && !s.core.failed ==> s.core.pend == [])
    && (s.phase in {Finishing, Stopped} && !s.core.failed ==>
          s.core.synced == s.core.appended && s.disk.durable == |s.disk.bytes|)
  }

  /** The writer is in its last flush, or past it. */
  predicate Last(ph: Phase) {
    match ph
    case Idle => false
    case Finishing => true
    case Stopped => true
    case Writing(_, _, _, force, fin) => fin
    case Wrote(_, _, _, _, force, fin) => fin
    case Flushing(_, fin) => fin
    case Syncing(fin) => fin
    case Synced(fin) => fin
    case Failing(fin) => fin
  }

  ghost predicate Inv(s: State) {
    && Numbered(s) && PendingExact(s) && PhaseExact(s) && SyncedDurable(s)
    && Woken(s) && Closing(s) && ForceLast(s.phase) && AlwaysSynced(s)
  }

  /** Under Always every flush ends synced. */
  predicate AlwaysSynced(s: State) {
    s.policy == Always && (s.phase == Idle || s.phase.Flushing?) && !s.core.failed ==> s.core.synced == s.core.written
  }

  /** The last flush always syncs. */
  predicate ForceLast(ph: Phase) {
    && (ph.Writing? && ph.fin ==> ph.force)
    && (ph.Wrote? && ph.fin ==> ph.force)
  }

  // ---- helpers about texts ---------------------------------------------------------------

  lemma TextSplit(rs: seq<Record>, i: nat, j: nat)
    requires i <= j <= |rs|
    ensures LogText(rs[..j]) == LogText(rs[..i]) + LogText(rs[i..j])
    ensures FileText(rs[..j]) == FileText(rs[..i]) + LogText(rs[i..j])
  {
    hide LogText;
    assert rs[..j] == rs[..i] + rs[i..j];
    LogTextAppend(rs[..i], rs[i..j]);
  }

  lemma TextGrows(rs: seq<Record>, i: nat, j: nat)
    requires i < j <= |rs|
    ensures |FileText(rs[..i])| < |FileText(rs[..j])|
  {
    TextSplit(rs, i, j);
    assert rs[i..j][0] == rs[i];
  }

  /** Marks with one more record. */
  lemma MarksAppend(recs: seq<Pending>, from: nat, rs: seq<Record>, r: Record)
    requires Marks(recs, from, rs)
    ensures LogText(rs + [r]) == LogText(rs) + RecordText(r)
    ensures Marks(recs + [Pending(from + |rs| + 1, |LogText(rs)| + |RecordText(r)|)], from, rs + [r])
  {
    hide RecordText;
    LogTextAppend(rs, [r]);
    assert [r][1..] == [] && LogText([r]) == RecordText(r) + LogText([]);
    var all := recs + [Pending(from + |rs| + 1, |LogText(rs)| + |RecordText(r)|)];
    forall i | 0 <= i < |all|
      ensures all[i] == Pending(from + i + 1, |LogText((rs + [r])[..i + 1])|)
    {
      if i < |rs| { assert (rs + [r])[..i + 1] == rs[..i + 1]; } else { assert (rs + [r])[..i + 1] == rs + [r]; }
    }
  }

  /** Scanning the marks counts exactly the records whose text fits in n bytes. */
  lemma {:induction false} LastWithinExact(recs: seq<Pending>, from: nat, rs: seq<Record>, n: nat, i: nat)
    requires Marks(recs, from, rs) && i <= |recs| && |LogText(rs[..i])| <= n
    ensures var k := LastWithin(recs, n, i, from + i) - from;
            i <= k <= |rs| && |LogText(rs[..k])| <= n && (k < |rs| ==> n < |LogText(rs[..k + 1])|)
    decreases |recs| - i
  {
    hide LogText;
    if i < |recs| {
      assert recs[i] == Pending(from + i + 1, |LogText(rs[..i + 1])|);
      if recs[i].end <= n { LastWithinExact(recs, from, rs, n, i + 1); }
    }
  }

  // ---- every action keeps the invariant ----------------------------------------------------

  lemma AppendPending(s: State, r: Record)
    requires Numbered(s) && PendingExact(s) && Can(s, Append(r))
    ensures Numbered(Do(s, Append(r))) && PendingExact(Do(s, Append(r)))
  {
    hide RecordText;
    hide LogText;
    var q := FirstPending(s);
    MarksAppend(s.core.pend, s.core.appended - |s.core.pend|, s.history[q..], r);
    assert (s.history + [r])[q..] == s.history[q..] + [r];
  }

  /** What was in flight or settled before an append still is. */
  lemma AppendFrames(s: State, r: Record, i: nat, j: nat)
    requires i <= j <= |s.history| && Can(s, Append(r))
    ensures var t := Do(s, Append(r));
            Upto(t, i) == Upto(s, i) && t.history[i..j] == s.history[i..j]
  {
    assert (s.history + [r])[..i] == s.history[..i];
    assert (s.history + [r])[i..j] == s.history[i..j];
  }

  lemma AppendKeeps(s: State, r: Record)
    requires Inv(s) && Can(s, Append(r))
    ensures Inv(Do(s, Append(r)))
  {
    hide RecordText;
    hide FileText;
    hide LogText;
    hide Marks;
    AppendPending(s, r);
    hide PendingExact;
    var w, q := s.base + s.core.written, FirstPending(s);
    AppendFrames(s, r, w, q);
    AppendFrames(s, r, q, q);
    AppendFrames(s, r, s.base + s.core.synced, q);
    if s.phase.Failing? { AppendBroken(s, r); }
    hide Broken;
  }

  lemma AppendBroken(s: State, r: Record)
    requires Numbered(s) && Broken(s) && Can(s, Append(r))
    ensures Broken(Do(s, Append(r)))
  {
    hide RecordText;
    var t, w := Do(s, Append(r)), s.base + s.core.written;
    assert t.history[..|s.history|] == s.history;
    TextSplit(t.history, |s.history|, |t.history|);
    assert t.history[..|t.history|] == t.history;
    assert t.history[..w] == s.history[..w];
    if w < |s.history| {
      assert t.history[..w + 1] == s.history[..w + 1];
    } else {
      TextGrowsOne(t.history, w);
    }
  }

  lemma TextGrowsOne(rs: seq<Record>, i: nat)
    requires i < |rs|
    ensures |FileText(rs[..i])| < |FileText(rs[..i + 1])|
  {
    TextGrows(rs, i, i + 1);
  }

  lemma SwapKeeps(s: State)
    requires Inv(s) && Can(s, Swap)
    ensures Inv(Do(s, Swap))
  {
    hide RecordText;
    hide FileText;
    var t, q := Do(s, Swap), FirstPending(s);
    if !s.core.failed {
      assert t.history[|t.history|..] == [];
      assert s.history[q..] == t.history[q..|t.history|];
      if s.core.buf == [] {
        NoText(s.history[q..]);
      } else {
        assert s.core.buf[..0] == [];
        assert q < |s.history|;
      }
    }
  }

  lemma NoText(rs: seq<Record>)
    requires LogText(rs) == []
    ensures rs == []
  {
  }

  lemma WriteKeeps(s: State, n: int, err: bool)
    requires Inv(s) && Can(s, Write(n, err))
    ensures Inv(Do(s, Write(n, err)))
  {
    hide FileText;
    hide LogText;
    hide Marks;
    var ph := s.phase;
    var total := ph.total + Max(n, 0);
    WriteDelivers(s, total);
  }

  /** A file that has received one more part of the batch in flight. */
  lemma WriteDelivers(s: State, total: nat)
    requires Numbered(s) && s.phase.Writing? && InFlight(s, s.phase.batch, s.phase.recs, s.phase.total)
    requires s.phase.total <= total <= |s.phase.batch|
    ensures var t := s.(disk := s.disk.(bytes := s.disk.bytes + s.phase.batch[s.phase.total..total]));
            InFlight(t, s.phase.batch, s.phase.recs, total)
  {
    hide FileText;
    hide LogText;
    hide Marks;
    var batch, w := s.phase.batch, s.base + s.core.written;
    assert batch[..s.phase.total] + batch[s.phase.total..total] == batch[..total];
    assert Upto(s, w) + batch[..s.phase.total] + batch[s.phase.total..total] == Upto(s, w) + batch[..total];
  }

  /** Where Advance leaves written, in terms of the file. */
  lemma AdvanceCounts(s: State)
    requires Inv(s) && Can(s, Advance)
    ensures var w, q, k := s.base + s.core.written, FirstPending(s), Do(s, Advance).core.written - s.core.written;
            && 0 <= k && w + k <= q
            && |Upto(s, w + k)| <= |s.disk.bytes| && (w + k < q ==> |s.disk.bytes| < |Upto(s, w + k + 1)|)
            && (s.phase.total == |s.phase.batch| ==> w + k == q)
  {
    hide LogText;
    hide FileText;
    var w, q := s.base + s.core.written, FirstPending(s);
    var rs, n := s.history[w..q], s.phase.total;
    assert rs[..0] == [];
    NoRecordsNoText();
    LastWithinExact(s.phase.recs, s.core.written, rs, n, 0);
    var k := LastWithin(s.phase.recs, n, 0, s.core.written) - s.core.written;
    hide LastWithin;
    UptoWithin(s, w, q, k);
    if k < |rs| {
      UptoWithin(s, w, q, k + 1);
      if n == |s.phase.batch| { WholeWithin(rs, k + 1); }
    }
  }

  lemma NoRecordsNoText()
    ensures LogText([]) == []
  {
  }

  lemma UptoWithin(s: State, w: nat, q: nat, k: nat)
    requires w + k <= q <= |s.history|
    ensures Upto(s, w + k) == Upto(s, w) + LogText(s.history[w..q][..k])
  {
    TextSplit(s.history, w, w + k);
    assert s.history[w..q][..k] == s.history[w..w + k];
  }

  lemma WholeWithin(rs: seq<Record>, k: nat)
    requires k <= |rs|
    ensures |LogText(rs[..k])| <= |LogText(rs)|
  {
    TextSplit(rs, k, |rs|);
    assert rs[..|rs|] == rs;
  }

  /** A file that holds the first j records and part of the next is Broken's shape. */
  lemma BrokenAt(s: State, q: nat, part: nat)
    requires Numbered(s) && s.base + s.core.written <= q <= |s.history|
    requires part <= |Upto(s, q)| && s.disk.bytes == Upto(s, q)[..part]
    requires |Upto(s, s.base + s.core.written)| <= part
    requires s.base + s.core.written < q ==> part < |Upto(s, s.base + s.core.written + 1)|
    requires s.base + s.core.written == q ==> part == |Upto(s, q)|
    ensures Broken(s)
  {
    hide FileText;
    hide LogText;
    TextSplit(s.history, q, |s.history|);
    assert s.history[..|s.history|] == s.history;
    if s.base + s.core.written == q && q < |s.history| { TextGrowsOne(s.history, q); }
  }

  lemma AdvanceLands(s: State)
    requires Inv(s) && Can(s, Advance)
    ensures var t := Do(s, Advance);
            Numbered(t) && (if s.phase.err then Broken(t) else Settled(t))
  {
    hide LogText;
    hide FileText;
    hide Marks;
    AdvanceCounts(s);
    hide LastWithin;
    hide PendingExact;
    var t, w, q := Do(s, Advance), s.base + s.core.written, FirstPending(s);
    UptoWithin(s, w, q, q - w);
    assert s.history[w..q][..q - w] == s.history[w..q];
    var n := |s.disk.bytes|;
    assert s.disk.bytes == Upto(s, q)[..n];
    if s.phase.err { BrokenAt(t, q, n); }
  }

  lemma AdvanceKeeps(s: State)
    requires Inv(s) && Can(s, Advance)
    ensures Inv(Do(s, Advance))
  {
    hide LogText;
    hide FileText;
    hide Marks;
    hide LastWithin;
    AdvanceCounts(s);
    AdvanceLands(s);
    hide Broken;
    hide Settled;
    hide InFlight;
  }

  lemma WakesKeep(s: State, a: Action)
    requires Inv(s) && Can(s, a) && a in {WakeNotify, WakeTick, WakeClose, CloseBegin, CloseSignal, Finish}
    ensures Inv(Do(s, a))
  {
    hide FileText;
    hide LogText;
    hide Marks;
  }

  lemma SyncsKeep(s: State, a: Action)
    requires Inv(s) && Can(s, a) && a in {SyncOk, MarkSynced}
    ensures Inv(Do(s, a))
  {
    hide FileText;
    hide LogText;
    hide Marks;
  }

  lemma FailuresKeep(s: State, a: Action)
    requires Inv(s) && Can(s, a) && a in {SyncFail, MarkFailed}
    ensures Inv(Do(s, a))
  {
    hide FileText;
    hide LogText;
    hide Marks;
    if a == SyncFail { SettledBroken(s); }
  }

  /** A file with every taken record in it also counts as exact after a failure. */
  lemma SettledBroken(s: State)
    requires Numbered(s) && Settled(s)
    ensures Broken(s)
  {
    hide LogText;
    hide FileText;
    var q := FirstPending(s);
    TextSplit(s.history, q, |s.history|);
    assert s.history[..|s.history|] == s.history;
    if q < |s.history| { TextGrowsOne(s.history, q); }
  }

  /** The log invariant: every action, in any interleaving, keeps it. */
  lemma ActionKeeps(s: State, a: Action)
    requires Inv(s) && Can(s, a)
    ensures Inv(Do(s, a))
  {
    match a
    case Append(r) => AppendKeeps(s, r);
    case Swap => SwapKeeps(s);
    case Write(n, err) => WriteKeeps(s, n, err);
    case Advance => AdvanceKeeps(s);
    case SyncOk => SyncsKeep(s, a);
    case SyncFail => FailuresKeep(s, a);
    case MarkSynced => SyncsKeep(s, a);
    case MarkFailed => FailuresKeep(s, a);
    case _ => WakesKeep(s, a);
  }

  // ---- what the invariant gives --------------------------------------------------------------

  /** In every state the file is a prefix of the log's text that holds at least
      every written record and the opening header. */
  lemma FileIsPrefix(s: State)
    requires Inv(s)
    ensures s.disk.bytes <= FileText(s.history)
    ensures |Upto(s, s.base + s.core.written)| <= |s.disk.bytes|
    ensures HEADER_SIZE <= |s.disk.bytes|
  {
    hide RecordText;
    hide LogText;
    hide Marks;
    var w, q := s.base + s.core.written, FirstPending(s);
    assert s.history[..|s.history|] == s.history;
    TextSplit(s.history, q, |s.history|);
    if s.phase.Writing? || s.phase.Wrote? {
      TextSplit(s.history, w, q);
      var batch := s.phase.batch;
      assert batch == batch[..s.phase.total] + batch[s.phase.total..];
    }
  }

  /** A wait on a number that was handed out never ends because the log closed:
      a close without failure has synced everything. */
  lemma AwaitNeverClosed(s: State, seqNo: nat, p: Policy)
    requires Inv(s) && seqNo <= s.core.appended
    ensures AwaitVerdict(s.core, seqNo, p) != LogClosed
    ensures s.core.closed && !s.core.failed ==>
              s.core.synced == s.core.appended && s.disk.bytes == FileText(s.history) && s.disk.durable == |s.disk.bytes|
  {
    hide FileText;
    hide LogText;
    hide Marks;
    if s.core.closed && !s.core.failed { assert s.history[..|s.history|] == s.history; }
  }

  /** An acknowledgement means what its policy says: the record is in the file,
      and under Always it is on the disk. */
  lemma AcknowledgedIsStored(s: State, seqNo: nat, p: Policy)
    requires Inv(s) && 0 < seqNo <= s.core.appended && AwaitVerdict(s.core, seqNo, p) == Durable
    ensures |Upto(s, s.base + seqNo)| <= |s.disk.bytes|
    ensures p == Always ==> |Upto(s, s.base + seqNo)| <= s.disk.durable
  {
    FileIsPrefix(s);
    UptoMonotone(s, s.base + seqNo, if p == Always then s.base + s.core.synced else s.base + s.core.written);
  }

  lemma UptoMonotone(s: State, i: nat, j: nat)
    requires i <= j <= |s.history|
    ensures |Upto(s, i)| <= |Upto(s, j)|
  {
    TextSplit(s.history, i, j);
  }

  // ---- no waiter is left waiting ---------------------------------------------------------------

  /** The writer's own moves: everything but new appends, clock ticks and Close. */
  predicate Working(a: Action) {
    !a.Append? && !a.WakeTick? && !a.CloseBegin? && !a.CloseSignal?
  }

  function Rank(ph: Phase): nat {
    match ph
    case Idle => 0
    case Flushing(_, _) => 7
    case Writing(_, _, _, _, _) => 6
    case Wrote(_, _, _, _, _, _) => 5
    case Syncing(_) => 4
    case Synced(_) => 3
    case Failing(_) => 2
    case Finishing => 1
    case Stopped => 0
  }

  /** Work left: bytes to deliver, steps to the end of the flush, wake-ups to take. */
  function WorkLeft(s: State): int {
    10 * (|s.core.buf| + if s.phase.Writing? then |s.phase.batch| - s.phase.total else 0)
    + Rank(s.phase) + (if s.core.notify then 8 else 0) + (if Last(s.phase) then 0 else 9)
  }

  lemma WorkShrinks(s: State, a: Action)
    requires Inv(s) && Can(s, a) && Working(a)
    ensures 0 <= WorkLeft(Do(s, a)) < WorkLeft(s)
  {
    hide FileText;
    hide LogText;
    hide Marks;
    hide LastWithin;
    hide PendingExact;
  }

  ghost predicate WriterRun(s: State, acts: seq<Action>)
    decreases |acts|
  {
    acts == [] || (Working(acts[0]) && Can(s, acts[0]) && WriterRun(Do(s, acts[0]), acts[1..]))
  }

  ghost function RunWriter(s: State, acts: seq<Action>): State
    requires WriterRun(s, acts)
    decreases |acts|
  {
    if acts == [] then s else RunWriter(Do(s, acts[0]), acts[1..])
  }

  /** Left alone, the writer stops by itself, however its writes and syncs turn
      out, and when it can do nothing more every wait has its answer: success,
      unless the log has failed. */
  lemma {:induction false} WriterAnswersEveryWait(s: State, acts: seq<Action>, seqNo: nat)
    requires Inv(s) && WriterRun(s, acts) && seqNo <= s.core.appended
    ensures |acts| <= WorkLeft(s)
    ensures var t := RunWriter(s, acts);
            (forall a :: Working(a) ==> !Can(t, a)) ==>
              AwaitVerdict(t.core, seqNo, t.policy) == if t.core.failed then LogFailed else Durable
    decreases |acts|
  {
    if acts == [] {
      if forall a :: Working(a) ==> !Can(s, a) { QuietIsAnswered(s, seqNo); }
      WorkNonNegative(s);
    } else {
      WorkShrinks(s, acts[0]);
      ActionKeeps(s, acts[0]);
      hide Inv;
      hide Do;
      hide Can;
      AppendedKept(s, acts[0]);
      WriterAnswersEveryWait(Do(s, acts[0]), acts[1..], seqNo);
    }
  }

  lemma WorkNonNegative(s: State)
    requires Inv(s)
    ensures WorkLeft(s) >= 0
  {
  }

  lemma AppendedKept(s: State, a: Action)
    requires Can(s, a) && Working(a)
    ensures Do(s, a).core.appended == s.core.appended
  {
  }

  lemma QuietIsAnswered(s: State, seqNo: nat)
    requires Inv(s) && seqNo <= s.core.appended && forall a :: Working(a) ==> !Can(s, a)
    ensures AwaitVerdict(s.core, seqNo, s.policy) == if s.core.failed then LogFailed else Durable
  {
    hide FileText;
    hide LogText;
    hide Marks;
    assert !Can(s, WakeNotify) && !Can(s, Swap) && !Can(s, Advance) && !Can(s, SyncOk);
    assert !Can(s, MarkSynced) && !Can(s, MarkFailed) && !Can(s, Finish);
    assert !Can(s, Write(0, false));
  }

  /** Each answer of a wait, in any state of the log: failure exactly when the log
      has failed; otherwise success exactly when the record is wholly in the file,
      and under Always behind the synced mark; never closed. */
  lemma WaitExact(s: State, seqNo: nat, p: Policy)
    requires Inv(s) && 0 < seqNo <= s.core.appended
    ensures AwaitVerdict(s.core, seqNo, p) == LogFailed <==> s.core.failed
    ensures !s.core.failed ==>
              (AwaitVerdict(s.core, seqNo, p) == Durable <==> seqNo <= if p == Always then s.core.synced else s.core.written)
    ensures AwaitVerdict(s.core, seqNo, p) != LogClosed
  {
    hide Inv;
    AwaitNeverClosed(s, seqNo, p);
  }

  // ---- a log whose file behaves ------------------------------------------------------------

  /** A write that stops the batch short or reports an error, or a failed sync. */
  predicate Faulty(a: Action) {
    a == SyncFail || (a.Write? && (a.n <= 0 || a.err))
  }

  predicate Healthy(s: State) {
    !s.core.failed && !s.phase.Failing? && (s.phase.Wrote? ==> !s.phase.err)
  }

  /** Nothing but a fault of the file makes a log fail. */
  lemma HealthyStep(s: State, a: Action)
    requires Healthy(s) && Can(s, a) && !Faulty(a)
    ensures Healthy(Do(s, a))
  {
    hide LastWithin;
    hide RecordText;
  }

  /** With a file that behaves, the writer comes to rest with every wait granted. */
  lemma {:induction false} HealthyWriterGrants(s: State, acts: seq<Action>, seqNo: nat)
    requires Inv(s) && Healthy(s) && WriterRun(s, acts) && seqNo <= s.core.appended
    requires forall i :: 0 <= i < |acts| ==> !Faulty(acts[i])
    ensures var t := RunWriter(s, acts);
            (forall a :: Working(a) ==> !Can(t, a)) ==> AwaitVerdict(t.core, seqNo, t.policy) == Durable
    decreases |acts|
  {
    if acts == [] {
      if forall a :: Working(a) ==> !Can(s, a) { QuietIsAnswered(s, seqNo); }
    } else {
      HealthyStep(s, acts[0]);
      ActionKeeps(s, acts[0]);
      hide Inv;
      hide Do;
      hide Can;
      hide Faulty;
      AppendedKept(s, acts[0]);
      HealthyWriterGrants(Do(s, acts[0]), acts[1..], seqNo);
    }
  }

  // ---- the periodic sync ----------------------------------------------------------------------

  ghost predicate ActionRun(s: State, acts: seq<Action>)
    decreases |acts|
  {
    acts == [] || (Can(s, acts[0]) && ActionRun(Do(s, acts[0]), acts[1..]))
  }

  ghost function RunActions(s: State, acts: seq<Action>): State
    requires ActionRun(s, acts)
    decreases |acts|
  {
    if acts == [] then s else RunActions(Do(s, acts[0]), acts[1..])
  }

  /** The first n records are synced, or a flush that will sync them is under way. */
  predicate Due(s: State, n: nat) {
    || s.core.synced >= n
    || match s.phase
       case Flushing(force, _) => force && s.core.appended >= n
       case Writing(_, _, _, force, _) => force && s.core.appended - |s.core.pend| >= n
       case Wrote(_, _, _, _, force, _) => force && s.core.appended - |s.core.pend| >= n
       case Syncing(_) => s.core.written >= n
       case Synced(_) => s.core.written >= n
       case _ => false
  }

  lemma DueStep(s: State, a: Action, n: nat)
    requires Inv(s) && Healthy(s) && Can(s, a) && !Faulty(a) && Due(s, n)
    ensures Due(Do(s, a), n)
  {
    hide FileText;
    hide LogText;
    hide Marks;
    hide LastWithin;
    hide RecordText;
    if a == Advance { AdvanceCounts(s); }
    if a == Swap && s.core.buf == [] { NoText(s.history[FirstPending(s)..]); }
  }

  lemma {:induction false} DueRun(s: State, acts: seq<Action>, n: nat)
    requires Inv(s) && Healthy(s) && ActionRun(s, acts) && Due(s, n)
    requires forall i :: 0 <= i < |acts| ==> !Faulty(acts[i])
    ensures Due(RunActions(s, acts), n)
    decreases |acts|
  {
    if acts != [] {
      DueStep(s, acts[0], n);
      HealthyStep(s, acts[0]);
      ActionKeeps(s, acts[0]);
      hide Inv;
      hide Do;
      hide Can;
      hide Due;
      hide Faulty;
      DueRun(Do(s, acts[0]), acts[1..], n);
    }
  }

  predicate Resting(ph: Phase) {
    ph.Idle? || ph.Finishing? || ph.Stopped?
  }

  /** A tick syncs: by the time the writer rests again, whatever was appended
      meanwhile, every record appended before the tick is durable, whatever the
      policy. */
  lemma TickSyncs(s: State, acts: seq<Action>)
    requires Inv(s) && Healthy(s) && Can(s, WakeTick) && ActionRun(Do(s, WakeTick), acts)
    requires forall i :: 0 <= i < |acts| ==> !Faulty(acts[i])
    requires Resting(RunActions(Do(s, WakeTick), acts).phase)
    ensures RunActions(Do(s, WakeTick), acts).core.synced >= s.core.appended
  {
    hide Inv;
    hide Do;
    hide Can;
    hide Faulty;
    hide ActionRun;
    hide RunActions;
    hide Healthy;
    TickDue(s);
    ActionKeeps(s, WakeTick);
    hide Due;
    var t := Do(s, WakeTick);
    DueRun(t, acts, s.core.appended);
    RestDue(RunActions(t, acts), s.core.appended);
  }

  lemma RestDue(s: State, n: nat)
    requires Due(s, n) && Resting(s.phase)
    ensures s.core.synced >= n
  {
  }

  lemma TickDue(s: State)
    requires Healthy(s) && Can(s, WakeTick)
    ensures Healthy(Do(s, WakeTick)) && Due(Do(s, WakeTick), s.core.appended)
  {
  }
}
