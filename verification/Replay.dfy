/** Recovery: reading a log back into a store, and opening the file for more
    (internal/aof/replay.go, internal/aof/open.go). */
module Replay {
  import opened Bytes
  import opened Resp
  import opened RespReader
  import opened Store
  import opened Aof

  datatype Result = Result(records: nat, lastValid: nat, truncated: bool)

  /** Recovered is a clean end or a torn tail; the other two refuse the file. */
  datatype Recovery =
    | Recovered(res: Result, db: Db)
    | Corrupted(res: Result, db: Db)
    | Refused(start: Start)

  // ---- the four effect rules ------------------------------------------------------

  function Named(keys: seq<Bytes>): set<Bytes> {
    set k | k in keys
  }

  function Apply(r: Record, now: Time, db: Db): Db {
    match r
    case Set(k, v, None) => db.Put(k, v, None)
    case Set(k, v, Some(ms)) =>
      if now < ms * MILLISECOND then db.Put(k, v, Some(ms * MILLISECOND)) else db.Without({k})
    case Del(keys) => db.Without(Named(keys))
  }

  function ApplyAll(rs: seq<Record>, now: Time, db: Db): Db {
    if rs == [] then db else ApplyAll(rs[1..], now, Apply(rs[0], now, db))
  }

  lemma {:induction false} ApplyAllAppend(rs: seq<Record>, more: seq<Record>, now: Time, db: Db)
    ensures ApplyAll(rs + more, now, db) == ApplyAll(more, now, ApplyAll(rs, now, db))
  {
    if rs == [] {
      assert rs + more == more;
    } else {
      assert (rs + more)[1..] == rs[1..] + more;
      ApplyAllAppend(rs[1..], more, now, Apply(rs[0], now, db));
    }
  }

  lemma ApplyOne(r: Record, now: Time, db: Db)
    ensures ApplyAll([r], now, db) == Apply(r, now, db)
  {
    assert ApplyAll([r][1..], now, Apply(r, now, db)) == Apply(r, now, db);
  }

  lemma ApplyWf(r: Record, now: Time, db: Db)
    requires db.Wf()
    ensures Apply(r, now, db).Wf()
  {
  }

  // ---- replay as a function of the file's bytes --------------------------------------

  lemma EntryBounds(s: Bytes)
    requires NextRecord(s).Entry?
    ensures 0 < NextRecord(s).used <= |s|
  {
    hide Command;
    CommandStable(s, DEFAULT_LIMITS, []);
  }

  function ReplayRecords(s: Bytes, now: Time, db: Db, res: Result): Recovery
    decreases |s|
  {
    match NextRecord(s)
    case AtEnd => Recovered(res, db)
    case TornTail => Recovered(res.(truncated := true), db)
    case Corrupt => Corrupted(res, db)
    case Entry(r, n) =>
      EntryBounds(s);
      ReplayRecords(s[n..], now, Apply(r, now, db), Result(res.records + 1, res.lastValid + n, res.truncated))
  }

  function ReplayFile(all: Bytes, now: Time, db: Db): Recovery {
    match StartOf(all)
    case NewLog => Recovered(Result(0, 0, false), db)
    case OldLog => ReplayRecords(all[HEADER_SIZE..], now, db, Result(0, HEADER_SIZE, false))
    case other => Refused(other)
  }

  // ---- torn tails -----------------------------------------------------------------------

  ghost predicate AllRecoverable(rs: seq<Record>) {
    forall i :: 0 <= i < |rs| ==> Recoverable(rs[i])
  }

  /** How many whole records lie in the first c bytes of a log's text. */
  function Complete(rs: seq<Record>, c: nat): nat {
    if rs == [] || c < |RecordText(rs[0])| then 0
    else 1 + Complete(rs[1..], c - |RecordText(rs[0])|)
  }

  lemma {:induction false} CompleteExact(rs: seq<Record>, c: nat)
    requires c <= |LogText(rs)|
    ensures var k := Complete(rs, c);
            && k <= |rs| && |LogText(rs[..k])| <= c
            && (k < |rs| ==> c < |LogText(rs[..k + 1])|)
            && (k == |rs| ==> c == |LogText(rs)|)
  {
    hide RecordText;
    var k := Complete(rs, c);
    if rs == [] {
    } else if k == 0 {
      assert rs[..1] == [rs[0]];
      assert LogText(rs[..1]) == RecordText(rs[0]) + LogText([]);
    } else {
      CompleteExact(rs[1..], c - |RecordText(rs[0])|);
      assert rs[..k][1..] == rs[1..][..k - 1];
      if k < |rs| { assert rs[..k + 1][1..] == rs[1..][..k]; }
    }
  }

  /** A strict prefix of a recoverable record's text is nothing, or torn. */
  lemma RecordPrefix(r: Record, c: nat)
    requires Recoverable(r) && c < |RecordText(r)|
    ensures NextRecord(RecordText(r)[..c]) == if c == 0 then AtEnd else TornTail
  {
    hide Command;
    hide CommandText;
    hide CommandFits;
    CommandExact(Parts(r), DEFAULT_LIMITS, []);
    assert RecordText(r) + [] == RecordText(r);
    CommandPrefix(RecordText(r), DEFAULT_LIMITS, c);
  }

  /** Cutting a log at any byte: replay applies exactly the records complete
      before the cut, reports where the last of them ends, reports a torn tail
      exactly when the cut is inside a record, and never reports corruption. */
  lemma {:induction false} TornTailExact(rs: seq<Record>, c: nat, now: Time, db: Db, res: Result)
    requires AllRecoverable(rs) && c <= |LogText(rs)| && !res.truncated
    ensures var k := Complete(rs, c);
            && k <= |rs|
            && ReplayRecords(LogText(rs)[..c], now, db, res) ==
               Recovered(Result(res.records + k, res.lastValid + |LogText(rs[..k])|, |LogText(rs[..k])| < c),
                         ApplyAll(rs[..k], now, db))
  {
    hide RecordText;
    hide Recoverable;
    hide ReplayRecords;
    hide Apply;
    CompleteExact(rs, c);
    if rs == [] {
      ReplayNone(now, db, res);
    } else {
      var first, n := RecordText(rs[0]), |RecordText(rs[0])|;
      if c < n {
        assert LogText(rs)[..c] == first[..c];
        ReplayTorn(rs[0], c, now, db, res);
      } else {
        var tail, k := LogText(rs[1..])[..c - n], Complete(rs, c);
        assert LogText(rs)[..c] == first + tail;
        ReplayEntry(rs[0], tail, now, db, res);
        TornTailExact(rs[1..], c - n, now, Apply(rs[0], now, db), Result(res.records + 1, res.lastValid + n, false));
        TakeOneMore(rs, k, now, db);
      }
    }
  }

  /** The records Decode yields one after the other until it yields none. */
  function RecordsIn(s: Bytes): seq<Record>
    decreases |s|
  {
    match NextRecord(s)
    case Entry(r, n) =>
      EntryBounds(s);
      [r] + RecordsIn(s[n..])
    case _ => []
  }

  /** Decoding a log's text cut at any byte yields exactly the records complete
      before the cut; uncut, the same records and then a clean end. */
  lemma {:induction false} DecodingInvertsEncoding(rs: seq<Record>, c: nat)
    requires AllRecoverable(rs) && c <= |LogText(rs)|
    ensures Complete(rs, c) <= |rs| && RecordsIn(LogText(rs)[..c]) == rs[..Complete(rs, c)]
    ensures RecordsIn(LogText(rs)[..c]) == rs <==> c == |LogText(rs)|
  {
    hide RecordText;
    hide Recoverable;
    hide NextRecord;
    CompleteExact(rs, c);
    var s := LogText(rs)[..c];
    if rs == [] {
      EmptyAtEnd();
      assert s == [];
    } else {
      var first, n := RecordText(rs[0]), |RecordText(rs[0])|;
      if c < n {
        assert s == first[..c];
        RecordPrefix(rs[0], c);
      } else {
        var tail := LogText(rs[1..])[..c - n];
        assert s == first + tail;
        RecordExact(rs[0], tail);
        assert s[n..] == tail;
        DecodingInvertsEncoding(rs[1..], c - n);
        assert rs == [rs[0]] + rs[1..];
      }
    }
  }

  /** How many records come before the first that cannot be read back. */
  function GoodPrefix(rs: seq<Record>): nat {
    if rs == [] || !Recoverable(rs[0]) then 0 else 1 + GoodPrefix(rs[1..])
  }

  /** A log of any records, recoverable or not: replay accepts it if and only if
      every record is recoverable, and otherwise refuses it as corrupt where the
      first other one begins, with the effects of those before it applied. */
  lemma {:induction false} WholeLogExact(rs: seq<Record>, now: Time, db: Db, res: Result)
    ensures var k := GoodPrefix(rs);
            && k <= |rs| && (k == |rs| <==> AllRecoverable(rs))
            && var at, got := Result(res.records + k, res.lastValid + |LogText(rs[..k])|, res.truncated), ApplyAll(rs[..k], now, db);
               ReplayRecords(LogText(rs), now, db, res) == if k == |rs| then Recovered(at, got) else Corrupted(at, got)
  {
    hide RecordText;
    hide Recoverable;
    hide NextRecord;
    hide Apply;
    hide ReplayRecords;
    if rs == [] {
      ReplayNone(now, db, res);
    } else {
      var n, tail, k := |RecordText(rs[0])|, LogText(rs[1..]), GoodPrefix(rs);
      ReplayEntry(rs[0], tail, now, db, res);
      if Recoverable(rs[0]) {
        WholeLogExact(rs[1..], now, Apply(rs[0], now, db), Result(res.records + 1, res.lastValid + n, res.truncated));
        TakeOneMore(rs, k, now, db);
        assert forall i :: 1 <= i < |rs| ==> rs[i] == rs[1..][i - 1];
      } else {
        assert rs[..0] == [];
      }
    }
  }

  /** The first k records, by the first of them and the others. */
  lemma TakeOneMore(rs: seq<Record>, k: nat, now: Time, db: Db)
    requires 0 < k <= |rs|
    ensures |LogText(rs[..k])| == |RecordText(rs[0])| + |LogText(rs[1..][..k - 1])|
    ensures ApplyAll(rs[..k], now, db) == ApplyAll(rs[1..][..k - 1], now, Apply(rs[0], now, db))
  {
    hide RecordText;
    hide Apply;
    assert rs[..k][1..] == rs[1..][..k - 1];
  }

  lemma EmptyAtEnd()
    ensures NextRecord([]) == AtEnd
  {
  }

  lemma ReplayNone(now: Time, db: Db, res: Result)
    ensures ReplayRecords([], now, db, res) == Recovered(res, db)
  {
    hide ReplayRecords;
    hide NextRecord;
    EmptyAtEnd();
    ReplayUnfolds([], now, db, res);
  }

  /** A strict part of one record, alone. */
  lemma ReplayTorn(r: Record, c: nat, now: Time, db: Db, res: Result)
    requires Recoverable(r) && c < |RecordText(r)| && !res.truncated
    ensures ReplayRecords(RecordText(r)[..c], now, db, res) == Recovered(res.(truncated := c > 0), db)
  {
    hide ReplayRecords;
    hide NextRecord;
    RecordPrefix(r, c);
    ReplayUnfolds(RecordText(r)[..c], now, db, res);
  }

  /** One record, and whatever follows it. */
  lemma ReplayEntry(r: Record, tail: Bytes, now: Time, db: Db, res: Result)
    ensures ReplayRecords(RecordText(r) + tail, now, db, res) ==
            if Recoverable(r) then
              ReplayRecords(tail, now, Apply(r, now, db), Result(res.records + 1, res.lastValid + |RecordText(r)|, res.truncated))
            else Corrupted(res, db)
  {
    hide ReplayRecords;
    hide NextRecord;
    hide RecordText;
    hide Recoverable;
    hide Apply;
    RecordExact(r, tail);
    ReplayUnfolds(RecordText(r) + tail, now, db, res);
    assert (RecordText(r) + tail)[|RecordText(r)|..] == tail;
  }

  lemma ReplayUnfolds(s: Bytes, now: Time, db: Db, res: Result)
    ensures match NextRecord(s)
            case AtEnd => ReplayRecords(s, now, db, res) == Recovered(res, db)
            case TornTail => ReplayRecords(s, now, db, res) == Recovered(res.(truncated := true), db)
            case Corrupt => ReplayRecords(s, now, db, res) == Corrupted(res, db)
            case Entry(r, n) =>
              && n <= |s|
              && ReplayRecords(s, now, db, res) ==
                 ReplayRecords(s[n..], now, Apply(r, now, db), Result(res.records + 1, res.lastValid + n, res.truncated))
  {
    hide NextRecord;
    hide Apply;
    if NextRecord(s).Entry? { EntryBounds(s); }
  }

  function FileText(rs: seq<Record>): Bytes {
    HEADER + LogText(rs)
  }

  /** The same for a crash image of a whole file that is empty or kept its header. */
  lemma ImageReplays(rs: seq<Record>, c: nat, now: Time, db: Db)
    requires AllRecoverable(rs) && c <= |FileText(rs)| && (c == 0 || c >= HEADER_SIZE)
    ensures var k := if c == 0 then 0 else Complete(rs, c - HEADER_SIZE);
            && k <= |rs|
            && ReplayFile(FileText(rs)[..c], now, db) ==
               Recovered(Result(k, if c == 0 then 0 else |FileText(rs[..k])|, c > 0 && |FileText(rs[..k])| < c),
                         ApplyAll(rs[..k], now, db))
  {
    hide StartOf;
    hide ReplayRecords;
    hide Complete;
    hide RecordText;
    hide Recoverable;
    HeaderSurvives(LogText(rs), c);
    hide LogText;
    if c > 0 {
      assert FileText(rs)[..c][HEADER_SIZE..] == LogText(rs)[..c - HEADER_SIZE];
      TornTailExact(rs, c - HEADER_SIZE, now, db, Result(0, HEADER_SIZE, false));
    }
  }

  // ---- reopening -------------------------------------------------------------------------

  /** The file after OpenFile accepted it: cut back to the last whole record, or
      a bare header for a new file. */
  function Reopened(all: Bytes, res: Result): Bytes
    requires res.lastValid <= |all|
  {
    if res.lastValid == 0 then HEADER else all[..res.lastValid]
  }

  /** Reopening any such image leaves the header and the surviving whole records,
      and nothing of a torn one, so appends follow the last whole record. */
  lemma ReopenKeepsWholeRecords(rs: seq<Record>, c: nat, now: Time, db: Db)
    requires AllRecoverable(rs) && c <= |FileText(rs)| && (c == 0 || c >= HEADER_SIZE)
    ensures var k := if c == 0 then 0 else Complete(rs, c - HEADER_SIZE);
            var r := ReplayFile(FileText(rs)[..c], now, db);
            && k <= |rs| && r.Recovered? && r.res.lastValid <= c
            && Reopened(FileText(rs)[..c], r.res) == FileText(rs[..k])
  {
    hide ReplayFile;
    hide Complete;
    hide RecordText;
    hide Recoverable;
    hide ApplyAll;
    ImageReplays(rs, c, now, db);
    if c == 0 {
      assert rs[..0] == [];
      assert HEADER + LogText([]) == HEADER;
    } else {
      CutBack(rs, c);
    }
  }

  lemma CutBack(rs: seq<Record>, c: nat)
    requires HEADER_SIZE <= c <= |FileText(rs)|
    ensures var k := Complete(rs, c - HEADER_SIZE);
            k <= |rs| && |FileText(rs[..k])| <= c && FileText(rs)[..c][..|FileText(rs[..k])|] == FileText(rs[..k])
  {
    hide RecordText;
    hide Complete;
    hide LogText;
    CompleteExact(rs, c - HEADER_SIZE);
    var k := Complete(rs, c - HEADER_SIZE);
    assert rs == rs[..k] + rs[k..];
    LogTextAppend(rs[..k], rs[k..]);
    assert FileText(rs) == FileText(rs[..k]) + LogText(rs[k..]);
  }

  // ---- the methods ----------------------------------------------------------------------

  method ApplyTo(rec: Record, now: Time, dst: Store)
    requires dst.Valid()
    modifies dst
    ensures dst.Valid() && dst.Model() == Apply(rec, now, old(dst.Model()))
  {
    match rec
    case Set(key, value, None) => dst.Set(key, value, 0, false);
    case Set(key, value, Some(ms)) =>
      var deadline := ms * MILLISECOND;
      if now < deadline {
        dst.Set(key, value, deadline, true);
      } else {
        var _ := dst.Delete(key);
      }
    case Del(keys) =>
      var i := 0;
      while i < |keys|
        invariant 0 <= i <= |keys| && dst.Valid()
        invariant dst.Model() == old(dst.Model()).Without(Named(keys[..i]))
      {
        var _ := dst.Delete(keys[i]);
        assert keys[..i + 1] == keys[..i] + [keys[i]];
        assert Named(keys[..i + 1]) == Named(keys[..i]) + {keys[i]};
        i := i + 1;
      }
      assert keys[..i] == keys;
  }

  /** Replay, over a source that splits the file into reads in any way: the
      outcome, the offset and the store are those of the file's bytes alone. */
  method Replay(src: Source, now: Time, dst: Store) returns (r: Recovery)
    requires src.n == 0 && dst.Valid()
    modifies src, dst
    ensures dst.Valid()
    ensures r == ReplayFile(src.all, now, old(dst.Model()))
    ensures dst.Model() == if r.Refused? then old(dst.Model()) else r.db
  {
    var start := ReadHeader(src);
    if start == NewLog { return Recovered(Result(0, 0, false), Db(dst.data, dst.expires)); }
    if start != OldLog { return Refused(start); }
    hide StartOf;
    var rd := new Reader(src, DEFAULT_LIMITS);
    r := ReplayLoop(rd, now, dst);
  }

  /** The record loop of Replay, after the header. */
  method ReplayLoop(rd: Reader, now: Time, dst: Store) returns (r: Recovery)
    requires rd.Valid() && rd.limits == DEFAULT_LIMITS && dst.Valid()
    requires rd.br.Pos() == HEADER_SIZE
    modifies rd, rd.buf, rd.br, rd.br.src, dst
    ensures dst.Valid() && !r.Refused? && dst.Model() == r.db
    ensures r == ReplayRecords(old(rd.br.Rest()), now, old(dst.Model()), Result(0, HEADER_SIZE, false))
  {
    hide NextRecord;
    hide Apply;
    var res := Result(0, HEADER_SIZE, false);
    while true
      invariant rd.Valid() && (rd.buf == old(rd.buf) || fresh(rd.buf)) && dst.Valid()
      invariant rd.br.Pos() == res.lastValid && !res.truncated
      invariant ReplayRecords(old(rd.br.Rest()), now, old(dst.Model()), Result(0, HEADER_SIZE, false)) ==
                ReplayRecords(rd.br.Rest(), now, dst.Model(), res)
      decreases |rd.br.src.all| - res.lastValid
    {
      ghost var s := rd.br.Rest();
      var d := Decode(rd);
      match d
      case Finished => return Recovered(res, Db(dst.data, dst.expires));
      case Unfinished => return Recovered(res.(truncated := true), Db(dst.data, dst.expires));
      case Invalid => return Corrupted(res, Db(dst.data, dst.expires));
      case Read(rec) =>
      ApplyTo(rec, now, dst);
      var offset := rd.br.src.n - |rd.br.buffered|;
      assert rd.br.Rest() == s[offset - res.lastValid..];
      res := Result(res.records + 1, offset, res.truncated);
    }
  }

  class DiskFile {
    var bytes: Bytes

    method WriteAt(p: Bytes, at: nat)
      requires at <= |bytes|
      modifies this
      ensures bytes == old(bytes)[..at] + p + if at + |p| <= |old(bytes)| then old(bytes)[at + |p|..] else []
    {
      bytes := bytes[..at] + p + if at + |p| <= |bytes| then bytes[at + |p|..] else [];
    }

    method Truncate(size: nat)
      requires size <= |bytes|
      modifies this
      ensures bytes == old(bytes)[..size]
    {
      bytes := bytes[..size];
    }
  }

  /** OpenFile: replay, then a header for a new file, then truncation to the last
      whole record, which is also where the next append goes. */
  method OpenFile(f: DiskFile, now: Time, dst: Store) returns (r: Recovery, offset: nat)
    requires dst.Valid()
    modifies f, dst
    ensures dst.Valid()
    ensures r == ReplayFile(old(f.bytes), now, old(dst.Model()))
    ensures dst.Model() == if r.Refused? then old(dst.Model()) else r.db
    ensures r.Recovered? ==> r.res.lastValid <= |old(f.bytes)|
    ensures r.Recovered? ==> f.bytes == Reopened(old(f.bytes), r.res) && offset == |f.bytes|
    ensures !r.Recovered? ==> f.bytes == old(f.bytes)
  {
    var src := new Source(f.bytes);
    LastValidBounds(f.bytes, now, dst.Model());
    r := Replay(src, now, dst);
    offset := 0;
    if !r.Recovered? { return; }
    offset := r.res.lastValid;
    if offset == 0 {
      NewOnlyWhenEmpty(f.bytes, now, old(dst.Model()));
      f.WriteAt(HEADER, 0);
      offset := HEADER_SIZE;
    }
    f.Truncate(offset);
  }

  lemma {:induction false} ReplayRecordsBounds(s: Bytes, now: Time, db: Db, res: Result)
    requires ReplayRecords(s, now, db, res).Recovered?
    ensures res.lastValid <= ReplayRecords(s, now, db, res).res.lastValid <= res.lastValid + |s|
    decreases |s|
  {
    hide NextRecord;
    hide Apply;
    if NextRecord(s).Entry? {
      var r, n := NextRecord(s).record, NextRecord(s).used;
      EntryBounds(s);
      ReplayRecordsBounds(s[n..], now, Apply(r, now, db), Result(res.records + 1, res.lastValid + n, res.truncated));
    }
  }

  lemma LastValidBounds(all: Bytes, now: Time, db: Db)
    ensures ReplayFile(all, now, db).Recovered? ==> ReplayFile(all, now, db).res.lastValid <= |all|
  {
    var rest := if |all| >= HEADER_SIZE then all[HEADER_SIZE..] else [];
    var r := ReplayRecords(rest, now, db, Result(0, HEADER_SIZE, false));
    if r.Recovered? { ReplayRecordsBounds(rest, now, db, Result(0, HEADER_SIZE, false)); }
  }

  lemma NewOnlyWhenEmpty(all: Bytes, now: Time, db: Db)
    requires ReplayFile(all, now, db).Recovered? && ReplayFile(all, now, db).res.lastValid == 0
    ensures all == []
  {
    if StartOf(all) == OldLog {
      ReplayRecordsBounds(all[HEADER_SIZE..], now, db, Result(0, HEADER_SIZE, false));
    }
  }
}
