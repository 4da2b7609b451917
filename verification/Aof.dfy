/** Log records, their text and the file header (internal/aof/record.go,
    internal/aof/codec.go, internal/aof/header.go). */
module Aof {
  import opened Bytes
  import opened Decimal
  import opened Resp
  import opened RespReader
  import opened Store

  /** One canonical effect. Deadlines are absolute Unix milliseconds. */
  datatype Record =
    | Set(key: Bytes, value: Bytes, expireAtMs: Option<int>)
    | Del(keys: seq<Bytes>)

  function DeriveSet(key: Bytes, value: Bytes, deadline: Option<Time>): Record {
    Set(key, value, if deadline.Some? then Some(deadline.value / MILLISECOND) else None)
  }

  function DeriveDel(keys: seq<Bytes>): Record {
    Del(keys)
  }

  const VERB_SET: Bytes := [83, 69, 84]
  const VERB_DEL: Bytes := [68, 69, 76]
  const OPT_PXAT: Bytes := [80, 88, 65, 84]

  function Parts(r: Record): seq<Bytes> {
    match r
    case Set(k, v, None) => [VERB_SET, k, v]
    case Set(k, v, Some(ms)) => [VERB_SET, k, v, OPT_PXAT, FormatInt(ms)]
    case Del(keys) => [VERB_DEL] + keys
  }

  function RecordText(r: Record): Bytes {
    CommandText(Parts(r))
  }

  function LogText(rs: seq<Record>): Bytes {
    if rs == [] then [] else RecordText(rs[0]) + LogText(rs[1..])
  }

  lemma {:induction false} LogTextAppend(rs: seq<Record>, more: seq<Record>)
    ensures LogText(rs + more) == LogText(rs) + LogText(more)
  {
    if rs == [] {
      assert rs + more == more;
    } else {
      assert (rs + more)[1..] == rs[1..] + more;
      LogTextAppend(rs[1..], more);
    }
  }

  // ---- writing a record ---------------------------------------------------------

  /** The in-memory writer a record is encoded into. */
  class TextBuffer {
    var text: Bytes

    constructor ()
      ensures text == []
    {
      text := [];
    }

    method WriteArrayHeader(n: nat)
      modifies this
      ensures text == old(text) + ([STAR] + Digits(n) + CRLF)
    {
      text := text + [STAR];
      text := text + Digits(n);
      text := text + CRLF;
    }

    method WriteBulk(s: Bytes)
      modifies this
      ensures text == old(text) + BulkText(s)
    {
      text := text + [DOLLAR];
      text := text + Digits(|s|);
      text := text + CRLF;
      text := text + s;
      text := text + CRLF;
      assert text == old(text) + BulkText(s);
    }
  }

  lemma {:induction false} BulksTextAppend(args: seq<Bytes>, last: Bytes)
    ensures BulksText(args + [last]) == BulksText(args) + BulkText(last)
  {
    if args == [] {
      assert args + [last] == [last] && BulksText([last][1..]) == [];
    } else {
      assert (args + [last])[1..] == args[1..] + [last];
      BulksTextAppend(args[1..], last);
    }
  }

  /** Encode: the record's text, or nothing at all for a deletion of no keys. */
  method Encode(w: TextBuffer, r: Record) returns (ok: bool)
    modifies w
    ensures ok <==> r != Del([])
    ensures w.text == old(w.text) + if ok then RecordText(r) else []
  {
    match r
    case Set(key, value, expiry) =>
      EncodeSet(w, key, value, expiry);
      return true;
    case Del(keys) =>
      if |keys| == 0 { return false; }
      EncodeDel(w, keys);
      return true;
  }

  method EncodeSet(w: TextBuffer, key: Bytes, value: Bytes, expiry: Option<int>)
    modifies w
    ensures w.text == old(w.text) + RecordText(Set(key, value, expiry))
  {
    hide BulkText;
    hide BulksText;
    hide FormatInt;
    hide Digits;
    hide CommandText;
    WithHeader(w.text, Parts(Set(key, value, expiry)));
    w.WriteArrayHeader(if expiry.Some? then 5 else 3);
    ghost var head := w.text;
    NoBulksText(head);
    ghost var one, two := [] + [VERB_SET], [] + [VERB_SET] + [key];
    WriteNext(w, head, [], VERB_SET);
    WriteNext(w, head, one, key);
    WriteNext(w, head, two, value);
    ghost var three := two + [value];
    assert three == Parts(Set(key, value, None));
    if expiry == None { return; }
    WriteNext(w, head, three, OPT_PXAT);
    WriteNext(w, head, three + [OPT_PXAT], FormatInt(expiry.value));
    assert three + [OPT_PXAT] + [FormatInt(expiry.value)] == Parts(Set(key, value, expiry));
  }

  /** One more argument after those written. */
  method WriteNext(w: TextBuffer, ghost head: Bytes, ghost done: seq<Bytes>, s: Bytes)
    requires w.text == head + BulksText(done)
    modifies w
    ensures w.text == head + BulksText(done + [s])
  {
    hide BulkText;
    w.WriteBulk(s);
    BulksTextAppend(done, s);
    hide BulksText;
  }

  lemma NoBulksText(head: Bytes)
    ensures head == head + BulksText([])
  {
  }

  lemma WithHeader(before: Bytes, args: seq<Bytes>)
    ensures before + CommandText(args) == before + ([STAR] + Digits(|args|) + CRLF) + BulksText(args)
  {
    hide Digits;
    hide BulksText;
  }

  method EncodeDel(w: TextBuffer, keys: seq<Bytes>)
    modifies w
    ensures w.text == old(w.text) + RecordText(Del(keys))
  {
    hide BulkText;
    hide BulksText;
    hide Digits;
    hide CommandText;
    WithHeader(w.text, [VERB_DEL] + keys);
    w.WriteArrayHeader(|keys| + 1);
    ghost var head := w.text;
    NoBulksText(head);
    WriteNext(w, head, [], VERB_DEL);
    assert [] + [VERB_DEL] == [VERB_DEL] + keys[..0];
    var i := 0;
    while i < |keys|
      invariant 0 <= i <= |keys|
      invariant w.text == head + BulksText([VERB_DEL] + keys[..i])
    {
      WriteNext(w, head, [VERB_DEL] + keys[..i], keys[i]);
      assert [VERB_DEL] + keys[..i] + [keys[i]] == [VERB_DEL] + keys[..i + 1];
      i := i + 1;
    }
    assert keys[..i] == keys;
  }

  // ---- reading a record ------------------------------------------------------------

  /** The record a decoded frame spells, if it is one of the vocabulary. */
  function FromParts(parts: seq<Bytes>): Option<Record> {
    if parts == [] then None
    else if parts[0] == VERB_SET then
      if |parts| == 3 then Some(Set(parts[1], parts[2], None))
      else if |parts| == 5 && parts[3] == OPT_PXAT && ParseInt64(parts[4]).Some? then
        Some(Set(parts[1], parts[2], ParseInt64(parts[4])))
      else None
    else if parts[0] == VERB_DEL && |parts| >= 2 then Some(Del(parts[1..]))
    else None
  }

  datatype Next = Entry(record: Record, used: nat) | AtEnd | TornTail | Corrupt

  /** What Decode makes of the bytes that remain. */
  function NextRecord(s: Bytes): Next {
    match Command(s, DEFAULT_LIMITS)
    case Ended => AtEnd
    case Cut => TornTail
    case Bad(_) => Corrupt
    case Got(parts, n) =>
      match FromParts(parts)
      case None => Corrupt
      case Some(r) => Entry(r, n)
  }

  datatype Decoded = Read(record: Record) | Finished | Unfinished | Invalid

  method Decode(r: Reader) returns (d: Decoded)
    requires r.Valid() && r.limits == DEFAULT_LIMITS
    modifies r, r.buf, r.br, r.br.src
    ensures r.Valid() && (r.buf == old(r.buf) || fresh(r.buf))
    ensures match NextRecord(old(r.br.Rest()))
            case AtEnd => d == Finished
            case TornTail => d == Unfinished
            case Corrupt => d == Invalid
            case Entry(rec, n) =>
              0 < n <= |old(r.br.Rest())| && d == Read(rec) && r.br.Pos() == old(r.br.Pos()) + n
  {
    hide Command;
    hide FromParts;
    ghost var s := r.br.Rest();
    if Command(s, DEFAULT_LIMITS).Got? { CommandStable(s, DEFAULT_LIMITS, []); }
    var parts := r.ReadCommand();
    match parts
    case Eof => return Finished;
    case Torn => return Unfinished;
    case Malformed(_) => return Invalid;
    case Ok(args) => d := RecordOf(args);
  }

  /** The vocabulary of Decode, once the frame is read. */
  method RecordOf(args: seq<Bytes>) returns (d: Decoded)
    ensures d == match FromParts(args) case None => Invalid case Some(r) => Read(r)
  {
    hide ParseInt64;
    if |args| == 0 { return Invalid; }
    if args[0] == VERB_SET {
      if |args| == 3 { return Read(Set(args[1], args[2], None)); }
      if |args| != 5 || args[3] != OPT_PXAT { return Invalid; }
      var ms := ParseInt64(args[4]);
      return if ms == None then Invalid else Read(Set(args[1], args[2], ms));
    }
    if args[0] == VERB_DEL {
      if |args| < 2 { return Invalid; }
      var keys, i := [], 1;
      while i < |args|
        invariant 1 <= i <= |args| && keys == args[1..i]
      {
        keys := keys + [args[i]];
        i := i + 1;
      }
      assert keys == args[1..];
      return Read(Del(keys));
    }
    return Invalid;
  }

  // ---- exactly which records can be read back -----------------------------------------

  /** The frame fits the limits replay decodes with, a deadline fits int64 and a
      deletion names a key. */
  predicate Recoverable(r: Record) {
    && CommandFits(Parts(r), DEFAULT_LIMITS)
    && (r.Set? && r.expireAtMs.Some? ==> IsInt64(r.expireAtMs.value))
    && r != Del([])
  }

  /** For every record: its text is read back as that record, and no byte more is
      used, if and only if it is recoverable; any other is refused as corrupt. */
  lemma RecordExact(r: Record, rest: Bytes)
    ensures NextRecord(RecordText(r) + rest) ==
            if Recoverable(r) then Entry(r, |RecordText(r)|) else Corrupt
  {
    CommandExact(Parts(r), DEFAULT_LIMITS, rest);
    hide Command;
    hide CommandText;
    hide CommandFits;
    match r
    case Set(_, _, None) =>
    case Set(_, _, Some(ms)) => FormatIntRoundTrip(ms);
    case Del(keys) => assert ([VERB_DEL] + keys)[1..] == keys;
  }

  function TotalBytes(args: seq<Bytes>): nat {
    if args == [] then 0 else |args[0]| + TotalBytes(args[1..])
  }

  /** The decoder's running checks amount to one bound per argument and one on
      their sum. */
  lemma {:induction false} BulksFitTotal(args: seq<Bytes>, held: nat, lim: Limits)
    requires lim.maxCommandBytes > 0 && held <= lim.maxCommandBytes
    ensures BulksFit(args, held, lim) <==>
            && (forall i :: 0 <= i < |args| ==> |args[i]| <= Min(LENGTH_LIMIT, lim.maxBulkLength))
            && held + TotalBytes(args) <= lim.maxCommandBytes
  {
    if args != [] {
      assert forall i :: 1 <= i < |args| ==> args[i] == args[1..][i - 1];
      if BulkFits(args[0], held, lim) { BulksFitTotal(args[1..], held + |args[0]|, lim); }
    }
  }

  /** The condition on a SET record in terms a caller can check. */
  lemma SetRecoverable(k: Bytes, v: Bytes, ms: Option<int>)
    ensures Recoverable(Set(k, v, ms)) <==>
            && |k| <= DEFAULT_LIMITS.maxBulkLength && |v| <= DEFAULT_LIMITS.maxBulkLength
            && (ms.Some? ==> IsInt64(ms.value))
            && 3 + |k| + |v| + (if ms.Some? then 4 + |FormatInt(ms.value)| else 0) <= DEFAULT_LIMITS.maxCommandBytes
  {
    var r := Set(k, v, ms);
    var parts := Parts(r);
    BulksFitTotal(parts, 0, DEFAULT_LIMITS);
    TotalOf3(VERB_SET, k, v);
    if ms.Some? {
      var text := FormatInt(ms.value);
      assert parts == [VERB_SET, k, v] + [OPT_PXAT, text];
      TotalAppend([VERB_SET, k, v], [OPT_PXAT, text]);
      TotalAppend([OPT_PXAT], [text]);
      assert [OPT_PXAT] + [text] == [OPT_PXAT, text];
      if IsInt64(ms.value) { Int64TextLength(ms.value); }
      assert parts[1] == k && parts[2] == v;
      assert forall i :: 0 <= i < |parts| ==> parts[i] in {VERB_SET, k, v, OPT_PXAT, text};
    } else {
      assert parts[1] == k && parts[2] == v;
    }
  }

  lemma TotalOf3(a: Bytes, b: Bytes, c: Bytes)
    ensures TotalBytes([a, b, c]) == |a| + |b| + |c|
  {
    TotalAppend([a], [b]);
    TotalAppend([a] + [b], [c]);
    assert [a] + [b] + [c] == [a, b, c];
  }

  lemma {:induction false} TotalAppend(xs: seq<Bytes>, ys: seq<Bytes>)
    ensures TotalBytes(xs + ys) == TotalBytes(xs) + TotalBytes(ys)
  {
    if xs == [] {
      assert xs + ys == ys;
    } else {
      assert (xs + ys)[1..] == xs[1..] + ys;
      TotalAppend(xs[1..], ys);
    }
  }

  lemma Int64TextLength(n: int)
    requires IsInt64(n)
    ensures |FormatInt(n)| <= 20
  {
    assert Pow10(5) == 100_000;
    assert Pow10(10) == 10_000_000_000;
    assert Pow10(15) == 1_000_000_000_000_000;
    assert Pow10(19) == 10_000_000_000_000_000_000;
    DigitsLength(if n < 0 then -n else n, 19);
  }

  /** Not every value the server accepts can be given a deadline and read back:
      a SET whose frame fills the command limit is accepted and recoverable, and
      the record that EXPIRE then writes for the same key is refused as corrupt. */
  lemma DeadlineCanOverflowRecord(ms: int)
    requires IsInt64(ms)
    ensures exists k: Bytes, v: Bytes ::
              && CommandFits([VERB_SET, k, v], DEFAULT_LIMITS)
              && Recoverable(Set(k, v, None))
              && forall rest :: NextRecord(RecordText(Set(k, v, Some(ms))) + rest) == Corrupt
  {
    var k: Bytes := seq(DEFAULT_LIMITS.maxBulkLength, i => 0);
    var v: Bytes := seq(DEFAULT_LIMITS.maxBulkLength - 3, i => 0);
    SetRecoverable(k, v, None);
    SetRecoverable(k, v, Some(ms));
    forall rest
      ensures NextRecord(RecordText(Set(k, v, Some(ms))) + rest) == Corrupt
    {
      RecordExact(Set(k, v, Some(ms)), rest);
    }
    assert CommandFits([VERB_SET, k, v], DEFAULT_LIMITS) by { assert Parts(Set(k, v, None)) == [VERB_SET, k, v]; }
  }

  // ---- the file header ---------------------------------------------------------------

  const HEADER_SIZE: nat := 16
  const MAGIC: Bytes := [71, 79, 75, 86, 65, 79, 70, 0]
  const FORMAT_VERSION: int := 1

  const HEADER: Bytes := MAGIC + [0, 0, 0, 1] + [0, 0, 0, 0]

  function BigEndian32(b: Bytes): int
    requires |b| == 4
  {
    var b0: int, b1: int, b2: int := b[0], b[1], b[2];
    b0 * 0x100_0000 + b1 * 0x1_0000 + b2 * 0x100 + b[3]
  }

  datatype Start = NewLog | OldLog | TruncatedHeader | NotALog | OtherVersion(found: int)

  /** How a file begins: empty, a log of this version, or one of three refusals. */
  function StartOf(all: Bytes): Start {
    if all == [] then NewLog
    else if |all| < HEADER_SIZE then TruncatedHeader
    else if all[..8] != MAGIC then NotALog
    else if BigEndian32(all[8..12]) != FORMAT_VERSION then OtherVersion(BigEndian32(all[8..12]))
    else OldLog
  }

  /** Which files are taken for what: a log exactly when its first twelve bytes are
      the header's, whatever the four after them. */
  lemma StartExact(all: Bytes)
    ensures StartOf(all) == NewLog <==> all == []
    ensures StartOf(all) == TruncatedHeader <==> 0 < |all| < 16
    ensures |all| >= 16 ==>
              && (StartOf(all) == OldLog <==> all[..12] == HEADER[..12])
              && (StartOf(all) == NotALog <==> all[..8] != HEADER[..8])
              && (StartOf(all).OtherVersion? <==> all[..8] == HEADER[..8] && all[8..12] != HEADER[8..12])
  {
    if |all| >= 16 {
      var v := all[8..12];
      assert HEADER[..8] == MAGIC && HEADER[8..12] == [0, 0, 0, 1] && HEADER[..12] == MAGIC + [0, 0, 0, 1];
      assert all[..12] == all[..8] + v;
      if BigEndian32(v) == 1 {
        assert v == [0, 0, 0, 1];
      }
    }
  }

  method ReadHeader(src: Source) returns (start: Start)
    requires src.n == 0
    modifies src
    ensures start == StartOf(src.all)
    ensures src.Valid() && src.n == Min(HEADER_SIZE, |src.all|)
  {
    var buf := src.ReadFull(HEADER_SIZE);
    if |buf| == 0 { return NewLog; }
    if |buf| < HEADER_SIZE { return TruncatedHeader; }
    assert buf == src.all[..HEADER_SIZE];
    assert buf[..8] == src.all[..8] && buf[8..12] == src.all[8..12];
    if buf[..8] != MAGIC { return NotALog; }
    var v := BigEndian32(buf[8..12]);
    if v != FORMAT_VERSION { return OtherVersion(v); }
    return OldLog;
  }

  /** A crash image of a log is accepted exactly when it is empty or still holds
      the whole header. */
  lemma HeaderSurvives(body: Bytes, c: nat)
    requires c <= |HEADER + body|
    ensures StartOf((HEADER + body)[..c]) ==
            if c == 0 then NewLog else if c < HEADER_SIZE then TruncatedHeader else OldLog
  {
    if c >= HEADER_SIZE {
      var image := (HEADER + body)[..c];
      assert image[..8] == HEADER[..8] == MAGIC;
      assert image[8..12] == HEADER[8..12] == [0, 0, 0, 1];
    }
  }
}
