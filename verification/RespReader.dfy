/** The streaming decoder (internal/resp/reader.go) over a buffered reader over
    a source that hands out its bytes in pieces of any size. Every method is
    proved against the pure reading functions of module Resp, so the pieces do
    not matter. */
module RespReader {
  import opened Bytes
  import opened Decimal
  import opened Resp

  const MAX_PREALLOCATION: nat := 0x1_0000
  const MAX_RETAINED_BUFFER: nat := 0x10_0000

  /** What a read reports, without the byte count that only the proofs use. */
  datatype Outcome<+T> = Ok(value: T) | Eof | Torn | Malformed(fault: Fault)

  function Report<T>(p: Parsed<T>): Outcome<T> {
    match p
    case Got(v, _) => Ok(v)
    case Ended => Eof
    case Cut => Torn
    case Bad(f) => Malformed(f)
  }

  /** An io.Reader with a running count of the bytes handed out. Each call
      delivers at least one byte until the end is reached. */
  class Source {
    const all: Bytes
    var n: nat

    ghost predicate Valid()
      reads this
    {
      n <= |all|
    }

    constructor (all: Bytes)
      ensures this.all == all && n == 0
    {
      this.all := all;
      n := 0;
    }

    method Read(max: nat) returns (chunk: Bytes)
      requires Valid() && max > 0
      modifies this
      ensures Valid() && old(n) <= n
      ensures chunk == all[old(n)..n] && |chunk| <= max
      ensures chunk == [] <==> old(n) == |all|
    {
      if n == |all| { return []; }
      assert 1 <= 1 <= max;
      var k :| 1 <= k <= max && n + k <= |all|;
      chunk := all[n..n + k];
      n := n + k;
    }

    /** io.ReadFull on the unbuffered source. */
    method ReadFull(want: nat) returns (got: Bytes)
      requires Valid()
      modifies this
      ensures Valid() && old(n) <= n
      ensures got == all[old(n)..n] && |got| == Min(want, |all| - old(n))
    {
      got := [];
      while |got| < want
        invariant Valid() && old(n) <= n
        invariant got == all[old(n)..n] && |got| <= want
      {
        var chunk := Read(want - |got|);
        if chunk == [] { return; }
        got := got + chunk;
      }
    }
  }

  class BufReader {
    const src: Source
    var buffered: Bytes

    /** The buffer holds the bytes just before the source's position, so the
        consumed offset is the count minus what is buffered. */
    ghost predicate Valid()
      reads this, src
    {
      && src.Valid()
      && |buffered| <= LINE_BUFFER && |buffered| <= src.n
      && buffered == src.all[src.n - |buffered|..src.n]
    }

    ghost function Pos(): nat
      requires Valid()
      reads this, src
    {
      src.n - |buffered|
    }

    ghost function Rest(): Bytes
      requires Valid()
      reads this, src
    {
      src.all[Pos()..]
    }

    constructor (src: Source)
      requires src.Valid()
      ensures this.src == src && Valid() && Pos() == src.n
    {
      this.src := src;
      buffered := [];
    }

    method Fill() returns (more: bool)
      requires Valid() && |buffered| < LINE_BUFFER
      modifies this, src
      ensures Valid() && Pos() == old(Pos()) && old(buffered) <= buffered
      ensures more <==> |buffered| > old(|buffered|)
      ensures !more ==> Rest() == buffered
    {
      var chunk := src.Read(LINE_BUFFER - |buffered|);
      buffered := buffered + chunk;
      more := chunk != [];
      assert !more ==> Rest() == buffered;
    }

    /** ReadSlice('\n'): the bytes up to and including the first line feed, or
        false with everything buffered, which is then a full buffer or the
        rest of the stream. */
    method ReadSlice() returns (line: Bytes, found: bool)
      requires Valid()
      modifies this, src
      ensures Valid() && line <= old(Rest()) && Pos() == old(Pos()) + |line|
      ensures found <==> FindLF(old(Rest())) < Min(|old(Rest())|, LINE_BUFFER)
      ensures |line| == if found then FindLF(old(Rest())) + 1 else Min(|old(Rest())|, LINE_BUFFER)
    {
      hide FindLF;
      ghost var s := Rest();
      var i := 0;
      while true
        invariant Valid() && Rest() == s && buffered <= s && Pos() == old(Pos())
        invariant 0 <= i <= |buffered|
        invariant forall j :: 0 <= j < i ==> buffered[j] != LF
        decreases LINE_BUFFER - |buffered|, |buffered| - i
      {
        if i < |buffered| {
          if buffered[i] == LF { break; }
          i := i + 1;
          continue;
        }
        if |buffered| >= LINE_BUFFER {
          NoLF(s, buffered);
          line, buffered := buffered, [];
          return line, false;
        }
        var more := Fill();
        if !more {
          NoLF(s, buffered);
          line, buffered := buffered, [];
          return line, false;
        }
      }
      assert forall j :: 0 <= j < |buffered| ==> s[j] == buffered[j];
      FindLFUnique(s, i);
      line, found := buffered[..i + 1], true;
      buffered := buffered[i + 1..];
    }

    lemma NoLF(s: Bytes, front: Bytes)
      requires front <= s && forall j :: 0 <= j < |front| ==> front[j] != LF
      ensures FindLF(s) >= |front|
    {
      assert forall j :: 0 <= j < |front| ==> s[j] == front[j];
    }

    /** readLine: a header line without its CRLF. */
    method ReadLine() returns (r: Outcome<Bytes>)
      requires Valid()
      modifies this, src
      ensures Valid() && r == Report(Line(old(Rest())))
      ensures r.Ok? ==> 2 <= Line(old(Rest())).used <= |old(Rest())|
      ensures r.Ok? ==> Pos() == old(Pos()) + Line(old(Rest())).used
    {
      var line, found := ReadSlice();
      if !found {
        if |line| >= LINE_BUFFER { return Malformed(LineTooLong); }
        return if |line| > 0 then Torn else Eof;
      }
      if |line| < 2 || line[|line| - 2] != CR { return Malformed(LineNotTerminated); }
      assert line[..|line| - 2] == old(Rest())[..|line| - 2];
      return Ok(line[..|line| - 2]);
    }

    /** bufio.Reader.Read: large requests bypass an empty buffer. */
    method Read(max: nat) returns (chunk: Bytes)
      requires Valid() && max > 0
      modifies this, src
      ensures Valid() && |chunk| <= max
      ensures chunk <= old(Rest()) && Pos() == old(Pos()) + |chunk|
      ensures chunk == [] <==> old(Rest()) == []
    {
      ghost var s := Rest();
      if buffered == [] {
        if max >= LINE_BUFFER {
          chunk := src.Read(max);
          return;
        }
        var more := Fill();
        if !more { return []; }
      }
      var k := Min(max, |buffered|);
      chunk := buffered[..k];
      assert buffered <= s;
      buffered := buffered[k..];
    }

    /** io.ReadFull into a[at..at+want]; false when the stream ended first. */
    method ReadFull(a: array<Byte>, at: nat, want: nat) returns (full: bool)
      requires Valid() && at + want <= a.Length
      modifies this, src, a
      ensures Valid()
      ensures full <==> want <= |old(Rest())|
      ensures full ==> Pos() == old(Pos()) + want && a[at..at + want] == old(Rest())[..want]
      ensures forall j :: 0 <= j < at ==> a[j] == old(a[j])
    {
      ghost var s := Rest();
      var got := 0;
      while got < want
        invariant Valid() && 0 <= got <= want && got <= |s|
        invariant Pos() == old(Pos()) + got && Rest() == s[got..]
        invariant forall j :: 0 <= j < got ==> a[at + j] == s[j]
        invariant forall j :: 0 <= j < at ==> a[j] == old(a[j])
      {
        var chunk := Read(want - got);
        if chunk == [] { return false; }
        assert forall j :: 0 <= j < |chunk| ==> chunk[j] == s[got..][j] == s[got + j];
        forall j | 0 <= j < |chunk| {
          a[at + got + j] := chunk[j];
        }
        forall j | got <= j < got + |chunk|
          ensures a[at + j] == s[j]
        {
          assert a[at + got + (j - got)] == chunk[j - got];
        }
        got := got + |chunk|;
      }
      assert a[at..at + want] == s[..want];
      return true;
    }
  }

  /** A buffer of the given capacity may be kept under these limits: the two
      spare bytes are the CRLF of the last argument. */
  predicate WithinCap(capacity: int, lim: Limits) {
    lim.maxCommandBytes > 0 ==> capacity <= lim.maxCommandBytes + 2
  }

  /** Results so far, in front of what is still to be read. */
  function Prepend(done: seq<Bytes>, used: nat, p: Parsed<seq<Bytes>>): Parsed<seq<Bytes>> {
    match p
    case Got(args, n) => Got(done + args, used + n)
    case Ended => Ended
    case Cut => Cut
    case Bad(f) => Bad(f)
  }

  lemma BulksStep(s: Bytes, count: nat, held: nat, lim: Limits, done: seq<Bytes>, used: nat)
    requires count > 0
    ensures var p := Bulk(s, held, lim);
            p.Got? ==>
              && p.used <= |s|
              && Prepend(done, used, Bulks(s, count, held, lim))
                 == Prepend(done + [p.value], used + p.used, Bulks(s[p.used..], count - 1, held + |p.value|, lim))
    ensures !Bulk(s, held, lim).Got? ==> Report(Prepend(done, used, Bulks(s, count, held, lim))) == Stop(Bulk(s, held, lim))
  {
    hide Bulk;
    var p := Bulk(s, held, lim);
    if p.Got? {
      BulkStable(s, held, lim, []);
      var rest := Bulks(s[p.used..], count - 1, held + |p.value|, lim);
      if rest.Got? { assert done + ([p.value] + rest.value) == done + [p.value] + rest.value; }
    }
  }

  /** How a declared length decides the rest of a bulk string. */
  lemma BulkFromLength(s: Bytes, held: nat, lim: Limits)
    ensures var l, p := BulkLength(s, held, lim), Bulk(s, held, lim);
            match l
            case Ended => p == Cut
            case Cut => p == Cut
            case Bad(f) => p == Bad(f)
            case Got(ln, n) =>
              && (|s| < n + ln + 2 ==> p == Cut)
              && (|s| >= n + ln + 2 ==>
                    var tail := s[n..][..ln + 2];
                    p == if tail[ln] == CR && tail[ln + 1] == LF then Got(tail[..ln], n + ln + 2) else Bad(BulkNotTerminated))
  {
    hide BulkLength;
    var l := BulkLength(s, held, lim);
    if l.Got? && |s| >= l.used + l.value + 2 {
      assert s[l.used..][..l.value + 2][..l.value] == s[l.used..l.used + l.value];
    }
  }

  lemma NoBulks(s: Bytes, held: nat, lim: Limits, done: seq<Bytes>, used: nat)
    ensures Prepend(done, used, Bulks(s, 0, held, lim)) == Got(done, used)
  {
    assert done + [] == done;
  }

  lemma PrependNothing(p: Parsed<seq<Bytes>>)
    ensures Prepend([], 0, p) == p
  {
    if p.Got? { assert [] + p.value == p.value; }
  }

  lemma BulkLengthBounds(s: Bytes, held: nat, lim: Limits)
    ensures BulkLength(s, held, lim).Got? && lim.maxCommandBytes > 0 ==>
              BulkLength(s, held, lim).value <= lim.maxCommandBytes - held
  {
  }

  /** The error of a read that gave no value. */
  function Stop<T>(p: Parsed<T>): Outcome<seq<Bytes>> {
    match p
    case Got(_, _) => Torn
    case Ended => Torn
    case Cut => Torn
    case Bad(f) => Malformed(f)
  }

  class Reader {
    const br: BufReader
    const limits: Limits
    /** buf.Length is the slice's capacity, len its length. */
    var buf: array<Byte>
    var len: nat
    var offsets: seq<(nat, nat)>

    ghost predicate Valid()
      reads this, br, br.src
    {
      br.Valid() && len <= buf.Length && WithinCap(buf.Length, limits)
    }

    constructor (src: Source, limits: Limits)
      requires src.Valid()
      ensures Valid() && fresh(br) && fresh(buf) && br.src == src && this.limits == limits
      ensures br.Pos() == src.n && buf.Length == 0
    {
      var b := new BufReader(src);
      br := b;
      this.limits := limits;
      buf := new Byte[0];
      len := 0;
      offsets := [];
    }

    method GrowBuf(need: nat)
      requires Valid() && WithinCap(need, limits)
      modifies this`buf
      ensures Valid() && buf.Length >= need
      ensures buf == old(buf) || fresh(buf)
      ensures buf[..len] == old(buf[..len])
    {
      if buf.Length >= need { return; }
      var size := 2 * buf.Length;
      if size < need { size := need; }
      var limit := limits.maxCommandBytes;
      if limit > 0 && size > limit {
        size := limit;
        if need > size { size := need; }
      }
      var grown := new Byte[size];
      forall j | 0 <= j < len { grown[j] := buf[j]; }
      assert grown[..len] == buf[..len];
      buf := grown;
    }

    /** The header line of readBulk, with every check made before the payload. */
    method ReadBulkLength() returns (r: Outcome<nat>)
      requires Valid()
      modifies br, br.src
      ensures Valid() && r == Report(BulkLength(old(br.Rest()), len, limits))
      ensures r.Ok? ==>
        && BulkLength(old(br.Rest()), len, limits).used <= |old(br.Rest())|
        && br.Pos() == old(br.Pos()) + BulkLength(old(br.Rest()), len, limits).used
    {
      hide Line;
      hide ParseLength;
      var line := br.ReadLine();
      match line
      case Eof => return Torn;
      case Torn => return Torn;
      case Malformed(f) => return Malformed(f);
      case Ok(text) =>
      if |text| == 0 || text[0] != DOLLAR { return Malformed(ExpectedDollar); }
      var length := ParseInt(text[1..]);
      if length == None || length.value < 0 { return Malformed(BadBulkLength); }
      var ln := length.value;
      if ln > limits.maxBulkLength { return Malformed(BulkTooLong); }
      if limits.maxCommandBytes > 0 && ln > limits.maxCommandBytes - len { return Malformed(CommandTooLong); }
      return Ok(ln);
    }

    /** readBulk: one argument appended to the buffer, in bounded chunks. */
    method ReadBulk() returns (r: Outcome<()>)
      requires Valid()
      modifies this, buf, br, br.src
      ensures Valid() && (buf == old(buf) || fresh(buf))
      ensures var p := Bulk(old(br.Rest()), old(len), limits);
              if p.Got? then
                && r == Ok(()) && p.used <= |old(br.Rest())|
                && br.Pos() == old(br.Pos()) + p.used
                && len == old(len) + |p.value|
                && buf[..old(len)] == old(buf[..len]) && buf[old(len)..len] == p.value
                && offsets == old(offsets) + [(old(len), len)]
              else
                r == (match p case Bad(f) => Malformed(f) case _ => Torn)
    {
      BulkLengthBounds(br.Rest(), len, limits);
      BulkFromLength(br.Rest(), len, limits);
      hide BulkLength;
      hide Bulk;
      ghost var s := br.Rest();
      var length := ReadBulkLength();
      match length
      case Eof => return Torn;
      case Torn => return Torn;
      case Malformed(f) => return Malformed(f);
      case Ok(ln) =>
        assert br.Rest() == s[BulkLength(s, len, limits).used..];
        r := ReadBody(ln);
    }

    lemma SliceOfSlice(a: array<Byte>, i: nat, j: nat, k: nat)
      requires i + k <= j <= a.Length
      ensures a[i..j][..k] == a[i..i + k]
    {
    }

    /** The rest of readBulk once the length is known. */
    method ReadBody(ln: nat) returns (r: Outcome<()>)
      requires Valid()
      requires limits.maxCommandBytes > 0 ==> ln <= limits.maxCommandBytes - len
      modifies this, buf, br, br.src
      ensures Valid() && (buf == old(buf) || fresh(buf))
      ensures |old(br.Rest())| < ln + 2 ==> r == Torn
      ensures |old(br.Rest())| >= ln + 2 ==>
        var tail := old(br.Rest())[..ln + 2];
        if tail[ln] == CR && tail[ln + 1] == LF then
          && r == Ok(()) && br.Pos() == old(br.Pos()) + ln + 2 && len == old(len) + ln
          && buf[..old(len)] == old(buf[..len]) && buf[old(len)..len] == tail[..ln]
          && offsets == old(offsets) + [(old(len), len)]
        else r == Malformed(BulkNotTerminated)
    {
      var full := ReadPayload(ln);
      if !full { return Torn; }
      var start := len - ln - 2;
      ghost var tail := buf[start..len];
      assert buf[start + ln] == tail[ln] && buf[start + ln + 1] == tail[ln + 1];
      if buf[start + ln] != CR || buf[start + ln + 1] != LF { return Malformed(BulkNotTerminated); }
      SliceOfSlice(buf, start, len, ln);
      len := start + ln;
      offsets := offsets + [(start, start + ln)];
      return Ok(());
    }

    /** readBulk with the arguments before it still in place. */
    method ReadNext(ghost done: seq<Bytes>) returns (r: Outcome<()>)
      requires Valid() && Holds(done)
      modifies this, buf, br, br.src
      ensures Valid() && (buf == old(buf) || fresh(buf))
      ensures var p := Bulk(old(br.Rest()), old(len), limits);
              if p.Got? then
                && r == Ok(()) && p.used <= |old(br.Rest())|
                && br.Pos() == old(br.Pos()) + p.used
                && len == old(len) + |p.value| && Holds(done + [p.value])
              else
                r == (match p case Bad(f) => Malformed(f) case _ => Torn)
    {
      hide Bulk;
      ghost var p, before := Bulk(br.Rest(), len, limits), buf[..len];
      assert forall j :: 0 <= j < |done| ==> before[offsets[j].0..offsets[j].1] == buf[offsets[j].0..offsets[j].1];
      r := ReadBulk();
      if p.Got? { Kept(before, done, p.value); }
    }

    /** The chunk loop of readBulk: the payload and its terminator. */
    method ReadPayload(ln: nat) returns (full: bool)
      requires Valid()
      requires limits.maxCommandBytes > 0 ==> ln <= limits.maxCommandBytes - len
      modifies this`buf, this`len, buf, br, br.src
      ensures Valid() && (buf == old(buf) || fresh(buf))
      ensures full <==> ln + 2 <= |old(br.Rest())|
      ensures full ==> len == old(len) + ln + 2 && br.Pos() == old(br.Pos()) + ln + 2
      ensures full ==> buf[..old(len)] == old(buf[..len]) && buf[old(len)..len] == old(br.Rest())[..ln + 2]
    {
      ghost var s := br.Rest();
      var remaining := ln + 2;
      while remaining > 0
        invariant Valid() && (buf == old(buf) || fresh(buf))
        invariant 0 <= remaining <= ln + 2 && ln + 2 - remaining <= |s|
        invariant len == old(len) + ln + 2 - remaining
        invariant br.Pos() == old(br.Pos()) + ln + 2 - remaining
        invariant buf[..len] == old(buf[..len]) + s[..ln + 2 - remaining]
      {
        var chunk := Min(remaining, MAX_PREALLOCATION);
        ghost var rest, got0 := br.Rest(), ln + 2 - remaining;
        assert rest == s[got0..];
        var got := ReadChunk(chunk);
        if !got { return false; }
        assert s[..got0] + rest[..chunk] == s[..got0 + chunk];
        remaining := remaining - chunk;
      }
      assert s[..ln + 2] == buf[..len][old(len)..];
      return true;
    }

    /** One pass of the chunk loop: room made, then filled from the stream. */
    method ReadChunk(chunk: nat) returns (full: bool)
      requires Valid() && WithinCap(len + chunk, limits)
      modifies this`buf, this`len, buf, br, br.src
      ensures Valid() && (buf == old(buf) || fresh(buf))
      ensures full <==> chunk <= |old(br.Rest())|
      ensures full ==> len == old(len) + chunk && br.Pos() == old(br.Pos()) + chunk
      ensures full ==> buf[..len] == old(buf[..len]) + old(br.Rest())[..chunk]
    {
      var at := len;
      ghost var kept := buf[..len];
      GrowBuf(at + chunk);
      len := at + chunk;
      full := br.ReadFull(buf, at, chunk);
      if full {
        assert buf[..at] == kept;
        assert buf[..len] == buf[..at] + buf[at..len];
      }
    }

    /** Whether the recorded offsets delimit exactly these arguments. */
    ghost predicate Holds(args: seq<Bytes>)
      reads this, buf
    {
      && len <= buf.Length && |offsets| == |args|
      && forall j :: 0 <= j < |args| ==>
           offsets[j].0 <= offsets[j].1 <= len && buf[offsets[j].0..offsets[j].1] == args[j]
    }

    /** ReadCommand: the decoder's whole answer is the pure reading of the bytes
        that remain, whatever pieces they arrive in and however often the
        buffer is reallocated; the capacity bound survives every call. */
    method ReadCommand() returns (r: Outcome<seq<Bytes>>)
      requires Valid()
      modifies this, buf, br, br.src
      ensures Valid() && (buf == old(buf) || fresh(buf))
      ensures r == Report(Command(old(br.Rest()), limits))
      ensures r.Ok? ==>
        var p := Command(old(br.Rest()), limits);
        p.used <= |old(br.Rest())| && br.Pos() == old(br.Pos()) + p.used && Holds(p.value)
    {
      hide Line;
      hide ParseLength;
      hide Bulks;
      ghost var s := br.Rest();
      var line := br.ReadLine();
      match line
      case Eof => return Eof;
      case Torn => return Torn;
      case Malformed(f) => return Malformed(f);
      case Ok(text) =>
      if |text| == 0 || text[0] != STAR { return Malformed(ExpectedStar); }
      var count := ParseInt(text[1..]);
      if count == None || count.value <= 0 { return Malformed(BadArrayLength); }
      var n := count.value;
      if n > limits.maxArrayElements { return Malformed(ArrayTooLong); }
      ghost var h := Line(s).used;
      assert br.Rest() == s[h..] && Header(s, limits) == Got(n, h);
      var bad := ReadArguments(n);
      if bad != Ok(()) { return match bad case Malformed(f) => Malformed(f) case _ => Torn; }
      var args := [];
      var i := 0;
      while i < |offsets|
        invariant 0 <= i <= |offsets| && |args| == i
        invariant args == Bulks(s[h..], n, 0, limits).value[..i]
      {
        args := args + [buf[offsets[i].0..offsets[i].1]];
        i := i + 1;
      }
      assert args == Bulks(s[h..], n, 0, limits).value;
      return Ok(args);
    }

    /** The buffer emptied, and dropped if it has grown too large to keep. */
    method Reset()
      requires Valid()
      modifies this
      ensures Valid() && (buf == old(buf) || fresh(buf)) && len == 0 && Holds([])
    {
      if buf.Length > MAX_RETAINED_BUFFER { buf := new Byte[0]; }
      len, offsets := 0, [];
    }

    /** One turn of the argument loop: of what is left to read, one argument is
        moved to those done, or the whole reading fails as it must. */
    method ReadOne(ghost done: seq<Bytes>, ghost used: nat, ghost left: nat, ghost whole: Parsed<seq<Bytes>>)
      returns (r: Outcome<()>, ghost last: Bytes, ghost taken: nat)
      requires Valid() && Holds(done) && left > 0 && whole == Prepend(done, used, Bulks(br.Rest(), left, len, limits))
      modifies this, buf, br, br.src
      ensures Valid() && (buf == old(buf) || fresh(buf))
      ensures r == Ok(()) ==>
        && Holds(done + [last]) && taken <= |old(br.Rest())| && br.Pos() == old(br.Pos()) + taken
        && whole == Prepend(done + [last], used + taken, Bulks(br.Rest(), left - 1, len, limits))
      ensures r != Ok(()) ==> !whole.Got? && r == (match whole case Bad(f) => Malformed(f) case _ => Torn)
    {
      hide Bulk;
      hide Bulks;
      hide Holds;
      ghost var rest, p := br.Rest(), Bulk(br.Rest(), len, limits);
      BulksStep(rest, left, len, limits, done, used);
      r := ReadNext(done);
      last, taken := [], 0;
      if r != Ok(()) { return; }
      assert br.Rest() == rest[p.used..];
      last, taken := p.value, p.used;
    }

    /** The argument loop of ReadCommand, after its header line. */
    method ReadArguments(n: nat) returns (r: Outcome<()>)
      requires Valid()
      modifies this, buf, br, br.src
      ensures Valid() && (buf == old(buf) || fresh(buf))
      ensures var p := Bulks(old(br.Rest()), n, 0, limits);
              if p.Got? then
                r == Ok(()) && p.used <= |old(br.Rest())| && br.Pos() == old(br.Pos()) + p.used && Holds(p.value)
              else
                r == (match p case Bad(f) => Malformed(f) case _ => Torn)
    {
      hide Bulks;
      hide Holds;
      hide Prepend;
      ghost var whole := Bulks(br.Rest(), n, 0, limits);
      Reset();
      PrependNothing(whole);
      ghost var done: seq<Bytes>, used: nat := [], 0;
      var i := 0;
      while i < n
        invariant Valid() && (buf == old(buf) || fresh(buf))
        invariant 0 <= i <= n && br.Pos() == old(br.Pos()) + used
        invariant Holds(done) && whole == Prepend(done, used, Bulks(br.Rest(), n - i, len, limits))
      {
        ghost var last, taken;
        r, last, taken := ReadOne(done, used, n - i, whole);
        if r != Ok(()) { return; }
        done, used := done + [last], used + taken;
        i := i + 1;
      }
      NoBulks(br.Rest(), len, limits, done, used);
      return Ok(());
    }

    /** Arguments already delimited are untouched by one more. */
    lemma Kept(before: Bytes, done: seq<Bytes>, last: Bytes)
      requires len <= buf.Length && |before| <= len && buf[..|before|] == before
      requires |offsets| == |done| + 1 && offsets[|done|] == (|before|, len) && buf[|before|..len] == last
      requires forall j :: 0 <= j < |done| ==>
                 offsets[j].0 <= offsets[j].1 <= |before| && before[offsets[j].0..offsets[j].1] == done[j]
      ensures Holds(done + [last])
    {
      forall j | 0 <= j < |done|
        ensures buf[offsets[j].0..offsets[j].1] == done[j]
      {
        assert buf[offsets[j].0..offsets[j].1] == buf[..|before|][offsets[j].0..offsets[j].1];
      }
    }
  }
}
