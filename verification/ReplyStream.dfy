/** One connection's outgoing side: the buffered reply writer
    (internal/resp/writer.go), the flusher that sends pending replies only when
    the reader would block (internal/server/flush_on_block.go) and the command
    loop (internal/server/conn.go). */
module ReplyStream {
  import opened Bytes
  import opened Decimal
  import opened Resp
  import opened Replies

  const WRITE_BUFFER: nat := 4096

  /** The socket: a write delivers some prefix, and fewer bytes mean an error.
      broken says that some write has failed. */
  class Conn {
    var sent: Bytes
    ghost var broken: bool

    constructor ()
      ensures sent == [] && !broken
    {
      sent, broken := [], false;
    }

    method Write(p: Bytes) returns (n: nat, err: bool)
      modifies this
      ensures n <= |p| && sent == old(sent) + p[..n]
      ensures n < |p| ==> err
      ensures broken == (old(broken) || err)
    {
      n :| 0 <= n <= |p|;
      err :| err || !err;
      if n < |p| { err := true; }
      sent := sent + p[..n];
      broken := broken || err;
    }
  }

  /** resp.Writer over bufio.Writer. total is every byte it was asked to write. */
  class Writer {
    const conn: Conn
    var buf: Bytes
    var err: bool
    ghost var total: Bytes

    /** What was sent is a prefix of what was asked; until an error, what was
        sent and what is buffered make up all of it; and only a failed write of
        the socket is an error. */
    ghost predicate Valid()
      reads this, conn
    {
      && |buf| <= WRITE_BUFFER
      && conn.sent <= total
      && (!err ==> conn.sent + buf == total)
      && (err ==> conn.broken)
    }

    /** The outcome of asking for text: all of it taken, or an error with at most
        a prefix taken; after an error nothing is ever sent again. */
    twostate predicate Asked(text: Bytes, failed: bool)
      reads this, conn
    {
      && Valid() && failed == err
      && old(total) <= total <= old(total) + text
      && (!failed ==> total == old(total) + text)
      && (old(err) ==> failed && conn.sent == old(conn.sent))
    }

    constructor (conn: Conn)
      requires conn.sent == []
      ensures Valid() && this.conn == conn && total == [] && !err && buf == []
    {
      this.conn := conn;
      buf, err, total := [], false, [];
    }

    method Flush() returns (failed: bool)
      requires Valid()
      modifies this, conn
      ensures Asked([], failed)
      ensures !failed ==> buf == [] && conn.sent == total
    {
      if err { return true; }
      if |buf| == 0 { return false; }
      var n, e := conn.Write(buf);
      if n < |buf| { e := true; }
      assert buf == buf[..n] + buf[n..];
      if e {
        buf := buf[n..];
        err := true;
        return true;
      }
      buf := [];
      return false;
    }

    /** bufio.Writer.Write: full buffers go out on the way, large writes bypass. */
    method Put(text: Bytes) returns (failed: bool)
      requires Valid()
      modifies this, conn
      ensures Asked(text, failed)
    {
      if err { return true; }
      var p := text;
      total := total + text;
      while |p| > WRITE_BUFFER - |buf| && !err
        invariant |buf| <= WRITE_BUFFER && total == old(total) + text && conn.sent <= total
        invariant err ==> conn.broken
        invariant !err ==> conn.sent + buf + p == total
        decreases |p|, |buf|, !err
      {
        if |buf| == 0 {
          p := SendDirect(p);
        } else {
          var n := WRITE_BUFFER - |buf|;
          Reassociate(conn.sent, buf, p, n);
          buf := buf + p[..n];
          p := p[n..];
          SendBuffer(p);
        }
      }
      if err { return true; }
      buf := buf + p;
      return false;
    }

    lemma Reassociate(sent: Bytes, held: Bytes, p: Bytes, n: nat)
      requires n <= |p|
      ensures sent + held + p == sent + (held + p[..n]) + p[n..]
    {
    }

    /** A write that bypasses the empty buffer. */
    method SendDirect(p: Bytes) returns (rest: Bytes)
      requires buf == [] && p != [] && !err && conn.sent + buf + p == total
      modifies this`err, conn
      ensures |rest| < |p| || err
      ensures |rest| <= |p| && conn.sent <= total && (!err ==> conn.sent + buf + rest == total)
      ensures err ==> conn.broken
    {
      var n, e := conn.Write(p);
      assert p == p[..n] + p[n..];
      rest, err := p[n..], e;
    }

    /** A flush in the middle of a larger write. */
    method SendBuffer(ghost rest: Bytes)
      requires |buf| <= WRITE_BUFFER && !err && buf != []
      requires conn.sent + buf + rest == total
      modifies this`buf, this`err, conn
      ensures |buf| <= WRITE_BUFFER && conn.sent <= total
      ensures !err ==> buf == [] && conn.sent + rest == total
      ensures err ==> conn.broken
    {
      var n, e := conn.Write(buf);
      assert buf == buf[..n] + buf[n..];
      if e {
        buf := buf[n..];
        err := true;
        return;
      }
      buf := [];
    }

    /** Writes one after the other, stopping at the first error. */
    method PutPair(a: Bytes, b: Bytes) returns (failed: bool)
      requires Valid()
      modifies this, conn
      ensures Asked(a + b, failed)
    {
      failed := Put(a);
      if failed { return; }
      assert old(total) + (a + b) == old(total) + a + b;
      failed := Put(b);
    }

    /** writeLineSafe: whole segments between line breaks, a space for each. */
    method WriteLineSafe(s: Bytes) returns (failed: bool)
      requires Valid()
      modifies this, conn
      ensures Asked(Safe(s), failed)
    {
      hide Safe;
      hide FindBreak;
      var rest := s;
      ghost var done: Bytes := [];
      failed := err;
      assert old(total) + [] == old(total);
      while true
        invariant Valid() && Safe(s) == done + Safe(rest)
        invariant total == old(total) + done && failed == err
        invariant old(err) ==> err && conn.sent == old(conn.sent)
        decreases |rest|
      {
        var i := FindBreak(rest);
        SafeSplit(rest, i);
        ghost var before := total;
        if i == |rest| {
          failed := Put(rest);
          TakenPrefix(old(total), done, rest, [], before, total);
          return;
        }
        failed := PutPair(rest[..i], [SPACE]);
        TakenPrefix(old(total), done, rest[..i] + [SPACE], Safe(rest[i + 1..]), before, total);
        if failed { return; }
        done := done + (rest[..i] + [SPACE]);
        rest := rest[i + 1..];
      }
    }

    /** A prefix of a piece, after what was done, is a prefix of the whole. */
    lemma TakenPrefix(start: Bytes, done: Bytes, piece: Bytes, rest: Bytes, before: Bytes, now: Bytes)
      requires before == start + done && before <= now <= before + piece
      ensures start <= now <= start + (done + piece + rest)
      ensures now == before + piece ==> now == start + (done + piece)
      ensures done + (piece + rest) == done + piece + rest
    {
      assert start + (done + piece + rest) == before + piece + rest;
    }

    method Prefixed(tag: Byte, s: Bytes) returns (failed: bool)
      requires Valid()
      modifies this, conn
      ensures Asked([tag] + Safe(s) + CRLF, failed)
    {
      failed := Put([tag]);
      if failed { return; }
      failed := WriteLineSafe(s);
      ghost var two := total;
      assert old(total) + ([tag] + Safe(s) + CRLF) == old(total) + [tag] + Safe(s) + CRLF;
      if failed { return; }
      failed := Put(CRLF);
    }

    method NumberLine(tag: Byte, n: int) returns (failed: bool)
      requires Valid()
      modifies this, conn
      ensures Asked([tag] + FormatInt(n) + CRLF, failed)
    {
      failed := PutPair([tag], FormatInt(n));
      assert old(total) + ([tag] + FormatInt(n) + CRLF) == old(total) + ([tag] + FormatInt(n)) + CRLF;
      if failed { return; }
      failed := Put(CRLF);
    }

    method WriteBulk(s: Bytes) returns (failed: bool)
      requires Valid()
      modifies this, conn
      ensures Asked(BulkText(s), failed)
    {
      failed := NumberLine(DOLLAR, |s|);
      assert old(total) + BulkText(s) == old(total) + ([DOLLAR] + FormatInt(|s|) + CRLF) + (s + CRLF);
      if failed { return; }
      failed := PutPair(s, CRLF);
    }

    /** writeReply, nested arrays included. */
    method WriteReply(r: Reply) returns (failed: bool)
      requires Valid()
      modifies this, conn
      ensures Asked(ReplyText(r), failed)
      decreases r, 0
    {
      hide Safe;
      hide BulkText;
      hide FormatInt;
      match r
      case Simple(s) => failed := Prefixed(PLUS, s);
      case Error(s) => failed := Prefixed(MINUS, s);
      case Int(n) => failed := NumberLine(COLON, n);
      case Bulk(s) => failed := WriteBulk(s);
      case NullBulk => failed := Put([DOLLAR, MINUS, 49] + CRLF);
      case Array(items) => failed := WriteArray(items);
    }

    /** WriteArrayHeader and the items after it. */
    method WriteArray(items: seq<Reply>) returns (failed: bool)
      requires Valid()
      modifies this, conn
      ensures Asked([STAR] + FormatInt(|items|) + CRLF + RepliesText(items), failed)
      decreases items, 2
    {
      hide RepliesText;
      hide FormatInt;
      ghost var head := [STAR] + FormatInt(|items|) + CRLF;
      assert total + (head + RepliesText(items)) == total + head + RepliesText(items);
      failed := NumberLine(STAR, |items|);
      if failed { return; }
      failed := WriteItems(items);
    }

    method WriteItems(items: seq<Reply>) returns (failed: bool)
      requires Valid()
      modifies this, conn
      ensures Asked(RepliesText(items), failed)
      decreases items, 1
    {
      hide ReplyText;
      hide RepliesText;
      RepliesTextCons(items, total);
      failed := err;
      if items == [] { return; }
      failed := WriteReply(items[0]);
      if failed { return; }
      failed := WriteItems(items[1..]);
    }
  }

  lemma RepliesTextCons(items: seq<Reply>, before: Bytes)
    ensures items == [] ==> before + RepliesText(items) == before
    ensures items != [] ==> before + RepliesText(items) == before + ReplyText(items[0]) + RepliesText(items[1..])
  {
    hide ReplyText;
  }

  /** strings.IndexAny(s, "\r\n"), with the length for none. */
  function FindBreak(s: Bytes): (i: nat)
    ensures i <= |s| && (i < |s| ==> LineBreak(s[i]))
    ensures forall j :: 0 <= j < i ==> !LineBreak(s[j])
  {
    if s == [] || LineBreak(s[0]) then 0 else 1 + FindBreak(s[1..])
  }

  lemma SafeSplit(s: Bytes, i: nat)
    requires i <= |s| && forall j :: 0 <= j < i ==> !LineBreak(s[j])
    requires i < |s| ==> LineBreak(s[i])
    ensures i == |s| ==> Safe(s) == s
    ensures i < |s| ==> Safe(s) == s[..i] + [SPACE] + Safe(s[i + 1..])
  {
    hide Safe;
    if i < |s| {
      var r := s[..i] + [SPACE] + Safe(s[i + 1..]);
      forall j | 0 <= j < |s|
        ensures Safe(s)[j] == r[j]
      {
        if j > i { assert r[j] == Safe(s[i + 1..])[j - i - 1] && s[i + 1..][j - i - 1] == s[j]; }
      }
    }
  }

  // ---- the flusher -------------------------------------------------------------------------

  class Flusher {
    const w: Writer
    var failed: bool

    ghost predicate Valid()
      reads this, w, w.conn
    {
      w.Valid() && (failed ==> w.conn.broken)
    }

    constructor (w: Writer)
      requires w.Valid()
      ensures this.w == w && !failed && Valid()
    {
      this.w := w;
      failed := false;
    }

    /** flush: latches on failure; a latched or failed writer sends nothing more. */
    method Flush() returns (bad: bool)
      requires Valid()
      modifies this, w, w.conn
      ensures Valid() && w.total == old(w.total)
      ensures !bad && !w.err ==> w.conn.sent == w.total
      ensures old(failed) || old(w.err) ==> w.conn.sent == old(w.conn.sent)
      ensures bad == failed && (old(failed) ==> failed) && (old(w.err) ==> w.err)
      ensures w.err && !old(w.err) ==> failed
    {
      if failed { return true; }
      if |w.buf| == 0 { return false; }
      var e := w.Flush();
      if e {
        failed := true;
        return true;
      }
      return false;
    }

    method Fail()
      modifies this
      ensures failed
    {
      failed := true;
    }
  }

  // ---- the command loop ----------------------------------------------------------------------

  /** One pass of the loop as the peer and the dispatcher decide it: how often
      the decoder goes to the socket, and then a command's reply, the end of the
      stream, a malformed frame or a transport failure; or a drain begins. */
  datatype Pass =
    | Command(fills: nat, reply: Reply)
    | EndOfStream(fills: nat)
    | BadFrame(fills: nat, message: Bytes)
    | TransportError(fills: nat)
    | Draining

  const PROTOCOL_ERROR: Bytes := [69, 82, 82, 32, 80, 114, 111, 116, 111, 99, 111, 108, 32, 101, 114, 114, 111, 114, 58, 32]

  /** The replies a script of passes calls for. */
  function RepliesOf(script: seq<Pass>): seq<Reply> {
    if script == [] then []
    else
      match script[0]
      case Command(_, reply) => [reply] + RepliesOf(script[1..])
      case BadFrame(_, message) => [Error(PROTOCOL_ERROR + message)]
      case _ => []
  }

  /** What is answered: one reply for each command up to the first pass that is
      none, in order, and one error more if that pass is a malformed frame. */
  lemma {:induction false} RepliesExact(script: seq<Pass>, n: nat)
    requires n <= |script| && (forall i :: 0 <= i < n ==> script[i].Command?) && (n < |script| ==> !script[n].Command?)
    ensures |RepliesOf(script)| == n + if n < |script| && script[n].BadFrame? then 1 else 0
    ensures forall i :: 0 <= i < n ==> RepliesOf(script)[i] == script[i].reply
    ensures n < |script| && script[n].BadFrame? ==> RepliesOf(script)[n] == Error(PROTOCOL_ERROR + script[n].message)
  {
    if n > 0 {
      assert forall i :: 1 <= i < |script| ==> script[i] == script[1..][i - 1];
      RepliesExact(script[1..], n - 1);
    }
  }

  /** A read of the socket: how many replies were finished, and what was sent. */
  datatype Look = Look(replies: nat, sent: Bytes)

  /** At every read, every finished reply had been sent, and nothing else. */
  ghost predicate CaughtUp(looks: seq<Look>, produced: seq<Reply>) {
    forall i :: 0 <= i < |looks| ==>
      looks[i].replies <= |produced| && looks[i].sent == RepliesText(produced[..looks[i].replies])
  }

  lemma {:induction false} FrontText(front: seq<Reply>, all: seq<Reply>)
    requires front <= all
    ensures RepliesText(front) <= RepliesText(all)
  {
    hide ReplyText;
    if front != [] {
      assert front[1..] <= all[1..];
      FrontText(front[1..], all[1..]);
    }
  }

  class Handler {
    const fl: Flusher
    const flushEveryReply: bool
    ghost var produced: seq<Reply>
    ghost var looks: seq<Look>

    /** The stream's safety: what was sent is a prefix of the replies' text; and
        until a failure the writer has been asked for exactly that text. */
    ghost predicate Valid()
      reads this, fl, fl.w, fl.w.conn
    {
      && fl.Valid()
      && fl.w.total <= RepliesText(produced)
      && (!fl.failed && !fl.w.err ==> fl.w.total == RepliesText(produced))
      && (!flushEveryReply ==> CaughtUp(looks, produced))
    }

    constructor (fl: Flusher, flushEveryReply: bool)
      requires fl.Valid() && fl.w.total == [] && !fl.failed && !fl.w.err
      ensures Valid() && this.fl == fl && this.flushEveryReply == flushEveryReply
      ensures produced == [] && looks == []
    {
      this.fl := fl;
      this.flushEveryReply := flushEveryReply;
      produced, looks := [], [];
    }

    /** The decoder's reads of the socket, each preceded by a flush unless every
        reply is flushed on its own. A failed flush ends them. */
    method Reads(n: nat) returns (bad: bool)
      requires Valid() && !fl.failed && !fl.w.err
      modifies this`looks, fl, fl.w, fl.w.conn
      ensures Valid() && bad == fl.failed && (!bad ==> !fl.w.err) && old(looks) <= looks
      ensures !bad && !flushEveryReply ==> |looks| == |old(looks)| + n
    {
      bad := false;
      var i := 0;
      while i < n
        invariant 0 <= i <= n && Valid() && !fl.failed && !fl.w.err && old(looks) <= looks
        invariant !flushEveryReply ==> |looks| == |old(looks)| + i
      {
        if !flushEveryReply {
          bad := fl.Flush();
          if bad { return; }
          assert produced[..|produced|] == produced;
          looks := looks + [Look(|produced|, fl.w.conn.sent)];
        }
        i := i + 1;
      }
    }

    /** Encoding one reply. */
    method Produce(r: Reply) returns (bad: bool)
      requires Valid() && !fl.failed && !fl.w.err
      modifies this`produced, fl.w, fl.w.conn
      ensures Valid() && produced == old(produced) + [r] && bad == fl.w.err
    {
      hide ReplyText;
      ghost var before := produced;
      RepliesTextAppend(produced, r);
      bad := fl.w.WriteReply(r);
      produced := produced + [r];
      CaughtUpLater(looks, before, r);
    }

    lemma CaughtUpLater(looks: seq<Look>, produced: seq<Reply>, r: Reply)
      ensures CaughtUp(looks, produced) ==> CaughtUp(looks, produced + [r])
    {
      if CaughtUp(looks, produced) {
        forall i | 0 <= i < |looks|
          ensures looks[i].replies <= |produced + [r]| && looks[i].sent == RepliesText((produced + [r])[..looks[i].replies])
        {
          assert (produced + [r])[..looks[i].replies] == produced[..looks[i].replies];
        }
      }
    }

    /** serve, then the flush serveConn adds: what is sent is a prefix of the text
        of the replies called for, and all of it unless a write failed. */
    method ServeConn(script: seq<Pass>)
      requires Valid() && !fl.failed && !fl.w.err && produced == []
      modifies this`looks, this`produced, fl, fl.w, fl.w.conn
      ensures Valid() && produced <= RepliesOf(script)
      ensures fl.w.conn.sent <= RepliesText(RepliesOf(script))
      ensures !fl.failed && !fl.w.err ==> fl.w.conn.sent == RepliesText(RepliesOf(script))
      ensures !fl.w.conn.broken ==> fl.w.conn.sent == RepliesText(RepliesOf(script))
    {
      Serve(script);
      assert old(produced) + RepliesOf(script) == RepliesOf(script);
      FrontText(produced, RepliesOf(script));
      var _ := fl.Flush();
    }

    method Serve(script: seq<Pass>)
      requires Valid() && !fl.failed && !fl.w.err
      modifies this`looks, this`produced, fl, fl.w, fl.w.conn
      ensures Valid() && produced <= old(produced) + RepliesOf(script)
      ensures !fl.failed && !fl.w.err ==> produced == old(produced) + RepliesOf(script)
    {
      hide RepliesText;
      hide CaughtUp;
      var i := 0;
      assert script[0..] == script;
      while i < |script|
        invariant 0 <= i <= |script| && Valid() && !fl.failed && !fl.w.err
        invariant produced + RepliesOf(script[i..]) == old(produced) + RepliesOf(script)
      {
        var pass := script[i];
        assert script[i..][0] == pass && script[i..][1..] == script[i + 1..];
        i := i + 1;
        if pass.Draining? { return; }
        var bad := Reads(pass.fills);
        if bad { return; }
        match pass
        case EndOfStream(_) => return;
        case TransportError(_) => return;
        case BadFrame(_, message) =>
          var _ := Produce(Error(PROTOCOL_ERROR + message));
          var _ := fl.Flush();
          return;
        case Command(_, reply) =>
          bad := Produce(reply);
          if bad {
            fl.Fail();
            return;
          }
          if flushEveryReply {
            bad := fl.Flush();
            if bad { return; }
          }
      }
    }
  }
}
