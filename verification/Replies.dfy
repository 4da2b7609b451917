/** Replies and their RESP2 text (internal/command/reply.go,
    internal/resp/writer.go, writeReply in internal/server/conn.go), with a
    reader that a client could use, to show that the text decides the reply. */
module Replies {
  import opened Bytes
  import opened Decimal
  import opened Resp

  datatype Reply =
    | Simple(text: Bytes)
    | Error(text: Bytes)
    | Int(n: int)
    | Bulk(body: Bytes)
    | NullBulk
    | Array(items: seq<Reply>)

  predicate LineBreak(b: Byte) {
    b == CR || b == LF
  }

  /** Line replies have no length prefix, so CR and LF become spaces. */
  function Safe(s: Bytes): (r: Bytes)
    ensures |r| == |s|
    ensures forall i :: 0 <= i < |s| ==> r[i] == if LineBreak(s[i]) then SPACE else s[i]
  {
    if s == [] then [] else [if LineBreak(s[0]) then SPACE else s[0]] + Safe(s[1..])
  }

  function ReplyText(r: Reply): Bytes
    decreases r, 0
  {
    match r
    case Simple(s) => [PLUS] + Safe(s) + CRLF
    case Error(s) => [MINUS] + Safe(s) + CRLF
    case Int(n) => [COLON] + FormatInt(n) + CRLF
    case Bulk(s) => BulkText(s)
    case NullBulk => [DOLLAR, MINUS, 49] + CRLF
    case Array(items) => [STAR] + FormatInt(|items|) + CRLF + RepliesText(items)
  }

  function RepliesText(rs: seq<Reply>): Bytes
    decreases rs, 1
  {
    if rs == [] then [] else ReplyText(rs[0]) + RepliesText(rs[1..])
  }

  /** What a client is told: the reply, with line breaks in line replies gone. */
  function Seen(r: Reply): Reply
    decreases r, 0
  {
    match r
    case Simple(s) => Simple(Safe(s))
    case Error(s) => Error(Safe(s))
    case Array(items) => Array(SeenAll(items))
    case _ => r
  }

  function SeenAll(rs: seq<Reply>): (t: seq<Reply>)
    ensures |t| == |rs|
    decreases rs, 1
  {
    if rs == [] then [] else [Seen(rs[0])] + SeenAll(rs[1..])
  }

  // ---- reading replies -------------------------------------------------------------------

  datatype Reading<+T> = ReadAs(value: T, used: nat) | NotAReply

  function Integer(s: Bytes): Option<int> {
    var digits := if s != [] && s[0] == MINUS then s[1..] else s;
    if digits == [] || !AllDigits(digits) then None
    else if s[0] == MINUS then Some(-Value(digits)) else Some(Value(digits))
  }

  /** A line up to its CRLF, which must be the first line feed. */
  function ReadLine(s: Bytes): Reading<Bytes> {
    var i := FindLF(s);
    if i < |s| && i >= 1 && s[i - 1] == CR then ReadAs(s[..i - 1], i + 1) else NotAReply
  }

  function ReadReply(s: Bytes): Reading<Reply>
    decreases |s|, 0
  {
    match ReadLine(s)
    case NotAReply => NotAReply
    case ReadAs(line, n) =>
      if line == [] || n > |s| then NotAReply
      else if line[0] == PLUS then ReadAs(Simple(line[1..]), n)
      else if line[0] == MINUS then ReadAs(Error(line[1..]), n)
      else
        match Integer(line[1..])
        case None => NotAReply
        case Some(k) =>
          if line[0] == COLON then ReadAs(Int(k), n)
          else if line[0] == DOLLAR then
            if k == -1 then ReadAs(NullBulk, n)
            else if 0 <= k && n + k + 2 <= |s| && s[n + k..n + k + 2] == CRLF then ReadAs(Bulk(s[n..n + k]), n + k + 2)
            else NotAReply
          else if line[0] == STAR && k >= 0 && n > 0 then
            match ReadReplies(s[n..], k)
            case NotAReply => NotAReply
            case ReadAs(items, m) => ReadAs(Array(items), n + m)
          else NotAReply
  }

  function ReadReplies(s: Bytes, count: nat): Reading<seq<Reply>>
    decreases |s|, 1, count
  {
    if count == 0 then ReadAs([], 0)
    else
      match ReadReply(s)
      case NotAReply => NotAReply
      case ReadAs(r, n) =>
        if n == 0 || n > |s| then NotAReply
        else
          match ReadReplies(s[n..], count - 1)
          case NotAReply => NotAReply
          case ReadAs(rs, m) => ReadAs([r] + rs, n + m)
  }

  // ---- the text decides the reply ------------------------------------------------------------

  lemma LineOf(line: Bytes, rest: Bytes)
    requires forall i :: 0 <= i < |line| ==> line[i] != LF
    ensures ReadLine(line + CRLF + rest) == ReadAs(line, |line| + 2)
  {
    var s := line + CRLF + rest;
    assert forall i :: 0 <= i < |line| ==> s[i] == line[i];
    FindLFUnique(s, |line| + 1);
    assert s[..|line|] == line;
  }

  lemma FormatIntReads(n: int)
    ensures Integer(FormatInt(n)) == Some(n)
    ensures forall i :: 0 <= i < |FormatInt(n)| ==> FormatInt(n)[i] != LF
  {
    var m := if n < 0 then -n else n;
    DigitsValue(m);
    var d := Digits(m);
    assert forall i :: 0 <= i < |d| ==> IsDigit(d[i]);
    if n < 0 { assert FormatInt(n)[1..] == d; }
  }

  lemma TaggedNumber(tag: Byte, n: int, rest: Bytes)
    requires tag != LF
    ensures ReadLine([tag] + FormatInt(n) + CRLF + rest) == ReadAs([tag] + FormatInt(n), |FormatInt(n)| + 3)
    ensures ([tag] + FormatInt(n))[1..] == FormatInt(n)
  {
    FormatIntReads(n);
    var line := [tag] + FormatInt(n);
    assert forall i :: 1 <= i < |line| ==> line[i] == FormatInt(n)[i - 1];
    LineOf(line, rest);
  }

  lemma LineReplyReads(tag: Byte, text: Bytes, rest: Bytes)
    requires tag == PLUS || tag == MINUS
    ensures ReadReply([tag] + Safe(text) + CRLF + rest) ==
            ReadAs(if tag == PLUS then Simple(Safe(text)) else Error(Safe(text)), |text| + 3)
  {
    hide ReadLine;
    hide Safe;
    hide Integer;
    var line := [tag] + Safe(text);
    assert forall i :: 1 <= i < |line| ==> line[i] == Safe(text)[i - 1];
    LineOf(line, rest);
    assert line[1..] == Safe(text);
  }

  lemma IntReplyReads(n: int, rest: Bytes)
    ensures ReadReply([COLON] + FormatInt(n) + CRLF + rest) == ReadAs(Int(n), |FormatInt(n)| + 3)
  {
    TaggedNumber(COLON, n, rest);
    FormatIntReads(n);
    hide ReadLine;
    hide FormatInt;
    hide Integer;
  }

  lemma BulkReplyReads(body: Bytes, rest: Bytes)
    ensures ReadReply(BulkText(body) + rest) == ReadAs(Bulk(body), |BulkText(body)|)
  {
    hide ReadLine;
    hide Integer;
    hide Digits;
    var s, n := BulkText(body) + rest, |Digits(|body|)| + 3;
    var tail := body + CRLF + rest;
    assert s == [DOLLAR] + FormatInt(|body|) + CRLF + tail;
    TaggedNumber(DOLLAR, |body|, tail);
    FormatIntReads(|body|);
    assert s[n..] == tail;
    assert s[n..n + |body|] == tail[..|body|] == body;
    assert s[n + |body|..n + |body| + 2] == tail[|body|..|body| + 2] == CRLF;
  }

  lemma NullReplyReads(rest: Bytes)
    ensures ReadReply([DOLLAR, MINUS, 49] + CRLF + rest) == ReadAs(NullBulk, 5)
  {
    var line: Bytes := [DOLLAR, MINUS, 49];
    LineOf(line, rest);
    hide ReadLine;
    assert line[1..] == [MINUS, 49] && [MINUS, 49][1..] == [49];
    assert Value([49]) == Value([49][..0]) * 10 + 1;
  }

  /** Any reply, nested arrays included: its text followed by anything is read
      back as that reply, using exactly the text. */
  lemma {:induction false} ReplyReads(r: Reply, rest: Bytes)
    ensures ReadReply(ReplyText(r) + rest) == ReadAs(Seen(r), |ReplyText(r)|)
    ensures |ReplyText(r)| > 0
    decreases r, 0
  {
    hide ReadReply;
    hide ReadReplies;
    hide FormatInt;
    hide Digits;
    match r
    case Simple(s) => LineReplyReads(PLUS, s, rest);
    case Error(s) => LineReplyReads(MINUS, s, rest);
    case Int(n) => IntReplyReads(n, rest);
    case Bulk(s) => BulkReplyReads(s, rest);
    case NullBulk => NullReplyReads(rest);
    case Array(items) =>
      RepliesRead(items, rest);
      ArrayReads(|items|, RepliesText(items) + rest, SeenAll(items), |RepliesText(items)|);
      assert ReplyText(r) + rest == [STAR] + FormatInt(|items|) + CRLF + (RepliesText(items) + rest);
  }

  lemma ArrayReads(count: nat, body: Bytes, items: seq<Reply>, used: nat)
    requires ReadReplies(body, count) == ReadAs(items, used)
    ensures ReadReply([STAR] + FormatInt(count) + CRLF + body) == ReadAs(Array(items), |FormatInt(count)| + 3 + used)
  {
    hide ReadLine;
    hide FormatInt;
    hide Integer;
    hide ReadReplies;
    var s, n := [STAR] + FormatInt(count) + CRLF + body, |FormatInt(count)| + 3;
    TaggedNumber(STAR, count, body);
    FormatIntReads(count);
    assert s[n..] == body;
  }

  lemma RepliesStep(first: Bytes, tail: Bytes, r: Reply, count: nat, rs: seq<Reply>, m: nat)
    requires |first| > 0 && ReadReply(first + tail) == ReadAs(r, |first|)
    requires ReadReplies(tail, count) == ReadAs(rs, m)
    ensures ReadReplies(first + tail, count + 1) == ReadAs([r] + rs, |first| + m)
  {
    hide ReadReply;
    assert (first + tail)[|first|..] == tail;
  }

  /** A stream of replies is read back reply by reply: the bytes decide what each
      of them says and where it ends. */
  lemma {:induction false} RepliesRead(rs: seq<Reply>, rest: Bytes)
    ensures ReadReplies(RepliesText(rs) + rest, |rs|) == ReadAs(SeenAll(rs), |RepliesText(rs)|)
    decreases rs, 1
  {
    hide ReadReply;
    hide ReplyText;
    hide Seen;
    if rs == [] {
      NoReplies(RepliesText(rs) + rest);
    } else {
      hide ReadReplies;
      var first, tail := ReplyText(rs[0]), RepliesText(rs[1..]) + rest;
      ReplyReads(rs[0], tail);
      RepliesRead(rs[1..], rest);
      assert RepliesText(rs) + rest == first + tail;
      RepliesStep(first, tail, Seen(rs[0]), |rs| - 1, SeenAll(rs[1..]), |RepliesText(rs[1..])|);
    }
  }

  lemma NoReplies(s: Bytes)
    ensures ReadReplies(s, 0) == ReadAs([], 0)
  {
  }

  /** No reply's text is the beginning of another's. */
  lemma ReplyPrefixFree(a: Reply, b: Reply)
    requires ReplyText(a) <= ReplyText(b)
    ensures Seen(a) == Seen(b)
  {
    hide ReadReply;
    hide ReplyText;
    hide Seen;
    var x, y := ReplyText(a), ReplyText(b);
    ReplyReads(a, y[|x|..]);
    ReplyReads(b, []);
    assert x + y[|x|..] == y == y + [];
  }

  lemma {:induction false} RepliesTextAppend(rs: seq<Reply>, last: Reply)
    ensures RepliesText(rs + [last]) == RepliesText(rs) + ReplyText(last)
  {
    hide ReplyText;
    if rs == [] {
      assert rs + [last] == [last] && [last][1..] == [];
      assert RepliesText([last]) == ReplyText(last) + RepliesText([]);
    } else {
      assert (rs + [last])[1..] == rs[1..] + [last];
      RepliesTextAppend(rs[1..], last);
    }
  }
}
