/** The formats themselves, byte by byte: request and reply frames are one
    language, a record is a request, and what the decoder makes of lines and
    payloads that do not end as they must. */
module Wire {
  import opened Bytes
  import opened Decimal
  import opened Resp
  import opened Replies
  import opened Aof

  // ---- requests and replies -----------------------------------------------------------

  function Wrapped(args: seq<Bytes>): seq<Reply> {
    if args == [] then [] else [Reply.Bulk(args[0])] + Wrapped(args[1..])
  }

  /** A request is written exactly as the array of its arguments would be as a
      reply, so either side reads the other's frames. */
  lemma RequestIsReply(args: seq<Bytes>)
    ensures CommandText(args) == ReplyText(Array(Wrapped(args)))
    ensures |Wrapped(args)| == |args|
  {
    WrappedText(args);
    hide BulksText;
    hide RepliesText;
  }

  lemma {:induction false} WrappedText(args: seq<Bytes>)
    ensures RepliesText(Wrapped(args)) == BulksText(args) && |Wrapped(args)| == |args|
  {
    hide BulkText;
    if args != [] {
      WrappedText(args[1..]);
      assert Wrapped(args)[1..] == Wrapped(args[1..]);
    }
  }

  /** The first byte names the kind: '+', '-', ':', '$' and '*'. Every reply ends in
      CR LF; a null is "$-1". */
  lemma ReplyTags(r: Reply)
    ensures ReplyText(r) != []
    ensures ReplyText(r)[0] == match r
                               case Simple(_) => 43
                               case Error(_) => 45
                               case Int(_) => 58
                               case Bulk(_) => 36
                               case NullBulk => 36
                               case Array(_) => 42
    ensures ReplyText(NullBulk) == [36, 45, 49, 13, 10]
    ensures !r.Array? ==> |ReplyText(r)| >= 2 && ReplyText(r)[|ReplyText(r)| - 2..] == [13, 10]
  {
    hide Safe;
    hide FormatInt;
    hide Digits;
  }

  /** A record on the disk: SET key value, SET key value PXAT milliseconds, or DEL
      and the keys, as a request. */
  lemma RecordWire(k: Bytes, v: Bytes, ms: int, keys: seq<Bytes>)
    ensures RecordText(Set(k, v, None)) == CommandText([[83, 69, 84], k, v])
    ensures RecordText(Set(k, v, Some(ms))) == CommandText([[83, 69, 84], k, v, [80, 88, 65, 84], FormatInt(ms)])
    ensures RecordText(Del(keys)) == CommandText([[68, 69, 76]] + keys)
    ensures HEADER == [71, 79, 75, 86, 65, 79, 70, 0, 0, 0, 0, 1, 0, 0, 0, 0]
  {
    hide CommandText;
    hide FormatInt;
  }

  // ---- lines and payloads --------------------------------------------------------------------

  /** A line is what comes before CR LF, if both are within the buffer. */
  lemma LineExact(t: Bytes, rest: Bytes)
    requires forall i :: 0 <= i < |t| ==> t[i] != LF
    ensures Line(t + [CR, LF] + rest) == if |t| + 1 < 4096 then Got(t, |t| + 2) else Bad(LineTooLong)
  {
    var s := t + [CR, LF] + rest;
    assert forall i :: 0 <= i < |t| ==> s[i] == t[i];
    FindLFUnique(s, |t| + 1);
    assert s[..|t|] == t;
  }

  /** A line feed without its carriage return is an error, and so is a line that
      fills the buffer; a shorter one that just ends is torn, or nothing at all. */
  lemma LineFaults(t: Bytes, rest: Bytes)
    requires forall i :: 0 <= i < |t| ==> t[i] != LF
    ensures (t == [] || t[|t| - 1] != CR) ==>
              Line(t + [LF] + rest) == if |t| < 4096 then Bad(LineNotTerminated) else Bad(LineTooLong)
    ensures Line(t) == if |t| >= 4096 then Bad(LineTooLong) else if t == [] then Ended else Cut
  {
    var s := t + [LF] + rest;
    assert forall i :: 0 <= i < |t| ==> s[i] == t[i];
    FindLFUnique(s, |t|);
    FindLFUnique(t, |t|);
  }

  /** A payload of the declared length must be followed by CR LF. */
  lemma PayloadEnds(b: Bytes, x: Byte, y: Byte, held: nat, lim: Resp.Limits, rest: Bytes)
    requires BulkFits(b, held, lim)
    ensures Resp.Bulk([DOLLAR] + Digits(|b|) + CRLF + (b + [x, y] + rest), held, lim) ==
            if x == CR && y == LF then Got(b, |Digits(|b|)| + |b| + 5) else Bad(BulkNotTerminated)
  {
    hide BulkLength;
    hide BulkFits;
    hide Digits;
    var tail, n := b + [x, y] + rest, |Digits(|b|)| + 3;
    var s := [DOLLAR] + Digits(|b|) + CRLF + tail;
    BulkLengthExact(b, held, lim, tail);
    assert s[n..] == tail;
    assert s[n..n + |b|] == tail[..|b|] == b;
    assert s[n + |b|] == tail[|b|] == x && s[n + |b| + 1] == tail[|b| + 1] == y;
  }

  /** Lengths may have leading zeros and a sign; the counts that are then zero or
      negative are refused by the frame, not by the parser. */
  lemma LengthForms(s: Bytes, n: int)
    requires 0 <= n <= LENGTH_LIMIT
    ensures ParseLength([MINUS] + Digits(n)) == Some(-n)
    ensures ParseLength([]) == None && ParseLength([MINUS]) == None
    ensures s != [] && s[0] != MINUS ==> ParseLength([ZERO] + s) == ParseLength(s)
  {
    hide Digits;
    hide Value;
    hide AllDigits;
    NegativeLength(n);
    NoLength();
    if s != [] && s[0] != MINUS { LeadingZero(s); }
  }

  lemma NegativeLength(n: int)
    requires 0 <= n <= LENGTH_LIMIT
    ensures ParseLength([MINUS] + Digits(n)) == Some(-n)
  {
    DigitsValue(n);
    assert ([MINUS] + Digits(n))[1..] == Digits(n);
  }

  lemma NoLength()
    ensures ParseLength([]) == None && ParseLength([MINUS]) == None
  {
  }

  lemma NegativeText(n: int, tag: Byte)
    requires 0 < n <= LENGTH_LIMIT && tag != LF
    ensures var line := [tag] + ([MINUS] + Digits(n));
            && 2 <= |line| <= 12 && line[0] == tag && line[1..] == [MINUS] + Digits(n)
            && (forall i :: 0 <= i < |line| ==> line[i] != LF)
            && ParseLength(line[1..]) == Some(-n)
  {
    hide Digits;
    hide Value;
    hide ParseLength;
    var d := Digits(n);
    DigitsValue(n);
    SmallNumber(n);
    NegativeLength(n);
    var line := [tag] + ([MINUS] + d);
    assert forall i :: 2 <= i < |line| ==> line[i] == d[i - 2] && IsDigit(d[i - 2]);
    assert line[1..] == [MINUS] + d;
  }

  /** A negative count of arguments or of bytes is malformed. */
  lemma NegativeRefused(n: int, held: nat, lim: Resp.Limits, rest: Bytes)
    requires 0 < n <= LENGTH_LIMIT
    ensures Header([STAR] + ([MINUS] + Digits(n)) + [CR, LF] + rest, lim) == Bad(BadArrayLength)
    ensures BulkLength([DOLLAR] + ([MINUS] + Digits(n)) + [CR, LF] + rest, held, lim) == Bad(BadBulkLength)
  {
    hide Digits;
    hide ParseLength;
    hide Line;
    NegativeText(n, STAR);
    NegativeText(n, DOLLAR);
    LineExact([STAR] + ([MINUS] + Digits(n)), rest);
    LineExact([DOLLAR] + ([MINUS] + Digits(n)), rest);
  }

  /** In a line reply CR and LF, and nothing else, are replaced, by spaces. */
  lemma SafeExact(s: Bytes, i: nat)
    requires i < |s|
    ensures |Safe(s)| == |s| && Safe(s)[i] == if s[i] == 13 || s[i] == 10 then 32 else s[i]
  {
    hide Safe;
  }

  lemma {:induction false} LeadingZero(s: Bytes)
    ensures AllDigits([ZERO] + s) <==> AllDigits(s)
    ensures AllDigits(s) ==> Value([ZERO] + s) == Value(s)
  {
    var z := [ZERO] + s;
    assert forall i :: 0 <= i < |s| ==> z[i + 1] == s[i];
    if s == [] {
      assert z[..0] == [];
    } else {
      LeadingZero(s[..|s| - 1]);
      assert z[..|z| - 1] == [ZERO] + s[..|s| - 1];
    }
  }
}
