/** RESP2 request frames: arrays of bulk strings, as text and as the decoder
    reads them (internal/resp/reader.go, internal/resp/writer.go).

    Reading is specified on the bytes that remain in a stream. The four answers
    are the decoder's error classes: a value, a clean end between frames, a
    frame that ran out of bytes, and a frame that is malformed. */
module Resp {
  import opened Bytes
  import opened Decimal

  datatype Limits = Limits(maxArrayElements: int, maxBulkLength: int, maxCommandBytes: int)

  const DEFAULT_LIMITS: Limits := Limits(1024, 0x400_0000, 0x800_0000)

  /** The size of the buffered reader: a header line must fit in it. */
  const LINE_BUFFER: nat := 4096

  datatype Fault =
    | LineTooLong | LineNotTerminated
    | ExpectedStar | BadArrayLength | ArrayTooLong
    | ExpectedDollar | BadBulkLength | BulkTooLong | CommandTooLong | BulkNotTerminated

  datatype Parsed<+T> = Got(value: T, used: nat) | Ended | Cut | Bad(fault: Fault)

  // ---- reading ----------------------------------------------------------------

  /** The position of the first line feed, or the length when there is none. */
  function FindLF(s: Bytes): (i: nat)
    ensures i <= |s|
    ensures i < |s| ==> s[i] == LF
    ensures forall j :: 0 <= j < i ==> s[j] != LF
  {
    if s == [] || s[0] == LF then 0 else 1 + FindLF(s[1..])
  }

  lemma FindLFUnique(s: Bytes, i: nat)
    requires i <= |s| && (i < |s| ==> s[i] == LF)
    requires forall j :: 0 <= j < i ==> s[j] != LF
    ensures FindLF(s) == i
  {
    var k := FindLF(s);
    if i < FindLF(s) { assert false; }
  }

  function Line(s: Bytes): Parsed<Bytes> {
    var i := FindLF(s);
    if i < |s| && i < LINE_BUFFER then
      if i >= 1 && s[i - 1] == CR then Got(s[..i - 1], i + 1) else Bad(LineNotTerminated)
    else if |s| >= LINE_BUFFER then Bad(LineTooLong)
    else if s == [] then Ended
    else Cut
  }

  /** The length declared by a bulk string's header line, once the limits allow
      it after held argument bytes of the same frame. */
  function BulkLength(s: Bytes, held: nat, lim: Limits): Parsed<nat> {
    match Line(s)
    case Ended => Cut
    case Cut => Cut
    case Bad(f) => Bad(f)
    case Got(line, n) =>
      if line == [] || line[0] != DOLLAR then Bad(ExpectedDollar)
      else
        var length := ParseLength(line[1..]);
        if length == None || length.value < 0 then Bad(BadBulkLength)
        else if length.value > lim.maxBulkLength then Bad(BulkTooLong)
        else if lim.maxCommandBytes > 0 && length.value > lim.maxCommandBytes - held then Bad(CommandTooLong)
        else Got(length.value, n)
  }

  /** One bulk string: its payload and the CRLF after it. */
  function Bulk(s: Bytes, held: nat, lim: Limits): Parsed<Bytes> {
    match BulkLength(s, held, lim)
    case Ended => Cut
    case Cut => Cut
    case Bad(f) => Bad(f)
    case Got(ln, n) =>
      if |s| < n + ln + 2 then Cut
      else if s[n + ln] != CR || s[n + ln + 1] != LF then Bad(BulkNotTerminated)
      else Got(s[n..n + ln], n + ln + 2)
  }

  function Bulks(s: Bytes, count: nat, held: nat, lim: Limits): Parsed<seq<Bytes>>
    decreases count
  {
    if count == 0 then Got([], 0)
    else
      match Bulk(s, held, lim)
      case Ended => Cut
      case Cut => Cut
      case Bad(f) => Bad(f)
      case Got(b, n) =>
        if n > |s| then Cut else
        match Bulks(s[n..], count - 1, held + |b|, lim)
        case Ended => Cut
        case Cut => Cut
        case Bad(f) => Bad(f)
        case Got(bs, m) => Got([b] + bs, n + m)
  }

  /** The element count declared by a frame's header line. */
  function Header(s: Bytes, lim: Limits): Parsed<nat> {
    match Line(s)
    case Ended => Ended
    case Cut => Cut
    case Bad(f) => Bad(f)
    case Got(line, n) =>
      if line == [] || line[0] != STAR then Bad(ExpectedStar)
      else
        var count := ParseLength(line[1..]);
        if count == None || count.value <= 0 then Bad(BadArrayLength)
        else if count.value > lim.maxArrayElements then Bad(ArrayTooLong)
        else Got(count.value, n)
  }

  /** What ReadCommand makes of the bytes that remain. */
  function Command(s: Bytes, lim: Limits): Parsed<seq<Bytes>> {
    match Header(s, lim)
    case Ended => Ended
    case Cut => Cut
    case Bad(f) => Bad(f)
    case Got(count, n) =>
      if n > |s| then Cut else
      match Bulks(s[n..], count, 0, lim)
      case Ended => Cut
      case Cut => Cut
      case Bad(f) => Bad(f)
      case Got(args, m) => Got(args, n + m)
  }

  // ---- a decided frame stays decided, and a frame's prefixes are only torn -------

  lemma LineStable(s: Bytes, more: Bytes)
    requires Line(s).Got? || Line(s).Bad?
    ensures Line(s + more) == Line(s)
    ensures Line(s).Got? ==> 2 <= Line(s).used <= |s|
  {
    var i, t := FindLF(s), s + more;
    if i < |s| {
      assert forall j :: 0 <= j <= i ==> t[j] == s[j];
      FindLFUnique(t, i);
      if i >= 1 { assert t[..i - 1] == s[..i - 1]; }
    } else {
      assert forall j :: 0 <= j < |s| ==> t[j] == s[j];
    }
  }

  lemma LinePrefix(s: Bytes, k: nat)
    requires Line(s).Got? && k < Line(s).used
    ensures k <= |s| && Line(s[..k]) == if k == 0 then Ended else Cut
  {
    assert forall j :: 0 <= j < k ==> s[..k][j] == s[j];
    FindLFUnique(s[..k], k);
  }

  lemma BulkStable(s: Bytes, held: nat, lim: Limits, more: Bytes)
    requires Bulk(s, held, lim).Got? || Bulk(s, held, lim).Bad?
    ensures Bulk(s + more, held, lim) == Bulk(s, held, lim)
    ensures Bulk(s, held, lim).Got? ==> 2 <= Bulk(s, held, lim).used <= |s|
  {
    hide BulkLength;
    BulkLengthStable(s, held, lim, more);
    if Bulk(s, held, lim).Got? {
      var n, end := BulkLength(s, held, lim).used, Bulk(s, held, lim).used - 2;
      assert (s + more)[n..end] == s[n..end];
    }
  }

  lemma BulkLengthStable(s: Bytes, held: nat, lim: Limits, more: Bytes)
    requires BulkLength(s, held, lim).Got? || BulkLength(s, held, lim).Bad?
    ensures BulkLength(s + more, held, lim) == BulkLength(s, held, lim)
    ensures BulkLength(s, held, lim).Got? ==> 2 <= BulkLength(s, held, lim).used <= |s|
  {
    LineStable(s, more);
    hide Line;
    hide ParseLength;
  }

  lemma BulkPrefix(s: Bytes, held: nat, lim: Limits, k: nat)
    requires Bulk(s, held, lim).Got? && k < Bulk(s, held, lim).used <= |s|
    ensures Bulk(s[..k], held, lim) == Cut
  {
    var n := Line(s).used;
    if k < n {
      LinePrefix(s, k);
    } else {
      LineStable(s, []);
      assert s + [] == s;
      LineTaken(s, k);
    }
  }

  /** A line lies within any prefix that reaches past it. */
  lemma LineTaken(s: Bytes, k: nat)
    requires Line(s).Got? && Line(s).used <= k <= |s|
    ensures Line(s[..k]) == Line(s)
  {
    var i := FindLF(s);
    assert forall j :: 0 <= j < k ==> s[..k][j] == s[j];
    FindLFUnique(s[..k], i);
    assert s[..k][..i - 1] == s[..i - 1];
  }

  lemma {:induction false} BulksStable(s: Bytes, count: nat, held: nat, lim: Limits, more: Bytes)
    requires Bulks(s, count, held, lim).Got? || Bulks(s, count, held, lim).Bad?
    ensures Bulks(s + more, count, held, lim) == Bulks(s, count, held, lim)
    ensures Bulks(s, count, held, lim).Got? ==> Bulks(s, count, held, lim).used <= |s|
    decreases count
  {
    hide Bulk;
    if count > 0 {
      BulkStable(s, held, lim, more);
      if Bulk(s, held, lim).Got? {
        var b, n := Bulk(s, held, lim).value, Bulk(s, held, lim).used;
        assert (s + more)[n..] == s[n..] + more;
        BulksStable(s[n..], count - 1, held + |b|, lim, more);
      }
    }
  }

  lemma {:induction false} BulksPrefix(s: Bytes, count: nat, held: nat, lim: Limits, k: nat)
    requires Bulks(s, count, held, lim).Got? && k < Bulks(s, count, held, lim).used <= |s|
    ensures Bulks(s[..k], count, held, lim) == Cut
    decreases count
  {
    hide Bulk;
    var b, n := Bulk(s, held, lim).value, Bulk(s, held, lim).used;
    if k < n {
      BulkPrefix(s, held, lim, k);
    } else {
      BulkTaken(s, held, lim, k);
      assert s[..k][n..] == s[n..][..k - n];
      BulksStable(s[n..], count - 1, held + |b|, lim, []);
      BulksPrefix(s[n..], count - 1, held + |b|, lim, k - n);
    }
  }

  lemma BulkTaken(s: Bytes, held: nat, lim: Limits, k: nat)
    requires Bulk(s, held, lim).Got? && Bulk(s, held, lim).used <= k <= |s|
    ensures Bulk(s[..k], held, lim) == Bulk(s, held, lim)
  {
    LineTaken(s, k);
    var n, end := Line(s).used, Bulk(s, held, lim).used - 2;
    assert s[..k][n..end] == s[n..end];
  }

  lemma HeaderStable(s: Bytes, lim: Limits, more: Bytes)
    requires Header(s, lim).Got? || Header(s, lim).Bad?
    ensures Header(s + more, lim) == Header(s, lim)
    ensures Header(s, lim).Got? ==> 2 <= Header(s, lim).used <= |s|
  {
    LineStable(s, more);
  }

  lemma HeaderPrefix(s: Bytes, lim: Limits, k: nat)
    requires Header(s, lim).Got? && k <= |s|
    ensures Header(s[..k], lim) ==
            if k >= Header(s, lim).used then Header(s, lim) else if k == 0 then Ended else Cut
  {
    if k < Header(s, lim).used { LinePrefix(s, k); } else { LineTaken(s, k); }
  }

  /** Once a frame is complete, or found malformed, later bytes change nothing. */
  lemma CommandStable(s: Bytes, lim: Limits, more: Bytes)
    requires Command(s, lim).Got? || Command(s, lim).Bad?
    ensures Command(s + more, lim) == Command(s, lim)
    ensures Command(s, lim).Got? ==> 2 <= Command(s, lim).used <= |s|
  {
    hide Header;
    hide Bulks;
    HeaderStable(s, lim, more);
    if Header(s, lim).Got? {
      var count, n := Header(s, lim).value, Header(s, lim).used;
      assert (s + more)[n..] == s[n..] + more;
      BulksStable(s[n..], count, 0, lim, more);
    }
  }

  /** No prefix of a complete frame is malformed: it is empty or it is torn. */
  lemma CommandPrefix(s: Bytes, lim: Limits, k: nat)
    requires Command(s, lim).Got? && k < Command(s, lim).used
    ensures k <= |s| && Command(s[..k], lim) == if k == 0 then Ended else Cut
  {
    CommandStable(s, lim, []);
    hide Bulks;
    HeaderStable(s, lim, []);
    HeaderPrefix(s, lim, k);
    hide Header;
    var count, n := Header(s, lim).value, Header(s, lim).used;
    if k >= n {
      assert s[..k][n..] == s[n..][..k - n];
      BulksStable(s[n..], count, 0, lim, []);
      BulksPrefix(s[n..], count, 0, lim, k - n);
    }
  }

  // ---- writing ------------------------------------------------------------------

  function BulkText(b: Bytes): Bytes {
    [DOLLAR] + Digits(|b|) + CRLF + b + CRLF
  }

  function BulksText(args: seq<Bytes>): Bytes {
    if args == [] then [] else BulkText(args[0]) + BulksText(args[1..])
  }

  function CommandText(args: seq<Bytes>): Bytes {
    [STAR] + Digits(|args|) + CRLF + BulksText(args)
  }

  predicate BulkFits(b: Bytes, held: nat, lim: Limits) {
    && |b| <= LENGTH_LIMIT
    && |b| <= lim.maxBulkLength
    && (lim.maxCommandBytes > 0 ==> |b| <= lim.maxCommandBytes - held)
  }

  predicate BulksFit(args: seq<Bytes>, held: nat, lim: Limits) {
    args == [] || (BulkFits(args[0], held, lim) && BulksFit(args[1..], held + |args[0]|, lim))
  }

  /** What the limits let through, as a condition on the arguments alone. */
  predicate CommandFits(args: seq<Bytes>, lim: Limits) {
    && 1 <= |args| <= LENGTH_LIMIT
    && |args| <= lim.maxArrayElements
    && BulksFit(args, 0, lim)
  }

  lemma LineOfNumber(tag: Byte, n: nat, rest: Bytes)
    requires tag != LF
    ensures var s := [tag] + Digits(n) + CRLF + rest;
            if |Digits(n)| + 2 < LINE_BUFFER then Line(s) == Got([tag] + Digits(n), |Digits(n)| + 3)
            else Line(s) == Bad(LineTooLong)
  {
    var s, d := [tag] + Digits(n) + CRLF + rest, Digits(n);
    forall j | 0 <= j < |d| + 2
      ensures s[j] != LF
    {
      if 1 <= j <= |d| { assert s[j] == d[j - 1] && IsDigit(d[j - 1]); }
    }
    FindLFUnique(s, |d| + 2);
    assert s[..|d| + 1] == [tag] + d;
  }

  lemma SmallNumber(n: nat)
    requires n <= LENGTH_LIMIT
    ensures |Digits(n)| <= 10
  {
    assert Pow10(4) == 10_000;
    assert Pow10(8) == 100_000_000;
    assert Pow10(10) == 10_000_000_000;
    DigitsLength(n, 10);
  }

  lemma BulkLengthExact(b: Bytes, held: nat, lim: Limits, rest: Bytes)
    ensures var r := BulkLength([DOLLAR] + Digits(|b|) + CRLF + rest, held, lim);
            if BulkFits(b, held, lim) then r == Got(|b|, |Digits(|b|)| + 3) else r.Bad?
  {
    LineOfNumber(DOLLAR, |b|, rest);
    ParseLengthOfDigits(|b|);
    assert ([DOLLAR] + Digits(|b|))[1..] == Digits(|b|);
    if BulkFits(b, held, lim) { SmallNumber(|b|); }
  }

  lemma BulkExact(b: Bytes, held: nat, lim: Limits, rest: Bytes)
    ensures var r := Bulk(BulkText(b) + rest, held, lim);
            if BulkFits(b, held, lim) then r == Got(b, |BulkText(b)|) else r.Bad?
  {
    hide BulkLength;
    hide BulkFits;
    var s, n := BulkText(b) + rest, |Digits(|b|)| + 3;
    assert s == [DOLLAR] + Digits(|b|) + CRLF + (b + CRLF + rest);
    BulkLengthExact(b, held, lim, b + CRLF + rest);
    assert s[n..] == b + CRLF + rest;
    assert s[n..n + |b|] == s[n..][..|b|] == b;
    assert s[n + |b|] == s[n..][|b|] && s[n + |b| + 1] == s[n..][|b| + 1];
  }

  lemma {:induction false} BulksExact(args: seq<Bytes>, held: nat, lim: Limits, rest: Bytes)
    ensures var r := Bulks(BulksText(args) + rest, |args|, held, lim);
            if BulksFit(args, held, lim) then r == Got(args, |BulksText(args)|) else r.Bad?
  {
    hide Bulk;
    hide Bulks;
    hide BulkText;
    hide BulksText;
    hide BulkFits;
    if args == [] {
      NoBulksExact(rest, held, lim);
    } else {
      var first, tail := BulkText(args[0]), BulksText(args[1..]) + rest;
      BulksTextCons(args, rest);
      BulkExact(args[0], held, lim, tail);
      BulksCons(first, tail, |args|, held, lim);
      BulksExact(args[1..], held + |args[0]|, lim, rest);
      assert args == [args[0]] + args[1..];
    }
  }

  lemma NoBulksExact(rest: Bytes, held: nat, lim: Limits)
    ensures BulksText([]) == [] && Bulks([] + rest, 0, held, lim) == Got([], 0)
  {
  }

  lemma BulksTextCons(args: seq<Bytes>, rest: Bytes)
    requires args != []
    ensures BulksText(args) + rest == BulkText(args[0]) + (BulksText(args[1..]) + rest)
    ensures |BulksText(args)| == |BulkText(args[0])| + |BulksText(args[1..])|
  {
    hide BulkText;
  }

  /** Reading several arguments when the first is at hand, or is malformed. */
  lemma BulksCons(first: Bytes, tail: Bytes, count: nat, held: nat, lim: Limits)
    requires count > 0
    requires Bulk(first + tail, held, lim).Bad? || (Bulk(first + tail, held, lim).Got? && Bulk(first + tail, held, lim).used == |first|)
    ensures var p := Bulk(first + tail, held, lim);
            if p.Bad? then Bulks(first + tail, count, held, lim).Bad?
            else
              match Bulks(tail, count - 1, held + |p.value|, lim)
              case Got(bs, m) => Bulks(first + tail, count, held, lim) == Got([p.value] + bs, |first| + m)
              case Bad(f) => Bulks(first + tail, count, held, lim) == Bad(f)
              case _ => true
  {
    hide Bulk;
    assert (first + tail)[|first|..] == tail;
  }

  lemma HeaderExact(n: nat, lim: Limits, body: Bytes)
    ensures var r := Header([STAR] + Digits(n) + CRLF + body, lim);
            if 1 <= n <= LENGTH_LIMIT && n <= lim.maxArrayElements then r == Got(n, |Digits(n)| + 3) else r.Bad?
  {
    hide Line;
    LineOfNumber(STAR, n, body);
    ParseLengthOfDigits(n);
    assert ([STAR] + Digits(n))[1..] == Digits(n);
    if n <= LENGTH_LIMIT { SmallNumber(n); }
    hide Digits;
    hide ParseLength;
  }

  /** Reading back a written frame, for all arguments: the same arguments and
      exactly the frame's bytes when they fit the limits, malformed otherwise. */
  lemma CommandExact(args: seq<Bytes>, lim: Limits, rest: Bytes)
    ensures var r := Command(CommandText(args) + rest, lim);
            if CommandFits(args, lim) then r == Got(args, |CommandText(args)|) else r.Bad?
  {
    var s, body := CommandText(args) + rest, BulksText(args) + rest;
    assert s == [STAR] + Digits(|args|) + CRLF + body;
    hide Header;
    hide Bulks;
    hide BulksText;
    hide Digits;
    HeaderExact(|args|, lim, body);
    assert s[|Digits(|args|)| + 3..] == body;
    BulksExact(args, 0, lim, rest);
  }
}
