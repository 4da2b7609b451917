/** What patterns mean, said without their tokens: how a pattern falls apart into
    its first token and the rest, and which bytes each kind of token takes. */
module GlobLaws {
  import opened Bytes
  import opened Glob

  // ---- a token does not see what is before or after it -------------------------------------

  lemma {:induction false} ClassShift(front: Bytes, c: Bytes, i: nat)
    requires i <= |c|
    ensures ClassFrom(front + c, |front| + i) == Class(ClassFrom(c, i).items, |front| + ClassFrom(c, i).next)
    decreases |c| - i
  {
    var p, j := front + c, |front| + i;
    assert forall k :: 0 <= k < |c| ==> p[|front| + k] == c[k];
    if i < |c| && c[i] != CLOSE {
      var width :=
        if c[i] == BACKSLASH && i + 1 < |c| then 2 else
        if i + 2 < |c| && c[i + 1] == MINUS then 3 else 1;
      ClassShift(front, c, i + width);
    }
  }

  lemma {:induction false} ClassPrefix(p: Bytes, i: nat)
    requires i <= |p|
    ensures ClassFrom(p[..ClassFrom(p, i).next], i) == ClassFrom(p, i)
    decreases |p| - i
  {
    var n := ClassFrom(p, i).next;
    var q := p[..n];
    if i < |p| && p[i] != CLOSE {
      var width :=
        if p[i] == BACKSLASH && i + 1 < |p| then 2 else
        if i + 2 < |p| && p[i + 1] == MINUS then 3 else 1;
      ClassPrefix(p, i + width);
    }
  }

  lemma SuffixToken(p: Bytes, at: nat, b: Byte)
    requires at < |p|
    ensures Takes(p[at..], 0, b) == Takes(p, at, b) && at + After(p[at..], 0) == After(p, at)
  {
    var q := p[at..];
    assert p == p[..at] + q && Negated(q, 0) == Negated(p, at);
    if p[at] == OPEN {
      ClassShift(p[..at], q, if Negated(p, at) then 2 else 1);
      assert ClassAt(q, 0).items == ClassAt(p, at).items;
    }
  }

  lemma PrefixToken(p: Bytes, b: Byte)
    requires p != []
    ensures Takes(p[..After(p, 0)], 0, b) == Takes(p, 0, b) && After(p[..After(p, 0)], 0) == After(p, 0)
  {
    var q := p[..After(p, 0)];
    if p[0] == OPEN {
      assert Negated(q, 0) == Negated(p, 0);
      ClassPrefix(p, if Negated(p, 0) then 2 else 1);
      assert ClassAt(q, 0) == ClassAt(p, 0);
    }
  }

  /** Matching looks at the rest of both strings alone. */
  lemma {:induction false} MatchSame(p: Bytes, pi: nat, v: Bytes, vi: nat, q: Bytes, qi: nat, w: Bytes, wi: nat)
    requires pi <= |p| && vi <= |v| && qi <= |q| && wi <= |w| && p[pi..] == q[qi..] && v[vi..] == w[wi..]
    ensures MatchFrom(p, pi, v, vi) == MatchFrom(q, qi, w, wi)
    decreases |p| - pi, |v| - vi
  {
    hide Takes;
    hide After;
    if pi < |p| {
      assert p[pi] == p[pi..][0] == q[qi] && p[pi + 1..] == p[pi..][1..] == q[qi + 1..];
      if vi < |v| { assert v[vi] == v[vi..][0] == w[wi] && v[vi + 1..] == v[vi..][1..] == w[wi + 1..]; }
      if p[pi] == STAR {
        MatchSame(p, pi + 1, v, vi, q, qi + 1, w, wi);
        if vi < |v| { MatchSame(p, pi, v, vi + 1, q, qi, w, wi + 1); }
      } else if vi < |v| {
        SuffixToken(p, pi, v[vi]);
        SuffixToken(q, qi, v[vi]);
        var n := After(p[pi..], 0);
        assert p[pi + n..] == p[pi..][n..] == q[qi..][n..] == q[qi + n..];
        MatchSame(p, pi + n, v, vi + 1, q, qi + n, w, wi + 1);
      }
    }
  }

  // ---- how a pattern falls apart -------------------------------------------------------------

  lemma EmptyExact(v: Bytes)
    ensures Matches([], v) <==> v == []
  {
    MatchesIffMatchFrom([], v);
  }

  /** A star takes any number of bytes. */
  lemma StarExact(q: Bytes, v: Bytes)
    ensures Matches([STAR] + q, v) <==> exists k :: 0 <= k <= |v| && Matches(q, v[k..])
  {
    var p := [STAR] + q;
    MatchesIffMatchFrom(p, v);
    if MatchFrom(p, 0, v, 0) {
      var k := StarStops(p, v, 0);
      MatchSame(p, 1, v, k, q, 0, v[k..], 0);
      MatchesIffMatchFrom(q, v[k..]);
    }
    if k :| 0 <= k <= |v| && Matches(q, v[k..]) {
      MatchesIffMatchFrom(q, v[k..]);
      MatchSame(p, 1, v, k, q, 0, v[k..], 0);
      StarTakes(p, 0, v, 0, k);
    }
  }

  lemma {:induction false} StarStops(p: Bytes, v: Bytes, vi: nat) returns (k: nat)
    requires p != [] && p[0] == STAR && vi <= |v| && MatchFrom(p, 0, v, vi)
    ensures vi <= k <= |v| && MatchFrom(p, 1, v, k)
    decreases |v| - vi
  {
    if MatchFrom(p, 1, v, vi) { k := vi; } else { k := StarStops(p, v, vi + 1); }
  }

  /** Any other token takes one byte, as it would alone, and the rest of the pattern
      the rest of the value. */
  lemma TokenExact(p: Bytes, v: Bytes)
    requires p != [] && p[0] != STAR
    ensures Matches(p, v) <==>
            v != [] && Matches(p[..After(p, 0)], v[..1]) && Matches(p[After(p, 0)..], v[1..])
  {
    hide Takes;
    hide After;
    MatchesIffMatchFrom(p, v);
    if v != [] {
      var n := After(p, 0);
      PrefixToken(p, v[0]);
      OneToken(p[..n], v[..1]);
      MatchSame(p, n, v, 1, p[n..], 0, v[1..], 0);
      MatchesIffMatchFrom(p[n..], v[1..]);
    }
  }

  /** A pattern of one token. */
  lemma OneToken(p: Bytes, v: Bytes)
    requires p != [] && p[0] != STAR && After(p, 0) == |p|
    ensures Matches(p, v) <==> |v| == 1 && Takes(p, 0, v[0])
  {
    hide Takes;
    MatchesIffMatchFrom(p, v);
  }

  // ---- which bytes a token takes ---------------------------------------------------------------

  lemma QuestionExact(v: Bytes)
    ensures Matches([QUESTION], v) <==> |v| == 1
  {
    OneToken([QUESTION], v);
  }

  /** An escaped byte is itself, and so is a backslash with nothing after it. */
  lemma EscapeExact(x: Byte, v: Bytes)
    ensures Matches([BACKSLASH, x], v) <==> v == [x]
    ensures Matches([BACKSLASH], v) <==> v == [BACKSLASH]
  {
    OneToken([BACKSLASH, x], v);
    OneToken([BACKSLASH], v);
  }

  predicate Plain(b: Byte) {
    b != STAR && b != QUESTION && b != BACKSLASH && b != OPEN
  }

  /** A pattern of plain bytes matches itself alone. */
  lemma {:induction false} LiteralExact(p: Bytes, v: Bytes)
    requires forall i :: 0 <= i < |p| ==> Plain(p[i])
    ensures Matches(p, v) <==> v == p
  {
    if p == [] {
      EmptyExact(v);
    } else {
      TokenExact(p, v);
      OneToken(p[..1], v[..if v == [] then 0 else 1]);
      if v != [] {
        LiteralExact(p[1..], v[1..]);
        assert v == v[..1] + v[1..] && p == p[..1] + p[1..];
      }
    }
  }

  /** Every byte escaped. */
  function Quote(w: Bytes): Bytes {
    if w == [] then [] else [BACKSLASH, w[0]] + Quote(w[1..])
  }

  /** Any value at all has a pattern that matches it alone. */
  lemma {:induction false} QuoteExact(w: Bytes, v: Bytes)
    ensures Matches(Quote(w), v) <==> v == w
  {
    if w == [] {
      EmptyExact(v);
    } else {
      var p := Quote(w);
      TokenExact(p, v);
      if v != [] {
        assert p[..2] == [BACKSLASH, w[0]] && p[2..] == Quote(w[1..]);
        EscapeExact(w[0], v[..1]);
        QuoteExact(w[1..], v[1..]);
        assert v == v[..1] + v[1..] && w == [w[0]] + w[1..];
      }
    }
  }

  // ---- classes -----------------------------------------------------------------------------------

  /** Whether a class body, its bracket included or missing, is all one class. */
  predicate OneClass(body: Bytes) {
    ClassFrom(body, 0).next == |body|
  }

  /** Whether some item of a class body has a byte. */
  predicate Lists(body: Bytes, b: Byte) {
    exists i :: 0 <= i < |ClassFrom(body, 0).items| && Has(ClassFrom(body, 0).items[i], b)
  }

  lemma PlainClass(body: Bytes, b: Byte)
    requires OneClass(body) && (body == [] || body[0] != CARET)
    ensures var p := [OPEN] + body; After(p, 0) == |p| && (Takes(p, 0, b) <==> Lists(body, b))
  {
    hide ClassFrom;
    hide Has;
    var p := [OPEN] + body;
    ClassShift([OPEN], body, 0);
    assert !Negated(p, 0) && ClassAt(p, 0) == ClassFrom(p, 1);
  }

  lemma NegatedClass(body: Bytes, b: Byte)
    requires OneClass(body)
    ensures var p := [OPEN, CARET] + body; After(p, 0) == |p| && (Takes(p, 0, b) <==> !Lists(body, b))
  {
    hide ClassFrom;
    hide Has;
    var p := [OPEN, CARET] + body;
    ClassShift([OPEN, CARET], body, 0);
    assert Negated(p, 0) && ClassAt(p, 0) == ClassFrom(p, 2);
  }

  lemma ClassTakes(body: Bytes, b: Byte)
    requires OneClass(body) && (body == [] || body[0] != CARET)
    ensures Matches([OPEN] + body, [b]) <==> Lists(body, b)
    ensures Matches([OPEN, CARET] + body, [b]) <==> !Lists(body, b)
  {
    hide Takes;
    hide After;
    hide Matches;
    hide Lists;
    PlainClass(body, b);
    NegatedClass(body, b);
    OneToken([OPEN] + body, [b]);
    OneToken([OPEN, CARET] + body, [b]);
  }

  /** A caret turns a class into its complement. */
  lemma NegationComplements(body: Bytes, b: Byte)
    requires OneClass(body) && (body == [] || body[0] != CARET)
    ensures Matches([OPEN, CARET] + body, [b]) <==> !Matches([OPEN] + body, [b])
  {
    ClassTakes(body, b);
  }

  /** A body with no closing bracket in it, closed or not, is one class. */
  lemma {:induction false} UnbrokenBody(body: Bytes, i: nat)
    requires i <= |body| && forall j :: 0 <= j < |body| - 1 ==> body[j] != CLOSE
    ensures ClassFrom(body, i).next == |body|
    decreases |body| - i
  {
    if i < |body| && body[i] != CLOSE {
      var width :=
        if body[i] == BACKSLASH && i + 1 < |body| then 2 else
        if i + 2 < |body| && body[i + 1] == MINUS then 3 else 1;
      UnbrokenBody(body, i + width);
    }
  }

  /** Members listed one by one, in a class closed or not: exactly those, and with
      a caret exactly the others. */
  lemma ListedExact(members: Bytes, end: Bytes, b: Byte)
    requires forall i :: 0 <= i < |members| ==> members[i] != CLOSE && members[i] != BACKSLASH && members[i] != MINUS
    requires (members == [] || members[0] != CARET) && (end == [] || end == [CLOSE])
    ensures Matches([OPEN] + (members + end), [b]) <==> b in members
    ensures Matches([OPEN, CARET] + (members + end), [b]) <==> b !in members
  {
    var body := members + end;
    UnbrokenBody(body, 0);
    ListedItems(members, end, 0);
    ClassTakes(body, b);
    var items := ClassFrom(body, 0).items;
    if b in members {
      var i :| 0 <= i < |members| && members[i] == b;
      assert Has(items[i], b);
    }
  }

  lemma {:induction false} ListedItems(members: Bytes, end: Bytes, i: nat)
    requires forall i :: 0 <= i < |members| ==> members[i] != CLOSE && members[i] != BACKSLASH && members[i] != MINUS
    requires i <= |members| && (end == [] || end == [CLOSE])
    ensures var items := ClassFrom(members + end, i).items;
            |items| == |members| - i && forall k :: 0 <= k < |items| ==> items[k] == Single(members[i + k])
    decreases |members| - i
  {
    if i < |members| { ListedItems(members, end, i + 1); }
  }

  /** Where a byte stands among the bytes read as signed numbers. */
  function Rank(b: Byte): int {
    (b + 128) % 256
  }

  lemma RankOrder(x: Byte, y: Byte, b: Byte)
    ensures Has(Range(x, y), b) <==> Rank(x) <= Rank(b) <= Rank(y) || Rank(y) <= Rank(b) <= Rank(x)
  {
    hide Rank;
    hide Signed;
    RankSigned(x);
    RankSigned(y);
    RankSigned(b);
  }

  lemma RankSigned(b: Byte)
    ensures Rank(b) == Signed(b) + 128
  {
  }

  lemma RangeItems(x: Byte, y: Byte)
    requires x != CLOSE && x != BACKSLASH
    ensures ClassFrom([x, MINUS, y, CLOSE], 0) == Class([Range(x, y)], 4)
  {
    assert ClassFrom([x, MINUS, y, CLOSE], 3) == Class([], 4);
  }

  /** A range: both ends and what lies between them, whichever is named first. */
  lemma RangeExact(x: Byte, y: Byte, b: Byte)
    requires x != CLOSE && x != BACKSLASH && x != CARET
    ensures Matches([OPEN] + [x, MINUS, y, CLOSE], [b]) <==> Rank(x) <= Rank(b) <= Rank(y) || Rank(y) <= Rank(b) <= Rank(x)
  {
    hide ClassFrom;
    hide Has;
    hide Rank;
    hide Matches;
    RangeItems(x, y);
    ClassTakes([x, MINUS, y, CLOSE], b);
    RankOrder(x, y, b);
    assert [Range(x, y)][0] == Range(x, y);
  }

  /** An escaped byte in a class is itself, whatever it is. */
  lemma EscapedMember(x: Byte, b: Byte)
    ensures Matches([OPEN, BACKSLASH, x, CLOSE], [b]) <==> b == x
  {
    var body: Bytes := [BACKSLASH, x, CLOSE];
    assert ClassFrom(body, 2) == Class([], 3);
    assert ClassFrom(body, 0) == Class([Single(x)], 3);
    assert [OPEN] + body == [OPEN, BACKSLASH, x, CLOSE];
    ClassTakes(body, b);
    assert Has([Single(x)][0], b) <==> b == x;
  }
}
