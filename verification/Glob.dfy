/** Redis-style glob patterns over bytes (internal/glob/glob.go).

    A pattern is read as a sequence of tokens: a star, or a set of bytes that
    one byte of the value must belong to. A value matches when it can be cut
    into as many pieces as there are tokens, each piece fitting its token. The
    matcher instead walks both strings with a single remembered star. */
module Glob {
  import opened Bytes

  const QUESTION: Byte := 63
  const BACKSLASH: Byte := 92
  const OPEN: Byte := 91
  const CLOSE: Byte := 93
  const CARET: Byte := 94

  datatype Token = AnyRun | OneOf(bytes: set<Byte>)

  // ---- classes --------------------------------------------------------------

  datatype Item = Single(b: Byte) | Range(lo: Byte, hi: Byte)

  /** int8(b): ranges compare bytes as signed numbers. */
  function Signed(b: Byte): int {
    if b < 128 then b else b - 256
  }

  predicate Has(item: Item, b: Byte) {
    match item
    case Single(c) => b == c
    case Range(x, y) =>
      var lo, hi := Min(Signed(x), Signed(y)), Max(Signed(x), Signed(y));
      lo <= Signed(b) <= hi
  }

  datatype Class = Class(items: seq<Item>, next: nat)

  /** The items of a class from position i on, and the position after it. A
      class with no closing bracket runs to the end of the pattern. */
  function ClassFrom(p: Bytes, i: nat): (c: Class)
    requires i <= |p|
    ensures i <= c.next <= |p|
    decreases |p| - i
  {
    if i == |p| then Class([], i)
    else if p[i] == CLOSE then Class([], i + 1)
    else
      var item, width :=
        if p[i] == BACKSLASH && i + 1 < |p| then Single(p[i + 1]) else
        if i + 2 < |p| && p[i + 1] == MINUS then Range(p[i], p[i + 2]) else Single(p[i]),
        if p[i] == BACKSLASH && i + 1 < |p| then 2 else
        if i + 2 < |p| && p[i + 1] == MINUS then 3 else 1;
      var rest := ClassFrom(p, i + width);
      Class([item] + rest.items, rest.next)
  }

  predicate Negated(p: Bytes, at: nat) {
    at + 1 < |p| && p[at + 1] == CARET
  }

  function ClassAt(p: Bytes, at: nat): Class
    requires at < |p|
  {
    ClassFrom(p, if Negated(p, at) then at + 2 else at + 1)
  }

  // ---- tokens ---------------------------------------------------------------

  /** Whether the token at a position takes byte b. */
  predicate Takes(p: Bytes, at: nat, b: Byte)
    requires at < |p|
  {
    if p[at] == QUESTION then true
    else if p[at] == BACKSLASH then b == (if at + 1 < |p| then p[at + 1] else BACKSLASH)
    else if p[at] == OPEN then (exists i :: 0 <= i < |ClassAt(p, at).items| && Has(ClassAt(p, at).items[i], b)) != Negated(p, at)
    else b == p[at]
  }

  /** Where the token at a position ends; it does not depend on the value. */
  function After(p: Bytes, at: nat): (next: nat)
    requires at < |p|
    ensures at < next <= |p|
  {
    if p[at] == BACKSLASH && at + 1 < |p| then at + 2
    else if p[at] == OPEN then ClassAt(p, at).next
    else at + 1
  }

  function TokenAt(p: Bytes, at: nat): Token
    requires at < |p|
  {
    if p[at] == STAR then AnyRun else OneOf(set b: Byte | Takes(p, at, b))
  }

  function Tokens(p: Bytes, at: nat): seq<Token>
    requires at <= |p|
    decreases |p| - at
  {
    if at == |p| then [] else [TokenAt(p, at)] + Tokens(p, if p[at] == STAR then at + 1 else After(p, at))
  }

  predicate Fits(piece: Bytes, token: Token) {
    token.AnyRun? || (|piece| == 1 && piece[0] in token.bytes)
  }

  /** The declarative meaning: value is cut into one fitting piece per token. */
  ghost predicate Cut(tokens: seq<Token>, value: Bytes, pieces: seq<Bytes>) {
    && |pieces| == |tokens|
    && Concat(pieces) == value
    && forall i :: 0 <= i < |pieces| ==> Fits(pieces[i], tokens[i])
  }

  ghost predicate Matches(pattern: Bytes, value: Bytes) {
    exists pieces :: Cut(Tokens(pattern, 0), value, pieces)
  }

  // ---- a recursive form of the same meaning ----------------------------------

  predicate MatchFrom(p: Bytes, pi: nat, v: Bytes, vi: nat)
    requires pi <= |p| && vi <= |v|
    decreases |p| - pi, |v| - vi
  {
    if pi == |p| then vi == |v|
    else if p[pi] == STAR then
      MatchFrom(p, pi + 1, v, vi) || (vi < |v| && MatchFrom(p, pi, v, vi + 1))
    else vi < |v| && Takes(p, pi, v[vi]) && MatchFrom(p, After(p, pi), v, vi + 1)
  }

  /** The pattern from pi on matches some suffix of the value from vi on. */
  predicate MatchSome(p: Bytes, pi: nat, v: Bytes, vi: nat)
    requires pi <= |p|
    decreases |v| - vi
  {
    vi <= |v| && (MatchFrom(p, pi, v, vi) || MatchSome(p, pi, v, vi + 1))
  }

  lemma {:induction false} StarTakes(p: Bytes, at: nat, v: Bytes, vi: nat, k: nat)
    requires at < |p| && p[at] == STAR && vi <= k <= |v|
    requires MatchFrom(p, at + 1, v, k) || MatchFrom(p, at, v, k)
    ensures MatchFrom(p, at, v, vi)
    decreases k - vi
  {
    if vi < k { StarTakes(p, at, v, vi + 1, k); }
  }

  /** A cut of the rest of the value is a recursive match, and the other way. */
  lemma {:induction false} CutMatches(p: Bytes, pi: nat, v: Bytes, vi: nat, pieces: seq<Bytes>)
    requires pi <= |p| && vi <= |v|
    requires Cut(Tokens(p, pi), v[vi..], pieces)
    ensures MatchFrom(p, pi, v, vi)
    decreases |p| - pi
  {
    if pi < |p| {
      var tokens, n := Tokens(p, pi), |pieces[0]|;
      var next := if p[pi] == STAR then pi + 1 else After(p, pi);
      assert tokens[1..] == Tokens(p, next) && Fits(pieces[0], tokens[0]);
      assert v[vi..] == pieces[0] + Concat(pieces[1..]);
      assert v[vi + n..] == v[vi..][n..] == Concat(pieces[1..]);
      assert Cut(Tokens(p, next), v[vi + n..], pieces[1..]);
      CutMatches(p, next, v, vi + n, pieces[1..]);
      if p[pi] == STAR {
        StarTakes(p, pi, v, vi, vi + n);
      } else {
        assert v[vi] == v[vi..][0] == pieces[0][0];
      }
    }
  }

  lemma {:induction false} MatchCuts(p: Bytes, pi: nat, v: Bytes, vi: nat) returns (pieces: seq<Bytes>)
    requires pi <= |p| && vi <= |v|
    requires MatchFrom(p, pi, v, vi)
    ensures Cut(Tokens(p, pi), v[vi..], pieces)
    decreases |p| - pi, |v| - vi
  {
    if pi == |p| {
      pieces := [];
    } else if p[pi] == STAR && !MatchFrom(p, pi + 1, v, vi) {
      var longer := MatchCuts(p, pi, v, vi + 1);
      pieces := [[v[vi]] + longer[0]] + longer[1..];
      assert pieces[1..] == longer[1..];
      assert v[vi..] == [v[vi]] + v[vi + 1..];
    } else {
      var n := if p[pi] == STAR then 0 else 1;
      var rest := MatchCuts(p, if n == 0 then pi + 1 else After(p, pi), v, vi + n);
      pieces := [v[vi..vi + n]] + rest;
      assert pieces[1..] == rest;
      assert v[vi..] == v[vi..vi + n] + v[vi + n..];
    }
  }

  lemma MatchesIffMatchFrom(p: Bytes, v: Bytes)
    ensures Matches(p, v) <==> MatchFrom(p, 0, v, 0)
  {
    assert v[0..] == v;
    if pieces :| Cut(Tokens(p, 0), v, pieces) { CutMatches(p, 0, v, 0, pieces); }
    if MatchFrom(p, 0, v, 0) { var pieces := MatchCuts(p, 0, v, 0); }
  }

  // ---- why one remembered star is enough --------------------------------------

  /** n one-byte tokens, no star among them, lead from one position to another. */
  predicate Plain(p: Bytes, from: nat, to: nat, n: nat)
    requires from <= |p|
    decreases n
  {
    if n == 0 then from == to
    else from < |p| && p[from] != STAR && Plain(p, After(p, from), to, n - 1)
  }

  lemma {:induction false} PlainBounds(p: Bytes, from: nat, to: nat, n: nat)
    requires from <= |p| && Plain(p, from, to, n)
    ensures from + n <= to <= |p|
    decreases n
  {
    if n > 0 { PlainBounds(p, After(p, from), to, n - 1); }
  }

  lemma {:induction false} PlainExtend(p: Bytes, from: nat, to: nat, n: nat)
    requires from <= |p| && to < |p| && Plain(p, from, to, n) && p[to] != STAR
    ensures Plain(p, from, After(p, to), n + 1)
    decreases n
  {
    if n > 0 { PlainExtend(p, After(p, from), to, n - 1); }
  }

  /** A match that crosses plain tokens uses one byte for each of them. */
  lemma {:induction false} PlainConsumes(p: Bytes, from: nat, to: nat, n: nat, v: Bytes, k: nat)
    requires from <= |p| && k <= |v| && Plain(p, from, to, n) && to <= |p|
    requires MatchFrom(p, from, v, k)
    ensures k + n <= |v| && MatchFrom(p, to, v, k + n)
    decreases n
  {
    if n > 0 { PlainConsumes(p, After(p, from), to, n - 1, v, k + 1); }
  }

  /** Consecutive stars mean what one star means. */
  lemma {:induction false} StarsCollapse(p: Bytes, from: nat, to: nat, v: Bytes, vi: nat)
    requires from < to <= |p| && vi <= |v|
    requires forall i :: from <= i < to ==> p[i] == STAR
    ensures MatchFrom(p, from, v, vi) <==> MatchSome(p, to, v, vi)
    decreases |p| - from, |v| - vi
  {
    if vi < |v| { StarsCollapse(p, from, to, v, vi + 1); }
    if from + 1 < to { StarsCollapse(p, from + 1, to, v, vi); }
  }

  /** If a restart of the remembered star can match, so can the new star. */
  lemma {:induction false} RestartAbsorbed(p: Bytes, sp: nat, pi: nat, v: Bytes, sv: nat, vi: nat, k: nat)
    requires sp <= |p| && pi < |p| && p[pi] == STAR && sv <= vi <= |v| && sv <= k
    requires Plain(p, sp, pi, vi - sv) && MatchSome(p, sp, v, k)
    ensures MatchFrom(p, pi, v, vi)
    decreases |v| - k
  {
    if MatchFrom(p, sp, v, k) {
      PlainConsumes(p, sp, pi, vi - sv, v, k);
      StarTakes(p, pi, v, vi, k + vi - sv);
    } else {
      RestartAbsorbed(p, sp, pi, v, sv, vi, k + 1);
    }
  }

  /** Plain tokens that have used up the value leave no room for a restart. */
  lemma {:induction false} NoRestart(p: Bytes, sp: nat, pi: nat, v: Bytes, sv: nat, k: nat)
    requires sp <= |p| && pi <= |p| && sv <= |v| && sv < k
    requires Plain(p, sp, pi, |v| - sv)
    ensures !MatchSome(p, sp, v, k)
    decreases |v| - k
  {
    if k <= |v| {
      if MatchFrom(p, sp, v, k) { PlainConsumes(p, sp, pi, |v| - sv, v, k); }
      NoRestart(p, sp, pi, v, sv, k + 1);
    }
  }

  // ---- the matcher -------------------------------------------------------------

  /** What is known while matching: the value matches exactly when the current
      positions lead to a match, or restarting the remembered star further on does. */
  ghost predicate Searching(p: Bytes, v: Bytes, pi: nat, vi: nat, sp: int, sv: int) {
    && pi <= |p| && vi <= |v|
    && (sp < 0 ==> sp == -1 && sv == -1 && Plain(p, 0, pi, vi))
    && (sp >= 0 ==> sp <= |p| && 0 <= sv <= vi && Plain(p, sp, pi, vi - sv))
    && (MatchFrom(p, 0, v, 0) <==>
        MatchFrom(p, pi, v, vi) || (sp >= 0 && MatchSome(p, sp, v, sv + 1)))
  }

  /** Reaching a new star, the old one can be forgotten. */
  lemma NewStar(p: Bytes, v: Bytes, pi: nat, vi: nat, sp: int, sv: int, next: nat)
    requires Searching(p, v, pi, vi, sp, sv)
    requires pi < next <= |p| && forall i :: pi <= i < next ==> p[i] == STAR
    ensures Searching(p, v, next, vi, next, vi)
    ensures next == |p| ==> MatchFrom(p, 0, v, 0)
  {
    StarsCollapse(p, pi, next, v, vi);
    if sp >= 0 && MatchSome(p, sp, v, sv + 1) { RestartAbsorbed(p, sp, pi, v, sv, vi, sv + 1); }
    if next == |p| { SuffixMatches(p, v, vi); }
  }

  lemma {:induction false} SuffixMatches(p: Bytes, v: Bytes, vi: nat)
    requires vi <= |v|
    ensures MatchSome(p, |p|, v, vi)
    decreases |v| - vi
  {
    if vi < |v| { SuffixMatches(p, v, vi + 1); }
  }

  /** A byte taken by a plain token. */
  lemma TakeOne(p: Bytes, v: Bytes, pi: nat, vi: nat, sp: int, sv: int)
    requires Searching(p, v, pi, vi, sp, sv)
    requires pi < |p| && vi < |v| && p[pi] != STAR && Takes(p, pi, v[vi])
    ensures Searching(p, v, After(p, pi), vi + 1, sp, sv)
  {
    if sp < 0 { PlainExtend(p, 0, pi, vi); } else { PlainExtend(p, sp, pi, vi - sv); }
  }

  /** The value ended: only trailing stars can still match, and no restart can. */
  lemma {:induction false} AtEnd(p: Bytes, v: Bytes, pi: nat, sp: int, sv: int, next: nat)
    requires Searching(p, v, pi, |v|, sp, sv)
    requires pi <= next <= |p| && forall i :: pi <= i < next ==> p[i] == STAR
    requires next < |p| ==> p[next] != STAR
    ensures MatchFrom(p, 0, v, 0) <==> next == |p|
  {
    if pi < next { StarsCollapse(p, pi, next, v, |v|); }
    if sp >= 0 { NoRestart(p, sp, pi, v, sv, sv + 1); }
  }

  /** Match(pattern, value): true exactly when the value can be cut along the
      pattern's tokens. */
  method Match(pattern: Bytes, value: Bytes) returns (r: bool)
    ensures r <==> Matches(pattern, value)
  {
    MatchesIffMatchFrom(pattern, value);
    var pi, vi := 0, 0;
    var starPattern, starValue := -1, -1;
    while vi < |value|
      invariant 0 <= pi <= |pattern| && 0 <= vi <= |value|
      invariant Searching(pattern, value, pi, vi, starPattern, starValue)
      decreases |pattern| - starPattern, |value| - starValue, |value| - vi
    {
      ghost var p0 := pi;
      if pi < |pattern| && pattern[pi] == STAR {
        while pi < |pattern| && pattern[pi] == STAR
          invariant p0 <= pi <= |pattern|
          invariant forall i :: p0 <= i < pi ==> pattern[i] == STAR
        {
          pi := pi + 1;
        }
        NewStar(pattern, value, p0, vi, starPattern, starValue, pi);
        if pi == |pattern| { return true; }
        if starPattern >= 0 { PlainBounds(pattern, starPattern, p0, vi - starValue); }
        starPattern, starValue := pi, vi;
        continue;
      }
      var next, matched := MatchOne(pattern, pi, value[vi]);
      if matched {
        TakeOne(pattern, value, pi, vi, starPattern, starValue);
        pi, vi := next, vi + 1;
        continue;
      }
      assert !MatchFrom(pattern, pi, value, vi);
      if starPattern >= 0 && starValue < |value| {
        starValue := starValue + 1;
        pi, vi := starPattern, starValue;
        continue;
      }
      return false;
    }
    ghost var p1 := pi;
    while pi < |pattern| && pattern[pi] == STAR
      invariant p1 <= pi <= |pattern|
      invariant forall i :: p1 <= i < pi ==> pattern[i] == STAR
    {
      pi := pi + 1;
    }
    AtEnd(pattern, value, p1, starPattern, starValue, pi);
    return pi == |pattern|;
  }

  method MatchOne(pattern: Bytes, at: nat, value: Byte) returns (next: nat, matched: bool)
    ensures at >= |pattern| ==> next == at && !matched
    ensures at < |pattern| ==> next == After(pattern, at) && (matched <==> Takes(pattern, at, value))
  {
    if at >= |pattern| { return at, false; }
    if pattern[at] == QUESTION { return at + 1, true; }
    if pattern[at] == BACKSLASH {
      if at + 1 < |pattern| { return at + 2, pattern[at + 1] == value; }
      return at + 1, value == BACKSLASH;
    }
    if pattern[at] == OPEN { next, matched := MatchClass(pattern, at, value); return; }
    return at + 1, pattern[at] == value;
  }

  method MatchClass(pattern: Bytes, at: nat, value: Byte) returns (next: nat, matched: bool)
    requires at < |pattern| && pattern[at] == OPEN
    ensures next == After(pattern, at)
    ensures matched <==> Takes(pattern, at, value)
  {
    var i := at + 1;
    matched := false;
    var negated := i < |pattern| && pattern[i] == CARET;
    if negated { i := i + 1; }
    ghost var all, seen := ClassFrom(pattern, i), [];
    while i < |pattern|
      invariant i <= |pattern|
      invariant all.items == seen + ClassFrom(pattern, i).items
      invariant all.next == ClassFrom(pattern, i).next
      invariant matched <==> exists k :: 0 <= k < |seen| && Has(seen[k], value)
    {
      ghost var rest := ClassFrom(pattern, i);
      if pattern[i] == CLOSE {
        assert all.items == seen;
        if negated { matched := !matched; }
        return i + 1, matched;
      }
      ghost var seen0 := seen;
      seen := seen + [rest.items[0]];
      assert all.items == seen + rest.items[1..];
      if pattern[i] == BACKSLASH && i + 1 < |pattern| {
        i := i + 1;
        matched := matched || pattern[i] == value;
        i := i + 1;
      } else if i + 2 < |pattern| && pattern[i + 1] == MINUS {
        var lo, hi := Signed(pattern[i]), Signed(pattern[i + 2]);
        if lo > hi { lo, hi := hi, lo; }
        var candidate := Signed(value);
        matched := matched || (candidate >= lo && candidate <= hi);
        i := i + 3;
      } else {
        matched := matched || pattern[i] == value;
        i := i + 1;
      }
      assert seen[|seen0|] == rest.items[0];
      assert forall k :: 0 <= k < |seen0| ==> seen[k] == seen0[k];
    }
    assert all.items == seen;
    if negated { matched := !matched; }
    next := |pattern|;
  }
}
