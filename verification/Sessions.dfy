/** Bounded SCAN snapshot sessions (internal/engine/scan_sessions.go): rotating
    single-use cursors, lazy expiry, saturating byte accounting. */
module Sessions {
  import opened Bytes
  import opened Store

  const MAX_UINT64: nat := 0xffff_ffff_ffff_ffff
  const STRING_BYTES: nat := 16
  const SESSION_OVERHEAD: nat := 64

  datatype Limits = Limits(ttl: nat, maxSessions: nat, maxBytes: nat)

  const DEFAULT_SESSION_LIMITS: Limits := Limits(30_000_000_000, 16, 0x800_0000)

  datatype Session = Session(keys: seq<Bytes>, pattern: Bytes, position: nat, lastUsed: Time, bytes: nat)

  /** Live sessions by cursor, and the retained-byte counter. */
  datatype Manager = Manager(sessions: map<nat, Session>, bytes: int)

  datatype Fault = InvalidCursor | SessionLimit | MatchChanged | TokenFailure

  /** Cursor 0 ends a traversal. */
  datatype Page = Page(cursor: nat, keys: seq<Bytes>) | Err(fault: Fault)

  // ---- the estimate -------------------------------------------------------------------

  function SaturatingAdd(a: nat, b: nat): (r: nat)
    requires a <= MAX_UINT64
    ensures r == Min(MAX_UINT64, a + b)
  {
    if MAX_UINT64 - a < b then MAX_UINT64 else a + b
  }

  function SaturatingMultiply(a: nat, b: nat): (r: nat)
    ensures r == Min(MAX_UINT64, a * b)
  {
    if a != 0 && b > MAX_UINT64 / a then (ProductExceeds(a, b); MAX_UINT64)
    else (ProductWithin(a, b); a * b)
  }

  lemma ProductExceeds(a: nat, b: nat)
    requires a != 0 && b > MAX_UINT64 / a
    ensures a * b > MAX_UINT64
  {
    assert b >= MAX_UINT64 / a + 1;
    assert a * b >= a * (MAX_UINT64 / a + 1);
  }

  lemma ProductWithin(a: nat, b: nat)
    requires a == 0 || b <= MAX_UINT64 / a
    ensures a * b <= MAX_UINT64
  {
    if a != 0 { assert a * b <= a * (MAX_UINT64 / a) <= MAX_UINT64; }
  }

  function KeyBytes(keys: seq<Bytes>): nat {
    if keys == [] then 0 else KeyBytes(keys[..|keys| - 1]) + |keys[|keys| - 1]|
  }

  /** What a session is charged: the true total, capped at the largest counter. */
  function Charge(keys: seq<Bytes>, capacity: nat, pattern: Bytes): nat {
    Min(MAX_UINT64, capacity * STRING_BYTES + KeyBytes(keys) + |pattern| + SESSION_OVERHEAD)
  }

  method SessionBytes(keys: seq<Bytes>, capacity: nat, pattern: Bytes) returns (r: nat)
    ensures r == Charge(keys, capacity, pattern)
  {
    var keyBytes := 0;
    var i := 0;
    while i < |keys|
      invariant 0 <= i <= |keys| && keyBytes == Min(MAX_UINT64, KeyBytes(keys[..i]))
    {
      keyBytes := SaturatingAdd(keyBytes, |keys[i]|);
      assert keys[..i + 1][..i] == keys[..i];
      i := i + 1;
    }
    assert keys[..i] == keys;
    var total := SaturatingAdd(SaturatingMultiply(capacity, STRING_BYTES), keyBytes);
    total := SaturatingAdd(total, |pattern|);
    r := SaturatingAdd(total, SESSION_OVERHEAD);
  }

  /** What the estimate counts, below its ceiling: an overhead, sixteen bytes for
      each place reserved, and every byte of every key and of the pattern. */
  lemma ChargeGrows(keys: seq<Bytes>, capacity: nat, pattern: Bytes, key: Bytes, more: Bytes)
    ensures Charge([], 0, []) == 64
    ensures Charge(keys + [key], capacity, pattern) == Min(MAX_UINT64, Charge(keys, capacity, pattern) + |key|)
    ensures Charge(keys, capacity + 1, pattern) == Min(MAX_UINT64, Charge(keys, capacity, pattern) + 16)
    ensures Charge(keys, capacity, pattern + more) == Min(MAX_UINT64, Charge(keys, capacity, pattern) + |more|)
  {
    assert (keys + [key])[..|keys|] == keys;
  }

  function PageEnd(start: nat, length: nat, count: nat): (end: nat)
    requires start <= length
    ensures end == Min(length, start + count)
  {
    var remaining := length - start;
    if count >= remaining then length else start + count
  }

  // ---- the manager as a value -------------------------------------------------------------

  ghost function Total(sessions: map<nat, Session>): nat
    decreases sessions.Keys
  {
    if sessions == map[] then 0
    else
      var t :| t in sessions;
      sessions[t].bytes + Total(sessions - {t})
  }

  lemma {:induction false} TotalSplit(sessions: map<nat, Session>, t: nat)
    requires t in sessions
    ensures Total(sessions) == sessions[t].bytes + Total(sessions - {t})
    decreases sessions.Keys
  {
    var u :| u in sessions && Total(sessions) == sessions[u].bytes + Total(sessions - {u});
    if u != t {
      TotalSplit(sessions - {u}, t);
      TotalSplit(sessions - {t}, u);
      assert sessions - {u} - {t} == sessions - {t} - {u};
    }
  }

  lemma TotalAdd(sessions: map<nat, Session>, t: nat, s: Session)
    requires t !in sessions
    ensures Total(sessions[t := s]) == Total(sessions) + s.bytes
  {
    TotalSplit(sessions[t := s], t);
    assert sessions[t := s] - {t} == sessions;
  }

  predicate Lapsed(s: Session, lim: Limits, now: Time) {
    now >= s.lastUsed + lim.ttl
  }

  /** Sessions still unexpired at an instant. */
  ghost function Unexpired(m: Manager, lim: Limits, now: Time): Manager {
    var kept := map t | t in m.sessions && !Lapsed(m.sessions[t], lim, now) :: m.sessions[t];
    Manager(kept, Total(kept))
  }

  ghost function StartCall(m: Manager, lim: Limits, keys: seq<Bytes>, capacity: nat, pattern: Bytes, count: nat, now: Time, token: Option<nat>): (Manager, Page)
  {
    var e, end, need := Unexpired(m, lim, now), PageEnd(0, |keys|, count), Charge(keys, capacity, pattern);
    if end == |keys| then (e, Page(0, keys))
    else if |e.sessions| >= lim.maxSessions || need > lim.maxBytes || e.bytes > lim.maxBytes - need then (e, Err(SessionLimit))
    else if token == None then (e, Err(TokenFailure))
    else
      (Manager(e.sessions[token.value := Session(keys, pattern, end, now, need)], e.bytes + need),
       Page(token.value, keys[..end]))
  }

  ghost function NextCall(m: Manager, lim: Limits, cursor: nat, pattern: Option<Bytes>, count: nat, now: Time, token: Option<nat>): (Manager, Page)
    requires forall t :: t in m.sessions ==> m.sessions[t].position <= |m.sessions[t].keys|
  {
    var e := Unexpired(m, lim, now);
    if cursor !in e.sessions then (e, Err(InvalidCursor))
    else
      var s := e.sessions[cursor];
      var end := PageEnd(s.position, |s.keys|, count);
      if pattern.Some? && pattern.value != s.pattern then (e, Err(MatchChanged))
      else if end == |s.keys| then
        (Manager(e.sessions - {cursor}, e.bytes - s.bytes), Page(0, s.keys[s.position..]))
      else if token == None then (e, Err(TokenFailure))
      else
        (Manager((e.sessions - {cursor})[token.value := s.(position := end, lastUsed := now)], e.bytes),
         Page(token.value, s.keys[s.position..end]))
  }

  /** Whether a session charged this much fits beside those there are. */
  predicate Fits(e: Manager, lim: Limits, need: nat) {
    need <= lim.maxBytes && e.bytes <= lim.maxBytes - need
  }

  /** The calls that come to draw a token. */
  ghost predicate StartDraws(m: Manager, lim: Limits, keys: seq<Bytes>, capacity: nat, pattern: Bytes, count: nat, now: Time) {
    var e := Unexpired(m, lim, now);
    PageEnd(0, |keys|, count) < |keys| && |e.sessions| < lim.maxSessions && Fits(e, lim, Charge(keys, capacity, pattern))
  }

  ghost predicate NextDraws(m: Manager, lim: Limits, cursor: nat, pattern: Option<Bytes>, count: nat, now: Time) {
    var e := Unexpired(m, lim, now);
    && cursor in e.sessions
    && (pattern.Some? ==> pattern.value == e.sessions[cursor].pattern)
    && e.sessions[cursor].position + count < |e.sessions[cursor].keys|
  }

  /** The manager's invariant: the counter is the sum over live sessions and
      within its cap, so it cannot underflow; the number of sessions is bounded;
      cursors are nonzero; every position is strictly inside its snapshot. */
  ghost predicate Sound(m: Manager, lim: Limits) {
    && m.bytes == Total(m.sessions) && m.bytes <= lim.maxBytes
    && |m.sessions| <= lim.maxSessions
    && 0 !in m.sessions
    && forall t :: t in m.sessions ==> m.sessions[t].position < |m.sessions[t].keys|
  }

  lemma SoundPositions(m: Manager, lim: Limits)
    requires Sound(m, lim)
    ensures forall t :: t in m.sessions ==> m.sessions[t].position < |m.sessions[t].keys|
  {
  }

  /** A token the source may give out: nonzero and not in use. */
  predicate Usable(sessions: map<nat, Session>, token: Option<nat>) {
    token.Some? ==> token.value != 0 && token.value !in sessions
  }

  lemma {:induction false} TotalSubset(sub: map<nat, Session>, all: map<nat, Session>)
    requires sub.Keys <= all.Keys && forall t :: t in sub ==> sub[t] == all[t]
    ensures Total(sub) <= Total(all)
    decreases all.Keys
  {
    if sub == map[] {
    } else {
      var t :| t in sub;
      TotalSplit(all, t);
      TotalSplit(sub, t);
      hide Total;
      TotalSubset(sub - {t}, all - {t});
    }
  }

  lemma {:induction false} SizeSubset(sub: set<nat>, all: set<nat>)
    requires sub <= all
    ensures |sub| <= |all|
  {
    if t :| t in sub { SizeSubset(sub - {t}, all - {t}); }
  }

  /** A session moved to another cursor is charged once. */
  lemma MovedTotal(sessions: map<nat, Session>, from: nat, to: nat, moved: Session)
    requires from in sessions && to !in sessions && moved.bytes == sessions[from].bytes
    ensures Total((sessions - {from})[to := moved]) == Total(sessions)
    ensures |(sessions - {from})[to := moved]| == |sessions|
  {
    TotalSplit(sessions, from);
    TotalAdd(sessions - {from}, to, moved);
    hide Total;
    assert (sessions - {from}).Keys == sessions.Keys - {from};
    assert (sessions - {from})[to := moved].Keys == (sessions - {from}).Keys + {to};
  }

  lemma UnexpiredSound(m: Manager, lim: Limits, now: Time)
    requires Sound(m, lim)
    ensures Sound(Unexpired(m, lim, now), lim)
  {
    var kept := Unexpired(m, lim, now).sessions;
    TotalSubset(kept, m.sessions);
    SizeSubset(kept.Keys, m.sessions.Keys);
  }

  /** Starting a traversal: the invariant holds after it, a failing call leaves
      the unexpired sessions as they were, and a page is a front of the keys. */
  lemma StartSound(m: Manager, lim: Limits, keys: seq<Bytes>, capacity: nat, pattern: Bytes, count: nat, now: Time, token: Option<nat>)
    requires Sound(m, lim) && Usable(Unexpired(m, lim, now).sessions, token)
    ensures var (n, r) := StartCall(m, lim, keys, capacity, pattern, count, now, token);
            && Sound(n, lim)
            && (r.Err? ==> n == Unexpired(m, lim, now))
            && (r.Page? ==> r.keys <= keys && (r.cursor == 0 <==> r.keys == keys) && (count > 0 && keys != [] ==> r.keys != []))
  {
    UnexpiredSound(m, lim, now);
    hide Unexpired;
    hide Charge;
    hide Total;
    var e, end, need := Unexpired(m, lim, now), PageEnd(0, |keys|, count), Charge(keys, capacity, pattern);
    if token.Some? && end < |keys| && |e.sessions| < lim.maxSessions && Fits(e, lim, need) {
      AddSound(e, lim, token.value, Session(keys, pattern, end, now, need));
    }
    hide Sound;
  }

  lemma AddSound(e: Manager, lim: Limits, token: nat, s: Session)
    requires Sound(e, lim) && token != 0 && token !in e.sessions && |e.sessions| < lim.maxSessions && Fits(e, lim, s.bytes)
    requires s.position < |s.keys|
    ensures Sound(Manager(e.sessions[token := s], e.bytes + s.bytes), lim)
  {
    TotalAdd(e.sessions, token, s);
    hide Total;
    assert e.sessions[token := s].Keys == e.sessions.Keys + {token};
  }

  /** A presented cursor that gave a page is no longer valid; a failing call uses
      up nothing and leaves the unexpired sessions as they were. */
  lemma CursorSingleUse(m: Manager, lim: Limits, cursor: nat, pattern: Option<Bytes>, count: nat, now: Time, token: Option<nat>)
    requires Sound(m, lim) && Usable(Unexpired(m, lim, now).sessions, token)
    ensures var (n, r) := NextCall(m, lim, cursor, pattern, count, now, token);
            && (r.Err? ==> n == Unexpired(m, lim, now))
            && (r.Page? ==> cursor !in n.sessions && (count > 0 ==> r.keys != []))
  {
    UnexpiredSound(m, lim, now);
    hide Unexpired;
    hide Total;
  }

  lemma RemoveSound(e: Manager, lim: Limits, cursor: nat)
    requires Sound(e, lim) && cursor in e.sessions
    ensures Sound(Manager(e.sessions - {cursor}, e.bytes - e.sessions[cursor].bytes), lim)
  {
    TotalSplit(e.sessions, cursor);
    SizeSubset((e.sessions - {cursor}).Keys, e.sessions.Keys);
  }

  lemma MoveSound(e: Manager, lim: Limits, cursor: nat, token: nat, moved: Session)
    requires Sound(e, lim) && cursor in e.sessions && token != 0 && token !in e.sessions
    requires moved.bytes == e.sessions[cursor].bytes && moved.position < |moved.keys|
    ensures Sound(Manager((e.sessions - {cursor})[token := moved], e.bytes), lim)
  {
    MovedTotal(e.sessions, cursor, token, moved);
  }

  /** Continuing a traversal keeps the invariant. */
  lemma NextSound(m: Manager, lim: Limits, cursor: nat, pattern: Option<Bytes>, count: nat, now: Time, token: Option<nat>)
    requires Sound(m, lim) && Usable(Unexpired(m, lim, now).sessions, token)
    ensures Sound(NextCall(m, lim, cursor, pattern, count, now, token).0, lim)
  {
    UnexpiredSound(m, lim, now);
    hide Unexpired;
    var e := Unexpired(m, lim, now);
    if cursor in e.sessions {
      var s := e.sessions[cursor];
      var end := PageEnd(s.position, |s.keys|, count);
      RemoveSound(e, lim, cursor);
      if end < |s.keys| && token.Some? { MoveSound(e, lim, cursor, token.value, s.(position := end, lastUsed := now)); }
    }
    hide Sound;
  }

  // ---- when a call succeeds ---------------------------------------------------------------------

  /** Whether a cursor is still good at an instant. */
  predicate InTime(m: Manager, lim: Limits, cursor: nat, now: Time) {
    cursor in m.sessions && now < m.sessions[cursor].lastUsed + lim.ttl
  }

  /** A call sees exactly the sessions still in time, as they were. */
  lemma UnexpiredExact(m: Manager, lim: Limits, now: Time, cursor: nat)
    ensures cursor in Unexpired(m, lim, now).sessions <==> InTime(m, lim, cursor, now)
    ensures InTime(m, lim, cursor, now) ==> Unexpired(m, lim, now).sessions[cursor] == m.sessions[cursor]
  {
    hide Total;
  }

  /** SCAN with a cursor, answer by answer. A cursor that is not in time is invalid,
      one with another pattern is refused; every other gives the keys from its
      position on, count of them or all that are left, and the cursor drawn leads
      to the rest. */
  lemma NextAnswers(m: Manager, lim: Limits, cursor: nat, pattern: Option<Bytes>, count: nat, now: Time, token: Option<nat>)
    requires Sound(m, lim)
    ensures var (n, r) := NextCall(m, lim, cursor, pattern, count, now, token);
            if !InTime(m, lim, cursor, now) then r == Err(InvalidCursor)
            else
              var s := m.sessions[cursor];
              if pattern.Some? && pattern.value != s.pattern then r == Err(MatchChanged)
              else if |s.keys| <= s.position + count then
                r == Page(0, s.keys[s.position..]) && cursor !in n.sessions
              else if token == None then r == Err(TokenFailure)
              else
                && r == Page(token.value, s.keys[s.position..s.position + count])
                && token.value in n.sessions
                && n.sessions[token.value] == s.(position := s.position + count, lastUsed := now)
                && (cursor != token.value ==> cursor !in n.sessions)
  {
    hide Unexpired;
    hide Total;
    UnexpiredExact(m, lim, now, cursor);
  }

  /** SCAN 0, answer by answer: everything at once if it fits the page; refused
      when the sessions in time are at their number or the bytes do not fit; and
      else the first keys, with a cursor that leads to the rest. */
  lemma StartAnswers(m: Manager, lim: Limits, keys: seq<Bytes>, capacity: nat, pattern: Bytes, count: nat, now: Time, token: Option<nat>)
    ensures var (n, r) := StartCall(m, lim, keys, capacity, pattern, count, now, token);
            var e, need := Unexpired(m, lim, now), Charge(keys, capacity, pattern);
            if |keys| <= count then r == Page(0, keys)
            else if |e.sessions| >= lim.maxSessions || Total(e.sessions) + need > lim.maxBytes then r == Err(SessionLimit)
            else if token == None then r == Err(TokenFailure)
            else
              && r == Page(token.value, keys[..count])
              && token.value in n.sessions
              && n.sessions[token.value] == Session(keys, pattern, count, now, need)
  {
    hide Charge;
    hide Total;
  }

  // ---- traversals among other clients -----------------------------------------------------------

  datatype Call =
    | Begin(keys: seq<Bytes>, capacity: nat, pattern: Bytes, count: nat, now: Time, token: Option<nat>)
    | Continue(cursor: nat, match_: Option<Bytes>, count: nat, now: Time, token: Option<nat>)
    | Clear

  predicate Positioned(m: Manager) {
    forall t :: t in m.sessions ==> m.sessions[t].position <= |m.sessions[t].keys|
  }

  ghost function DoCall(m: Manager, lim: Limits, call: Call): (Manager, Page)
    requires Positioned(m)
  {
    match call
    case Begin(keys, capacity, pattern, count, now, token) => StartCall(m, lim, keys, capacity, pattern, count, now, token)
    case Continue(cursor, p, count, now, token) => NextCall(m, lim, cursor, p, count, now, token)
    case Clear => (Manager(map[], 0), Page(0, []))
  }

  ghost predicate Legal(m: Manager, lim: Limits, call: Call) {
    call.Clear? || Usable(Unexpired(m, lim, call.now).sessions, call.token)
  }

  lemma CallSound(m: Manager, lim: Limits, call: Call)
    requires Sound(m, lim) && Legal(m, lim, call)
    ensures Sound(DoCall(m, lim, call).0, lim)
  {
    match call
    case Begin(keys, capacity, pattern, count, now, token) => StartSound(m, lim, keys, capacity, pattern, count, now, token);
    case Continue(cursor, p, count, now, token) => NextSound(m, lim, cursor, p, count, now, token);
    case Clear =>
  }

  /** A turn is a call by someone else, or the next continuation of our chain
      with whatever cursor we were given last. */
  datatype Turn =
    | Other(call: Call)
    | Mine(match_: Option<Bytes>, count: nat, now: Time, token: Option<nat>)

  function CallOf(turn: Turn, cursor: nat): Call {
    match turn
    case Other(call) => call
    case Mine(p, count, now, token) => Continue(cursor, p, count, now, token)
  }

  /** The only thing asked of everyone else: the token source does not give them
      the cursor we hold. They may present it, exhaust the limits, let our
      session expire or clear all sessions. */
  ghost predicate Fair(m: Manager, lim: Limits, cursor: nat, turns: seq<Turn>)
    requires Sound(m, lim)
    decreases |turns|
  {
    turns == [] ||
    (var call := CallOf(turns[0], cursor);
     && Legal(m, lim, call)
     && (turns[0].Other? && !call.Clear? ==> call.token != Some(cursor))
     && (CallSound(m, lim, call);
         Fair(DoCall(m, lim, call).0, lim, Held(m, lim, cursor, turns[0]), turns[1..])))
  }

  /** The cursor we hold after a turn. */
  ghost function Held(m: Manager, lim: Limits, cursor: nat, turn: Turn): nat
    requires Positioned(m)
  {
    var r := DoCall(m, lim, CallOf(turn, cursor)).1;
    if turn.Mine? && r.Page? && r.cursor != 0 then r.cursor else cursor
  }

  /** The keys our continuations return, in order, if they reach cursor 0. */
  ghost function Collected(m: Manager, lim: Limits, cursor: nat, turns: seq<Turn>): Option<seq<Bytes>>
    requires Sound(m, lim) && Fair(m, lim, cursor, turns)
    decreases |turns|
  {
    if turns == [] then None
    else
      var call := CallOf(turns[0], cursor);
      var (n, r) := DoCall(m, lim, call);
      CallSound(m, lim, call);
      if turns[0].Mine? && r.Page? && r.cursor == 0 then Some(r.keys)
      else
        var rest := Collected(n, lim, Held(m, lim, cursor, turns[0]), turns[1..]);
        if turns[0].Mine? && r.Page? && rest.Some? then Some(r.keys + rest.value) else rest
  }

  /** Our session, if it is still there, has these keys to go. */
  predicate ToGo(m: Manager, cursor: nat, rest: seq<Bytes>) {
    cursor in m.sessions ==>
      m.sessions[cursor].position <= |m.sessions[cursor].keys| && m.sessions[cursor].keys[m.sessions[cursor].position..] == rest
  }

  /** Someone else's call, whatever it is, leaves what we have to go. */
  lemma OtherLeavesOurs(m: Manager, lim: Limits, cursor: nat, call: Call, rest: seq<Bytes>)
    requires Sound(m, lim) && Legal(m, lim, call) && ToGo(m, cursor, rest)
    requires !call.Clear? ==> call.token != Some(cursor)
    ensures ToGo(DoCall(m, lim, call).0, cursor, rest)
  {
  }

  /** One continuation of ours: a page from the front of what is to go, with the
      rest behind the new cursor; or nothing and no change. */
  lemma MineTakesFront(m: Manager, lim: Limits, cursor: nat, turn: Turn, rest: seq<Bytes>)
    requires Sound(m, lim) && turn.Mine? && Legal(m, lim, CallOf(turn, cursor)) && ToGo(m, cursor, rest)
    ensures var (n, r) := DoCall(m, lim, CallOf(turn, cursor));
            if r.Err? then ToGo(n, cursor, rest)
            else if r.cursor == 0 then r.keys == rest
            else r.keys <= rest && ToGo(n, r.cursor, rest[|r.keys|..])
  {
    var e := Unexpired(m, lim, turn.now);
    if cursor in e.sessions {
      var s := m.sessions[cursor];
      var end := PageEnd(s.position, |s.keys|, turn.count);
      assert s.keys[s.position..end] == rest[..end - s.position];
      assert s.keys[end..] == rest[end - s.position..];
    }
  }

  /** Traversal exactness: whatever other clients do in between, a cursor chain
      that reaches 0 has returned exactly what its session had to go. */
  lemma {:induction false} TraversalExact(m: Manager, lim: Limits, cursor: nat, turns: seq<Turn>, rest: seq<Bytes>)
    requires Sound(m, lim) && Fair(m, lim, cursor, turns) && ToGo(m, cursor, rest)
    requires Collected(m, lim, cursor, turns).Some?
    ensures Collected(m, lim, cursor, turns).value == rest
    decreases |turns|
  {
    hide Unexpired;
    var turn := turns[0];
    var call := CallOf(turn, cursor);
    var (n, r) := DoCall(m, lim, call);
    CallSound(m, lim, call);
    if turn.Other? {
      OtherLeavesOurs(m, lim, cursor, call, rest);
      hide DoCall;
      TraversalExact(n, lim, cursor, turns[1..], rest);
    } else {
      MineTakesFront(m, lim, cursor, turn, rest);
      hide DoCall;
      if r.Err? {
        TraversalExact(n, lim, cursor, turns[1..], rest);
      } else if r.cursor != 0 {
        TraversalExact(n, lim, r.cursor, turns[1..], rest[|r.keys|..]);
        assert rest == r.keys + rest[|r.keys|..];
      }
    }
  }

  /** Our continuations that give a page, up to the one that gives cursor 0. */
  ghost function Pages(m: Manager, lim: Limits, cursor: nat, turns: seq<Turn>): nat
    requires Sound(m, lim) && Fair(m, lim, cursor, turns)
    decreases |turns|
  {
    if turns == [] then 0
    else
      var call := CallOf(turns[0], cursor);
      var (n, r) := DoCall(m, lim, call);
      CallSound(m, lim, call);
      if turns[0].Mine? && r.Page? && r.cursor == 0 then 1
      else
        var rest := Pages(n, lim, Held(m, lim, cursor, turns[0]), turns[1..]);
        if turns[0].Mine? && r.Page? then 1 + rest else rest
  }

  /** We never ask for an empty page. */
  predicate Eager(turns: seq<Turn>) {
    forall i :: 0 <= i < |turns| && turns[i].Mine? ==> turns[i].count > 0
  }

  /** Progress: with positive counts a chain gives at most as many pages as it has
      keys to go, and one that gives as many has reached cursor 0. */
  lemma {:induction false} TraversalProgress(m: Manager, lim: Limits, cursor: nat, turns: seq<Turn>, rest: seq<Bytes>)
    requires Sound(m, lim) && Fair(m, lim, cursor, turns) && ToGo(m, cursor, rest) && rest != [] && Eager(turns)
    ensures Pages(m, lim, cursor, turns) <= |rest|
    ensures Pages(m, lim, cursor, turns) == |rest| ==> Collected(m, lim, cursor, turns).Some?
    decreases |turns|
  {
    hide Unexpired;
    hide Total;
    if turns != [] {
      var turn := turns[0];
      var call := CallOf(turn, cursor);
      var (n, r) := DoCall(m, lim, call);
      CallSound(m, lim, call);
      if turn.Other? {
        OtherLeavesOurs(m, lim, cursor, call, rest);
        hide DoCall;
        TraversalProgress(n, lim, cursor, turns[1..], rest);
      } else {
        MineTakesFront(m, lim, cursor, turn, rest);
        MineMoves(m, lim, cursor, turn);
        hide DoCall;
        if r.Err? {
          TraversalProgress(n, lim, cursor, turns[1..], rest);
        } else if r.cursor != 0 {
          TraversalProgress(n, lim, r.cursor, turns[1..], rest[|r.keys|..]);
        }
      }
    }
  }

  /** A page of ours is not empty, and a nonzero cursor has keys behind it. */
  lemma MineMoves(m: Manager, lim: Limits, cursor: nat, turn: Turn)
    requires Sound(m, lim) && turn.Mine? && turn.count > 0 && Legal(m, lim, CallOf(turn, cursor))
    ensures var (n, r) := DoCall(m, lim, CallOf(turn, cursor));
            && (r.Page? ==> r.keys != [])
            && (r.Page? && r.cursor != 0 ==> r.cursor in n.sessions && n.sessions[r.cursor].position < |n.sessions[r.cursor].keys|)
  {
    CursorSingleUse(m, lim, cursor, turn.match_, turn.count, turn.now, turn.token);
    hide Unexpired;
    hide Total;
  }

  // ---- a traversal that is looked after completes ---------------------------------------------

  /** Conditions on a script of turns alone, for a session last used at an instant:
      our turns ask for some keys, under the same pattern, with a token to be had,
      each within the time to live of the last; nothing that others do comes later
      than that; they neither clear nor present our cursor. */
  predicate Attended(turns: seq<Turn>, lim: Limits, cursor: nat, pattern: Bytes, used: Time)
    decreases |turns|
  {
    turns == [] ||
    match turns[0]
    case Other(call) =>
      && !call.Clear? && call.now < used + lim.ttl && (call.Continue? ==> call.cursor != cursor)
      && Attended(turns[1..], lim, cursor, pattern, used)
    case Mine(p, count, now, token) =>
      && count > 0 && token.Some? && now < used + lim.ttl && (p.Some? ==> p.value == pattern)
      && Attended(turns[1..], lim, token.value, pattern, now)
  }

  function OurTurns(turns: seq<Turn>): nat {
    if turns == [] then 0 else (if turns[0].Mine? then 1 else 0) + OurTurns(turns[1..])
  }

  /** A session in time that a call does not present is untouched by it. */
  lemma OtherKeepsOurs(m: Manager, lim: Limits, cursor: nat, call: Call)
    requires Sound(m, lim) && Legal(m, lim, call) && !call.Clear? && InTime(m, lim, cursor, call.now)
    requires call.token != Some(cursor) && (call.Continue? ==> call.cursor != cursor)
    ensures var n := DoCall(m, lim, call).0;
            cursor in n.sessions && n.sessions[cursor] == m.sessions[cursor]
  {
    hide Unexpired;
    hide Total;
    hide Charge;
    UnexpiredExact(m, lim, call.now, cursor);
  }

  /** Completion: as many turns of ours as there are keys to go bring them all,
      whatever others do that does not touch our session. */
  lemma {:induction false} TraversalCompletes(m: Manager, lim: Limits, cursor: nat, turns: seq<Turn>)
    requires Sound(m, lim) && Fair(m, lim, cursor, turns) && cursor in m.sessions
    requires Attended(turns, lim, cursor, m.sessions[cursor].pattern, m.sessions[cursor].lastUsed)
    requires OurTurns(turns) >= |m.sessions[cursor].keys| - m.sessions[cursor].position
    ensures var s := m.sessions[cursor];
            s.position < |s.keys| && Collected(m, lim, cursor, turns) == Some(s.keys[s.position..])
    decreases |turns|
  {
    hide Sound;
    hide Legal;
    hide Fair;
    hide Collected;
    hide DoCall;
    SoundPositions(m, lim);
    var s := m.sessions[cursor];
    assert turns != [];
    var turn, call := turns[0], CallOf(turns[0], cursor);
    var (n, r) := DoCall(m, lim, call);
    CollectedUnfolds(m, lim, cursor, turns);
    if turn.Other? {
      OtherKeepsOurs(m, lim, cursor, call);
      TraversalCompletes(n, lim, cursor, turns[1..]);
    } else {
      MineAnswers(m, lim, cursor, turn);
      if |s.keys| > s.position + turn.count {
        TraversalCompletes(n, lim, turn.token.value, turns[1..]);
        assert s.keys[s.position..] == s.keys[s.position..s.position + turn.count] + s.keys[s.position + turn.count..];
      }
    }
  }

  /** A turn of ours that comes in time. */
  lemma MineAnswers(m: Manager, lim: Limits, cursor: nat, turn: Turn)
    requires Sound(m, lim) && turn.Mine? && turn.token.Some? && InTime(m, lim, cursor, turn.now) && Legal(m, lim, CallOf(turn, cursor))
    requires turn.match_.Some? ==> turn.match_.value == m.sessions[cursor].pattern
    ensures m.sessions[cursor].position < |m.sessions[cursor].keys|
    ensures var s, (n, r) := m.sessions[cursor], DoCall(m, lim, CallOf(turn, cursor));
            if |s.keys| <= s.position + turn.count then r == Page(0, s.keys[s.position..])
            else
              && turn.token.value != 0 && r == Page(turn.token.value, s.keys[s.position..s.position + turn.count])
              && turn.token.value in n.sessions
              && n.sessions[turn.token.value] == s.(position := s.position + turn.count, lastUsed := turn.now)
  {
    hide Unexpired;
    hide NextCall;
    NextAnswers(m, lim, cursor, turn.match_, turn.count, turn.now, turn.token);
  }

  /** One turn of a traversal: whose it was and what it gave. */
  lemma CollectedUnfolds(m: Manager, lim: Limits, cursor: nat, turns: seq<Turn>)
    requires Sound(m, lim) && Fair(m, lim, cursor, turns) && turns != []
    ensures var call := CallOf(turns[0], cursor);
            var (n, r) := DoCall(m, lim, call);
            var next := if turns[0].Mine? && r.Page? && r.cursor != 0 then r.cursor else cursor;
            && Legal(m, lim, call) && Sound(n, lim) && Fair(n, lim, next, turns[1..])
            && (turns[0].Other? && !call.Clear? ==> call.token != Some(cursor))
            && var rest := Collected(n, lim, next, turns[1..]);
               Collected(m, lim, cursor, turns) ==
               if turns[0].Mine? && r.Page? && r.cursor == 0 then Some(r.keys)
               else if turns[0].Mine? && r.Page? && rest.Some? then Some(r.keys + rest.value)
               else rest
  {
    hide Sound;
    hide Legal;
    hide DoCall;
    CallSound(m, lim, CallOf(turns[0], cursor));
  }

  /** What the first page leaves: the rest behind its cursor. */
  lemma StartLeavesRest(m: Manager, lim: Limits, keys: seq<Bytes>, capacity: nat, pattern: Bytes, count: nat, now: Time, token: Option<nat>)
    requires Sound(m, lim) && Usable(Unexpired(m, lim, now).sessions, token)
    ensures var (n, r) := StartCall(m, lim, keys, capacity, pattern, count, now, token);
            && Sound(n, lim)
            && (r.Page? && r.cursor == 0 ==> r.keys == keys)
            && (r.Page? && r.cursor != 0 ==>
                  && r.keys < keys && keys == r.keys + keys[|r.keys|..] && ToGo(n, r.cursor, keys[|r.keys|..])
                  && r.cursor in n.sessions && n.sessions[r.cursor].keys == keys && n.sessions[r.cursor].position == |r.keys|
                  && n.sessions[r.cursor].pattern == pattern && n.sessions[r.cursor].lastUsed == now)
  {
    hide Unexpired;
    hide Total;
    hide Sound;
    hide Charge;
    StartSound(m, lim, keys, capacity, pattern, count, now, token);
  }

  /** From the first page on: a traversal that reaches 0 returns every captured
      key once, in order; with positive counts it does so by the time it has had
      as many pages as there were keys to go; and one that is looked after does. */
  lemma WholeTraversal(m: Manager, lim: Limits, keys: seq<Bytes>, capacity: nat, pattern: Bytes, count: nat, now: Time, token: Option<nat>, turns: seq<Turn>)
    requires Sound(m, lim) && Usable(Unexpired(m, lim, now).sessions, token)
    ensures var (n, r) := StartCall(m, lim, keys, capacity, pattern, count, now, token);
            && Sound(n, lim)
            && (r.Page? && r.cursor == 0 ==> r.keys == keys)
            && (r.Page? && r.cursor != 0 && Fair(n, lim, r.cursor, turns) ==>
                  && (Collected(n, lim, r.cursor, turns).Some? ==> r.keys + Collected(n, lim, r.cursor, turns).value == keys)
                  && (Eager(turns) ==>
                        && Pages(n, lim, r.cursor, turns) <= |keys| - |r.keys|
                        && (Pages(n, lim, r.cursor, turns) == |keys| - |r.keys| ==> Collected(n, lim, r.cursor, turns).Some?))
                  && (Attended(turns, lim, r.cursor, pattern, now) && OurTurns(turns) >= |keys| - |r.keys| ==>
                        Collected(n, lim, r.cursor, turns).Some?))
  {
    hide Attended;
    hide OurTurns;
    hide Unexpired;
    hide StartCall;
    hide Sound;
    hide Usable;
    hide Fair;
    hide Collected;
    hide Pages;
    hide ToGo;
    hide Eager;
    StartLeavesRest(m, lim, keys, capacity, pattern, count, now, token);
    var (n, r) := StartCall(m, lim, keys, capacity, pattern, count, now, token);
    if r.Page? && r.cursor != 0 && Fair(n, lim, r.cursor, turns) {
      var rest := keys[|r.keys|..];
      if Collected(n, lim, r.cursor, turns).Some? { TraversalExact(n, lim, r.cursor, turns, rest); }
      if Eager(turns) { TraversalProgress(n, lim, r.cursor, turns, rest); }
      if Attended(turns, lim, r.cursor, pattern, now) && OurTurns(turns) >= |rest| { TraversalCompletes(n, lim, r.cursor, turns); }
    }
  }
}
