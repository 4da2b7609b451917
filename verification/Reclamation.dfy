/** What clients can tell about reclamation. Expired keys are dropped without a
    trace in any reply, with one exception: SCAN 0 charges its session for room
    for every key the store holds, expired ones included
    (internal/store/store.go, internal/engine/scan_sessions.go), so whether it is
    refused for lack of bytes can depend on what was reclaimed before. */
module Reclamation {
  import opened Bytes
  import opened Store
  import opened Aof
  import opened Log
  import opened Engine
  import opened Mirror
  import opened Sessions
  import opened Discovery

  // ---- one SCAN 0 ------------------------------------------------------------------------

  /** What SCAN 0 hands to the session manager. */
  datatype Taken = Taken(keys: seq<Bytes>, capacity: nat, pattern: Bytes, now: Time)

  ghost function TakenFrom(db: Db, given: Option<Bytes>, now: Time): Taken {
    Taken(ListOf(db, PatternOf(given), now), |db.data|, PatternOf(given), now)
  }

  ghost function Open(m: Manager, lim: Limits, t: Taken, count: nat, token: Option<nat>): (Manager, Page) {
    StartCall(m, lim, t.keys, t.capacity, t.pattern, count, t.now, token)
  }

  /** Refused for bytes, where neither a single page nor the number of sessions
      decides. */
  ghost predicate NoRoom(m: Manager, lim: Limits, t: Taken, count: nat) {
    var e := Unexpired(m, lim, t.now);
    && PageEnd(0, |t.keys|, count) < |t.keys| && |e.sessions| < lim.maxSessions
    && !Fits(e, lim, Charge(t.keys, t.capacity, t.pattern))
  }

  /** Two stores that show the same, one manager: the pages agree if and only if
      everything fits the first page, or the sessions are at their number, or
      the two charges both fit or both do not. */
  lemma ScanStartAgrees(a: Db, b: Db, m: Manager, lim: Limits, given: Option<Bytes>, count: nat, now: Time, token: Option<nat>)
    requires a.Live(now) == b.Live(now)
    ensures var x, y := TakenFrom(a, given, now), TakenFrom(b, given, now);
            var e, keys, p := Unexpired(m, lim, now), x.keys, PatternOf(given);
            && y.keys == keys
            && (Open(m, lim, x, count, token).1 == Open(m, lim, y, count, token).1 <==>
                  || PageEnd(0, |keys|, count) == |keys|
                  || |e.sessions| >= lim.maxSessions
                  || (Fits(e, lim, Charge(keys, |a.data|, p)) <==> Fits(e, lim, Charge(keys, |b.data|, p))))
  {
    hide Unexpired;
    hide ListOf;
    hide Charge;
    AnswersUnique(ListOf(a, PatternOf(given), now), ListOf(b, PatternOf(given), now), a.Live(now).data.Keys, PatternOf(given));
  }

  // ---- an input that shows it ----------------------------------------------------------------

  function Name(i: nat): Bytes
    requires i < 0x100_0000
  {
    [i / 0x1_0000, i / 0x100 % 0x100, i % 0x100]
  }

  lemma NamesDiffer(i: nat, j: nat)
    requires i < j < 0x100_0000
    ensures Name(i) != Name(j)
  {
    assert i == i / 0x1_0000 * 0x1_0000 + i / 0x100 % 0x100 * 0x100 + i % 0x100;
    assert j == j / 0x1_0000 * 0x1_0000 + j / 0x100 % 0x100 * 0x100 + j % 0x100;
  }

  ghost function Dead(n: nat): set<Bytes>
    requires n <= 0x100_0000
  {
    if n == 0 then {} else Dead(n - 1) + {Name(n - 1)}
  }

  lemma {:induction false} DeadCount(n: nat)
    requires n <= 0x100_0000
    ensures |Dead(n)| == n
    ensures forall k :: k in Dead(n) ==> |k| == 3 && exists i: nat :: i < n && Name(i) == k
  {
    if n > 0 {
      DeadCount(n - 1);
      if Name(n - 1) in Dead(n - 1) {
        var i: nat :| i < n - 1 && Name(i) == Name(n - 1);
        NamesDiffer(i, n - 1);
        assert false;
      }
    }
  }

  const ONE: Bytes := [1]
  const TWO: Bytes := [2]

  /** Two keys that live on, and some that expired at instant 0. */
  ghost function Crowded(dead: set<Bytes>): Db {
    Db(map k | k in {ONE, TWO} + dead :: [], map k | k in dead :: 0)
  }

  /** Only the two can be seen, whatever else is held. */
  lemma CrowdedShows(dead: set<Bytes>)
    requires forall k :: k in dead ==> |k| == 3
    ensures |Crowded(dead).data| == |dead| + 2
    ensures Crowded(dead).Live(1).data.Keys == {ONE, TWO}
    ensures Crowded(dead).Without(dead).Live(1) == Crowded(dead).Live(1)
    ensures |Crowded(dead).Without(dead).data| == 2
    ensures forall k :: k in dead ==> Crowded(dead).Expired(k, 1)
  {
    var db := Crowded(dead);
    assert db.data.Keys == {ONE, TWO} + dead && {ONE, TWO} !! dead;
    assert |{ONE, TWO}| == 2;
    assert db.Live(1).data.Keys == {ONE, TWO};
    assert db.Without(dead).data.Keys == {ONE, TWO};
    WithoutInvisible(db, dead, 1);
  }

  lemma TwoListed(db: Db)
    requires db.Live(1).data.Keys == {ONE, TWO}
    ensures TakenFrom(db, None, 1) == Taken([ONE, TWO], |db.data|, [STAR], 1)
  {
    hide ListOf;
    ListOfAll(db, 1);
    var list := ListOf(db, PatternOf(None), 1);
    assert Le(ONE, TWO);
    hide Le;
    ListingMultiset(list, [ONE, TWO], {ONE, TWO});
    SortedUnique(list, [ONE, TWO]);
  }

  lemma OpenTwo(capacity: nat)
    ensures Open(Manager(map[], 0), DEFAULT_SESSION_LIMITS, Taken([ONE, TWO], capacity, [STAR], 1), 1, Some(7)).1
            == if capacity <= 8_388_603 then Page(7, [ONE]) else Err(SessionLimit)
  {
    var none := Manager(map[], 0);
    assert Unexpired(none, DEFAULT_SESSION_LIMITS, 1) == none;
    hide Unexpired;
    assert [ONE, TWO][..1] == [ONE];
    assert KeyBytes([ONE]) == 1;
  }

  /** With the default limits and no session open, SCAN 0 COUNT 1 on two live keys
      gives the first of them exactly when at most 8388601 expired keys are still
      held, and always once they are reclaimed. */
  lemma ReclamationShows(n: nat)
    requires n <= 0x100_0000
    ensures var held, reclaimed, none := Crowded(Dead(n)), Crowded(Dead(n)).Without(Dead(n)), Manager(map[], 0);
            && held.Live(1) == reclaimed.Live(1)
            && (forall k :: k in Dead(n) ==> held.Expired(k, 1))
            && Open(none, DEFAULT_SESSION_LIMITS, TakenFrom(held, None, 1), 1, Some(7)).1
               == (if n <= 8_388_601 then Page(7, [ONE]) else Err(SessionLimit))
            && Open(none, DEFAULT_SESSION_LIMITS, TakenFrom(reclaimed, None, 1), 1, Some(7)).1 == Page(7, [ONE])
  {
    hide TakenFrom;
    hide Open;
    hide Dead;
    hide Crowded;
    DeadCount(n);
    var held := Crowded(Dead(n));
    CrowdedShows(Dead(n));
    TwoListed(held);
    TwoListed(held.Without(Dead(n)));
    OpenTwo(n + 2);
    OpenTwo(2);
  }

  // ---- runs --------------------------------------------------------------------------------------

  /** The engine, the session manager, and the lists of SCANs between their two
      locks. */
  datatype World = World(eng: Eng, m: Manager, taken: map<nat, Taken>)

  /** A SCAN 0 takes its list under the engine's lock and later brings it to the
      manager, with whatever happened in between; a SCAN with a cursor is one
      call. A token is the one the source settles on, if the call comes to it. */
  datatype Event =
    | Client(op: Op, now: Time, gate: Option<Gate>)
    | Take(id: nat, given: Option<Bytes>, now: Time)
    | Bring(id: nat, count: nat, token: Option<nat>)
    | Resume(cursor: nat, given: Option<Bytes>, count: nat, now: Time, token: Option<nat>)
    | Wipe
    | Reclaim(now: Time, gone: set<Bytes>)
    | Drain

  function Instant(ev: Event, clock: Time): Time {
    match ev
    case Client(_, now, _) => now
    case Take(_, _, now) => now
    case Resume(_, _, _, now, _) => now
    case Reclaim(now, _) => now
    case _ => clock
  }

  /** Instants never go back, only expired keys are ever reclaimed, and a list is
      brought after it was taken. */
  predicate Possible(w: World, clock: Time, ev: Event) {
    && clock <= Instant(ev, clock)
    && (ev.Reclaim? ==> forall k :: k in ev.gone ==> w.eng.db.Expired(k, ev.now))
    && (ev.Bring? ==> ev.id in w.taken)
  }

  ghost function After(w: World, lim: Limits, ev: Event): World
    requires Positioned(w.m) && (ev.Bring? ==> ev.id in w.taken)
  {
    match ev
    case Client(op, now, gate) => w.(eng := w.eng.(db := Perform(w.eng, gate, op, now).db))
    case Take(id, given, now) => w.(taken := w.taken[id := TakenFrom(w.eng.db, given, now)])
    case Bring(id, count, token) => w.(m := Open(w.m, lim, w.taken[id], count, token).0, taken := w.taken - {id})
    case Resume(cursor, given, count, now, token) => w.(m := NextCall(w.m, lim, cursor, given, count, now, token).0)
    case Wipe => w.(m := Manager(map[], 0))
    case Reclaim(_, gone) => w.(eng := w.eng.(db := w.eng.db.Without(gone)))
    case Drain => w.(eng := w.eng.(accepting := false))
  }

  lemma AfterPositioned(w: World, lim: Limits, ev: Event)
    requires Positioned(w.m) && (ev.Bring? ==> ev.id in w.taken)
    ensures Positioned(After(w, lim, ev).m)
  {
    hide Perform;
    hide Unexpired;
    hide Charge;
    match ev
    case Bring(id, _, _) => UnexpiredPositioned(w.m, lim, w.taken[id].now);
    case Resume(_, _, _, now, _) => UnexpiredPositioned(w.m, lim, now);
    case _ =>
  }

  ghost predicate Feasible(w: World, lim: Limits, clock: Time, evs: seq<Event>)
    requires Positioned(w.m)
    decreases |evs|
  {
    evs == [] ||
    (Possible(w, clock, evs[0]) &&
     (AfterPositioned(w, lim, evs[0]);
      Feasible(After(w, lim, evs[0]), lim, Instant(evs[0], clock), evs[1..])))
  }

  /** What a run shows: every reply, every page and every logged record. */
  datatype Shown = Answered(reply: Reply, logged: Option<Record>) | Paged(page: Page)

  ghost function ShownBy(w: World, lim: Limits, ev: Event): seq<Shown>
    requires Positioned(w.m) && (ev.Bring? ==> ev.id in w.taken)
  {
    match ev
    case Client(op, now, gate) => [Answered(Perform(w.eng, gate, op, now).reply, Perform(w.eng, gate, op, now).logged)]
    case Bring(id, count, token) => [Paged(Open(w.m, lim, w.taken[id], count, token).1)]
    case Resume(cursor, given, count, now, token) => [Paged(NextCall(w.m, lim, cursor, given, count, now, token).1)]
    case _ => []
  }

  ghost function Show(w: World, lim: Limits, clock: Time, evs: seq<Event>): seq<Shown>
    requires Positioned(w.m) && Feasible(w, lim, clock, evs)
    decreases |evs|
  {
    if evs == [] then []
    else
      AfterPositioned(w, lim, evs[0]);
      ShownBy(w, lim, evs[0]) + Show(After(w, lim, evs[0]), lim, Instant(evs[0], clock), evs[1..])
  }

  /** For every list brought, in order, whether bytes refuse it. */
  ghost function Refusals(w: World, lim: Limits, clock: Time, evs: seq<Event>): seq<bool>
    requires Positioned(w.m) && Feasible(w, lim, clock, evs)
    decreases |evs|
  {
    if evs == [] then []
    else
      AfterPositioned(w, lim, evs[0]);
      var rest := Refusals(After(w, lim, evs[0]), lim, Instant(evs[0], clock), evs[1..]);
      if evs[0].Bring? then [NoRoom(w.m, lim, w.taken[evs[0].id], evs[0].count)] + rest else rest
  }

  function WithoutReclaims(evs: seq<Event>): seq<Event> {
    if evs == [] then []
    else if evs[0].Reclaim? then WithoutReclaims(evs[1..])
    else [evs[0]] + WithoutReclaims(evs[1..])
  }

  // ---- worlds that differ by reclamation ----------------------------------------------------------

  /** The same sessions under the same cursors, charged differently. */
  predicate SameButBytes(m: Manager, n: Manager) {
    && m.sessions.Keys == n.sessions.Keys
    && forall t :: t in m.sessions ==> m.sessions[t].(bytes := 0) == n.sessions[t].(bytes := 0)
  }

  /** The same lists, taken with different room. */
  predicate SameButRoom(x: map<nat, Taken>, y: map<nat, Taken>) {
    x.Keys == y.Keys && forall i :: i in x ==> x[i].(capacity := 0) == y[i].(capacity := 0)
  }

  ghost predicate Alike(v: World, w: World, now: Time) {
    && v.eng.db.Wf() && w.eng.db.Wf() && v.eng.db.Live(now) == w.eng.db.Live(now)
    && v.eng.accepting == w.eng.accepting
    && SameButBytes(v.m, w.m) && SameButRoom(v.taken, w.taken)
  }

  lemma UnexpiredAlike(m: Manager, n: Manager, lim: Limits, now: Time)
    requires SameButBytes(m, n)
    ensures SameButBytes(Unexpired(m, lim, now), Unexpired(n, lim, now))
    ensures |Unexpired(m, lim, now).sessions| == |Unexpired(n, lim, now).sessions|
  {
    hide Total;
    assert forall t :: t in m.sessions ==> m.sessions[t].lastUsed == n.sessions[t].lastUsed;
    assert Unexpired(m, lim, now).sessions.Keys == Unexpired(n, lim, now).sessions.Keys;
  }

  /** Bringing the same list with different room to managers that differ in bytes:
      the pages agree if and only if bytes refuse both or neither. */
  lemma OpenAlike(m: Manager, n: Manager, lim: Limits, x: Taken, y: Taken, count: nat, token: Option<nat>)
    requires SameButBytes(m, n) && x.(capacity := 0) == y.(capacity := 0)
    ensures Open(m, lim, x, count, token).1 == Open(n, lim, y, count, token).1 <==>
            (NoRoom(m, lim, x, count) <==> NoRoom(n, lim, y, count))
    ensures (NoRoom(m, lim, x, count) <==> NoRoom(n, lim, y, count)) ==>
            SameButBytes(Open(m, lim, x, count, token).0, Open(n, lim, y, count, token).0)
  {
    UnexpiredAlike(m, n, lim, x.now);
    hide Unexpired;
    hide Charge;
    assert x.keys == y.keys && x.pattern == y.pattern && x.now == y.now;
  }

  lemma NextAlike(m: Manager, n: Manager, lim: Limits, cursor: nat, given: Option<Bytes>, count: nat, now: Time, token: Option<nat>)
    requires SameButBytes(m, n) && Positioned(m) && Positioned(n)
    ensures var p, q := NextCall(m, lim, cursor, given, count, now, token), NextCall(n, lim, cursor, given, count, now, token);
            p.1 == q.1 && SameButBytes(p.0, q.0)
  {
    hide Unexpired;
    hide SameButBytes;
    var e, f := Unexpired(m, lim, now), Unexpired(n, lim, now);
    UnexpiredAlike(m, n, lim, now);
    CursorsAlike(e, f, cursor);
    UnexpiredPositioned(m, lim, now);
    if cursor in e.sessions {
      var s, r := e.sessions[cursor], f.sessions[cursor];
      var end := PageEnd(s.position, |s.keys|, count);
      MoveAlike(e, f, cursor, e.bytes - s.bytes, f.bytes - r.bytes);
      if token.Some? { RotateAlike(e, f, cursor, token.value, s.(position := end, lastUsed := now), r.(position := end, lastUsed := now)); }
    }
  }

  lemma CursorsAlike(e: Manager, f: Manager, cursor: nat)
    requires SameButBytes(e, f)
    ensures cursor in e.sessions <==> cursor in f.sessions
    ensures cursor in e.sessions ==> e.sessions[cursor].(bytes := 0) == f.sessions[cursor].(bytes := 0)
  {
  }

  lemma UnexpiredPositioned(m: Manager, lim: Limits, now: Time)
    requires Positioned(m)
    ensures Positioned(Unexpired(m, lim, now))
  {
    hide Total;
  }

  lemma MoveAlike(e: Manager, f: Manager, cursor: nat, x: int, y: int)
    requires SameButBytes(e, f)
    ensures SameButBytes(Manager(e.sessions - {cursor}, x), Manager(f.sessions - {cursor}, y))
  {
  }

  lemma RotateAlike(e: Manager, f: Manager, cursor: nat, token: nat, s: Session, r: Session)
    requires SameButBytes(e, f) && s.(bytes := 0) == r.(bytes := 0)
    ensures SameButBytes(Manager((e.sessions - {cursor})[token := s], e.bytes), Manager((f.sessions - {cursor})[token := r], f.bytes))
  {
  }

  /** Whether bytes decide an event differently. */
  ghost predicate Differs(v: World, w: World, lim: Limits, ev: Event)
    requires ev.Bring? ==> ev.id in v.taken && ev.id in w.taken
  {
    ev.Bring? && NoRoom(v.m, lim, v.taken[ev.id], ev.count) != NoRoom(w.m, lim, w.taken[ev.id], ev.count)
  }

  /** One event that is not a reclamation, in worlds alike when it happens: both
      show the same if and only if bytes decide the same, and are alike after. */
  lemma StepAlike(v: World, w: World, lim: Limits, ev: Event, now: Time)
    requires Alike(v, w, now) && !ev.Reclaim? && now == Instant(ev, now) && Positioned(v.m) && Positioned(w.m)
    requires ev.Bring? ==> ev.id in v.taken && ev.id in w.taken
    ensures ShownBy(v, lim, ev) == ShownBy(w, lim, ev) <==> !Differs(v, w, lim, ev)
    ensures |ShownBy(v, lim, ev)| == |ShownBy(w, lim, ev)|
    ensures !Differs(v, w, lim, ev) ==> Alike(After(v, lim, ev), After(w, lim, ev), now)
  {
    hide Perform;
    hide NoRoom;
    hide Open;
    hide NextCall;
    hide Positioned;
    hide TakenFrom;
    hide SameButBytes;
    hide Db.Live;
    match ev
    case Client(op, t, gate) => PerformSame(v.eng, w.eng, gate, op, t);
    case Take(_, given, t) => TakeAlike(v.eng.db, w.eng.db, given, t);
    case Bring(id, count, token) => OpenAlike(v.m, w.m, lim, v.taken[id], w.taken[id], count, token);
    case Resume(cursor, given, count, t, token) => NextAlike(v.m, w.m, lim, cursor, given, count, t, token);
    case Wipe => NoneAlike();
    case Drain =>
  }

  lemma NoneAlike()
    ensures SameButBytes(Manager(map[], 0), Manager(map[], 0))
  {
  }

  lemma TakeAlike(a: Db, b: Db, given: Option<Bytes>, now: Time)
    requires a.Live(now) == b.Live(now)
    ensures TakenFrom(a, given, now).(capacity := 0) == TakenFrom(b, given, now).(capacity := 0)
  {
    hide ListOf;
    var p := PatternOf(given);
    AnswersUnique(ListOf(a, p, now), ListOf(b, p, now), a.Live(now).data.Keys, p);
  }

  lemma AlikeLater(v: World, w: World, now: Time, later: Time)
    requires Alike(v, w, now) && now <= later
    ensures Alike(v, w, later)
  {
    LiveLater(v.eng.db, now, later);
    LiveLater(w.eng.db, now, later);
  }

  lemma ReclaimAlike(v: World, w: World, lim: Limits, ev: Event, clock: Time, now: Time)
    requires Alike(v, w, now) && ev.Reclaim? && Possible(v, clock, ev) && ev.now <= now && Positioned(v.m)
    ensures Alike(After(v, lim, ev), w, now) && ShownBy(v, lim, ev) == []
  {
    WithoutInvisible(v.eng.db, ev.gone, now);
  }

  lemma AlikeSymmetric(v: World, w: World, now: Time)
    requires Alike(v, w, now)
    ensures Alike(w, v, now)
  {
  }

  /** Reclamation shows exactly in the refusals of SCAN: two runs from worlds that
      are alike, with the same client events at the same instants, whatever each
      reclaims and when, give the same replies, pages and records if and only if
      bytes refuse the same lists in both. */
  lemma {:induction false} RunsAgree(v: World, w: World, lim: Limits, c: Time, d: Time, evs: seq<Event>, others: seq<Event>)
    requires Alike(v, w, Max(c, d)) && Positioned(v.m) && Positioned(w.m)
    requires Feasible(v, lim, c, evs) && Feasible(w, lim, d, others)
    requires WithoutReclaims(evs) == WithoutReclaims(others)
    ensures Show(v, lim, c, evs) == Show(w, lim, d, others) <==> Refusals(v, lim, c, evs) == Refusals(w, lim, d, others)
    decreases |evs| + |others|
  {
    hide Alike;
    hide After;
    hide ShownBy;
    hide NoRoom;
    hide Positioned;
    if evs != [] && evs[0].Reclaim? {
      var t := Instant(evs[0], c);
      AlikeLater(v, w, Max(c, d), Max(t, d));
      ReclaimAlike(v, w, lim, evs[0], c, Max(t, d));
      AfterPositioned(v, lim, evs[0]);
      RunsAgree(After(v, lim, evs[0]), w, lim, t, d, evs[1..], others);
    } else if others != [] && others[0].Reclaim? {
      var t := Instant(others[0], d);
      AlikeLater(v, w, Max(c, d), Max(c, t));
      AlikeSymmetric(v, w, Max(c, t));
      ReclaimAlike(w, v, lim, others[0], d, Max(c, t));
      AfterPositioned(w, lim, others[0]);
      AlikeSymmetric(After(w, lim, others[0]), v, Max(c, t));
      RunsAgree(v, After(w, lim, others[0]), lim, c, t, evs, others[1..]);
    } else if evs != [] {
      assert WithoutReclaims(evs)[0] == evs[0] && WithoutReclaims(evs)[1..] == WithoutReclaims(evs[1..]);
      assert WithoutReclaims(others)[0] == others[0] && WithoutReclaims(others)[1..] == WithoutReclaims(others[1..]);
      var ev, s, t := evs[0], Instant(evs[0], c), Instant(evs[0], d);
      AlikeLater(v, w, Max(c, d), Max(s, t));
      StepAlike(v, w, lim, ev, Max(s, t));
      AfterPositioned(v, lim, ev);
      AfterPositioned(w, lim, ev);
      var x, y := After(v, lim, ev), After(w, lim, ev);
      Cancel(ShownBy(v, lim, ev), Show(x, lim, s, evs[1..]), ShownBy(w, lim, ev), Show(y, lim, t, others[1..]));
      if !Differs(v, w, lim, ev) {
        RunsAgree(x, y, lim, s, t, evs[1..], others[1..]);
      }
      RefusalsStep(v, w, lim, c, d, evs, others);
    }
  }

  lemma Cancel<T>(p: seq<T>, a: seq<T>, q: seq<T>, b: seq<T>)
    requires |p| == |q|
    ensures p + a == q + b <==> p == q && a == b
  {
    assert (p + a)[..|p|] == p && (p + a)[|p|..] == a;
    assert (q + b)[..|q|] == q && (q + b)[|q|..] == b;
  }

  lemma RefusalsStep(v: World, w: World, lim: Limits, c: Time, d: Time, evs: seq<Event>, others: seq<Event>)
    requires Positioned(v.m) && Positioned(w.m) && Feasible(v, lim, c, evs) && Feasible(w, lim, d, others)
    requires evs != [] && others != [] && evs[0] == others[0]
    ensures var ev := evs[0];
            Refusals(v, lim, c, evs) == Refusals(w, lim, d, others) <==>
            && !Differs(v, w, lim, ev)
            && (AfterPositioned(v, lim, ev);
                AfterPositioned(w, lim, ev);
                Refusals(After(v, lim, ev), lim, Instant(ev, c), evs[1..]) == Refusals(After(w, lim, ev), lim, Instant(ev, d), others[1..]))
  {
    hide NoRoom;
    hide After;
    var ev := evs[0];
    AfterPositioned(v, lim, ev);
    AfterPositioned(w, lim, ev);
    if ev.Bring? {
      Cancel([NoRoom(v.m, lim, v.taken[ev.id], ev.count)], Refusals(After(v, lim, ev), lim, Instant(ev, c), evs[1..]),
             [NoRoom(w.m, lim, w.taken[ev.id], ev.count)], Refusals(After(w, lim, ev), lim, Instant(ev, d), others[1..]));
    }
  }

  /** From one world: reclamation shows exactly in which SCANs bytes refuse. */
  lemma ReclamationObserved(w: World, lim: Limits, clock: Time, evs: seq<Event>, others: seq<Event>)
    requires w.eng.db.Wf() && Positioned(w.m) && Feasible(w, lim, clock, evs) && Feasible(w, lim, clock, others)
    requires WithoutReclaims(evs) == WithoutReclaims(others)
    ensures Show(w, lim, clock, evs) == Show(w, lim, clock, others) <==> Refusals(w, lim, clock, evs) == Refusals(w, lim, clock, others)
  {
    RunsAgree(w, w, lim, clock, clock, evs, others);
  }

  // ---- when it cannot show --------------------------------------------------------------------------

  /** An equal share of the bytes for every session allowed. */
  function Share(lim: Limits): nat {
    if lim.maxSessions == 0 then 0 else lim.maxBytes / lim.maxSessions
  }

  ghost predicate Modest(m: Manager, lim: Limits) {
    forall t :: t in m.sessions ==> m.sessions[t].bytes <= Share(lim)
  }

  /** No list brought along the run is charged more than its share. */
  ghost predicate ModestRun(w: World, lim: Limits, clock: Time, evs: seq<Event>)
    requires Positioned(w.m) && Feasible(w, lim, clock, evs)
    decreases |evs|
  {
    evs == [] ||
    (&& (evs[0].Bring? ==> var t := w.taken[evs[0].id]; Charge(t.keys, t.capacity, t.pattern) <= Share(lim))
     && (AfterPositioned(w, lim, evs[0]);
         ModestRun(After(w, lim, evs[0]), lim, Instant(evs[0], clock), evs[1..])))
  }

  lemma {:induction false} TotalBound(sessions: map<nat, Session>, share: nat)
    requires forall t :: t in sessions ==> sessions[t].bytes <= share
    ensures Total(sessions) <= |sessions| * share
    decreases sessions.Keys
  {
    if sessions != map[] {
      var t :| t in sessions;
      TotalSplit(sessions, t);
      hide Total;
      var rest := sessions - {t};
      assert rest.Keys == sessions.Keys - {t};
      TotalBound(rest, share);
      OneMore(|rest|, share);
    }
  }

  lemma OneMore(n: nat, share: nat)
    ensures (n + 1) * share == n * share + share
  {
  }

  /** Fewer shares than are allowed, and one more, are within the whole. */
  lemma SharesFit(n: nat, lim: Limits)
    requires n < lim.maxSessions
    ensures n * Share(lim) + Share(lim) <= lim.maxBytes
  {
    var share := Share(lim);
    assert (n + 1) * share <= lim.maxSessions * share;
    assert lim.maxSessions * share <= lim.maxBytes;
  }

  lemma ModestHasRoom(m: Manager, lim: Limits, t: Taken, count: nat)
    requires Modest(m, lim) && Charge(t.keys, t.capacity, t.pattern) <= Share(lim)
    ensures !NoRoom(m, lim, t, count)
  {
    var e, share := Unexpired(m, lim, t.now), Share(lim);
    TotalBound(e.sessions, share);
    assert e.bytes == Total(e.sessions);
    hide Unexpired;
    hide Charge;
    hide Share;
    if |e.sessions| < lim.maxSessions { SharesFit(|e.sessions|, lim); }
  }

  lemma ModestStep(w: World, lim: Limits, ev: Event)
    requires Positioned(w.m) && Modest(w.m, lim)
    requires ev.Bring? ==> ev.id in w.taken && Charge(w.taken[ev.id].keys, w.taken[ev.id].capacity, w.taken[ev.id].pattern) <= Share(lim)
    ensures Modest(After(w, lim, ev).m, lim)
  {
    hide Total;
    hide Charge;
    hide Share;
    hide Perform;
  }

  /** One refusal verdict per list brought, all of them no. */
  function AllFit(evs: seq<Event>): seq<bool> {
    if evs == [] then []
    else if evs[0].Bring? then [false] + AllFit(evs[1..])
    else AllFit(evs[1..])
  }

  lemma {:induction false} AllFitReclaims(evs: seq<Event>)
    ensures AllFit(WithoutReclaims(evs)) == AllFit(evs)
  {
    if evs != [] {
      AllFitReclaims(evs[1..]);
      if !evs[0].Reclaim? { assert WithoutReclaims(evs)[1..] == WithoutReclaims(evs[1..]); }
    }
  }

  lemma {:induction false} ModestFits(w: World, lim: Limits, clock: Time, evs: seq<Event>)
    requires Positioned(w.m) && Feasible(w, lim, clock, evs) && ModestRun(w, lim, clock, evs)
    requires AllFit(evs) != [] ==> Modest(w.m, lim)
    ensures Refusals(w, lim, clock, evs) == AllFit(evs)
    decreases |evs|
  {
    hide Positioned;
    hide Modest;
    hide Charge;
    hide NoRoom;
    hide After;
    if evs != [] {
      var ev := evs[0];
      if Modest(w.m, lim) { ModestStep(w, lim, ev); }
      AfterPositioned(w, lim, ev);
      ModestFits(After(w, lim, ev), lim, Instant(ev, clock), evs[1..]);
      if ev.Bring? { ModestHasRoom(w.m, lim, w.taken[ev.id], ev.count); }
    }
  }

  /** Reclamation is unobservable as long as no snapshot is charged more than an
      equal share of the bytes, and in any run that starts no SCAN. */
  lemma ReclamationUnobservable(w: World, lim: Limits, clock: Time, evs: seq<Event>, others: seq<Event>)
    requires w.eng.db.Wf() && Positioned(w.m) && Feasible(w, lim, clock, evs) && Feasible(w, lim, clock, others)
    requires WithoutReclaims(evs) == WithoutReclaims(others)
    requires ModestRun(w, lim, clock, evs) && ModestRun(w, lim, clock, others)
    requires AllFit(evs) != [] ==> Modest(w.m, lim)
    ensures Show(w, lim, clock, evs) == Show(w, lim, clock, others)
  {
    hide Modest;
    hide Positioned;
    ReclamationObserved(w, lim, clock, evs, others);
    AllFitReclaims(evs);
    AllFitReclaims(others);
    ModestFits(w, lim, clock, evs);
    ModestFits(w, lim, clock, others);
  }
}
