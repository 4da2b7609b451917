/** Connection handlers, shutdown and scan sessions (internal/server/server.go):
    a handler may outlive the shutdown's patience and still be in a command when
    shutdown clears the sessions. */
module Lifecycle {
  import opened Sessions

  /** The connections after one asks to be admitted, and whether one that leaves
      must clear the sessions: shared by the object and the interleaving below. */
  function Admitted(conns: set<nat>, conn: nat, maxClients: nat): set<nat> {
    if |conns| >= maxClients then conns else conns + {conn}
  }

  predicate MustClear(conns: set<nat>, conn: nat, draining: bool) {
    conn in conns && conns - {conn} == {} && draining
  }

  /** A new connection is admitted below the limit and only there, and nobody else
      is affected. */
  lemma AdmissionExact(conns: set<nat>, conn: nat, maxClients: nat)
    requires conn !in conns
    ensures conn in Admitted(conns, conn, maxClients) <==> |conns| < maxClients
    ensures forall c :: c != conn ==> (c in Admitted(conns, conn, maxClients) <==> c in conns)
  {
  }

  /** The last to leave while draining, and nobody else, must clear. */
  lemma ClearingExact(conns: set<nat>, conn: nat, draining: bool)
    ensures MustClear(conns, conn, draining) <==> draining && conns == {conn}
  {
  }

  /** The connection set and its counter, under the server's mutex. */
  class Connections {
    var conns: set<nat>
    var nClient: nat
    var draining: bool
    const maxClients: nat

    ghost predicate Valid()
      reads this
    {
      nClient == |conns|
    }

    /** admit: registered, or refused over the limit. */
    method Admit(conn: nat) returns (ok: bool)
      requires Valid() && conn !in conns
      modifies this
      ensures Valid() && draining == old(draining)
      ensures conns == Admitted(old(conns), conn, maxClients) && ok == (conn in conns)
    {
      if nClient >= maxClients { return false; }
      nClient := nClient + 1;
      conns := conns + {conn};
      return true;
    }

    /** releaseConn under the mutex: whether this handler must clear the sessions. */
    method Release(conn: nat) returns (clear: bool)
      requires Valid()
      modifies this
      ensures Valid() && conns == old(conns) - {conn} && draining == old(draining)
      ensures clear == MustClear(old(conns), conn, draining)
    {
      clear := false;
      if conn in conns {
        conns := conns - {conn};
        nClient := nClient - 1;
        clear := nClient == 0 && draining;
      }
    }
  }

  // ---- the interleaving ----------------------------------------------------------------------

  /** A handler: at the top of its loop, inside a command, out of its loop, past
      the release section (having to clear or not), finished. */
  datatype Handler = AtTop | InCommand | Leaving | Released(clear: bool) | Gone

  datatype Stage = Working | Draining | Returned

  datatype Server = Server(handlers: map<nat, Handler>, sessions: Manager, stage: Stage, maxClients: nat)

  function Registered(s: Server): set<nat> {
    set c | c in s.handlers && (s.handlers[c] == AtTop || s.handlers[c] == InCommand || s.handlers[c] == Leaving)
  }

  datatype Event =
    | Admit(c: nat)
    | LookAtDrain(c: nat)
    | Scan(c: nat, call: Call)
    | EndCommand(c: nat, leave: bool)
    | Release(c: nat)
    | ClearAfter(c: nat)
    | StartDraining
    | ClearAndReturn

  predicate At(s: Server, c: nat, h: Handler) {
    c in s.handlers && s.handlers[c] == h
  }

  ghost predicate CanHappen(s: Server, lim: Limits, ev: Event) {
    match ev
    case Admit(c) => c !in s.handlers
    case LookAtDrain(c) => At(s, c, AtTop)
    case Scan(c, call) => At(s, c, InCommand) && Legal(s.sessions, lim, call) && !call.Clear?
    case EndCommand(c, _) => At(s, c, InCommand)
    case Release(c) => At(s, c, Leaving)
    case ClearAfter(c) => c in s.handlers && s.handlers[c].Released?
    case StartDraining => s.stage == Working
    case ClearAndReturn => s.stage == Draining
  }

  ghost function Happen(s: Server, lim: Limits, ev: Event): Server
    requires CanHappen(s, lim, ev) && Positioned(s.sessions)
  {
    match ev
    case Admit(c) => if c in Admitted(Registered(s), c, s.maxClients) then s.(handlers := s.handlers[c := AtTop]) else s
    case LookAtDrain(c) => s.(handlers := s.handlers[c := if s.stage == Working then InCommand else Leaving])
    case Scan(c, call) => s.(sessions := DoCall(s.sessions, lim, call).0)
    case EndCommand(c, leave) => s.(handlers := s.handlers[c := if leave then Leaving else AtTop])
    case Release(c) =>
      s.(handlers := s.handlers[c := Released(MustClear(Registered(s), c, s.stage != Working))])
    case ClearAfter(c) =>
      s.(handlers := s.handlers[c := Gone],
         sessions := if s.handlers[c].clear then Manager(map[], 0) else s.sessions)
    case StartDraining => s.(stage := Stage.Draining)
    case ClearAndReturn => s.(stage := Returned, sessions := Manager(map[], 0))
  }

  /** Somebody is still going to clear: shutdown has not, a handler is still
      registered, or one has left with the duty to. */
  ghost predicate Pending(s: Server) {
    || s.stage != Returned
    || Registered(s) != {}
    || exists c :: c in s.handlers && s.handlers[c] == Released(true)
  }

  ghost predicate Inv(s: Server, lim: Limits) {
    && Sound(s.sessions, lim)
    && (s.sessions != Manager(map[], 0) ==> Pending(s))
    && |Registered(s)| <= s.maxClients
  }

  lemma RegisteredAfter(s: Server, c: nat, h: Handler)
    ensures var t := s.(handlers := s.handlers[c := h]);
            Registered(t) == if h.Released? || h.Gone? then Registered(s) - {c} else Registered(s) + {c}
  {
  }

  /** The invariant survives a change of one handler that keeps it registered, or
      that leaves with the duty to clear if it was the last. */
  lemma HandlerMoves(s: Server, lim: Limits, c: nat, h: Handler)
    requires Inv(s, lim)
    requires c in Registered(s)
    requires h == AtTop || h == InCommand || h == Leaving
             || h == Released(MustClear(Registered(s), c, s.stage != Working))
    ensures Inv(s.(handlers := s.handlers[c := h]), lim)
  {
    hide Sound;
    RegisteredAfter(s, c, h);
    var t := s.(handlers := s.handlers[c := h]);
    if h.Released? {
      assert Registered(t) == Registered(s) - {c};
      assert t.handlers[c] == h;
    } else {
      assert Registered(t) == Registered(s);
    }
  }

  /** The registered handlers are a connection set that the object's methods move:
      admission and release change it as they do, and nothing else does. */
  lemma RegisteredFollows(s: Server, lim: Limits, ev: Event)
    requires CanHappen(s, lim, ev) && Positioned(s.sessions)
    ensures Registered(Happen(s, lim, ev)) ==
            match ev
            case Admit(c) => Admitted(Registered(s), c, s.maxClients)
            case Release(c) => Registered(s) - {c}
            case _ => Registered(s)
    ensures ev.Release? ==>
              Happen(s, lim, ev).handlers[ev.c] == Released(MustClear(Registered(s), ev.c, s.stage != Working))
  {
    hide DoCall;
  }

  lemma EventKeeps(s: Server, lim: Limits, ev: Event)
    requires Inv(s, lim) && CanHappen(s, lim, ev)
    ensures Inv(Happen(s, lim, ev), lim)
  {
    hide Sound;
    hide DoCall;
    hide Pending;
    match ev
    case Admit(c) => if |Registered(s)| < s.maxClients { AdmitKeeps(s, lim, c); }
    case LookAtDrain(c) => HandlerMoves(s, lim, c, if s.stage == Working then InCommand else Leaving);
    case Scan(c, call) => ScanKeeps(s, lim, c, call);
    case EndCommand(c, leave) => HandlerMoves(s, lim, c, if leave then Leaving else AtTop);
    case Release(c) => HandlerMoves(s, lim, c, Released(MustClear(Registered(s), c, s.stage != Working)));
    case ClearAfter(c) => ClearKeeps(s, lim, c);
    case StartDraining => StageKeeps(s, lim, ev);
    case ClearAndReturn => StageKeeps(s, lim, ev);
  }

  lemma ScanKeeps(s: Server, lim: Limits, c: nat, call: Call)
    requires Inv(s, lim) && CanHappen(s, lim, Scan(c, call))
    ensures Inv(Happen(s, lim, Scan(c, call)), lim)
  {
    CallSound(s.sessions, lim, call);
    hide Sound;
    hide DoCall;
    assert c in Registered(s);
    assert Registered(Happen(s, lim, Scan(c, call))) == Registered(s);
  }

  lemma StageKeeps(s: Server, lim: Limits, ev: Event)
    requires Inv(s, lim) && CanHappen(s, lim, ev) && (ev.StartDraining? || ev.ClearAndReturn?)
    ensures Inv(Happen(s, lim, ev), lim)
  {
    assert Registered(Happen(s, lim, ev)) == Registered(s);
  }

  lemma AdmitKeeps(s: Server, lim: Limits, c: nat)
    requires Inv(s, lim) && c !in s.handlers && |Registered(s)| < s.maxClients
    ensures Inv(s.(handlers := s.handlers[c := AtTop]), lim)
  {
    RegisteredAfter(s, c, AtTop);
    assert c in Registered(s.(handlers := s.handlers[c := AtTop]));
  }

  lemma ClearKeeps(s: Server, lim: Limits, c: nat)
    requires Inv(s, lim) && c in s.handlers && s.handlers[c].Released?
    ensures Inv(Happen(s, lim, ClearAfter(c)), lim)
  {
    var t := Happen(s, lim, ClearAfter(c));
    RegisteredAfter(s, c, Gone);
    assert Registered(t) == Registered(s);
    if !s.handlers[c].clear && s.sessions != Manager(map[], 0) && s.stage == Returned && Registered(s) == {} {
      var d :| d in s.handlers && s.handlers[d] == Released(true);
      assert t.handlers[d] == Released(true);
    }
  }

  // ---- no clearing before its time ------------------------------------------------------------

  /** Before draining nobody has the duty to clear. */
  ghost predicate Early(s: Server) {
    s.stage == Working && forall c :: c in s.handlers ==> s.handlers[c] != Released(true)
  }

  /** While the server works, only SCAN changes the sessions. */
  lemma WorkingStep(s: Server, lim: Limits, ev: Event)
    requires CanHappen(s, lim, ev) && Positioned(s.sessions) && Early(s)
    ensures var t := Happen(s, lim, ev);
            t.stage == Working ==> Early(t) && (!ev.Scan? ==> t.sessions == s.sessions)
  {
    hide DoCall;
  }

  /** Once draining, no handler begins another command. */
  lemma NoCommandAfterDrain(s: Server, lim: Limits, ev: Event, c: nat)
    requires CanHappen(s, lim, ev) && Positioned(s.sessions) && s.stage != Working
    ensures At(Happen(s, lim, ev), c, InCommand) ==> At(s, c, InCommand)
    ensures Happen(s, lim, ev).stage != Working
  {
    hide DoCall;
  }

  // ---- runs ------------------------------------------------------------------------------------

  ghost predicate IsRun(s: Server, lim: Limits, evs: seq<Event>)
    requires Inv(s, lim)
    decreases |evs|
  {
    evs == [] ||
    (CanHappen(s, lim, evs[0]) &&
     (EventKeeps(s, lim, evs[0]);
      IsRun(Happen(s, lim, evs[0]), lim, evs[1..])))
  }

  ghost function Run(s: Server, lim: Limits, evs: seq<Event>): (t: Server)
    requires Inv(s, lim) && IsRun(s, lim, evs)
    ensures Inv(t, lim)
    decreases |evs|
  {
    if evs == [] then s
    else
      EventKeeps(s, lim, evs[0]);
      Run(Happen(s, lim, evs[0]), lim, evs[1..])
  }

  function Init(maxClients: nat): Server {
    Server(map[], Manager(map[], 0), Working, maxClients)
  }

  /** In every interleaving of handlers with shutdown: once shutdown has returned
      and every handler has released its connection, no session and no retained
      byte remains. */
  lemma NoSessionOutlivesShutdown(maxClients: nat, lim: Limits, evs: seq<Event>)
    requires IsRun(Init(maxClients), lim, evs)
    ensures var t := Run(Init(maxClients), lim, evs);
            && |Registered(t)| <= maxClients
            && (t.stage == Returned && (forall c :: c in t.handlers ==> t.handlers[c] == Gone) ==>
                  t.sessions == Manager(map[], 0))
  {
    var t := Run(Init(maxClients), lim, evs);
    LimitKept(Init(maxClients), lim, evs);
    if forall c :: c in t.handlers ==> t.handlers[c] == Gone { assert Registered(t) == {}; }
  }

  /** So connections coming and going leave every client's traversal alone. */
  lemma {:induction false} SessionsOutliveConnections(s: Server, lim: Limits, evs: seq<Event>)
    requires Inv(s, lim) && Early(s) && IsRun(s, lim, evs) && Run(s, lim, evs).stage == Working
    requires forall i :: 0 <= i < |evs| ==> !evs[i].Scan?
    ensures Run(s, lim, evs).sessions == s.sessions
    decreases |evs|
  {
    hide Happen;
    hide CanHappen;
    if evs != [] {
      EventKeeps(s, lim, evs[0]);
      StageForward(Happen(s, lim, evs[0]), lim, evs[1..]);
      WorkingStep(s, lim, evs[0]);
      SessionsOutliveConnections(Happen(s, lim, evs[0]), lim, evs[1..]);
    }
  }

  /** Draining is not taken back. */
  lemma {:induction false} StageForward(s: Server, lim: Limits, evs: seq<Event>)
    requires Inv(s, lim) && IsRun(s, lim, evs)
    ensures Run(s, lim, evs).stage == Working ==> s.stage == Working
    decreases |evs|
  {
    if evs != [] {
      EventKeeps(s, lim, evs[0]);
      StageForward(Happen(s, lim, evs[0]), lim, evs[1..]);
    }
  }

  lemma {:induction false} LimitKept(s: Server, lim: Limits, evs: seq<Event>)
    requires Inv(s, lim) && IsRun(s, lim, evs)
    ensures Run(s, lim, evs).maxClients == s.maxClients
    decreases |evs|
  {
    if evs != [] {
      EventKeeps(s, lim, evs[0]);
      LimitKept(Happen(s, lim, evs[0]), lim, evs[1..]);
    }
  }
}
