/** The session manager as an object: the same calls, updating its map and its
    counter in place. */
module SessionManager {
  import opened Bytes
  import opened Store
  import opened Sessions

  datatype Draw = Token(n: nat) | NoEntropy

  /** Where tokens come from; the draws still to come. */
  class TokenSource {
    var draws: seq<Draw>

    method Take() returns (d: Draw)
      requires draws != []
      modifies this
      ensures d == old(draws)[0] && draws == old(draws)[1..]
    {
      d := draws[0];
      draws := draws[1..];
    }
  }

  /** Whether a draw ends nextTokenLocked's loop. */
  predicate Settles(d: Draw, sessions: map<nat, Session>) {
    d.NoEntropy? || (d.n != 0 && d.n !in sessions)
  }

  /** The source is fair to a set of sessions: some draw to come settles. */
  predicate FairTo(draws: seq<Draw>, sessions: map<nat, Session>) {
    exists i :: 0 <= i < |draws| && Settles(draws[i], sessions)
  }

  class ScanSessions {
    var sessions: map<nat, Session>
    var bytes: int
    const limits: Limits
    const source: TokenSource

    ghost function Model(): Manager
      reads this
    {
      Manager(sessions, bytes)
    }

    ghost predicate Valid()
      reads this
    {
      Sound(Model(), limits)
    }

    constructor (source: TokenSource, limits: Limits)
      ensures Valid() && Model() == Manager(map[], 0) && this.source == source && this.limits == limits
    {
      sessions, bytes := map[], 0;
      this.source := source;
      this.limits := limits;
    }

    method RemoveLocked(token: nat, session: Session)
      modifies this
      ensures sessions == old(sessions) - {token} && bytes == old(bytes) - session.bytes
    {
      sessions := sessions - {token};
      bytes := bytes - session.bytes;
    }

    method ExpireLocked(now: Time)
      requires Valid()
      modifies this
      ensures Valid() && Model() == Unexpired(old(Model()), limits, now)
    {
      UnexpiredSound(Model(), limits, now);
      assert bytes == Total(sessions);
      hide Total;
      hide Sound;
      var todo := sessions.Keys;
      ghost var was := sessions;
      while todo != {}
        invariant todo <= was.Keys && bytes == Total(sessions)
        invariant forall t :: t in sessions <==> t in was && (t in todo || !Lapsed(was[t], limits, now))
        invariant forall t :: t in sessions ==> sessions[t] == was[t]
      {
        var token :| token in todo;
        todo := todo - {token};
        var session := sessions[token];
        if !(now < session.lastUsed + limits.ttl) {
          TotalSplit(sessions, token);
          RemoveLocked(token, session);
        }
      }
      assert sessions == Unexpired(old(Model()), limits, now).sessions;
      assert Model() == Unexpired(old(Model()), limits, now);
    }

    method NextTokenLocked() returns (token: Option<nat>)
      requires FairTo(source.draws, sessions)
      modifies source
      ensures Usable(sessions, token)
      ensures exists k :: 0 <= k < |old(source.draws)|
                && source.draws == old(source.draws)[k + 1..]
                && token == (if old(source.draws)[k].NoEntropy? then None else Some(old(source.draws)[k].n))
                && forall i :: 0 <= i < k ==> !Settles(old(source.draws)[i], sessions)
    {
      ghost var all, k := source.draws, 0;
      while true
        invariant 0 <= k < |all| && source.draws == all[k..] && FairTo(source.draws, sessions)
        invariant forall i :: 0 <= i < k ==> !Settles(all[i], sessions)
        decreases |all| - k
      {
        ghost var i :| 0 <= i < |source.draws| && Settles(source.draws[i], sessions);
        var d := source.Take();
        assert d == all[k];
        if d.NoEntropy? { return None; }
        if d.n == 0 || d.n in sessions {
          assert source.draws[i - 1] == all[k..][i];
          k := k + 1;
          continue;
        }
        return Some(d.n);
      }
    }

    /** start: exactly StartCall with the token the source settled on. */
    method Start(keys: seq<Bytes>, capacity: nat, pattern: Bytes, count: nat, now: Time)
      returns (r: Page, ghost token: Option<nat>)
      requires Valid() && (StartDraws(Model(), limits, keys, capacity, pattern, count, now) ==> FairTo(source.draws, sessions))
      modifies this, source
      ensures Valid() && Usable(Unexpired(old(Model()), limits, now).sessions, token)
      ensures (Model(), r) == StartCall(old(Model()), limits, keys, capacity, pattern, count, now, token)
    {
      hide Unexpired;
      hide Total;
      hide Charge;
      token := None;
      if FairTo(source.draws, sessions) { FairToFewer(source.draws, Model(), limits, now); }
      ExpireLocked(now);
      var end := PageEnd(0, |keys|, count);
      if end == |keys| { return Page(0, keys), token; }
      var retained := SessionBytes(keys, capacity, pattern);
      if |sessions| >= limits.maxSessions || retained > limits.maxBytes || bytes > limits.maxBytes - retained {
        return Err(SessionLimit), token;
      }
      var drawn := NextTokenLocked();
      token := drawn;
      StartSound(old(Model()), limits, keys, capacity, pattern, count, now, token);
      if drawn == None { return Err(TokenFailure), token; }
      sessions := sessions[drawn.value := Session(keys, pattern, end, now, retained)];
      bytes := bytes + retained;
      return Page(drawn.value, keys[..end]), token;
    }

    /** next: exactly NextCall with the token the source settled on. */
    method Next(cursor: nat, pattern: Option<Bytes>, count: nat, now: Time)
      returns (r: Page, ghost token: Option<nat>)
      requires Valid() && (NextDraws(Model(), limits, cursor, pattern, count, now) ==> FairTo(source.draws, sessions))
      modifies this, source
      ensures Valid() && Usable(Unexpired(old(Model()), limits, now).sessions, token)
      ensures (Model(), r) == NextCall(old(Model()), limits, cursor, pattern, count, now, token)
    {
      hide Unexpired;
      hide Total;
      hide FairTo;
      hide Sound;
      token := None;
      if FairTo(source.draws, sessions) { FairToFewer(source.draws, Model(), limits, now); }
      SoundPositions(Model(), limits);
      ExpireLocked(now);
      SoundPositions(Model(), limits);
      NextSound(old(Model()), limits, cursor, pattern, count, now, None);
      if cursor !in sessions { return Err(InvalidCursor), token; }
      var session := sessions[cursor];
      if pattern.Some? && pattern.value != session.pattern { return Err(MatchChanged), token; }
      var end := PageEnd(session.position, |session.keys|, count);
      var page := session.keys[session.position..end];
      if end == |session.keys| {
        RemoveLocked(cursor, session);
        assert page == session.keys[session.position..];
        return Page(0, page), token;
      }
      var drawn := NextTokenLocked();
      token := drawn;
      NextSound(old(Model()), limits, cursor, pattern, count, now, token);
      if drawn == None { return Err(TokenFailure), token; }
      sessions := sessions - {cursor};
      sessions := sessions[drawn.value := session.(position := end, lastUsed := now)];
      return Page(drawn.value, page), token;
    }

    method Clear()
      modifies this
      ensures Model() == Manager(map[], 0) && Valid()
    {
      sessions, bytes := map[], 0;
    }

    lemma FairToFewer(draws: seq<Draw>, m: Manager, lim: Limits, now: Time)
      requires FairTo(draws, m.sessions)
      ensures FairTo(draws, Unexpired(m, lim, now).sessions)
    {
      var i :| 0 <= i < |draws| && Settles(draws[i], m.sessions);
      assert Settles(draws[i], Unexpired(m, lim, now).sessions);
    }
  }
}
