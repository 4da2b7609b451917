/** The passive key-value store (internal/store/store.go): two maps, and time as
    a parameter. A key is absent to callers from its deadline on, whether or not
    it has been physically removed. */
module Store {
  import opened Bytes

  /** Instants are integer nanoseconds since the Unix epoch. */
  type Time = int

  const MILLISECOND: int := 1_000_000

  /** time.UnixMilli(t.UnixMilli()): what a deadline becomes in a log record. */
  function FloorMs(t: Time): Time {
    t / MILLISECOND * MILLISECOND
  }

  lemma FloorMsBounds(t: Time)
    ensures FloorMs(t) <= t < FloorMs(t) + MILLISECOND
    ensures FloorMs(FloorMs(t)) == FloorMs(t)
  {
  }

  datatype Remaining = NoKey | NoTTL | HasTTL(left: int)

  datatype Db = Db(data: map<Bytes, Bytes>, expires: map<Bytes, Time>) {

    /** Deadlines belong to keys that are held. */
    predicate Wf() {
      expires.Keys <= data.Keys
    }

    predicate Expired(k: Bytes, now: Time) {
      k in expires && expires[k] <= now
    }

    function Get(k: Bytes, now: Time): Option<Bytes> {
      if Expired(k, now) || k !in data then None else Some(data[k])
    }

    function Deadline(k: Bytes): Option<Time> {
      if k in expires then Some(expires[k]) else None
    }

    function TTL(k: Bytes, now: Time): Remaining {
      if k !in data || Expired(k, now) then NoKey
      else if k !in expires then NoTTL
      else HasTTL(expires[k] - now)
    }

    function Put(k: Bytes, v: Bytes, deadline: Option<Time>): Db {
      Db(data[k := v], if deadline.Some? then expires[k := deadline.value] else expires - {k})
    }

    function Without(keys: set<Bytes>): Db {
      Db(data - keys, expires - keys)
    }

    /** The keys, values and deadlines that callers can see at an instant. */
    function Live(now: Time): Db {
      Db(map k | k in data && !Expired(k, now) :: data[k],
         map k | k in expires && now < expires[k] :: expires[k])
    }

    /** The same keys with deadlines as the log keeps them. */
    function Floor(): Db {
      Db(data, map k | k in expires :: FloorMs(expires[k]))
    }
  }

  const EMPTY: Db := Db(map[], map[])

  // ---- what callers can see ---------------------------------------------------

  /** What can be seen later is decided by what can be seen now. */
  lemma LiveLater(db: Db, now: Time, later: Time)
    requires now <= later
    ensures db.Live(now).Live(later) == db.Live(later)
  {
  }

  /** Every question a caller can ask is answered by the visible part. */
  lemma LiveAnswers(db: Db, k: Bytes, now: Time)
    ensures db.Live(now).Get(k, now) == db.Get(k, now)
    ensures db.Wf() ==> db.Live(now).TTL(k, now) == db.TTL(k, now)
    ensures db.Wf() ==> db.Live(now).Wf()
    ensures db.Get(k, now).Some? <==> k in db.Live(now).data
    ensures db.Get(k, now).Some? ==> db.Live(now).Deadline(k) == db.Deadline(k)
  {
  }

  /** With no deadlines recorded, any instant gives the same answers. */
  lemma TimelessWithoutDeadlines(db: Db, s: Time, t: Time)
    requires db.expires == map[]
    ensures db.Live(s) == db.Live(t) == db
  {
    assert db.Live(s).data == db.data && db.Live(t).data == db.data;
    assert db.Live(s).expires == db.expires && db.Live(t).expires == db.expires;
  }

  predicate AliveAt(deadline: Option<Time>, now: Time) {
    deadline.Some? ==> now < deadline.value
  }

  lemma PutAlive(db: Db, k: Bytes, v: Bytes, deadline: Option<Time>, now: Time)
    requires AliveAt(deadline, now)
    ensures db.Put(k, v, deadline).Live(now) == db.Live(now).Put(k, v, deadline)
  {
    var lhs, rhs := db.Put(k, v, deadline).Live(now), db.Live(now).Put(k, v, deadline);
    assert lhs.data == rhs.data;
    assert lhs.expires == rhs.expires;
  }

  lemma PutDead(db: Db, k: Bytes, v: Bytes, deadline: Option<Time>, now: Time)
    requires !AliveAt(deadline, now)
    ensures db.Put(k, v, deadline).Live(now) == db.Live(now).Without({k})
  {
    var lhs, rhs := db.Put(k, v, deadline).Live(now), db.Live(now).Without({k});
    assert lhs.data == rhs.data;
    assert lhs.expires == rhs.expires;
  }

  lemma PutLive(db: Db, k: Bytes, v: Bytes, deadline: Option<Time>, now: Time)
    requires db.Wf()
    ensures db.Put(k, v, deadline).Wf()
    ensures db.Put(k, v, deadline).Live(now) ==
            if AliveAt(deadline, now) then db.Live(now).Put(k, v, deadline) else db.Live(now).Without({k})
  {
    if AliveAt(deadline, now) {
      PutAlive(db, k, v, deadline, now);
    } else {
      PutDead(db, k, v, deadline, now);
    }
  }

  lemma WithoutLive(db: Db, keys: set<Bytes>, now: Time)
    ensures db.Without(keys).Live(now) == db.Live(now).Without(keys)
    ensures db.Wf() ==> db.Without(keys).Wf()
  {
    var lhs, rhs := db.Without(keys).Live(now), db.Live(now).Without(keys);
    assert lhs.data == rhs.data;
    assert lhs.expires == rhs.expires;
  }

  /** Removing only what is already invisible changes nothing visible. */
  lemma WithoutInvisible(db: Db, keys: set<Bytes>, now: Time)
    requires db.Wf() && forall k :: k in keys ==> db.Get(k, now) == None
    ensures db.Without(keys).Live(now) == db.Live(now) && db.Without(keys).Wf()
  {
    var lhs, rhs := db.Without(keys).Live(now), db.Live(now);
    assert lhs.data == rhs.data;
    assert lhs.expires == rhs.expires;
  }

  // ---- deadlines as the log keeps them ------------------------------------------

  lemma PutFloor(db: Db, k: Bytes, v: Bytes, deadline: Option<Time>)
    ensures db.Put(k, v, deadline).Floor() ==
            db.Floor().Put(k, v, if deadline.Some? then Some(FloorMs(deadline.value)) else None)
    ensures db.Wf() ==> db.Floor().Wf()
  {
    assert db.Put(k, v, deadline).Floor().expires ==
           db.Floor().Put(k, v, if deadline.Some? then Some(FloorMs(deadline.value)) else None).expires;
  }

  lemma WithoutFloor(db: Db, keys: set<Bytes>)
    ensures db.Without(keys).Floor() == db.Floor().Without(keys)
  {
    assert db.Without(keys).Floor().expires == db.Floor().Without(keys).expires;
  }

  /** Flooring only brings expiry forward, so it sees no more than callers do. */
  lemma FloorHides(db: Db, k: Bytes, now: Time)
    requires db.Get(k, now) == None
    ensures db.Floor().Get(k, now) == None
  {
    if k in db.expires { FloorMsBounds(db.expires[k]); }
  }

  // ---- the store itself -----------------------------------------------------------

  class Store {
    var data: map<Bytes, Bytes>
    var expires: map<Bytes, Time>

    ghost function Model(): Db
      reads this
    {
      Db(data, expires)
    }

    ghost predicate Valid()
      reads this
    {
      Model().Wf()
    }

    constructor ()
      ensures Valid() && Model() == EMPTY
    {
      data, expires := map[], map[];
    }

    function Expired(key: Bytes, now: Time): (r: bool)
      reads this
      ensures r == Model().Expired(key, now)
    {
      key in expires && !(now < expires[key])
    }

    function Get(key: Bytes, now: Time): (r: Option<Bytes>)
      reads this
      ensures r == Model().Get(key, now)
    {
      if Expired(key, now) then None
      else if key in data then Some(data[key]) else None
    }

    method Set(key: Bytes, value: Bytes, expiresAt: Time, hasTTL: bool)
      requires Valid()
      modifies this
      ensures Valid()
      ensures Model() == old(Model()).Put(key, value, if hasTTL then Some(expiresAt) else None)
    {
      data := data[key := value];
      if hasTTL { expires := expires[key := expiresAt]; } else { expires := expires - {key}; }
    }

    method Delete(key: Bytes) returns (present: bool)
      requires Valid()
      modifies this
      ensures Valid() && Model() == old(Model()).Without({key})
      ensures present <==> key in old(data)
    {
      present := key in data;
      data := data - {key};
      expires := expires - {key};
    }

    method Expire(key: Bytes, expiresAt: Time, now: Time) returns (applied: bool)
      requires Valid()
      modifies this
      ensures Valid()
      ensures applied <==> old(Model()).Get(key, now).Some?
      ensures Model() == if applied then old(Model()).Put(key, old(data)[key], Some(expiresAt)) else old(Model())
    {
      if key !in data || Expired(key, now) { return false; }
      expires := expires[key := expiresAt];
      assert data == old(data)[key := old(data)[key]];
      return true;
    }

    method Persist(key: Bytes, now: Time) returns (removed: bool)
      requires Valid()
      modifies this
      ensures Valid()
      ensures removed <==> old(Model()).TTL(key, now).HasTTL?
      ensures Model() == if removed then old(Model()).Put(key, old(data)[key], None) else old(Model())
    {
      if key !in data || Expired(key, now) { return false; }
      if key !in expires { return false; }
      expires := expires - {key};
      assert data == old(data)[key := old(data)[key]];
      return true;
    }

    function TTL(key: Bytes, now: Time): (r: Remaining)
      reads this
      ensures r == Model().TTL(key, now)
    {
      if key !in data || Expired(key, now) then NoKey
      else if key !in expires then NoTTL
      else HasTTL(expires[key] - now)
    }

    function ExpiresAt(key: Bytes): (r: Option<Time>)
      reads this
      ensures r == Model().Deadline(key)
    {
      if key in expires then Some(expires[key]) else None
    }

    predicate HasExpirations()
      reads this
    {
      expires != map[]
    }

    method Len(now: Time) returns (n: nat)
      ensures n == |Model().Live(now).data|
    {
      n := 0;
      var todo := data.Keys;
      ghost var live := Model().Live(now).data.Keys;
      ghost var seen: set<Bytes> := {};
      while todo != {}
        invariant todo <= data.Keys && seen == live - todo && n == |seen|
      {
        var key :| key in todo;
        todo := todo - {key};
        if !Expired(key, now) {
          n := n + 1;
          seen := seen + {key};
        }
      }
      assert seen == live;
    }

    /** LiveKeys: every visible key once, in whatever order the map gives. */
    method LiveKeys(now: Time) returns (keys: seq<Bytes>)
      ensures Listing(keys, Model().Live(now).data.Keys)
    {
      keys := [];
      var todo := data.Keys;
      ghost var live := Model().Live(now).data.Keys;
      while todo != {}
        invariant todo <= data.Keys && Listing(keys, live - todo)
      {
        var key :| key in todo;
        todo := todo - {key};
        if !Expired(key, now) { keys := keys + [key]; }
      }
      assert live - todo == live;
    }

    /** One key examined: removed if its deadline has passed. */
    method ReclaimOne(key: Bytes, now: Time, ghost was: Db, ghost looked: set<Bytes>) returns (gone: bool)
      requires Valid() && key in was.expires && key !in looked && Model() == was.Without(Passed(was, looked, now))
      modifies this
      ensures Valid() && Model() == was.Without(Passed(was, looked + {key}, now))
      ensures |Passed(was, looked + {key}, now)| == |Passed(was, looked, now)| + if gone then 1 else 0
    {
      PassedMore(was, looked, key, now);
      gone := !(now < expires[key]);
      if gone { var _ := Delete(key); }
    }

    /** ReclaimExpired: at most limit deadlines are examined, in whatever order
        the map gives; of those, exactly the passed ones are removed. */
    method ReclaimExpired(now: Time, limit: int) returns (removed: nat, examined: nat, ghost looked: set<Bytes>)
      requires Valid()
      modifies this
      ensures Valid() && looked <= old(expires).Keys
      ensures Model() == old(Model()).Without(Passed(old(Model()), looked, now))
      ensures removed == |Passed(old(Model()), looked, now)|
      ensures examined == |looked| == if limit <= 0 then 0 else Min(limit, |old(expires)|)
      ensures forall k :: k in old(data) ==> (k in data <==> !(k in looked && k in old(expires) && old(expires)[k] <= now))
    {
      removed, examined, looked := 0, 0, {};
      ghost var was := Model();
      var todo := expires.Keys;
      PassedNone(was, now);
      hide Passed;
      while todo != {} && limit > 0
        invariant Valid() && Model() == was.Without(Passed(was, looked, now))
        invariant todo !! looked && todo + looked == was.expires.Keys
        invariant examined == |looked| <= Max(limit, 0)
        invariant removed == |Passed(was, looked, now)|
        decreases todo
      {
        if examined == limit { break; }
        var key :| key in todo;
        var gone := ReclaimOne(key, now, was, looked);
        todo, looked, examined := todo - {key}, looked + {key}, examined + 1;
        if gone { removed := removed + 1; }
      }
      assert |was.expires.Keys| == |todo| + |looked|;
    }
  }

  /** Of the keys looked at, those whose deadline has passed. */
  ghost function Passed(db: Db, looked: set<Bytes>, now: Time): set<Bytes> {
    set k | k in looked && db.Expired(k, now)
  }

  lemma PassedNone(db: Db, now: Time)
    ensures Passed(db, {}, now) == {} && db.Without({}) == db
  {
  }

  /** One more key looked at. */
  lemma PassedMore(db: Db, looked: set<Bytes>, key: Bytes, now: Time)
    requires key !in looked && key in db.expires
    ensures var gone, more := Passed(db, looked, now), Passed(db, looked + {key}, now);
            && key in db.Without(gone).expires && db.Without(gone).expires[key] == db.expires[key]
            && if db.Expired(key, now) then more == gone + {key} && |more| == |gone| + 1 && db.Without(more) == db.Without(gone).Without({key})
               else more == gone
  {
    var gone, more := Passed(db, looked, now), Passed(db, looked + {key}, now);
    assert key !in gone;
    if db.Expired(key, now) { assert more == gone + {key}; } else { assert more == gone; }
  }

  /** A list that names each member of a set once and nothing else. */
  ghost predicate Listing(keys: seq<Bytes>, s: set<Bytes>) {
    && (forall i, j :: 0 <= i < j < |keys| ==> keys[i] != keys[j])
    && (forall k :: k in keys <==> k in s)
  }
}
