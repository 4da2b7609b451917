/** KEYS and the first page of SCAN (internal/engine/discovery.go). One sorts a
    snapshot of the live keys and then filters it, the other filters first; both
    give the one sorted list of the keys live and matching at that instant. */
module Discovery {
  import opened Bytes
  import opened Store
  import Glob
  import opened Engine
  import opened Sessions
  import opened SessionManager

  // ---- bytewise order --------------------------------------------------------------------

  predicate Le(a: Bytes, b: Bytes) {
    if a == [] then true
    else if b == [] then false
    else if a[0] == b[0] then Le(a[1..], b[1..])
    else a[0] < b[0]
  }

  lemma {:induction false} LeTotal(a: Bytes, b: Bytes)
    ensures Le(a, b) || Le(b, a)
    ensures Le(a, b) && Le(b, a) ==> a == b
  {
    if a != [] && b != [] && a[0] == b[0] {
      LeTotal(a[1..], b[1..]);
      assert a == [a[0]] + a[1..] && b == [b[0]] + b[1..];
    }
  }

  lemma {:induction false} LeTransitive(a: Bytes, b: Bytes, c: Bytes)
    requires Le(a, b) && Le(b, c)
    ensures Le(a, c)
  {
    if a != [] && a[0] == b[0] && b[0] == c[0] { LeTransitive(a[1..], b[1..], c[1..]); }
  }

  /** Ascending, byte by byte: a comes first if it is where b begins, or has the
      smaller byte where they first differ. */
  lemma {:induction false} LeExact(a: Bytes, b: Bytes)
    ensures Le(a, b) <==> a <= b || exists i :: 0 <= i < |a| && i < |b| && a[..i] == b[..i] && a[i] < b[i]
  {
    if a != [] && b != [] {
      if a[0] == b[0] {
        LeExact(a[1..], b[1..]);
        assert a == [a[0]] + a[1..] && b == [b[0]] + b[1..];
        if i :| 0 <= i < |a[1..]| && i < |b[1..]| && a[1..][..i] == b[1..][..i] && a[1..][i] < b[1..][i] {
          assert a[..i + 1] == [a[0]] + a[1..][..i] && b[..i + 1] == [b[0]] + b[1..][..i];
          assert a[i + 1] < b[i + 1];
        }
        if i :| 0 <= i < |a| && i < |b| && a[..i] == b[..i] && a[i] < b[i] {
          assert a[1..][..i - 1] == a[..i][1..] && b[1..][..i - 1] == b[..i][1..];
          assert a[1..][i - 1] < b[1..][i - 1];
        }
      } else if a[0] < b[0] {
        assert a[..0] == b[..0];
      } else {
        FirstDiffers(a, b);
      }
    }
  }

  lemma FirstDiffers(a: Bytes, b: Bytes)
    requires a != [] && b != [] && a[0] > b[0]
    ensures !(a <= b) && !exists i :: 0 <= i < |a| && i < |b| && a[..i] == b[..i] && a[i] < b[i]
  {
    forall i | 0 < i < |a| && i < |b|
      ensures a[..i] != b[..i]
    {
      assert a[..i][0] != b[..i][0];
    }
  }

  predicate Sorted(xs: seq<Bytes>) {
    forall i, j :: 0 <= i < j < |xs| ==> Le(xs[i], xs[j])
  }

  /** The first of a sorted list is below every element. */
  lemma FirstIsLeast(a: seq<Bytes>, x: Bytes)
    requires Sorted(a) && x in a
    ensures Le(a[0], x)
  {
    var j :| 0 <= j < |a| && a[j] == x;
    if j == 0 { LeTotal(x, x); }
  }

  /** There is only one sorted arrangement of given elements, so which sorting
      algorithm is used does not matter. */
  lemma {:induction false} SortedUnique(a: seq<Bytes>, b: seq<Bytes>)
    requires Sorted(a) && Sorted(b) && multiset(a) == multiset(b)
    ensures a == b
    decreases |a|
  {
    hide Le;
    assert |a| == |multiset(a)| == |multiset(b)| == |b|;
    if a != [] {
      assert a[0] in multiset(b) && b[0] in multiset(a);
      FirstIsLeast(a, b[0]);
      FirstIsLeast(b, a[0]);
      LeTotal(a[0], b[0]);
      TailMultiset(a);
      TailMultiset(b);
      SortedUnique(a[1..], b[1..]);
      assert a == [a[0]] + a[1..] && b == [b[0]] + b[1..];
    }
  }

  lemma TailMultiset(a: seq<Bytes>)
    requires a != []
    ensures multiset(a[1..]) == multiset(a) - multiset{a[0]}
  {
    assert a == [a[0]] + a[1..];
  }

  function Insert(x: Bytes, xs: seq<Bytes>): seq<Bytes> {
    if xs == [] || Le(x, xs[0]) then [x] + xs else [xs[0]] + Insert(x, xs[1..])
  }

  /** sort.Strings. */
  function Sort(xs: seq<Bytes>): seq<Bytes> {
    if xs == [] then [] else Insert(xs[0], Sort(xs[1..]))
  }

  lemma {:induction false} InsertSorts(x: Bytes, xs: seq<Bytes>)
    requires Sorted(xs)
    ensures Sorted(Insert(x, xs)) && multiset(Insert(x, xs)) == multiset(xs) + multiset{x}
  {
    if xs == [] {
    } else if Le(x, xs[0]) {
      forall j | 0 <= j < |xs| ensures Le(x, xs[j]) { if j > 0 { LeTransitive(x, xs[0], xs[j]); } }
    } else {
      LeTotal(x, xs[0]);
      var rest := Insert(x, xs[1..]);
      InsertSorts(x, xs[1..]);
      assert xs == [xs[0]] + xs[1..];
      forall j | 0 <= j < |rest| ensures Le(xs[0], rest[j]) {
        assert rest[j] in multiset(rest);
        assert rest[j] == x || rest[j] in multiset(xs[1..]);
        if rest[j] != x {
          var i :| 0 <= i < |xs[1..]| && xs[1..][i] == rest[j];
          assert xs[i + 1] == rest[j];
        }
      }
    }
  }

  lemma {:induction false} SortSorts(xs: seq<Bytes>)
    ensures Sorted(Sort(xs)) && multiset(Sort(xs)) == multiset(xs)
  {
    if xs != [] {
      SortSorts(xs[1..]);
      InsertSorts(xs[0], Sort(xs[1..]));
      assert xs == [xs[0]] + xs[1..];
    }
  }

  // ---- filtering -----------------------------------------------------------------------------

  ghost function Filter(xs: seq<Bytes>, pattern: Bytes): seq<Bytes> {
    if xs == [] then []
    else
      var front, last := Filter(xs[..|xs| - 1], pattern), xs[|xs| - 1];
      if Glob.Matches(pattern, last) then front + [last] else front
  }

  lemma {:induction false} FilterCounts(xs: seq<Bytes>, pattern: Bytes)
    ensures forall k :: multiset(Filter(xs, pattern))[k] == if Glob.Matches(pattern, k) then multiset(xs)[k] else 0
  {
    if xs != [] {
      hide Glob.Matches;
      var front := xs[..|xs| - 1];
      FilterCounts(front, pattern);
      assert xs == front + [xs[|xs| - 1]];
    }
  }

  lemma {:induction false} FilterSorted(xs: seq<Bytes>, pattern: Bytes)
    requires Sorted(xs)
    ensures Sorted(Filter(xs, pattern))
    ensures forall k :: k in Filter(xs, pattern) ==> k in xs
  {
    if xs != [] {
      hide Glob.Matches;
      hide Le;
      var front := xs[..|xs| - 1];
      FilterSorted(front, pattern);
      var kept := Filter(front, pattern);
      forall j | 0 <= j < |kept|
        ensures kept[j] in xs && Le(kept[j], xs[|xs| - 1])
      {
        assert kept[j] in front;
        var i :| 0 <= i < |front| && front[i] == kept[j];
        assert xs[i] == kept[j];
      }
    }
  }

  lemma {:induction false} ListingMultiset(xs: seq<Bytes>, ys: seq<Bytes>, s: set<Bytes>)
    requires Listing(xs, s) && Listing(ys, s)
    ensures multiset(xs) == multiset(ys) == multiset(s)
  {
    ListingCounts(xs, s);
    ListingCounts(ys, s);
  }

  lemma {:induction false} ListingCounts(xs: seq<Bytes>, s: set<Bytes>)
    requires Listing(xs, s)
    ensures multiset(xs) == multiset(s)
  {
    if xs == [] {
      assert forall k :: k !in s;
    } else {
      var last, front := xs[|xs| - 1], xs[..|xs| - 1];
      assert xs == front + [last];
      assert forall i :: 0 <= i < |front| ==> front[i] == xs[i];
      ListingCounts(front, s - {last});
    }
  }

  /** The one answer: sorted, and exactly the members of the set that match. */
  ghost predicate Answers(keys: seq<Bytes>, s: set<Bytes>, pattern: Bytes) {
    Sorted(keys) && Listing(keys, set k | k in s && Glob.Matches(pattern, k))
  }

  lemma AnswersUnique(a: seq<Bytes>, b: seq<Bytes>, s: set<Bytes>, pattern: Bytes)
    requires Answers(a, s, pattern) && Answers(b, s, pattern)
    ensures a == b
  {
    ListingMultiset(a, b, set k | k in s && Glob.Matches(pattern, k));
    SortedUnique(a, b);
  }

  ghost function Listed(s: set<Bytes>): (xs: seq<Bytes>)
    ensures Listing(xs, s)
  {
    if s == {} then []
    else
      var k :| k in s;
      Listed(s - {k}) + [k]
  }

  /** The answer itself, for the keys live at an instant. */
  ghost function ListOf(db: Db, pattern: Bytes, now: Time): (keys: seq<Bytes>)
    ensures Answers(keys, db.Live(now).data.Keys, pattern)
  {
    var live := db.Live(now).data.Keys;
    KeysEqualsScan(Listed(live), Listed(live), live, pattern);
    Sort(Filter(Listed(live), pattern))
  }

  /** The pattern of a request: everything, unless MATCH was given. */
  function PatternOf(given: Option<Bytes>): Bytes {
    if given.Some? then given.value else [STAR]
  }

  /** Without MATCH the list is all live keys. */
  lemma ListOfAll(db: Db, now: Time)
    ensures Listing(ListOf(db, PatternOf(None), now), db.Live(now).data.Keys)
  {
    forall k
      ensures Glob.Matches([STAR], k)
    {
      StarMatchesAll(k);
    }
    hide Glob.Matches;
    hide ListOf;
    var live := db.Live(now).data.Keys;
    assert (set k | k in live && Glob.Matches([STAR], k)) == live;
  }

  lemma StarMatchesAll(v: Bytes)
    ensures Glob.Matches([STAR], v)
  {
    Glob.SuffixMatches([STAR], v, 0);
    Glob.StarsCollapse([STAR], 0, 1, v, 0);
    Glob.MatchesIffMatchFrom([STAR], v);
  }

  /** Sort-then-filter and filter-then-sort agree, from any two snapshots of the
      same set, and both are the one answer. */
  lemma KeysEqualsScan(xs: seq<Bytes>, ys: seq<Bytes>, s: set<Bytes>, pattern: Bytes)
    requires Listing(xs, s) && Listing(ys, s)
    ensures Filter(Sort(xs), pattern) == Sort(Filter(ys, pattern))
    ensures Answers(Filter(Sort(xs), pattern), s, pattern)
  {
    hide Glob.Matches;
    hide Filter;
    hide Sort;
    hide Sorted;
    hide Listing;
    ListingMultiset(xs, ys, s);
    SortSorts(xs);
    SortSorts(Filter(ys, pattern));
    FilterCounts(Sort(xs), pattern);
    FilterSorted(Sort(xs), pattern);
    FilterCounts(ys, pattern);
    var a, b := Filter(Sort(xs), pattern), Sort(Filter(ys, pattern));
    assert multiset(a) == multiset(b);
    SortedUnique(a, b);
    CountsListing(a, s, pattern);
  }

  lemma CountsListing(a: seq<Bytes>, s: set<Bytes>, pattern: Bytes)
    requires forall k :: multiset(a)[k] == if Glob.Matches(pattern, k) then multiset(s)[k] else 0
    ensures Listing(a, set k | k in s && Glob.Matches(pattern, k))
  {
    hide Glob.Matches;
    forall k
      ensures k in a <==> k in s && Glob.Matches(pattern, k)
    {
      assert k in a <==> k in multiset(a);
    }
    forall i, j | 0 <= i < j < |a|
      ensures a[i] != a[j]
    {
      if a[i] == a[j] {
        Twice(a, i, j);
        assert false;
      }
    }
  }

  lemma Twice(a: seq<Bytes>, i: nat, j: nat)
    requires i < j < |a| && a[i] == a[j]
    ensures multiset(a)[a[i]] >= 2
  {
    assert a == a[..i] + [a[i]] + a[i + 1..j] + [a[j]] + a[j + 1..];
  }

  // ---- the methods ----------------------------------------------------------------------------

  /** filterSnapshot: compaction in place, with the tail cleared. */
  method FilterSnapshot(keys: array<Bytes>, len: nat, pattern: Bytes) returns (n: nat)
    requires len <= keys.Length
    modifies keys
    ensures n <= len && keys[..n] == Filter(old(keys[..len]), pattern)
    ensures forall i :: n <= i < len ==> keys[i] == []
    ensures keys[len..] == old(keys[len..])
  {
    hide Glob.Matches;
    ghost var all := keys[..len];
    n := 0;
    var i := 0;
    while i < len
      invariant 0 <= n <= i <= len
      invariant keys[..n] == Filter(all[..i], pattern)
      invariant forall j :: i <= j < len ==> keys[j] == all[j]
      invariant keys[len..] == old(keys[len..])
    {
      var key := keys[i];
      var matched := Glob.Match(pattern, key);
      assert all[..i + 1][..i] == all[..i];
      if matched {
        keys[n] := key;
        n := n + 1;
      }
      i := i + 1;
    }
    assert all[..i] == all;
    ghost var kept := keys[..n];
    var j := n;
    while j < len
      invariant n <= j <= len
      invariant keys[..n] == kept && keys[len..] == old(keys[len..])
      invariant forall x :: n <= x < j ==> keys[x] == []
    {
      keys[j] := [];
      j := j + 1;
    }
  }

  method SortSnapshot(keys: array<Bytes>, len: nat)
    requires len <= keys.Length
    modifies keys
    ensures keys[..len] == Sort(old(keys[..len]))
    ensures keys[len..] == old(keys[len..])
  {
    var sorted := Sort(keys[..len]);
    SortSorts(keys[..len]);
    assert |sorted| == |multiset(sorted)| == |multiset(keys[..len])| == len;
    forall i | 0 <= i < len { keys[i] := sorted[i]; }
    assert keys[..len] == sorted;
  }

  /** A listing in a fresh array, as LiveKeys allocates it. */
  method Snapshot(store: Store, now: Time) returns (keys: array<Bytes>)
    ensures fresh(keys) && Listing(keys[..], store.Model().Live(now).data.Keys)
  {
    var listed := store.LiveKeys(now);
    keys := new Bytes[|listed|](i requires 0 <= i < |listed| => listed[i]);
    assert keys[..] == listed;
  }

  /** KEYS: the sorted list of the keys live now that match. */
  method Keys(e: Engine, pattern: Bytes, now: Time) returns (r: seq<Bytes>)
    requires e.store.Valid()
    ensures r == ListOf(e.store.Model(), pattern, now)
  {
    hide ListOf;
    var t := e.Clock(now);
    if e.store.Model().expires == map[] { TimelessWithoutDeadlines(e.store.Model(), t, now); }
    var keys := Snapshot(e.store, t);
    ghost var xs := keys[..];
    var n := keys.Length;
    assert keys[..n] == xs;
    SortSnapshot(keys, n);
    KeysEqualsScan(xs, xs, e.store.Model().Live(now).data.Keys, pattern);
    n := FilterSnapshot(keys, n, pattern);
    r := keys[..n];
    AnswersUnique(r, ListOf(e.store.Model(), pattern, now), e.store.Model().Live(now).data.Keys, pattern);
  }

  /** SCAN 0: the session starts from the list KEYS would give now, and all live
      keys without MATCH. */
  method ScanStart(e: Engine, m: ScanSessions, pattern: Option<Bytes>, count: nat, now: Time)
    returns (r: Page, ghost token: Option<nat>)
    requires e.store.Valid() && m.Valid()
    requires StartDraws(m.Model(), m.limits, ListOf(e.store.Model(), PatternOf(pattern), now), |e.store.data|, PatternOf(pattern), count, now) ==>
               FairTo(m.source.draws, m.sessions)
    modifies m, m.source
    ensures m.Valid() && Usable(Unexpired(old(m.Model()), m.limits, now).sessions, token)
    ensures var keys := ListOf(e.store.Model(), PatternOf(pattern), now);
            && (pattern == None ==> Listing(keys, e.store.Model().Live(now).data.Keys))
            && (m.Model(), r) == StartCall(old(m.Model()), m.limits, keys, |e.store.data|, PatternOf(pattern), count, now, token)
  {
    hide ListOf;
    ghost var db := e.store.Model();
    var live := Snapshot(e.store, now);
    ghost var xs := live[..];
    var p := PatternOf(pattern);
    assert live[..live.Length] == xs;
    var n := FilterSnapshot(live, live.Length, p);
    SortSnapshot(live, n);
    KeysEqualsScan(xs, xs, db.Live(now).data.Keys, p);
    var list := live[..n];
    AnswersUnique(list, ListOf(db, p, now), db.Live(now).data.Keys, p);
    if pattern == None { ListOfAll(db, now); }
    // LiveKeys reserves room for every held key, expired ones included.
    r, token := m.Start(list, |e.store.data|, p, count, now);
  }

  /** SCAN against KEYS: whatever other clients do in between, a traversal that
      reaches cursor 0 has returned, in order, exactly what KEYS with the same
      pattern would have returned when it began. With positive counts, as
      many further pages as the first left keys are enough to reach it; and as many
      turns are, if they come in time and nobody touches the session. */
  lemma ScanReturnsKeys(db: Db, m: Manager, lim: Limits, pattern: Bytes, count: nat, now: Time, token: Option<nat>, turns: seq<Turn>)
    requires Sound(m, lim) && Usable(Unexpired(m, lim, now).sessions, token)
    ensures var keys := ListOf(db, pattern, now);
            var (n, r) := StartCall(m, lim, keys, |db.data|, pattern, count, now, token);
            && Sound(n, lim)
            && (r.Page? && r.cursor == 0 ==> r.keys == keys)
            && (r.Page? && r.cursor != 0 && Fair(n, lim, r.cursor, turns) ==>
                  && (Collected(n, lim, r.cursor, turns).Some? ==> r.keys + Collected(n, lim, r.cursor, turns).value == keys)
                  && (Eager(turns) ==>
                        && Pages(n, lim, r.cursor, turns) <= |keys| - |r.keys|
                        && (Pages(n, lim, r.cursor, turns) == |keys| - |r.keys| ==> Collected(n, lim, r.cursor, turns).Some?))
                  && (Attended(turns, lim, r.cursor, pattern, now) && OurTurns(turns) >= |keys| - |r.keys| ==>
                        Collected(n, lim, r.cursor, turns).Some?))
  {
    WholeTraversal(m, lim, ListOf(db, pattern, now), |db.data|, pattern, count, now, token, turns);
  }
}
