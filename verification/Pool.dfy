// The pool of SFTP sessions: a keyed cache with idle expiry.
module Pool {
  import opened Basics

  datatype FrsName = FrsName(ns: string, name: string)

  datatype SessionKey = SessionKey(user: string, frs: FrsName)

  // A session, known by its identity only.
  type Sess = nat

  datatype Entry = Entry(sess: Sess, lastUsedAt: int)

  // The entries, and what has become of every session ever stored: handed to
  // Session.Close (at once or in a goroutine), or dropped from the map
  // without that.
  datatype State = State(
    entries: map<SessionKey, Entry>,
    stored: multiset<Sess>, released: multiset<Sess>, displaced: multiset<Sess>)

  const INITIAL: State := State(map[], multiset{}, multiset{}, multiset{})

  predicate Expired(ttl: int, e: Entry, now: int) {
    now - e.lastUsedAt > ttl
  }

  // ---------------------------------------------------------------------
  // The sessions of a map, with multiplicity
  // ---------------------------------------------------------------------

  ghost function Pick(m: map<SessionKey, Entry>): (k: SessionKey)
    requires m != map[]
    ensures k in m
  {
    var k :| k in m;
    k
  }

  ghost function Sessions(m: map<SessionKey, Entry>): multiset<Sess>
    decreases m.Keys
  {
    if m == map[] then multiset{} else multiset{m[Pick(m)].sess} + Sessions(m - {Pick(m)})
  }

  lemma RemoveCommutes(m: map<SessionKey, Entry>, j: SessionKey, k: SessionKey)
    ensures m - {j} - {k} == m - {k} - {j}
  {
  }

  // It does not matter which key is taken out first.
  lemma {:induction false} SessionsRemove(m: map<SessionKey, Entry>, k: SessionKey)
    requires k in m
    ensures Sessions(m) == multiset{m[k].sess} + Sessions(m - {k})
    decreases m.Keys
  {
    var j := Pick(m);
    if j == k {
    } else {
      var mj, mk := m - {j}, m - {k};
      assert Sessions(m) == multiset{m[j].sess} + Sessions(mj);
      hide Sessions;
      SessionsRemove(mj, k);
      SessionsRemove(mk, j);
      RemoveCommutes(m, j, k);
      assert mj[k] == m[k] && mk[j] == m[j];
    }
  }

  lemma PlusAssociates(a: multiset<Sess>, b: multiset<Sess>, c: multiset<Sess>)
    ensures a + (b + c) == (a + b) + c
  {
  }

  lemma OnlyStep(m: map<SessionKey, Entry>, ks: set<SessionKey>, k: SessionKey)
    requires k in ks
    ensures Only(m, ks) - {k} == Only(m - {k}, ks - {k})
    ensures m - {k} - (ks - {k}) == m - ks
  {
  }

  lemma {:induction false} SessionsSplit(m: map<SessionKey, Entry>, ks: set<SessionKey>)
    requires ks <= m.Keys
    ensures Sessions(m) == Sessions(Only(m, ks)) + Sessions(m - ks)
    decreases ks
  {
    if ks == {} {
      assert Only(m, ks) == map[] && m - ks == m;
    } else {
      var k :| k in ks;
      var part, rest := Only(m, ks), m - ks;
      assert k in part && part[k] == m[k];
      OnlyStep(m, ks, k);
      hide Sessions, Only;
      var one, part', m' := multiset{m[k].sess}, part - {k}, m - {k};
      SessionsSplit(m', ks - {k});
      SessionsRemove(m, k);
      SessionsRemove(part, k);
      PlusAssociates(one, Sessions(part'), Sessions(rest));
    }
  }

  function Only(m: map<SessionKey, Entry>, ks: set<SessionKey>): map<SessionKey, Entry> {
    map k | k in m && k in ks :: m[k]
  }

  // ---------------------------------------------------------------------
  // Operations as steps on the state
  // ---------------------------------------------------------------------

  datatype Op =
    | Store(key: SessionKey, sess: Sess, at: int)
    | Get(key: SessionKey, at: int)
    | Close(key: SessionKey)
    | Sweep(at: int)
    | CloseAllForFRS(frs: FrsName)

  function Stale(ttl: int, m: map<SessionKey, Entry>, now: int): set<SessionKey> {
    set k | k in m && Expired(ttl, m[k], now)
  }

  function OfFrs(m: map<SessionKey, Entry>, frs: FrsName): set<SessionKey> {
    set k | k in m && k.frs == frs
  }

  // Take the keys out and hand their sessions to Close.
  ghost function Evict(s: State, ks: set<SessionKey>): State {
    s.(entries := s.entries - ks, released := s.released + Sessions(Only(s.entries, ks)))
  }

  ghost function Step(ttl: int, s: State, op: Op): State {
    match op
    case Store(k, sess, now) =>
      s.(entries := s.entries[k := Entry(sess, now)],
         stored := s.stored + multiset{sess},
         displaced := s.displaced + if k in s.entries then multiset{s.entries[k].sess} else multiset{})
    case Get(k, now) =>
      if k !in s.entries then s
      else if Expired(ttl, s.entries[k], now) then Evict(s, {k})
      else s.(entries := s.entries[k := Entry(s.entries[k].sess, now)])
    case Close(k) => if k in s.entries then Evict(s, {k}) else s
    case Sweep(now) => Evict(s, Stale(ttl, s.entries, now))
    case CloseAllForFRS(frs) => Evict(s, OfFrs(s.entries, frs))
  }

  function Answer(ttl: int, entries: map<SessionKey, Entry>, k: SessionKey, now: int): Option<Sess> {
    if k in entries && !Expired(ttl, entries[k], now) then Some(entries[k].sess) else None
  }

  ghost function Run(ttl: int, h: seq<Op>): State
    decreases |h|
  {
    if h == [] then INITIAL else Step(ttl, Run(ttl, h[..|h| - 1]), h[|h| - 1])
  }

  lemma RunUnfold(ttl: int, h: seq<Op>)
    requires h != []
    ensures Run(ttl, h) == Step(ttl, Run(ttl, h[..|h| - 1]), h[|h| - 1])
  {
    hide Step;
  }

  // ---------------------------------------------------------------------
  // The object
  // ---------------------------------------------------------------------

  class Pool {
    const ttl: int
    var entries: map<SessionKey, Entry>
    ghost var stored: multiset<Sess>
    ghost var released: multiset<Sess>
    ghost var displaced: multiset<Sess>

    ghost function Now(): State
      reads this
    {
      State(entries, stored, released, displaced)
    }

    constructor (ttl: int)
      ensures this.ttl == ttl && Now() == INITIAL
    {
      this.ttl := ttl;
      entries := map[];
      stored, released, displaced := multiset{}, multiset{}, multiset{};
    }

    method Store(key: SessionKey, sess: Sess, now: int)
      modifies this
      ensures Now() == Step(ttl, old(Now()), Op.Store(key, sess, now))
      ensures entries == old(entries)[key := Entry(sess, now)]
    {
      stored := stored + multiset{sess};
      if key in entries {
        displaced := displaced + multiset{entries[key].sess};
      }
      entries := entries[key := Entry(sess, now)];
    }

    method Get(key: SessionKey, now: int) returns (sess: Option<Sess>)
      modifies this
      ensures sess == Answer(ttl, old(entries), key, now)
      ensures Now() == Step(ttl, old(Now()), Op.Get(key, now))
      ensures sess.Some? <==> key in old(entries) && now - old(entries)[key].lastUsedAt <= ttl
      ensures sess.Some? ==>
                sess.value == old(entries)[key].sess && entries == old(entries)[key := Entry(sess.value, now)]
      ensures sess.None? ==> entries == old(entries) - {key}
    {
      if key !in entries {
        return None;
      }
      var e := entries[key];
      if now - e.lastUsedAt > ttl {
        Drop(key);
        return None;
      }
      entries := entries[key := Entry(e.sess, now)];
      sess := Some(e.sess);
    }

    method Close(key: SessionKey)
      modifies this
      ensures Now() == Step(ttl, old(Now()), Op.Close(key))
      ensures entries == old(entries) - {key}
    {
      if key in entries {
        Drop(key);
      }
    }

    // delete(p.entries, key), and the entry's session closed.
    method Drop(key: SessionKey)
      requires key in entries
      modifies this
      ensures Now() == Evict(old(Now()), {key})
    {
      OneSession(entries, key);
      released := released + multiset{entries[key].sess};
      entries := entries - {key};
    }

    method Sweep(now: int)
      modifies this
      ensures Now() == Step(ttl, old(Now()), Op.Sweep(now))
      ensures forall k :: k in entries <==> k in old(entries) && now - old(entries)[k].lastUsedAt <= ttl
      ensures forall k | k in entries :: entries[k] == old(entries)[k]
    {
      hide Sessions, Only, Stale;
      ghost var start := entries;
      var todo, toClose := entries.Keys, [];
      ghost var gone: set<SessionKey> := {};
      NothingGone(start);
      StaleKeys(ttl, start, now);
      while todo != {}
        invariant todo <= start.Keys && gone !! todo
        invariant gone == Stale(ttl, start, now) - todo
        invariant entries == start - gone
        invariant multiset(toClose) == Sessions(Only(start, gone))
        invariant stored == old(stored) && released == old(released) && displaced == old(displaced)
        decreases todo
      {
        var k :| k in todo;
        TurnOver(Stale(ttl, start, now), todo, gone, k);
        if now - entries[k].lastUsedAt > ttl {
          OneMore(start, gone, k);
          toClose := toClose + [entries[k].sess];
          entries := entries - {k};
          gone := gone + {k};
        }
        todo := todo - {k};
      }
      assert gone == Stale(ttl, start, now);
      released := released + multiset(toClose);
    }

    method CloseAllForFRS(frs: FrsName)
      modifies this
      ensures Now() == Step(ttl, old(Now()), Op.CloseAllForFRS(frs))
      ensures forall k :: k in entries <==> k in old(entries) && !(k.frs.ns == frs.ns && k.frs.name == frs.name)
      ensures forall k | k in entries :: entries[k] == old(entries)[k]
    {
      hide Sessions, Only;
      ghost var start := entries;
      var todo := entries.Keys;
      ghost var gone: set<SessionKey>, closed: multiset<Sess> := {}, multiset{};
      NothingGone(start);
      while todo != {}
        invariant todo <= start.Keys && gone !! todo
        invariant gone == OfFrs(start, frs) - todo
        invariant entries == start - gone
        invariant closed == Sessions(Only(start, gone))
        invariant stored == old(stored) && released == old(released) && displaced == old(displaced)
        decreases todo
      {
        var k :| k in todo;
        if k.frs.ns == frs.ns && k.frs.name == frs.name {
          OneMore(start, gone, k);
          closed := closed + multiset{entries[k].sess};
          entries := entries - {k};
          gone := gone + {k};
        }
        todo := todo - {k};
      }
      assert gone == OfFrs(start, frs);
      released := released + closed;
    }
  }

  // One key less to do.
  lemma TurnOver(stale: set<SessionKey>, todo: set<SessionKey>, gone: set<SessionKey>, k: SessionKey)
    requires gone == stale - todo && k in todo
    ensures (if k in stale then gone + {k} else gone) == stale - (todo - {k})
  {
  }

  lemma StaleKeys(ttl: int, m: map<SessionKey, Entry>, now: int)
    ensures Stale(ttl, m, now) <= m.Keys
    ensures forall k | k in m :: k in Stale(ttl, m, now) <==> now - m[k].lastUsedAt > ttl
  {
  }

  lemma NothingGone(m: map<SessionKey, Entry>)
    ensures m - {} == m && Sessions(Only(m, {})) == multiset{}
  {
    assert Only(m, {}) == map[];
  }

  lemma OneSession(m: map<SessionKey, Entry>, k: SessionKey)
    requires k in m
    ensures Sessions(Only(m, {k})) == multiset{m[k].sess}
  {
    SessionsRemove(Only(m, {k}), k);
    assert Only(m, {k}) - {k} == map[];
    assert Sessions(map[]) == multiset{};
  }

  lemma OneMore(m: map<SessionKey, Entry>, gone: set<SessionKey>, k: SessionKey)
    requires k in m && k !in gone
    ensures Sessions(Only(m, gone + {k})) == Sessions(Only(m, gone)) + multiset{m[k].sess}
    ensures m - gone - {k} == m - (gone + {k})
  {
    hide Sessions;
    SessionsRemove(Only(m, gone + {k}), k);
    assert Only(m, gone + {k}) - {k} == Only(m, gone);
  }

  // ---------------------------------------------------------------------
  // Conservation
  // ---------------------------------------------------------------------

  ghost predicate Balanced(s: State) {
    s.stored == Sessions(s.entries) + s.released + s.displaced
  }

  lemma EvictBalanced(s: State, ks: set<SessionKey>)
    requires Balanced(s) && ks <= s.entries.Keys
    ensures Balanced(Evict(s, ks))
  {
    hide Sessions, Only;
    SessionsSplit(s.entries, ks);
  }

  // Overwriting or adding one entry.
  lemma SessionsUpdate(m: map<SessionKey, Entry>, k: SessionKey, e: Entry)
    ensures Sessions(m[k := e]) == multiset{e.sess} + Sessions(m - {k})
    ensures Sessions(m) == (if k in m then multiset{m[k].sess} else multiset{}) + Sessions(m - {k})
  {
    hide Sessions;
    SessionsRemove(m[k := e], k);
    assert m[k := e] - {k} == m - {k};
    if k in m {
      SessionsRemove(m, k);
    } else {
      assert m - {k} == m;
    }
  }

  lemma StepBalanced(ttl: int, s: State, op: Op)
    requires Balanced(s)
    ensures Balanced(Step(ttl, s, op))
  {
    hide Sessions, Evict;
    match op
    case Store(k, sess, now) => SessionsUpdate(s.entries, k, Entry(sess, now));
    case Get(k, now) =>
      if k in s.entries {
        EvictBalanced(s, {k});
        SessionsUpdate(s.entries, k, Entry(s.entries[k].sess, now));
      }
    case Close(k) =>
      if k in s.entries {
        EvictBalanced(s, {k});
      }
    case Sweep(now) => EvictBalanced(s, Stale(ttl, s.entries, now));
    case CloseAllForFRS(frs) => EvictBalanced(s, OfFrs(s.entries, frs));
  }

  // Every session ever stored is, exactly once, in the map, released or
  // displaced.
  lemma {:induction false} SessionsConserved(ttl: int, h: seq<Op>)
    ensures Balanced(Run(ttl, h))
    decreases |h|
  {
    if h == [] {
    } else {
      SessionsConserved(ttl, h[..|h| - 1]);
      StepBalanced(ttl, Run(ttl, h[..|h| - 1]), h[|h| - 1]);
    }
  }

  // A session stored only once is released at most once, not while it is in
  // the map, and never if it was displaced.
  lemma ReleasedOnce(ttl: int, h: seq<Op>, s: Sess)
    requires Run(ttl, h).stored[s] <= 1
    ensures var r := Run(ttl, h);
            && r.released[s] <= 1
            && (s in Sessions(r.entries) ==> r.released[s] == 0 && r.displaced[s] == 0)
            && (s in r.displaced ==> r.released[s] == 0)
            && (s in r.stored ==> s in Sessions(r.entries) || s in r.released || s in r.displaced)
  {
    SessionsConserved(ttl, h);
  }

  ghost predicate StoredOnce(h: seq<Op>) {
    forall i, j | 0 <= i < j < |h| && h[i].Store? && h[j].Store? :: h[i].sess != h[j].sess
  }

  lemma StepStores(ttl: int, st: State, op: Op)
    ensures Step(ttl, st, op).stored == st.stored + (if op.Store? then multiset{op.sess} else multiset{})
  {
    hide Sessions, Expired, Only, Stale, OfFrs;
  }

  ghost predicate IsStored(h: seq<Op>, s: Sess) {
    exists i | 0 <= i < |h| :: h[i].Store? && h[i].sess == s
  }

  lemma StoredUnfold(ttl: int, h: seq<Op>)
    requires h != []
    ensures var last := h[|h| - 1];
            Run(ttl, h).stored
            == Run(ttl, h[..|h| - 1]).stored + (if last.Store? then multiset{last.sess} else multiset{})
  {
    hide Run, Step;
    RunUnfold(ttl, h);
    StepStores(ttl, Run(ttl, h[..|h| - 1]), h[|h| - 1]);
  }

  lemma IsStoredUnfold(h: seq<Op>, s: Sess)
    requires h != []
    ensures var last := h[|h| - 1];
            IsStored(h, s) <==> IsStored(h[..|h| - 1], s) || (last.Store? && last.sess == s)
  {
    var front := h[..|h| - 1];
    assert forall i | 0 <= i < |front| :: front[i] == h[i];
  }

  // Storing distinct sessions stores each of them once.
  lemma {:induction false} StoredCount(ttl: int, h: seq<Op>, s: Sess)
    requires StoredOnce(h)
    ensures Run(ttl, h).stored[s] == if IsStored(h, s) then 1 else 0
    decreases |h|
  {
    if h == [] {
    } else {
      var front, last := h[..|h| - 1], h[|h| - 1];
      StoredUnfold(ttl, h);
      IsStoredUnfold(h, s);
      assert StoredOnce(front) && (last.Store? ==> !IsStored(front, last.sess)) by {
        assert forall i | 0 <= i < |front| :: front[i] == h[i];
      }
      hide Run, IsStored;
      StoredCount(ttl, front, s);
    }
  }

  lemma StepDisplaces(ttl: int, s: State, op: Op)
    ensures s.displaced <= Step(ttl, s, op).displaced
  {
    hide Sessions, Expired, Only;
  }

  lemma {:induction false} DisplacedGrows(ttl: int, h: seq<Op>, more: seq<Op>)
    ensures Run(ttl, h).displaced <= Run(ttl, h + more).displaced
    decreases |more|
  {
    hide Step, Run;
    if more == [] {
      assert h + more == h;
    } else {
      var front := more[..|more| - 1];
      DisplacedGrows(ttl, h, front);
      var all := h + more;
      assert all[..|all| - 1] == h + front;
      RunUnfold(ttl, all);
      StepDisplaces(ttl, Run(ttl, h + front), all[|all| - 1]);
    }
  }

  // The j-th operation stores on a key that is occupied by s.
  ghost predicate Overwrites(ttl: int, h: seq<Op>, j: nat, s: Sess)
    requires j < |h|
  {
    var before := Run(ttl, h[..j]).entries;
    h[j].Store? && h[j].key in before && before[h[j].key].sess == s
  }

  lemma OverwritesPrefix(ttl: int, h: seq<Op>, n: nat, j: nat, s: Sess)
    requires j < n <= |h|
    ensures Overwrites(ttl, h[..n], j, s) <==> Overwrites(ttl, h, j, s)
  {
    hide Run;
    assert h[..n][..j] == h[..j] && h[..n][j] == h[j];
  }

  lemma DisplacedUnfold(ttl: int, h: seq<Op>, s: Sess)
    requires h != []
    ensures s in Run(ttl, h).displaced
            <==> s in Run(ttl, h[..|h| - 1]).displaced || Overwrites(ttl, h, |h| - 1, s)
  {
    hide Step, Run;
    var n := |h| - 1;
    RunUnfold(ttl, h);
    DisplacedStep(ttl, Run(ttl, h[..n]), h[n], s);
  }

  // Displaced are exactly the sessions whose entry a Store overwrote.
  lemma {:induction false} DisplacedExactly(ttl: int, h: seq<Op>, s: Sess)
    ensures s in Run(ttl, h).displaced <==> exists j | 0 <= j < |h| :: Overwrites(ttl, h, j, s)
    decreases |h|
  {
    hide Step, Overwrites;
    if h == [] {
    } else {
      var n := |h| - 1;
      DisplacedUnfold(ttl, h, s);
      DisplacedExactly(ttl, h[..n], s);
      hide Run;
      forall j | 0 <= j < n ensures Overwrites(ttl, h[..n], j, s) <==> Overwrites(ttl, h, j, s) {
        OverwritesPrefix(ttl, h, n, j, s);
      }
    }
  }

  lemma DisplacedStep(ttl: int, st: State, op: Op, s: Sess)
    ensures s in Step(ttl, st, op).displaced <==>
            s in st.displaced || (op.Store? && op.key in st.entries && st.entries[op.key].sess == s)
  {
    hide Sessions, Expired, Only, Stale, OfFrs;
  }

  // Storing on an occupied key loses the session that was there: however the
  // run goes on, nobody closes it. Storing on a free key loses nothing.
  lemma StoreOnOccupiedKeyLeaks(ttl: int, h: seq<Op>, key: SessionKey, sess: Sess, now: int, more: seq<Op>)
    requires StoredOnce(h + [Store(key, sess, now)] + more)
    ensures var before := Run(ttl, h);
            var run := h + [Store(key, sess, now)] + more;
            && (key in before.entries ==>
                  var lost := before.entries[key].sess;
                  Run(ttl, run).displaced[lost] == 1 && Run(ttl, run).released[lost] == 0)
            && (key !in before.entries ==> Run(ttl, h + [Store(key, sess, now)]).displaced == before.displaced)
  {
    var mid := h + [Store(key, sess, now)];
    var run := mid + more;
    assert mid[..|mid| - 1] == h;
    if key in Run(ttl, h).entries {
      var lost := Run(ttl, h).entries[key].sess;
      DisplacedGrows(ttl, mid, more);
      assert lost in Run(ttl, mid).displaced;
      assert lost in Run(ttl, run).displaced;
      StoredCount(ttl, run, lost);
      SessionsConserved(ttl, run);
    }
  }

  // ---------------------------------------------------------------------
  // The history specification of Get
  // ---------------------------------------------------------------------

  predicate Touches(op: Op, key: SessionKey) {
    (op.Store? || op.Get?) && op.key == key
  }

  // Takes the key's entry away, or replaces it.
  predicate Ends(op: Op, key: SessionKey) {
    match op
    case Store(k, _, _) => k == key
    case Close(k) => k == key
    case CloseAllForFRS(frs) => key.frs == frs
    case Get(_, _) => false
    case Sweep(_) => false
  }

  // h[i] is the Store that counts for the key.
  ghost predicate LastStore(h: seq<Op>, key: SessionKey, i: nat) {
    i < |h| && h[i].Store? && h[i].key == key && forall j | i < j < |h| :: !Ends(h[j], key)
  }

  // a and b are touches of the key with no touch in between.
  ghost predicate Successive(h: seq<Op>, key: SessionKey, a: nat, b: nat) {
    a < b < |h| && Touches(h[a], key) && Touches(h[b], key) && forall j | a < j < b :: !Touches(h[j], key)
  }

  ghost predicate Unbroken(ttl: int, h: seq<Op>, key: SessionKey, i: nat) {
    forall a: nat, b: nat | i <= a && Successive(h, key, a, b) :: h[b].at - h[a].at <= ttl
  }

  // What the history says Get(key) answers at the time `now`.
  ghost predicate Promised(ttl: int, h: seq<Op>, key: SessionKey, now: int, s: Sess) {
    exists i: nat :: LastStore(h, key, i) && h[i].sess == s && Unbroken(ttl, h + [Get(key, now)], key, i)
  }

  // The clock never runs backwards.
  predicate Timed(op: Op) {
    op.Store? || op.Get? || op.Sweep?
  }

  ghost predicate Monotone(h: seq<Op>) {
    forall i, j | 0 <= i < j < |h| && Timed(h[i]) && Timed(h[j]) :: h[i].at <= h[j].at
  }

  // The two links between the run and the history: the entry as if nothing
  // were ever swept, and where in the history it comes from.
  function LastTouch(ttl: int, h: seq<Op>, key: SessionKey): Option<Entry>
    decreases |h|
  {
    if h == [] then None
    else
      var before := LastTouch(ttl, h[..|h| - 1], key);
      match h[|h| - 1]
      case Store(k, s, now) => if k == key then Some(Entry(s, now)) else before
      case Get(k, now) =>
        if k == key && before.Some? then
          if Expired(ttl, before.value, now) then None else Some(Entry(before.value.sess, now))
        else before
      case Close(k) => if k == key then None else before
      case Sweep(_) => before
      case CloseAllForFRS(frs) => if key.frs == frs then None else before
  }

  function EntryAt(m: map<SessionKey, Entry>, key: SessionKey): Option<Entry> {
    if key in m then Some(m[key]) else None
  }

  // What one operation makes of the entry of one key.
  function EntryAfter(ttl: int, e: Option<Entry>, op: Op, key: SessionKey): Option<Entry> {
    match op
    case Store(k, s, now) => if k == key then Some(Entry(s, now)) else e
    case Get(k, now) =>
      if k == key && e.Some? then if Expired(ttl, e.value, now) then None else Some(Entry(e.value.sess, now))
      else e
    case Close(k) => if k == key then None else e
    case Sweep(now) => if e.Some? && Expired(ttl, e.value, now) then None else e
    case CloseAllForFRS(frs) => if key.frs == frs then None else e
  }

  lemma StepAtKey(ttl: int, s: State, op: Op, key: SessionKey)
    ensures EntryAt(Step(ttl, s, op).entries, key) == EntryAfter(ttl, EntryAt(s.entries, key), op, key)
  {
    hide Sessions;
  }

  lemma LastTouchStep(ttl: int, h: seq<Op>, key: SessionKey)
    requires h != []
    ensures var before := LastTouch(ttl, h[..|h| - 1], key);
            var op := h[|h| - 1];
            LastTouch(ttl, h, key) == if op.Sweep? then before else EntryAfter(ttl, before, op, key)
  {
  }

  // Some reading of the clock found the entry expired.
  ghost predicate SeenExpired(ttl: int, h: seq<Op>, e: Entry) {
    exists i | 0 <= i < |h| :: Timed(h[i]) && Expired(ttl, e, h[i].at)
  }

  // Present entries agree with the unswept history; a missing one had
  // already expired when the clock was last read.
  lemma {:induction false} RunMatchesLastTouch(ttl: int, h: seq<Op>, key: SessionKey)
    requires Monotone(h)
    ensures var e, last := EntryAt(Run(ttl, h).entries, key), LastTouch(ttl, h, key);
            e == last || (e == None && last.Some? && SeenExpired(ttl, h, last.value))
    decreases |h|
  {
    hide Step, LastTouch, EntryAt;
    if h == [] {
      RunStart(ttl, key);
    } else {
      var n := |h| - 1;
      var front := h[..n];
      RunMatchesLastTouch(ttl, front, key);
      StepAtKey(ttl, Run(ttl, front), h[n], key);
      LastTouchStep(ttl, h, key);
      var e, last := EntryAt(Run(ttl, front).entries, key), LastTouch(ttl, front, key);
      if e == last {
        assert Timed(h[n]) && last.Some? && Expired(ttl, last.value, h[n].at) ==> SeenExpired(ttl, h, last.value);
      } else {
        var i :| 0 <= i < n && Timed(front[i]) && Expired(ttl, last.value, front[i].at);
        assert h[i] == front[i] && Timed(h[i]);
        assert h[n].Get? ==> Expired(ttl, last.value, h[n].at);
      }
    }
  }

  lemma RunStart(ttl: int, key: SessionKey)
    ensures EntryAt(Run(ttl, []).entries, key) == LastTouch(ttl, [], key) == None
  {
  }

  // Where the unswept entry comes from: the Store, and the latest touch.
  datatype Origin = Origin(store: nat, touch: nat)

  function Trace(ttl: int, h: seq<Op>, key: SessionKey): Option<Origin>
    decreases |h|
  {
    if h == [] then None
    else
      var n := |h| - 1;
      var before := Trace(ttl, h[..n], key);
      if h[n].Store? && h[n].key == key then Some(Origin(n, n))
      else if Ends(h[n], key) then None
      else if h[n].Get? && h[n].key == key && before.Some? && before.value.touch < n then
        if Timed(h[before.value.touch]) && h[n].at - h[before.value.touch].at > ttl then None
        else Some(Origin(before.value.store, n))
      else before
  }

  ghost predicate ComesFrom(ttl: int, h: seq<Op>, key: SessionKey, o: Origin) {
    && LastStore(h, key, o.store) && o.store <= o.touch < |h|
    && Touches(h[o.touch], key) && (forall j | o.touch < j < |h| :: !Touches(h[j], key))
    && Unbroken(ttl, h, key, o.store)
  }

  // The unswept entry repeats its Store, and the time of its latest touch.
  lemma {:induction false} TraceMeans(ttl: int, h: seq<Op>, key: SessionKey)
    ensures match Trace(ttl, h, key)
            case None => LastTouch(ttl, h, key) == None
            case Some(o) => o.touch < |h| && o.store < |h| && h[o.store].Store? && Timed(h[o.touch])
                            && LastTouch(ttl, h, key) == Some(Entry(h[o.store].sess, h[o.touch].at))
    decreases |h|
  {
    if h == [] {
    } else {
      TraceMeans(ttl, h[..|h| - 1], key);
    }
  }

  lemma {:induction false} TraceSound(ttl: int, h: seq<Op>, key: SessionKey)
    ensures Trace(ttl, h, key).Some? ==> ComesFrom(ttl, h, key, Trace(ttl, h, key).value)
    decreases |h|
  {
    if h == [] {
    } else {
      var n := |h| - 1;
      TraceSound(ttl, h[..n], key);
      if Trace(ttl, h, key).Some? {
        var o := Trace(ttl, h, key).value;
        if o.store < n {
          var was := Trace(ttl, h[..n], key).value;
          UnbrokenSnoc(ttl, h[..n], h[n], key, was);
          assert h[..n] + [h[n]] == h;
        }
      }
    }
  }

  // One more operation keeps the chain unbroken unless it is a late touch.
  lemma UnbrokenSnoc(ttl: int, h: seq<Op>, op: Op, key: SessionKey, o: Origin)
    requires ComesFrom(ttl, h, key, o)
    ensures Unbroken(ttl, h + [op], key, o.store) <==> (Touches(op, key) ==> op.at - h[o.touch].at <= ttl)
  {
    var g := h + [op];
    forall a: nat, b: nat | b < |h| ensures Successive(g, key, a, b) <==> Successive(h, key, a, b) {
      if a < b {
        assert forall j | a <= j <= b :: g[j] == h[j];
      }
    }
    if Touches(op, key) {
      assert Successive(g, key, o.touch, |h|) by {
        assert forall j | o.touch <= j < |h| :: g[j] == h[j];
      }
      forall a: nat | o.store <= a && Successive(g, key, a, |h|) ensures a == o.touch {
        assert g[o.touch] == h[o.touch];
        assert a < |h| && g[a] == h[a];
      }
    }
  }

  // An unbroken chain from the last Store is found.
  lemma {:induction false} TraceComplete(ttl: int, h: seq<Op>, key: SessionKey, i: nat)
    requires LastStore(h, key, i) && Unbroken(ttl, h, key, i)
    ensures Trace(ttl, h, key).Some? && Trace(ttl, h, key).value.store == i
    decreases |h|
  {
    var n := |h| - 1;
    if i >= n {
    } else {
      var front := h[..n];
      assert front + [h[n]] == h;
      assert LastStore(front, key, i);
      UnbrokenPrefix(ttl, front, h[n], key, i);
      TraceComplete(ttl, front, key, i);
      TraceSound(ttl, front, key);
      UnbrokenSnoc(ttl, front, h[n], key, Trace(ttl, front, key).value);
    }
  }

  lemma UnbrokenPrefix(ttl: int, h: seq<Op>, op: Op, key: SessionKey, i: nat)
    requires Unbroken(ttl, h + [op], key, i)
    ensures Unbroken(ttl, h, key, i)
  {
    var g := h + [op];
    forall a: nat, b: nat | i <= a && Successive(h, key, a, b) ensures h[b].at - h[a].at <= ttl {
      assert forall j | a <= j <= b :: g[j] == h[j];
      assert Successive(g, key, a, b);
    }
  }

  // Get(key) returns s exactly when the last Store of the key stored s, no
  // Close, CloseAllForFRS or further Store came after it, and no two
  // successive touches up to now are more than ttl apart.
  lemma GetKeepsThePromise(ttl: int, h: seq<Op>, key: SessionKey, now: int, s: Sess)
    requires Monotone(h + [Get(key, now)])
    ensures Answer(ttl, Run(ttl, h).entries, key, now) == Some(s) <==> Promised(ttl, h, key, now, s)
  {
    AnswerIsLastTouch(ttl, h, key, now);
    var g := h + [Get(key, now)];
    assert g[..|h|] == h;
    TraceSound(ttl, h, key);
    TraceMeans(ttl, h, key);
    TraceSound(ttl, g, key);
    TraceMeans(ttl, g, key);
    var last := LastTouch(ttl, h, key);
    if last.Some? && !Expired(ttl, last.value, now) && last.value.sess == s {
      var o := Trace(ttl, h, key).value;
      UnbrokenSnoc(ttl, h, Get(key, now), key, o);
      assert Promised(ttl, h, key, now, s);
    }
    if Promised(ttl, h, key, now, s) {
      var i: nat :| LastStore(h, key, i) && h[i].sess == s && Unbroken(ttl, g, key, i);
      UnbrokenPrefix(ttl, h, Get(key, now), key, i);
      TraceComplete(ttl, h, key, i);
      UnbrokenSnoc(ttl, h, Get(key, now), key, Trace(ttl, h, key).value);
    }
  }

  lemma AnswerIsLastTouch(ttl: int, h: seq<Op>, key: SessionKey, now: int)
    requires Monotone(h + [Get(key, now)])
    ensures Answer(ttl, Run(ttl, h).entries, key, now)
            == match LastTouch(ttl, h, key)
               case None => None
               case Some(e) => if Expired(ttl, e, now) then None else Some(e.sess)
  {
    var g := h + [Get(key, now)];
    assert Monotone(h) by {
      assert forall i | 0 <= i < |h| :: g[i] == h[i];
    }
    RunMatchesLastTouch(ttl, h, key);
    if key !in Run(ttl, h).entries && LastTouch(ttl, h, key).Some? {
      var i :| 0 <= i < |h| && Timed(h[i]) && Expired(ttl, LastTouch(ttl, h, key).value, h[i].at);
      assert g[i] == h[i] && g[|h|] == Get(key, now);
    }
  }

  // ---------------------------------------------------------------------
  // Sweeping is invisible
  // ---------------------------------------------------------------------

  function Unswept(h: seq<Op>): seq<Op>
    decreases |h|
  {
    if h == [] then []
    else Unswept(h[..|h| - 1]) + if h[|h| - 1].Sweep? then [] else [h[|h| - 1]]
  }

  lemma {:induction false} UnsweptLastTouch(ttl: int, h: seq<Op>, key: SessionKey)
    ensures LastTouch(ttl, Unswept(h), key) == LastTouch(ttl, h, key)
    decreases |h|
  {
    if h == [] {
    } else {
      var n := |h| - 1;
      UnsweptLastTouch(ttl, h[..n], key);
      var front, all := Unswept(h[..n]), Unswept(h);
      if h[n].Sweep? {
        assert all == front;
      } else {
        assert all == front + [h[n]];
        assert all[..|all| - 1] == front && all[|all| - 1] == h[n];
      }
    }
  }

  lemma LatestKept(h: seq<Op>, last: Op)
    requires h != [] && Monotone(h + [last]) && Timed(last)
    ensures var n := |h| - 1; Monotone(h[..n] + [if Timed(h[n]) then h[n] else last])
    ensures Timed(h[|h| - 1]) ==> h[|h| - 1].at <= last.at
  {
    var n := |h| - 1;
    var g := h + [last];
    var g' := h[..n] + [if Timed(h[n]) then h[n] else last];
    assert g[|h|] == last && forall i | 0 <= i < |h| :: g[i] == h[i];
    forall i, j | 0 <= i < j < |g'| && Timed(g'[i]) && Timed(g'[j]) ensures g'[i].at <= g'[j].at {
      assert g'[i] == g[i];
      assert g'[j] == g[if j == n && !Timed(h[n]) then |h| else j];
    }
    assert Timed(h[n]) ==> g[n].at <= g[|h|].at;
  }

  // Every operation of the shortened history is one of the original, in order.
  lemma {:induction false} UnsweptMonotone(h: seq<Op>, last: Op)
    requires Monotone(h + [last]) && Timed(last)
    ensures Monotone(Unswept(h) + [last])
    ensures forall i | 0 <= i < |Unswept(h)| :: Timed(Unswept(h)[i]) ==> Unswept(h)[i].at <= last.at
    decreases |h|
  {
    if h == [] {
    } else {
      var n := |h| - 1;
      var op := if Timed(h[n]) then h[n] else last;
      LatestKept(h, last);
      UnsweptMonotone(h[..n], op);
      var front := Unswept(h[..n]);
      assert forall i | 0 <= i < |front| :: (front + [op])[i] == front[i];
    }
  }

  // Leaving out every Sweep of a run changes the answer of no Get.
  lemma SweepsAreInvisible(ttl: int, h: seq<Op>, key: SessionKey, now: int)
    requires Monotone(h + [Get(key, now)])
    ensures Answer(ttl, Run(ttl, h).entries, key, now) == Answer(ttl, Run(ttl, Unswept(h)).entries, key, now)
  {
    UnsweptMonotone(h, Get(key, now));
    AnswerIsLastTouch(ttl, h, key, now);
    AnswerIsLastTouch(ttl, Unswept(h), key, now);
    UnsweptLastTouch(ttl, h, key);
  }
}
