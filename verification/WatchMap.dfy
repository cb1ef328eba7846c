// The mutex-guarded map from FRS references to what the wizard knows about
// them. Each method is one critical section.
module WatchMap {
  import opened Basics
  import opened Frs

  datatype Phase = Pending | Ready | Failed | Timeout

  // createdAt 0 is Go's zero time: not stamped yet.
  datatype WatchState = WatchState(phase: Phase, view: FRSView, failed: bool, done: bool, createdAt: int)

  type Watches = map<FRSRef, WatchState>

  function Stamped(st: WatchState, now: int): WatchState {
    if st.createdAt == 0 then st.(createdAt := now) else st
  }

  predicate Old(st: WatchState, maxAge: int, now: int) {
    now - st.createdAt > maxAge
  }

  // The entries no older than maxAge, untouched.
  function Swept(m: Watches, maxAge: int, now: int): Watches {
    map r | r in m && !Old(m[r], maxAge, now) :: m[r]
  }

  class WatchTable {
    var m: Watches

    constructor ()
      ensures m == map[]
    {
      m := map[];
    }

    method Get(ref: FRSRef) returns (st: Option<WatchState>)
      ensures st == if ref in m then Some(m[ref]) else None
    {
      st := if ref in m then Some(m[ref]) else None;
    }

    method Set(ref: FRSRef, st: WatchState, now: int)
      modifies this
      ensures m == old(m)[ref := Stamped(st, now)]
      ensures m[ref].createdAt == if st.createdAt == 0 then now else st.createdAt
      ensures m[ref] == st.(createdAt := m[ref].createdAt)
    {
      var s := st;
      if s.createdAt == 0 {
        s := s.(createdAt := now);
      }
      m := m[ref := s];
    }

    method Del(ref: FRSRef)
      modifies this
      ensures m == old(m) - {ref}
    {
      m := m - {ref};
    }

    // Deletes while iterating, in whatever order the map is visited.
    method Sweep(maxAge: int, now: int) returns (evicted: nat)
      modifies this
      ensures m == Swept(old(m), maxAge, now)
      ensures forall r :: r in m <==> r in old(m) && now - old(m)[r].createdAt <= maxAge
      ensures forall r | r in m :: m[r] == old(m)[r]
      ensures evicted == |old(m)| - |m|
    {
      ghost var start := m;
      var todo := m.Keys;
      evicted := 0;
      while todo != {}
        invariant todo <= start.Keys
        invariant m.Keys <= start.Keys && forall r | r in m :: m[r] == start[r]
        invariant forall r | r in start :: r in m <==> r in todo || !Old(start[r], maxAge, now)
        invariant evicted == |start| - |m|
        decreases todo
      {
        var r :| r in todo;
        if now - m[r].createdAt > maxAge {
          RemoveOne(m, r);
          m := m - {r};
          evicted := evicted + 1;
        }
        todo := todo - {r};
      }
      assert m == Swept(start, maxAge, now);
    }
  }

  lemma RemoveOne(m: Watches, r: FRSRef)
    requires r in m
    ensures |m - {r}| == |m| - 1
  {
    assert (m - {r}).Keys == m.Keys - {r};
    assert |m.Keys - {r}| == |m.Keys| - 1;
  }
}
