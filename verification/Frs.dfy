// FileRecoverySessions as the cluster shows them, and the wait for one of
// them to become ready.
module Frs {
  import opened Basics

  datatype FRSRef = FRSRef(ns: string, name: string)

  // The fields of the custom resource that are read; absent fields are ""
  // or 0, and an unparsable expiry is 0 as well.
  datatype Resource = Resource(
    ref: FRSRef, createdAt: int, state: string, expiry: int,
    serviceName: string, serviceNS: string, port: int, hostKeySig: string)

  datatype FRSView = FRSView(
    ref: FRSRef, serviceName: string, serviceNS: string, port: int, hostKeySig: string,
    expiry: int, state: string, createdAt: int, connectable: bool, terminal: bool)

  const ZERO_VIEW: FRSView := FRSView(FRSRef("", ""), "", "", 0, "", 0, "", 0, false, false)

  predicate IsTerminalState(state: string) {
    state == "Failed" || state == "Succeeded" || state == "Terminated"
  }

  function BuildFRSView(r: Resource): FRSView {
    FRSView(r.ref, r.serviceName, r.serviceNS, r.port, r.hostKeySig, r.expiry, r.state, r.createdAt,
            !(r.serviceName == "" || r.serviceNS == "" || r.port == 0), IsTerminalState(r.state))
  }

  // What GetFRS returns: a view, and whether it comes with an error.
  datatype Polled = Polled(view: FRSView, failed: bool)

  // A resource that cannot be read, or that has not published its transport,
  // comes back as an error with a zero view.
  function GetFRS(r: Option<Resource>): Polled {
    match r
    case None => Polled(ZERO_VIEW, true)
    case Some(res) =>
      var v := BuildFRSView(res);
      if v.connectable then Polled(v, false) else Polled(ZERO_VIEW, true)
  }

  predicate HasTransport(r: Resource) {
    r.serviceName != "" && r.serviceNS != "" && r.port != 0
  }

  // The view repeats what the resource says, and the resource says where to
  // connect to.
  predicate Tells(v: FRSView, r: Resource) {
    && HasTransport(r) && v.connectable
    && v.ref == r.ref && v.state == r.state && (v.terminal <==> r.state in {"Failed", "Succeeded", "Terminated"})
    && v.serviceName == r.serviceName && v.serviceNS == r.serviceNS && v.port == r.port
    && v.hostKeySig == r.hostKeySig && v.expiry == r.expiry && v.createdAt == r.createdAt
  }

  predicate IsZero(v: FRSView) {
    && v.ref.ns == "" && v.ref.name == "" && v.serviceName == "" && v.serviceNS == "" && v.port == 0
    && v.hostKeySig == "" && v.expiry == 0 && v.state == "" && v.createdAt == 0 && !v.connectable && !v.terminal
  }

  // GetFRS succeeds exactly on a resource that has published its transport,
  // and then tells what it says.
  lemma GetFRSExact(r: Option<Resource>)
    ensures !GetFRS(r).failed <==> r.Some? && HasTransport(r.value)
    ensures if GetFRS(r).failed then IsZero(GetFRS(r).view) else Tells(GetFRS(r).view, r.value)
  {
  }

  // ---------------------------------------------------------------------
  // WaitForReady
  // ---------------------------------------------------------------------

  const POLL_PAUSE: int := 500_000_000

  predicate ShowsReady(p: Polled) {
    !p.failed && p.view.state == "Ready"
  }

  predicate ShowsFailed(p: Polled) {
    !p.failed && p.view.state == "Failed"
  }

  predicate Decisive(p: Polled) {
    ShowsReady(p) || ShowsFailed(p)
  }

  // The i-th deadline check happens at clock(i), after the i-th poll; each
  // pause between two of them takes at least half a second.
  ghost predicate Paced(clock: nat -> int, start: int) {
    start <= clock(0) && forall i: nat :: clock(i) + 500_000_000 <= clock(i + 1)
  }

  // All polls before the i-th were indecisive and within the deadline, so
  // the i-th is made.
  ghost predicate Reaches(poll: nat -> Polled, clock: nat -> int, deadline: int, i: nat) {
    forall j: nat | j < i :: !Decisive(poll(j)) && clock(j) <= deadline
  }

  // Polls until a decisive answer or the deadline. `polls` is the number of
  // GetFRS calls made.
  method WaitForReady(poll: nat -> Polled, clock: nat -> int, start: int, timeout: int)
    returns (view: FRSView, failed: bool, ghost polls: nat)
    requires Paced(clock, start)
    ensures polls >= 1 && Reaches(poll, clock, start + timeout, polls - 1)
    ensures view == poll(polls - 1).view
    ensures !failed <==> ShowsReady(poll(polls - 1))
    ensures failed ==> ShowsFailed(poll(polls - 1)) || clock(polls - 1) > start + timeout
    ensures !failed <==>
            exists i: nat :: Reaches(poll, clock, start + timeout, i) && ShowsReady(poll(i))
    ensures timeout >= 0 ==> polls <= timeout / 500_000_000 + 2
  {
    hide Reaches, Paced;
    var deadline := start + timeout;
    var n: nat := 0;
    ReachesFirst(poll, clock, deadline);
    while true
      invariant Reaches(poll, clock, deadline, n)
      decreases deadline - clock(n)
    {
      PollBound(poll, clock, start, timeout, n);
      var p := poll(n);
      if !p.failed {
        if p.view.state == "Ready" {
          return p.view, false, n + 1;
        }
        if p.view.state == "Failed" {
          OnlyDecisive(poll, clock, deadline, n);
          return p.view, true, n + 1;
        }
      }
      if clock(n) > deadline {
        OnlyDecisive(poll, clock, deadline, n);
        return p.view, true, n + 1;
      }
      ReachesNext(poll, clock, start, deadline, n);
      n := n + 1;
    }
  }

  lemma ReachesFirst(poll: nat -> Polled, clock: nat -> int, deadline: int)
    ensures Reaches(poll, clock, deadline, 0)
  {
  }

  lemma ReachesNext(poll: nat -> Polled, clock: nat -> int, start: int, deadline: int, n: nat)
    requires Paced(clock, start) && Reaches(poll, clock, deadline, n)
    requires !Decisive(poll(n)) && clock(n) <= deadline
    ensures Reaches(poll, clock, deadline, n + 1) && clock(n) < clock(n + 1)
  {
    assert clock(n) + POLL_PAUSE <= clock(n + 1);
  }

  lemma {:induction false} ClockAdvances(clock: nat -> int, start: int, n: nat)
    requires Paced(clock, start)
    ensures clock(n) >= start + n * POLL_PAUSE
    decreases n
  {
    if n == 0 {
    } else {
      ClockAdvances(clock, start, n - 1);
      assert clock(n - 1) + POLL_PAUSE <= clock(n - 1 + 1);
    }
  }

  // The check before the last poll was still within the deadline.
  lemma PollBound(poll: nat -> Polled, clock: nat -> int, start: int, timeout: int, n: nat)
    requires Paced(clock, start) && Reaches(poll, clock, start + timeout, n)
    ensures timeout >= 0 ==> n + 1 <= timeout / POLL_PAUSE + 2
  {
    if timeout >= 0 && n > 0 {
      ClockAdvances(clock, start, n - 1);
      assert clock(n - 1) <= start + timeout;
      assert (n - 1) * POLL_PAUSE / POLL_PAUSE == n - 1;
    }
  }

  // Once a poll fails, or the deadline has passed without success, no later
  // poll is made.
  lemma OnlyDecisive(poll: nat -> Polled, clock: nat -> int, deadline: int, n: nat)
    requires Reaches(poll, clock, deadline, n) && !ShowsReady(poll(n))
    requires ShowsFailed(poll(n)) || clock(n) > deadline
    ensures !exists i: nat :: Reaches(poll, clock, deadline, i) && ShowsReady(poll(i))
  {
    forall i: nat ensures Reaches(poll, clock, deadline, i) ==> !ShowsReady(poll(i)) {
      assert Reaches(poll, clock, deadline, i) && i > n ==> !Decisive(poll(n)) && clock(n) <= deadline;
      assert i < n ==> !Decisive(poll(i));
    }
  }
}
