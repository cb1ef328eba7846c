// The wizard's watch protocol: create handlers, one watcher goroutine per
// created FRS, cancel and delete handlers and the sweeper, interleaved step
// by step over the watch map, the cluster and a clock.
module WatchProtocol {
  import opened Basics
  import opened Frs
  import opened WatchMap

  // Where the goroutine that serves one created FRS stands.
  datatype Thread =
    | Creating(view: FRSView)                  // CreateFRS has returned
    | Spawning                                 // the Pending entry is set
    | Polling(deadline: int)                   // about to call GetFRS
    | Checking(deadline: int, polled: Polled)  // GetFRS answered, not decisive
    | Sleeping(deadline: int, wake: int)
    | Returning(deadline: int, polled: Polled) // WaitForReady has returned
    | Finished                                 // the terminal entry was set

  datatype Stamp = Stamp(ref: FRSRef, at: int)

  datatype State = State(
    now: int,
    frsTimeout: int,             // configured, fixed
    cluster: map<FRSRef, Resource>,
    watches: Watches,
    threads: map<FRSRef, Thread>,
    deleting: multiset<FRSRef>,  // handlers between DeleteFRS and watches.del
    sets: seq<Stamp>)            // every watches.set so far

  // ---------------------------------------------------------------------
  // Steps
  // ---------------------------------------------------------------------

  datatype Step =
    | Tick(to: int)
    | ClusterMoves(cluster: map<FRSRef, Resource>)
    | CreateReturns(resource: Resource)
    | SetPending(ref: FRSRef)
    | StartWatcher(ref: FRSRef)
    | Poll(ref: FRSRef, reachable: bool)
    | CheckDeadline(ref: FRSRef)
    | WakeUp(ref: FRSRef)
    | SetTerminal(ref: FRSRef)
    | DeleteReturns(ref: FRSRef)
    | DeleteEntry(ref: FRSRef)
    | Sweep(maxAge: int)

  // What GetFRS tells about a reference now; `reachable` is whether the API
  // server answered.
  function Look(s: State, ref: FRSRef, reachable: bool): Polled {
    GetFRS(if reachable && ref in s.cluster then Some(s.cluster[ref]) else None)
  }

  // How long the first wait lasts; 0 means the default of 120 seconds.
  function Window(frsTimeout: int): int {
    if frsTimeout == 0 then 120_000_000_000 else frsTimeout
  }

  function PendingEntry(view: FRSView): WatchState {
    WatchState(Pending, view, false, false, 0)
  }

  // watchFRSCreatedWithTimeout: what WaitForReady's last poll is turned into.
  // WaitForReady fails unless that poll shows Ready.
  function TerminalEntry(p: Polled): WatchState {
    if ShowsReady(p) then WatchState(Ready, p.view, false, true, 0)
    else if p.view.state == "Failed" then WatchState(WatchMap.Failed, p.view, true, true, 0)
    else WatchState(Timeout, p.view, true, true, 0)
  }

  predicate At(s: State, ref: FRSRef, t: Thread) {
    ref in s.threads && s.threads[ref] == t
  }

  // Keys are the names the API server assigned: never used before.
  predicate Enabled(s: State, a: Step) {
    match a
    case Tick(to) => s.now <= to
    case ClusterMoves(c) => forall r | r in c :: c[r].ref == r
    case CreateReturns(res) => res.ref !in s.threads && res.ref !in s.cluster
    case SetPending(ref) => ref in s.threads && s.threads[ref].Creating?
    case StartWatcher(ref) => At(s, ref, Spawning)
    case Poll(ref, _) => ref in s.threads && s.threads[ref].Polling?
    case CheckDeadline(ref) => ref in s.threads && s.threads[ref].Checking?
    case WakeUp(ref) => ref in s.threads && s.threads[ref].Sleeping? && s.threads[ref].wake <= s.now
    case SetTerminal(ref) => ref in s.threads && s.threads[ref].Returning?
    case DeleteReturns(_) => true
    case DeleteEntry(ref) => ref in s.deleting
    case Sweep(_) => true
  }

  function Moved(s: State, ref: FRSRef, t: Thread): State {
    s.(threads := s.threads[ref := t])
  }

  function SetWatch(s: State, ref: FRSRef, st: WatchState): State {
    s.(watches := s.watches[ref := Stamped(st, s.now)], sets := s.sets + [Stamp(ref, s.now)])
  }

  function Apply(s: State, a: Step): State
    requires Enabled(s, a)
  {
    match a
    case Tick(to) => s.(now := to)
    case ClusterMoves(c) => s.(cluster := c)
    case CreateReturns(res) =>
      Moved(s.(cluster := s.cluster[res.ref := res]), res.ref, Creating(BuildFRSView(res)))
    case SetPending(ref) =>
      Moved(SetWatch(s, ref, PendingEntry(s.threads[ref].view)), ref, Spawning)
    case StartWatcher(ref) => Moved(s, ref, Polling(s.now + Window(s.frsTimeout)))
    case Poll(ref, reachable) =>
      var p := Look(s, ref, reachable);
      var d := s.threads[ref].deadline;
      Moved(s, ref, if Decisive(p) then Returning(d, p) else Checking(d, p))
    case CheckDeadline(ref) =>
      var t := s.threads[ref];
      Moved(s, ref,
            if s.now > t.deadline then Returning(t.deadline, t.polled)
            else Sleeping(t.deadline, s.now + POLL_PAUSE))
    case WakeUp(ref) => Moved(s, ref, Polling(s.threads[ref].deadline))
    case SetTerminal(ref) =>
      Moved(SetWatch(s, ref, TerminalEntry(s.threads[ref].polled)), ref, Finished)
    case DeleteReturns(ref) => s.(cluster := s.cluster - {ref}, deleting := s.deleting + multiset{ref})
    case DeleteEntry(ref) => s.(watches := s.watches - {ref}, deleting := s.deleting - multiset{ref})
    case Sweep(maxAge) => s.(watches := Swept(s.watches, maxAge, s.now))
  }

  predicate Init(s: State) {
    s.watches == map[] && s.threads == map[] && s.sets == [] && s.deleting == multiset{} && s.now > 0
    && forall r | r in s.cluster :: s.cluster[r].ref == r
  }

  ghost predicate Next(s: State, s': State) {
    exists a: Step :: Enabled(s, a) && s' == Apply(s, a)
  }

  ghost predicate IsPath(run: seq<State>) {
    run != [] && forall i | 0 <= i < |run| - 1 :: Next(run[i], run[i + 1])
  }

  // A run: any interleaving from the start of the process.
  ghost predicate IsRun(run: seq<State>) {
    IsPath(run) && Init(run[0])
  }

  ghost function StepOf(s: State, s': State): (a: Step)
    requires Next(s, s')
    ensures Enabled(s, a) && s' == Apply(s, a)
  {
    var a: Step :| Enabled(s, a) && s' == Apply(s, a);
    a
  }

  lemma PathStep(run: seq<State>, i: nat) returns (a: Step)
    requires IsPath(run) && i + 1 < |run|
    ensures Enabled(run[i], a) && run[i + 1] == Apply(run[i], a)
  {
    assert Next(run[i], run[i + 1]);
    hide Enabled, Apply, Next;
    a := StepOf(run[i], run[i + 1]);
  }

  // ---------------------------------------------------------------------
  // The invariant
  // ---------------------------------------------------------------------

  predicate Running(t: Thread) {
    !t.Creating? && !t.Finished?
  }

  // A watcher that is about to start or still at work, for a Pending entry;
  // a finished one, for a terminal entry.
  predicate EntryMatches(st: WatchState, t: Thread) {
    if st.phase == Pending then Running(t) && !st.done && !st.failed else t.Finished? && st.done
  }

  predicate Inv(s: State) {
    && s.now > 0
    && (forall r | r in s.watches :: r in s.threads && EntryMatches(s.watches[r], s.threads[r]))
    && (forall r | r in s.cluster :: s.cluster[r].ref == r)
  }

  lemma NextKeepsMatch(s: State, a: Step, r: FRSRef)
    requires Inv(s) && Enabled(s, a) && r in Apply(s, a).watches
    ensures r in Apply(s, a).threads && EntryMatches(Apply(s, a).watches[r], Apply(s, a).threads[r])
  {
    hide Look, BuildFRSView, Decisive, Window, ShowsReady;
  }

  lemma NextKeepsRefs(s: State, a: Step)
    requires Inv(s) && Enabled(s, a)
    ensures Apply(s, a).now > 0 && forall r | r in Apply(s, a).cluster :: Apply(s, a).cluster[r].ref == r
  {
    hide Look, BuildFRSView, Decisive, EntryMatches, TerminalEntry, PendingEntry, Swept, Stamped, Window;
  }

  lemma NextKeepsInv(s: State, a: Step)
    requires Inv(s) && Enabled(s, a)
    ensures Inv(Apply(s, a))
  {
    hide Apply, Enabled, EntryMatches;
    NextKeepsRefs(s, a);
    forall r | r in Apply(s, a).watches
      ensures r in Apply(s, a).threads && EntryMatches(Apply(s, a).watches[r], Apply(s, a).threads[r])
    {
      NextKeepsMatch(s, a, r);
    }
  }

  lemma InitInv(s: State)
    requires Init(s)
    ensures Inv(s)
  {
  }

  lemma {:induction false} RunKeepsInv(run: seq<State>, i: nat)
    requires IsRun(run) && i < |run|
    ensures Inv(run[i])
  {
    hide Inv, Apply, Enabled, Next, IsPath, Init;
    if i == 0 {
      InitInv(run[0]);
    } else {
      RunKeepsInv(run, i - 1);
      var a := PathStep(run, i - 1);
      NextKeepsInv(run[i - 1], a);
    }
  }

  // In every state of every run, a Pending entry has a watcher to replace
  // it: none is orphaned.
  lemma NoOrphans(run: seq<State>, i: nat, ref: FRSRef)
    requires IsRun(run) && i < |run| && ref in run[i].watches && run[i].watches[ref].phase == Pending
    ensures ref in run[i].threads && Running(run[i].threads[ref])
  {
    RunKeepsInv(run, i);
  }

  // ---------------------------------------------------------------------
  // Phases of one reference
  // ---------------------------------------------------------------------

  // 0 not created, 1 created, 2 Pending shown, 3 Pending taken away while
  // the watcher runs on, 4 terminal state shown, 5 terminal state taken away.
  function Stage(s: State, ref: FRSRef): nat {
    if ref !in s.threads then 0
    else if s.threads[ref].Creating? then 1
    else if !s.threads[ref].Finished? then (if ref in s.watches then 2 else 3)
    else (if ref in s.watches then 4 else 5)
  }

  function Shown(s: State, ref: FRSRef): Option<WatchState> {
    if ref in s.watches then Some(s.watches[ref]) else None
  }

  // Which reference's thread a step moves, if any.
  function Subject(a: Step): Option<FRSRef> {
    match a
    case CreateReturns(res) => Some(res.ref)
    case SetPending(ref) => Some(ref)
    case StartWatcher(ref) => Some(ref)
    case Poll(ref, _) => Some(ref)
    case CheckDeadline(ref) => Some(ref)
    case WakeUp(ref) => Some(ref)
    case SetTerminal(ref) => Some(ref)
    case _ => None
  }

  // Any other step leaves the thread alone and can only take the entry away.
  lemma OtherSteps(s: State, a: Step, ref: FRSRef)
    requires Enabled(s, a) && Subject(a) != Some(ref)
    ensures var t := Apply(s, a);
            && (ref in s.threads <==> ref in t.threads)
            && (ref in s.threads ==> t.threads[ref] == s.threads[ref])
            && (ref in t.watches ==> ref in s.watches && t.watches[ref] == s.watches[ref])
  {
    hide Look, BuildFRSView, Decisive, TerminalEntry, PendingEntry;
  }

  // A thread's own steps.
  lemma OwnSteps(s: State, a: Step, ref: FRSRef)
    requires Inv(s) && Enabled(s, a) && Subject(a) == Some(ref)
    ensures Stage(s, ref) <= Stage(Apply(s, a), ref)
    ensures Stage(s, ref) == Stage(Apply(s, a), ref) ==> Shown(s, ref) == Shown(Apply(s, a), ref)
  {
    hide Look, BuildFRSView, Decisive, TerminalEntry, PendingEntry;
  }

  // Stages only go up, and within a stage the shown entry does not change.
  lemma StepKeepsStage(s: State, a: Step, ref: FRSRef)
    requires Inv(s) && Enabled(s, a)
    ensures Stage(s, ref) <= Stage(Apply(s, a), ref)
    ensures Stage(s, ref) == Stage(Apply(s, a), ref) ==> Shown(s, ref) == Shown(Apply(s, a), ref)
  {
    hide Apply, Enabled;
    if Subject(a) == Some(ref) {
      OwnSteps(s, a, ref);
    } else {
      OtherSteps(s, a, ref);
    }
  }

  lemma {:induction false} StagesGoUp(run: seq<State>, ref: FRSRef, i: nat, j: nat)
    requires IsRun(run) && i <= j < |run|
    ensures Stage(run[i], ref) <= Stage(run[j], ref)
    ensures Stage(run[i], ref) == Stage(run[j], ref) ==> Shown(run[i], ref) == Shown(run[j], ref)
    decreases j - i
  {
    hide Inv, Apply, Enabled, Stage, Shown, IsPath, Init;
    if i >= j {
    } else {
      RunKeepsInv(run, j - 1);
      var a := PathStep(run, j - 1);
      StagesGoUp(run, ref, i, j - 1);
      StepKeepsStage(run[j - 1], a, ref);
    }
  }

  lemma PhaseOfStage(s: State, ref: FRSRef)
    requires Inv(s)
    ensures match Shown(s, ref)
            case None => Stage(s, ref) !in {2, 4}
            case Some(st) => Stage(s, ref) == (if st.phase == Pending then 2 else 4)
  {
  }

  // Over a whole run, whatever cancels, deletes and sweeps come in between:
  // Pending never follows a terminal state, and between two sightings of
  // Pending, or of a terminal state, the entry was there all along, the
  // same. So there is at most one phase of each.
  lemma AtMostOnePhaseEach(run: seq<State>, ref: FRSRef, i: nat, j: nat, k: nat)
    requires IsRun(run) && i <= j <= k < |run|
    requires Shown(run[i], ref).Some? && Shown(run[k], ref).Some?
    ensures var first, last := Shown(run[i], ref).value, Shown(run[k], ref).value;
            && (first.phase != Pending ==> last.phase != Pending)
            && ((first.phase == Pending <==> last.phase == Pending) ==>
                  Shown(run[j], ref) == Shown(run[i], ref) == Shown(run[k], ref))
  {
    RunKeepsInv(run, i);
    RunKeepsInv(run, j);
    RunKeepsInv(run, k);
    StagesGoUp(run, ref, i, j);
    StagesGoUp(run, ref, j, k);
    hide Inv, Stage, Shown, IsRun;
    PhaseOfStage(run[i], ref);
    PhaseOfStage(run[k], ref);
  }

  // ---------------------------------------------------------------------
  // Terminal entries say what the watcher's last poll read
  // ---------------------------------------------------------------------

  // This GetFRS call finds the resource with its transport published.
  predicate Published(s: State, ref: FRSRef, reachable: bool) {
    reachable && ref in s.cluster && HasTransport(s.cluster[ref])
  }

  predicate PublishedAs(s: State, ref: FRSRef, reachable: bool, state: string) {
    Published(s, ref, reachable) && s.cluster[ref].state == state
  }

  lemma LookExact(s: State, ref: FRSRef, reachable: bool)
    ensures var p := Look(s, ref, reachable);
            && (p.failed <==> !Published(s, ref, reachable))
            && (if p.failed then IsZero(p.view) else Tells(p.view, s.cluster[ref]))
            && (ShowsReady(p) <==> PublishedAs(s, ref, reachable, "Ready"))
            && (ShowsFailed(p) <==> PublishedAs(s, ref, reachable, "Failed"))
  {
    GetFRSExact(if reachable && ref in s.cluster then Some(s.cluster[ref]) else None);
  }

  predicate PollingIn(s: State, ref: FRSRef) {
    ref in s.threads && s.threads[ref].Polling?
  }

  // In state k the watcher is polling, and its GetFRS call reads this.
  predicate ReadsAt(run: seq<State>, k: nat, ref: FRSRef, reachable: bool) {
    && k + 1 < |run| && PollingIn(run[k], ref) && ref in run[k + 1].threads
    && var t := run[k + 1].threads[ref];
       (t.Checking? || t.Returning?) && t.polled == Look(run[k], ref, reachable)
  }

  // That is its last poll up to state i.
  ghost predicate LastPoll(run: seq<State>, i: nat, ref: FRSRef, k: nat, reachable: bool) {
    k < i < |run| && ReadsAt(run, k, ref, reachable) && forall m | k < m <= i :: !PollingIn(run[m], ref)
  }

  ghost predicate LastRead(run: seq<State>, i: nat, ref: FRSRef, p: Polled) {
    exists k: nat, reachable: bool :: LastPoll(run, i, ref, k, reachable) && p == Look(run[k], ref, reachable)
  }

  ghost predicate ThreadRests(run: seq<State>, i: nat, ref: FRSRef, t: Thread) {
    t.Checking? || t.Returning? ==> LastRead(run, i, ref, t.polled)
  }

  // A terminal entry is what this poll calls for.
  predicate EntryFrom(st: WatchState, p: Polled) {
    st == TerminalEntry(p).(createdAt := st.createdAt)
  }

  ghost predicate EntryRests(run: seq<State>, i: nat, ref: FRSRef, st: WatchState) {
    st.phase != Pending ==> exists p: Polled :: LastRead(run, i, ref, p) && EntryFrom(st, p)
  }

  ghost predicate AllRest(run: seq<State>, i: nat)
    requires i < |run|
  {
    && (forall r | r in run[i].threads :: ThreadRests(run, i, r, run[i].threads[r]))
    && (forall r | r in run[i].watches :: EntryRests(run, i, r, run[i].watches[r]))
  }

  // As long as the watcher does not poll again.
  lemma LastReadStays(run: seq<State>, i: nat, ref: FRSRef, p: Polled)
    requires LastRead(run, i, ref, p) && i + 1 < |run| && !PollingIn(run[i + 1], ref)
    ensures LastRead(run, i + 1, ref, p)
  {
    hide Look;
    var k: nat, reachable: bool :| LastPoll(run, i, ref, k, reachable) && p == Look(run[k], ref, reachable);
    assert LastPoll(run, i + 1, ref, k, reachable);
  }

  // A thread that holds a poll's result got it from this step's poll, or had
  // it before.
  lemma ReadKept(s: State, a: Step, r: FRSRef)
    requires Enabled(s, a) && r in Apply(s, a).threads
    requires var t := Apply(s, a).threads[r]; t.Checking? || t.Returning?
    ensures var t := Apply(s, a).threads[r];
            if a.Poll? && r == a.ref then PollingIn(s, r) && t.polled == Look(s, r, a.reachable)
            else
              r in s.threads && (s.threads[r].Checking? || s.threads[r].Returning?)
              && s.threads[r].polled == t.polled
  {
    hide Look, Decisive, TerminalEntry, PendingEntry, BuildFRSView, Swept, Stamped, Window;
  }

  lemma ThreadsStayResting(run: seq<State>, i: nat, a: Step, r: FRSRef)
    requires i + 1 < |run| && AllRest(run, i)
    requires Enabled(run[i], a) && run[i + 1] == Apply(run[i], a) && r in run[i + 1].threads
    ensures ThreadRests(run, i + 1, r, run[i + 1].threads[r])
  {
    hide Look, Apply, Enabled, EntryRests, LastRead;
    var t := run[i + 1].threads[r];
    if !t.Checking? && !t.Returning? {
      return;
    }
    ReadKept(run[i], a, r);
    if a.Poll? && r == a.ref {
      assert LastPoll(run, i + 1, r, i, a.reachable);
      LastReadNow(run, i, r, a.reachable);
    } else {
      assert ThreadRests(run, i, r, run[i].threads[r]);
      LastReadStays(run, i, r, t.polled);
    }
  }

  lemma LastReadNow(run: seq<State>, i: nat, ref: FRSRef, reachable: bool)
    requires LastPoll(run, i + 1, ref, i, reachable)
    ensures LastRead(run, i + 1, ref, Look(run[i], ref, reachable))
  {
    hide Look;
  }

  lemma EntriesStayResting(run: seq<State>, i: nat, a: Step, r: FRSRef)
    requires i + 1 < |run| && AllRest(run, i) && Inv(run[i]) && Inv(run[i + 1])
    requires Enabled(run[i], a) && run[i + 1] == Apply(run[i], a) && r in run[i + 1].watches
    ensures EntryRests(run, i + 1, r, run[i + 1].watches[r])
  {
    hide Look, Decisive, BuildFRSView, LastRead;
    var st := run[i + 1].watches[r];
    if a == SetTerminal(r) {
      var p := run[i].threads[r].polled;
      assert ThreadRests(run, i, r, run[i].threads[r]);
      LastReadStays(run, i, r, p);
      assert EntryFrom(st, p);
    } else if a != SetPending(r) && st.phase != Pending {
      hide TerminalEntry, Stamped;
      assert run[i].watches[r] == st && EntryRests(run, i, r, st);
      var p: Polled :| LastRead(run, i, r, p) && EntryFrom(st, p);
      LastReadStays(run, i, r, p);
    }
  }

  lemma {:induction false} RunRests(run: seq<State>, i: nat)
    requires IsRun(run) && i < |run|
    ensures AllRest(run, i)
  {
    hide ThreadRests, EntryRests, Apply, Enabled, Inv, IsPath;
    if i == 0 {
    } else {
      RunRests(run, i - 1);
      RunKeepsInv(run, i - 1);
      RunKeepsInv(run, i);
      var a := PathStep(run, i - 1);
      var s := run[i];
      forall r | r in s.threads ensures ThreadRests(run, i, r, s.threads[r]) {
        ThreadsStayResting(run, i - 1, a, r);
      }
      forall r | r in s.watches ensures EntryRests(run, i, r, s.watches[r]) {
        EntriesStayResting(run, i - 1, a, r);
      }
    }
  }

  // Every terminal entry, in every state of every run, rests on the last poll
  // its watcher made: Ready exactly if that call found the FRS Ready, and
  // Failed exactly if it found it Failed, with service, namespace and port
  // published. Everything else, and that includes a Failed FRS that has not
  // published them, ends as Timeout. The view is what the call read.
  lemma TerminalPhaseIff(run: seq<State>, i: nat, ref: FRSRef) returns (k: nat, reachable: bool)
    requires IsRun(run) && i < |run| && ref in run[i].watches && run[i].watches[ref].phase != Pending
    ensures LastPoll(run, i, ref, k, reachable)
    ensures var st := run[i].watches[ref];
            && (st.phase == Ready <==> PublishedAs(run[k], ref, reachable, "Ready"))
            && (st.phase == WatchMap.Failed <==> PublishedAs(run[k], ref, reachable, "Failed"))
            && st.done && (st.failed <==> st.phase != Ready)
            && if Published(run[k], ref, reachable) then st.view.ref == ref && Tells(st.view, run[k].cluster[ref])
               else IsZero(st.view)
  {
    hide IsRun, Look, Tells, Published, PublishedAs, ReadsAt, ThreadRests, TerminalEntry, Inv;
    RunRests(run, i);
    var st := run[i].watches[ref];
    assert EntryRests(run, i, ref, st);
    var p: Polled :| LastRead(run, i, ref, p) && EntryFrom(st, p);
    k, reachable :| LastPoll(run, i, ref, k, reachable) && p == Look(run[k], ref, reachable);
    RunKeepsInv(run, k);
    EntryTells(run[k], ref, reachable, st);
  }

  lemma EntryTells(s: State, ref: FRSRef, reachable: bool, st: WatchState)
    requires Inv(s) && EntryFrom(st, Look(s, ref, reachable))
    ensures st.phase == Ready <==> PublishedAs(s, ref, reachable, "Ready")
    ensures st.phase == WatchMap.Failed <==> PublishedAs(s, ref, reachable, "Failed")
    ensures st.done && (st.failed <==> st.phase != Ready)
    ensures if Published(s, ref, reachable) then st.view.ref == ref && Tells(st.view, s.cluster[ref])
            else IsZero(st.view)
  {
    hide Look, Tells, Published, PublishedAs, Inv;
    LookExact(s, ref, reachable);
    TellsRef(s, ref, reachable);
  }

  lemma TellsRef(s: State, ref: FRSRef, reachable: bool)
    requires Inv(s)
    ensures Published(s, ref, reachable) ==> Look(s, ref, reachable).view.ref == ref
  {
  }

  // So if none of the watcher's polls finds a published transport, the entry
  // ends as Timeout with a zero view, whatever state the cluster shows.
  lemma UnpublishedEndsAsTimeout(run: seq<State>, i: nat, ref: FRSRef)
    requires IsRun(run) && i < |run| && ref in run[i].watches && run[i].watches[ref].phase != Pending
    requires forall k: nat, b: bool | k < i && ReadsAt(run, k, ref, b) :: !Published(run[k], ref, b)
    ensures run[i].watches[ref].phase == Timeout && IsZero(run[i].watches[ref].view)
  {
    hide IsRun;
    var k, reachable := TerminalPhaseIff(run, i, ref);
  }

  // The last poll is one poll, and it read one thing.
  lemma LastPollUnique(run: seq<State>, i: nat, ref: FRSRef, a: nat, x: bool, b: nat, y: bool)
    requires LastPoll(run, i, ref, a, x) && LastPoll(run, i, ref, b, y)
    ensures a == b && Look(run[a], ref, x) == Look(run[b], ref, y)
  {
    hide Look;
  }

  // The watcher's last poll found the FRS in this state, published.
  ghost predicate LastPollFound(run: seq<State>, i: nat, ref: FRSRef, state: string) {
    exists k: nat, reachable: bool ::
      LastPoll(run, i, ref, k, reachable) && PublishedAs(run[k], ref, reachable, state)
  }

  lemma SettledIffLastPoll(run: seq<State>, i: nat, ref: FRSRef)
    requires IsRun(run) && i < |run| && ref in run[i].watches && run[i].watches[ref].phase != Pending
    ensures run[i].watches[ref].phase == Ready <==> LastPollFound(run, i, ref, "Ready")
    ensures run[i].watches[ref].phase == WatchMap.Failed <==> LastPollFound(run, i, ref, "Failed")
  {
    hide IsRun, LastPoll, Look, PublishedAs;
    var k, reachable := TerminalPhaseIff(run, i, ref);
    LastPollSays(run, i, ref, k, reachable, "Ready");
    LastPollSays(run, i, ref, k, reachable, "Failed");
  }

  lemma LastPollSays(run: seq<State>, i: nat, ref: FRSRef, k: nat, reachable: bool, state: string)
    requires LastPoll(run, i, ref, k, reachable) && state in {"Ready", "Failed"}
    ensures LastPollFound(run, i, ref, state) <==> PublishedAs(run[k], ref, reachable, state)
  {
    hide ReadsAt, Look, PublishedAs;
    LookExact(run[k], ref, reachable);
    if LastPollFound(run, i, ref, state) {
      var b: nat, y: bool :| LastPoll(run, i, ref, b, y) && PublishedAs(run[b], ref, y, state);
      LastPollUnique(run, i, ref, k, reachable, b, y);
      LookExact(run[b], ref, y);
    }
  }

  lemma RunFurther(run: seq<State>, a: Step) returns (more: seq<State>)
    requires IsRun(run) && Enabled(run[|run| - 1], a)
    ensures more == run + [Apply(run[|run| - 1], a)] && IsRun(more)
  {
    var n := |run|;
    more := run + [Apply(run[n - 1], a)];
    assert Next(run[n - 1], more[n]);
    hide Next, Apply, Enabled;
    forall i | 0 <= i < |more| - 1 ensures Next(more[i], more[i + 1]) {
      if i < n - 1 {
        assert Next(run[i], run[i + 1]);
      }
    }
  }

  // The cluster shows the resource, unchanged, from state 1 of the run on.
  ghost predicate Shows(run: seq<State>, res: Resource) {
    forall k | 0 < k < |run| :: res.ref in run[k].cluster && run[k].cluster[res.ref] == res
  }

  // From any start, any new FRS can get as far as its Pending entry.
  lemma PendingIsReached(start: State, res: Resource) returns (run: seq<State>)
    requires Init(start) && res.ref !in start.cluster
    ensures IsRun(run) && run[0] == start && Shows(run, res)
    ensures var s := run[|run| - 1];
            |run| > 1 && At(s, res.ref, Spawning) && res.ref in s.watches && s.watches[res.ref].phase == Pending
  {
    hide BuildFRSView;
    var one := RunFurther([start], CreateReturns(res));
    run := RunFurther(one, SetPending(res.ref));
  }

  // Nor is a poll of such a resource that has not published its transport
  // ever decisive, ...
  lemma UnpublishedIsRead(run: seq<State>, res: Resource) returns (more: seq<State>)
    requires IsRun(run) && Shows(run, res) && |run| > 1 && !HasTransport(res)
    requires PollingIn(run[|run| - 1], res.ref)
    ensures IsRun(more) && more[0] == run[0] && Shows(more, res)
    ensures |more| > 1 && At(more[|more| - 1], res.ref,
                             Checking(run[|run| - 1].threads[res.ref].deadline, Polled(ZERO_VIEW, true)))
  {
    hide IsRun, Look, BuildFRSView, Tells;
    var s := run[|run| - 1];
    LookExact(s, res.ref, true);
    more := RunFurther(run, Poll(res.ref, true));
  }

  // ... so if it fails, its entry can end as Timeout: the cluster says Failed
  // from its creation to the end.
  lemma FailedEndsAsTimeout(start: State, res: Resource) returns (run: seq<State>)
    requires Init(start) && res.ref !in start.cluster && res.state == "Failed" && !HasTransport(res)
    ensures IsRun(run) && run[0] == start && Shows(run, res)
    ensures var s := run[|run| - 1]; res.ref in s.watches && s.watches[res.ref].phase == Timeout
  {
    hide IsRun, Look, Window, BuildFRSView, HasTransport, Init;
    var ref := res.ref;
    var pending := PendingIsReached(start, res);
    var polling := RunFurther(pending, StartWatcher(ref));
    var read := UnpublishedIsRead(polling, res);
    var s := read[|read| - 1];
    var deadline := s.threads[ref].deadline;
    var late := RunFurther(read, Tick(if deadline < s.now then s.now else deadline + 1));
    var over := RunFurther(late, CheckDeadline(ref));
    run := RunFurther(over, SetTerminal(ref));
  }

  // ---------------------------------------------------------------------
  // Nobody gives up early
  // ---------------------------------------------------------------------

  // Earlier in the run the watcher was started, with this deadline.
  ghost predicate Started(run: seq<State>, i: nat, ref: FRSRef, deadline: int) {
    exists j: nat | j < i && i < |run| ::
      At(run[j], ref, Spawning) && At(run[j + 1], ref, Polling(deadline))
      && deadline == run[j].now + Window(run[j].frsTimeout)
  }

  ghost predicate ThreadTimely(run: seq<State>, i: nat, ref: FRSRef, t: Thread)
    requires i < |run|
  {
    match t
    case Polling(d) => Started(run, i, ref, d)
    case Checking(d, _) => Started(run, i, ref, d)
    case Sleeping(d, _) => Started(run, i, ref, d)
    case Returning(d, p) => Started(run, i, ref, d) && (Decisive(p) || run[i].now > d)
    case _ => true
  }

  ghost predicate EntryTimely(run: seq<State>, i: nat, ref: FRSRef, st: WatchState) {
    st.phase == Timeout ==> exists d: int :: Started(run, i, ref, d) && st.createdAt > d
  }

  ghost predicate AllTimely(run: seq<State>, i: nat)
    requires i < |run|
  {
    && (forall r | r in run[i].threads :: ThreadTimely(run, i, r, run[i].threads[r]))
    && (forall r | r in run[i].watches :: EntryTimely(run, i, r, run[i].watches[r]))
  }

  lemma StartedLater(run: seq<State>, i: nat, ref: FRSRef, d: int)
    requires Started(run, i, ref, d) && i + 1 < |run|
    ensures Started(run, i + 1, ref, d)
  {
  }

  // At some point of WaitForReady, which has a deadline.
  predicate Waits(t: Thread) {
    t.Polling? || t.Checking? || t.Sleeping? || t.Returning?
  }

  // A step starts a wait, or leaves its deadline alone; and it only gives up
  // on a decisive poll or after the deadline.
  lemma DeadlineKept(s: State, a: Step, r: FRSRef)
    requires Enabled(s, a) && r in Apply(s, a).threads && Waits(Apply(s, a).threads[r])
    ensures Apply(s, a).now >= s.now
    ensures var t := Apply(s, a).threads[r];
            if a == StartWatcher(r) then At(s, r, Spawning) && t == Polling(s.now + Window(s.frsTimeout))
            else
              && r in s.threads && Waits(s.threads[r]) && s.threads[r].deadline == t.deadline
              && (t.Returning? ==> s.threads[r] == t || Decisive(t.polled) || s.now > t.deadline)
  {
    hide Look, BuildFRSView, Decisive, TerminalEntry, PendingEntry, Swept, Stamped, Window;
  }

  lemma StartedNow(run: seq<State>, i: nat, r: FRSRef)
    requires i + 1 < |run| && At(run[i], r, Spawning)
    requires At(run[i + 1], r, Polling(run[i].now + Window(run[i].frsTimeout)))
    ensures Started(run, i + 1, r, run[i].now + Window(run[i].frsTimeout))
  {
    hide Window;
  }

  lemma ThreadsStayTimely(run: seq<State>, i: nat, a: Step, r: FRSRef)
    requires i + 1 < |run| && AllTimely(run, i)
    requires Enabled(run[i], a) && run[i + 1] == Apply(run[i], a) && r in run[i + 1].threads
    ensures ThreadTimely(run, i + 1, r, run[i + 1].threads[r])
  {
    hide Apply, Enabled, Decisive, Window, Started, EntryTimely;
    var t := run[i + 1].threads[r];
    if !Waits(t) {
      return;
    }
    DeadlineKept(run[i], a, r);
    if a == StartWatcher(r) {
      StartedNow(run, i, r);
    } else {
      assert ThreadTimely(run, i, r, run[i].threads[r]);
      StartedLater(run, i, r, t.deadline);
    }
  }

  lemma EntriesStayTimely(run: seq<State>, i: nat, a: Step, r: FRSRef)
    requires i + 1 < |run| && AllTimely(run, i) && run[i].now > 0
    requires Enabled(run[i], a) && run[i + 1] == Apply(run[i], a) && r in run[i + 1].watches
    ensures EntryTimely(run, i + 1, r, run[i + 1].watches[r])
  {
    hide Look, BuildFRSView, Started, Window;
    var st := run[i + 1].watches[r];
    if a == SetTerminal(r) {
      var t := run[i].threads[r];
      assert ThreadTimely(run, i, r, t);
      StartedLater(run, i, r, t.deadline);
      assert st.phase == Timeout ==> !Decisive(t.polled) && st.createdAt == run[i].now;
    } else if a != SetPending(r) {
      assert EntryTimely(run, i, r, st);
      hide AllTimely, Apply, Enabled;
      if st.phase == Timeout {
        var d: int :| Started(run, i, r, d) && st.createdAt > d;
        StartedLater(run, i, r, d);
      }
    }
  }

  lemma {:induction false} RunIsTimely(run: seq<State>, i: nat)
    requires IsRun(run) && i < |run|
    ensures AllTimely(run, i)
  {
    hide ThreadTimely, EntryTimely, Apply, Enabled, IsPath;
    if i <= 0 {
    } else {
      RunIsTimely(run, i - 1);
      RunKeepsInv(run, i - 1);
      assert run[i - 1].now > 0;
      var a := PathStep(run, i - 1);
      var s := run[i];
      forall r | r in s.threads ensures ThreadTimely(run, i, r, s.threads[r]) {
        ThreadsStayTimely(run, i - 1, a, r);
      }
      forall r | r in s.watches ensures EntryTimely(run, i, r, s.watches[r]) {
        EntriesStayTimely(run, i - 1, a, r);
      }
    }
  }

  // In state j the goroutine begins to wait; the wait is as long as the
  // configured timeout, or 120 seconds if none is configured.
  ghost predicate BeginsAt(run: seq<State>, i: nat, ref: FRSRef, j: nat, deadline: int) {
    && j < i < |run| && At(run[j], ref, Spawning) && At(run[j + 1], ref, Polling(deadline))
    && deadline == run[j].now + if run[j].frsTimeout == 0 then 120_000_000_000 else run[j].frsTimeout
  }

  lemma StartedBegins(run: seq<State>, i: nat, ref: FRSRef, d: int) returns (j: nat)
    requires Started(run, i, ref, d)
    ensures BeginsAt(run, i, ref, j, d)
  {
    j :| j < i && At(run[j], ref, Spawning) && At(run[j + 1], ref, Polling(d))
         && d == run[j].now + Window(run[j].frsTimeout);
  }

  // The deadline a watcher works against is that of its start, throughout.
  lemma DeadlineIsTheWindow(run: seq<State>, i: nat, ref: FRSRef) returns (j: nat)
    requires IsRun(run) && i < |run| && ref in run[i].threads && Waits(run[i].threads[ref])
    ensures BeginsAt(run, i, ref, j, run[i].threads[ref].deadline)
  {
    hide IsRun, Started, EntryTimely, BeginsAt, Decisive;
    RunIsTimely(run, i);
    assert ThreadTimely(run, i, ref, run[i].threads[ref]);
    j := StartedBegins(run, i, ref, run[i].threads[ref].deadline);
  }

  // A Timeout entry is only set after the whole window since the watcher
  // started has passed.
  lemma TimeoutIsNotEarly(run: seq<State>, i: nat, ref: FRSRef) returns (j: nat, deadline: int)
    requires IsRun(run) && i < |run| && ref in run[i].watches && run[i].watches[ref].phase == Timeout
    ensures BeginsAt(run, i, ref, j, deadline) && run[i].watches[ref].createdAt > deadline
  {
    hide IsRun, Started, ThreadTimely, BeginsAt;
    RunIsTimely(run, i);
    assert EntryTimely(run, i, ref, run[i].watches[ref]);
    deadline :| Started(run, i, ref, deadline) && run[i].watches[ref].createdAt > deadline;
    j := StartedBegins(run, i, ref, deadline);
  }

  // ---------------------------------------------------------------------
  // What a Pending entry shows
  // ---------------------------------------------------------------------

  // The view repeats the resource, whether or not its transport is there.
  predicate Repeats(v: FRSView, r: Resource) {
    && v.ref == r.ref && v.state == r.state && (v.terminal <==> r.state in {"Failed", "Succeeded", "Terminated"})
    && v.serviceName == r.serviceName && v.serviceNS == r.serviceNS && v.port == r.port
    && v.hostKeySig == r.hostKeySig && v.expiry == r.expiry && v.createdAt == r.createdAt
    && (v.connectable <==> HasTransport(r))
  }

  // Before state i the resource was created, and looked like this then.
  ghost predicate CreatedAs(run: seq<State>, i: nat, ref: FRSRef, view: FRSView) {
    exists j: nat | j < i && i < |run| ::
      && ref !in run[j].threads && ref in run[j + 1].threads && ref in run[j + 1].cluster
      && Repeats(view, run[j + 1].cluster[ref])
  }

  ghost predicate ShowsCreated(run: seq<State>, i: nat, ref: FRSRef)
    requires i < |run|
  {
    && (ref in run[i].threads && run[i].threads[ref].Creating? ==>
          CreatedAs(run, i, ref, run[i].threads[ref].view))
    && (ref in run[i].watches && run[i].watches[ref].phase == Pending ==>
          CreatedAs(run, i, ref, run[i].watches[ref].view))
  }

  lemma CreatedLater(run: seq<State>, i: nat, ref: FRSRef, view: FRSView)
    requires CreatedAs(run, i, ref, view) && i + 1 < |run|
    ensures CreatedAs(run, i + 1, ref, view)
  {
    hide Repeats;
  }

  // One step: what is shown now was shown before, or has just been created.
  lemma ShownBefore(s: State, a: Step, ref: FRSRef)
    requires Enabled(s, a)
    ensures var t := Apply(s, a);
            && (ref in t.threads && t.threads[ref].Creating? ==>
                  if ref in s.threads then s.threads[ref] == t.threads[ref]
                  else ref in t.cluster && Repeats(t.threads[ref].view, t.cluster[ref]))
            && (ref in t.watches && t.watches[ref].phase == Pending ==>
                  || (ref in s.watches && s.watches[ref] == t.watches[ref])
                  || (ref in s.threads && s.threads[ref].Creating? && t.watches[ref].view == s.threads[ref].view))
  {
    hide Look, Decisive, Window;
  }

  lemma StepShowsCreated(run: seq<State>, i: nat, a: Step, ref: FRSRef)
    requires i + 1 < |run| && ShowsCreated(run, i, ref)
    requires Enabled(run[i], a) && run[i + 1] == Apply(run[i], a)
    ensures ShowsCreated(run, i + 1, ref)
  {
    hide Apply, Enabled, Repeats;
    var s, t := run[i], run[i + 1];
    ShownBefore(s, a, ref);
    if ref in t.threads && t.threads[ref].Creating? {
      if ref in s.threads {
        CreatedLater(run, i, ref, t.threads[ref].view);
      }
    }
    if ref in t.watches && t.watches[ref].phase == Pending {
      CreatedLater(run, i, ref, t.watches[ref].view);
    }
  }

  lemma {:induction false} RunShowsCreated(run: seq<State>, i: nat, ref: FRSRef)
    requires IsRun(run) && i < |run|
    ensures ShowsCreated(run, i, ref)
  {
    hide ShowsCreated, Apply, Enabled, IsPath;
    if i == 0 {
      NothingShown(run, ref);
    } else {
      RunShowsCreated(run, i - 1, ref);
      var a := PathStep(run, i - 1);
      StepShowsCreated(run, i - 1, a, ref);
    }
  }

  lemma NothingShown(run: seq<State>, ref: FRSRef)
    requires IsRun(run)
    ensures ShowsCreated(run, 0, ref)
  {
    hide CreatedAs, IsPath;
  }

  // A Pending entry shows the FRS as it was when it was created, field by
  // field, with no error and not done.
  lemma PendingShowsCreated(run: seq<State>, i: nat, ref: FRSRef)
    requires IsRun(run) && i < |run| && ref in run[i].watches && run[i].watches[ref].phase == Pending
    ensures var st := run[i].watches[ref]; !st.done && !st.failed && CreatedAs(run, i, ref, st.view)
  {
    hide IsRun, CreatedAs;
    RunShowsCreated(run, i, ref);
    RunKeepsInv(run, i);
  }

  // ---------------------------------------------------------------------
  // How often a watcher polls
  // ---------------------------------------------------------------------

  // Between state k and state i, at m, the deadline check let the watcher go
  // on; and it has not woken up before half a second later.
  ghost predicate LetGoOn(run: seq<State>, k: nat, m: nat, i: nat, deadline: int, wake: int) {
    k < m < i < |run| && run[m].now <= deadline && wake >= run[m].now + 500_000_000
  }

  ghost predicate PacedSince(run: seq<State>, k: nat, i: nat, t: Thread)
    requires i < |run|
  {
    match t
    case Polling(d) => exists m: nat :: LetGoOn(run, k, m, i, d, run[i].now)
    case Sleeping(d, wake) => exists m: nat :: LetGoOn(run, k, m, i, d, wake)
    case Checking(_, _) => true
    case Returning(_, _) => true
    case Finished => true
    case _ => false
  }

  // The order of the points of WaitForReady.
  lemma WaitStep(s: State, a: Step, ref: FRSRef)
    requires Enabled(s, a) && ref in s.threads
    requires var t := s.threads[ref]; t.Finished? || Waits(t)
    ensures Apply(s, a).now >= s.now && ref in Apply(s, a).threads
    ensures var t, u := s.threads[ref], Apply(s, a).threads[ref];
            || t == u
            || (t.Polling? && (u.Checking? || u.Returning?))
            || (t.Checking? && u.Returning?)
            || (t.Checking? && u == Sleeping(t.deadline, s.now + 500_000_000) && s.now <= t.deadline)
            || (t.Sleeping? && u == Polling(t.deadline) && t.wake <= s.now == Apply(s, a).now)
            || (t.Returning? && u.Finished?)
  {
    hide Look, BuildFRSView, Decisive, TerminalEntry, PendingEntry, Swept, Stamped, Window;
  }

  lemma {:induction false} WatchIsPaced(run: seq<State>, k: nat, i: nat, ref: FRSRef, reachable: bool)
    requires IsRun(run) && ReadsAt(run, k, ref, reachable) && k < i < |run|
    ensures ref in run[i].threads && PacedSince(run, k, i, run[i].threads[ref])
    decreases i
  {
    hide Look, Inv, Apply, Enabled, IsPath, Init, LetGoOn;
    if i == k + 1 {
    } else {
      WatchIsPaced(run, k, i - 1, ref, reachable);
      var a := PathStep(run, i - 1);
      WaitStep(run[i - 1], a, ref);
      PacedStep(run, k, i - 1, run[i - 1].threads[ref], run[i].threads[ref]);
    }
  }

  lemma PacedStep(run: seq<State>, k: nat, i: nat, t: Thread, u: Thread)
    requires k < i && i + 1 < |run| && PacedSince(run, k, i, t) && run[i + 1].now >= run[i].now
    requires || t == u
             || (t.Polling? && (u.Checking? || u.Returning?))
             || (t.Checking? && u.Returning?)
             || (t.Checking? && u == Sleeping(t.deadline, run[i].now + 500_000_000) && run[i].now <= t.deadline)
             || (t.Sleeping? && u == Polling(t.deadline) && t.wake <= run[i].now == run[i + 1].now)
             || (t.Returning? && u.Finished?)
    ensures PacedSince(run, k, i + 1, u)
  {
    if t.Polling? && t == u {
      var m: nat :| LetGoOn(run, k, m, i, t.deadline, run[i].now);
      assert LetGoOn(run, k, m, i + 1, t.deadline, run[i + 1].now);
    } else if t.Sleeping? {
      var m: nat :| LetGoOn(run, k, m, i, t.deadline, t.wake);
      assert LetGoOn(run, k, m, i + 1, t.deadline, t.wake);
      assert u.Polling? ==> LetGoOn(run, k, m, i + 1, t.deadline, run[i + 1].now);
    } else if t.Checking? && u.Sleeping? {
      assert LetGoOn(run, k, i, i + 1, u.deadline, u.wake);
    }
  }

  // Once a poll is decisive the watcher returns, and does not poll again.
  lemma {:induction false} DecisiveIsLast(run: seq<State>, k: nat, i: nat, ref: FRSRef, reachable: bool)
    requires IsRun(run) && ReadsAt(run, k, ref, reachable) && Decisive(Look(run[k], ref, reachable)) && k < i < |run|
    ensures ref in run[i].threads && (run[i].threads[ref].Returning? || run[i].threads[ref].Finished?)
    decreases i
  {
    hide Look, Inv, IsPath, Init, Decisive, Apply, Enabled;
    var a := PathStep(run, i - 1);
    if i == k + 1 {
      PollReturns(run[k], a, ref);
    } else {
      DecisiveIsLast(run, k, i - 1, ref, reachable);
      WaitStep(run[i - 1], a, ref);
    }
  }

  lemma PollReturns(s: State, a: Step, ref: FRSRef)
    requires Enabled(s, a) && PollingIn(s, ref) && ref in Apply(s, a).threads
    ensures var t := Apply(s, a).threads[ref];
            (t.Returning? ==> Decisive(t.polled)) && (t.Checking? ==> !Decisive(t.polled))
  {
    hide Look, BuildFRSView, Decisive, TerminalEntry, PendingEntry, Swept, Stamped, Window;
  }

  // A watcher polls again only after a poll that found the FRS neither Ready
  // nor Failed, after a check within its deadline, and at least half a second
  // after that check: it gives up at the first check that finds the deadline
  // passed.
  lemma PollsArePaced(run: seq<State>, k: nat, i: nat, ref: FRSRef, a: bool, b: bool) returns (m: nat)
    requires IsRun(run) && k < i && ReadsAt(run, k, ref, a) && ReadsAt(run, i, ref, b)
    ensures k < m < i && run[m].now <= run[i].threads[ref].deadline && run[i].now >= run[m].now + 500_000_000
    ensures !PublishedAs(run[k], ref, a, "Ready") && !PublishedAs(run[k], ref, a, "Failed")
  {
    hide IsRun, Look, PublishedAs;
    LookExact(run[k], ref, a);
    if Decisive(Look(run[k], ref, a)) {
      DecisiveIsLast(run, k, i, ref, a);
    }
    WatchIsPaced(run, k, i, ref, a);
    m :| LetGoOn(run, k, m, i, run[i].threads[ref].deadline, run[i].now);
  }

  // ---------------------------------------------------------------------
  // Cancelling does not stop the watcher
  // ---------------------------------------------------------------------

  // One step, made explicit.
  lemma TakeStep(s: State, a: Step) returns (s': State)
    requires Inv(s) && Enabled(s, a)
    ensures s' == Apply(s, a) && Next(s, s') && Inv(s')
  {
    s' := Apply(s, a);
    NextKeepsInv(s, a);
  }

  ghost predicate Leads(s: State, t: State) {
    exists path: seq<State> :: IsPath(path) && path[0] == s && path[|path| - 1] == t
  }

  lemma LeadsToSelf(s: State)
    ensures Leads(s, s)
  {
    assert IsPath([s]);
  }

  lemma LeadsFurther(s: State, t: State, u: State)
    requires Leads(s, t) && Next(t, u)
    ensures Leads(s, u)
  {
    var path: seq<State> :| IsPath(path) && path[0] == s && path[|path| - 1] == t;
    var more := path + [u];
    forall i | 0 <= i < |more| - 1 ensures Next(more[i], more[i + 1]) {
      if i < |path| - 1 {
        assert Next(path[i], path[i + 1]);
      }
    }
    assert more[0] == s && more[|more| - 1] == u;
  }

  // The thread of a reference can get to the point where the entry is set:
  // each lemma covers what is left from one point of WaitForReady on.
  ghost predicate CanFinish(s: State, ref: FRSRef) {
    exists t: State :: Leads(s, t) && Inv(t) && ref in t.watches && t.watches[ref].phase != Pending
  }

  lemma StepFirst(s: State, t: State, ref: FRSRef)
    requires Next(s, t) && CanFinish(t, ref)
    ensures CanFinish(s, ref)
  {
    hide Inv, Next, IsPath;
    var u: State :| Leads(t, u) && Inv(u) && ref in u.watches && u.watches[ref].phase != Pending;
    LeadsEarlier(s, t, u);
  }

  lemma LeadsEarlier(s: State, t: State, u: State)
    requires Next(s, t) && Leads(t, u)
    ensures Leads(s, u)
  {
    hide Next;
    var path: seq<State> :| IsPath(path) && path[0] == t && path[|path| - 1] == u;
    var more := [s] + path;
    forall i | 0 <= i < |more| - 1 ensures Next(more[i], more[i + 1]) {
      if i > 0 {
        assert Next(path[i - 1], path[i]);
      }
    }
    assert more[0] == s && more[|more| - 1] == u;
  }

  lemma ReturningFinishes(s: State, ref: FRSRef)
    requires Inv(s) && ref in s.threads && s.threads[ref].Returning?
    ensures CanFinish(s, ref)
  {
    hide Leads, Next, TerminalEntry, Look;
    var t := TakeStep(s, SetTerminal(ref));
    LeadsToSelf(s);
    LeadsFurther(s, s, t);
    TerminalNotPending(t, ref);
    hide Inv, Apply, Enabled;
  }

  lemma CheckingFinishes(s: State, ref: FRSRef)
    requires Inv(s) && ref in s.threads && s.threads[ref].Checking?
    ensures CanFinish(s, ref)
  {
    hide CanFinish, Next, Inv, Look;
    var d := s.threads[ref].deadline;
    var t := TakeStep(s, Tick(if d >= s.now then d + 1 else s.now));
    var u := TakeStep(t, CheckDeadline(ref));
    ReturningFinishes(u, ref);
    StepFirst(t, u, ref);
    StepFirst(s, t, ref);
  }

  lemma PollingFinishes(s: State, ref: FRSRef)
    requires Inv(s) && ref in s.threads && s.threads[ref].Polling?
    ensures CanFinish(s, ref)
  {
    hide CanFinish, Next, Inv;
    var t := TakeStep(s, Poll(ref, false));
    CheckingFinishes(t, ref);
    StepFirst(s, t, ref);
  }

  // From any running watcher the deadline can pass and the entry be set.
  lemma WatcherCanFinish(s: State, ref: FRSRef)
    requires Inv(s) && ref in s.threads && Running(s.threads[ref])
    ensures CanFinish(s, ref)
  {
    hide CanFinish, Next, Inv, Look;
    match s.threads[ref]
    case Spawning =>
      var t := TakeStep(s, StartWatcher(ref));
      PollingFinishes(t, ref);
      StepFirst(s, t, ref);
    case Sleeping(_, wake) =>
      var t := TakeStep(s, Tick(if wake > s.now then wake else s.now));
      var u := TakeStep(t, WakeUp(ref));
      PollingFinishes(u, ref);
      StepFirst(t, u, ref);
      StepFirst(s, t, ref);
    case Polling(_) => PollingFinishes(s, ref);
    case Checking(_, _) => CheckingFinishes(s, ref);
    case Returning(_, _) => ReturningFinishes(s, ref);
  }

  lemma TerminalNotPending(s: State, ref: FRSRef)
    requires Inv(s) && At(s, ref, Finished) && ref in s.watches
    ensures s.watches[ref].phase != Pending
  {
  }

  // When a reference is not in the map, an entry for it can still appear
  // exactly if its create handler or watcher has not finished.
  lemma {:induction false} StageAlongPath(path: seq<State>, ref: FRSRef, i: nat)
    requires IsPath(path) && Inv(path[0]) && i < |path|
    ensures Inv(path[i]) && Stage(path[0], ref) <= Stage(path[i], ref)
  {
    if i <= 0 {
    } else {
      StageAlongPath(path, ref, i - 1);
      var a := PathStep(path, i - 1);
      hide Inv, Apply, Enabled, Stage;
      NextKeepsInv(path[i - 1], a);
      StepKeepsStage(path[i - 1], a, ref);
    }
  }

  lemma ReappearsIff(s: State, ref: FRSRef)
    requires Inv(s) && ref in s.threads && ref !in s.watches
    ensures (exists t: State :: Leads(s, t) && ref in t.watches) <==> !s.threads[ref].Finished?
  {
    if !s.threads[ref].Finished? {
      if s.threads[ref].Creating? {
        LeadsToSelf(s);
        var t := TakeStep(s, SetPending(ref));
        LeadsFurther(s, s, t);
        assert Leads(s, t) && ref in t.watches;
      } else {
        WatcherCanFinish(s, ref);
      }
    } else {
      forall t: State | Leads(s, t) ensures ref !in t.watches {
        var path: seq<State> :| IsPath(path) && path[0] == s && path[|path| - 1] == t;
        StageAlongPath(path, ref, |path| - 1);
      }
    }
  }

  // What a handler that removes an entry leaves behind: one can come back
  // exactly if the entry it removed was Pending.
  lemma RemovedEntryReturnsIff(s: State, ref: FRSRef)
    requires Inv(s) && ref in s.deleting && ref in s.watches
    ensures (exists t: State :: Leads(Apply(s, DeleteEntry(ref)), t) && ref in t.watches)
            <==> s.watches[ref].phase == Pending
  {
    var gone := TakeStep(s, DeleteEntry(ref));
    assert EntryMatches(s.watches[ref], s.threads[ref]);
    hide Leads, Inv, Next;
    ReappearsIff(gone, ref);
  }

  // Cancel while the watcher is at work: the FRS is deleted, the entry is
  // gone, and then a terminal entry comes back.
  lemma CancelledEntryComesBack(s: State, ref: FRSRef) returns (gone: State)
    requires Inv(s) && ref in s.watches && s.watches[ref].phase == Pending
    ensures Leads(s, gone) && ref !in gone.watches && ref !in gone.cluster && gone.deleting == s.deleting
    ensures CanFinish(gone, ref)
  {
    LeadsToSelf(s);
    var mid := TakeStep(s, DeleteReturns(ref));
    LeadsFurther(s, s, mid);
    gone := TakeStep(mid, DeleteEntry(ref));
    LeadsFurther(s, mid, gone);
    WatcherCanFinish(gone, ref);
  }

  // ---------------------------------------------------------------------
  // Bounded memory
  // ---------------------------------------------------------------------

  // Which of the sets so far have a stamp from this time on.
  function SetsSince(sets: seq<Stamp>, since: int): set<nat> {
    set i: nat | i < |sets| && sets[i].at >= since
  }

  ghost predicate Logged(s: State) {
    forall r | r in s.watches :: Stamp(r, s.watches[r].createdAt) in s.sets
  }

  lemma NextKeepsLogged(s: State, a: Step)
    requires Logged(s) && Enabled(s, a)
    ensures Logged(Apply(s, a))
  {
    hide Look, BuildFRSView, Decisive, ShowsReady;
    var t := Apply(s, a);
    forall r | r in t.watches ensures Stamp(r, t.watches[r].createdAt) in t.sets {
      if r in s.watches && s.watches[r] == t.watches[r] {
        assert Stamp(r, s.watches[r].createdAt) in s.sets;
      } else {
        assert t.sets[|t.sets| - 1] == Stamp(r, t.watches[r].createdAt);
      }
    }
  }

  lemma {:induction false} RunKeepsLogged(run: seq<State>, i: nat)
    requires IsRun(run) && i < |run|
    ensures Logged(run[i])
  {
    if i <= 0 {
    } else {
      RunKeepsLogged(run, i - 1);
      var a := PathStep(run, i - 1);
      hide Apply, Enabled, Logged;
      NextKeepsLogged(run[i - 1], a);
    }
  }

  lemma SetsSinceSnoc(sets: seq<Stamp>, since: int)
    requires sets != []
    ensures var n := |sets| - 1;
            |SetsSince(sets, since)| == |SetsSince(sets[..n], since)| + if sets[n].at >= since then 1 else 0
  {
    var n := |sets| - 1;
    var front := SetsSince(sets[..n], since);
    assert forall i: nat | i < n :: sets[..n][i] == sets[i];
    assert SetsSince(sets, since) == if sets[n].at >= since then front + {n} else front;
  }

  // Distinct references with a recent stamp each need a stamp of their own.
  lemma {:induction false} RecentRefs(refs: set<FRSRef>, sets: seq<Stamp>, since: int)
    requires forall r | r in refs :: exists i | 0 <= i < |sets| :: sets[i].ref == r && sets[i].at >= since
    ensures |refs| <= |SetsSince(sets, since)|
    decreases |sets|
  {
    hide SetsSince;
    if sets == [] {
      assert refs == {};
    } else {
      var n := |sets| - 1;
      var last := sets[n];
      var rest := if last.at >= since then refs - {last.ref} else refs;
      forall r | r in rest ensures exists i | 0 <= i < n :: sets[..n][i].ref == r && sets[..n][i].at >= since {
        var i :| 0 <= i < |sets| && sets[i].ref == r && sets[i].at >= since;
        assert i < n && sets[..n][i] == sets[i];
      }
      SetsSinceSnoc(sets, since);
      RecentRefs(rest, sets[..n], since);
      assert refs <= rest + {last.ref};
      if last.ref in refs && last.at >= since {
        assert |refs| == |rest| + 1;
      }
    }
  }

  // A sweep removes exactly the entries older than maxAge, and changes no
  // other.
  lemma SweepKeepsYoung(s: State, maxAge: int, ref: FRSRef)
    ensures var t := Apply(s, Sweep(maxAge));
            && (ref in t.watches <==> ref in s.watches && s.now - s.watches[ref].createdAt <= maxAge)
            && (ref in t.watches ==> t.watches[ref] == s.watches[ref])
  {
  }

  // Right after a sweep, the map holds no more entries than watches.set was
  // called with a stamp from the last maxAge.
  lemma SweepBoundsMemory(run: seq<State>, i: nat, maxAge: int)
    requires IsRun(run) && i < |run|
    ensures var s := run[i];
            |Apply(s, Sweep(maxAge)).watches| <= |set k: nat | k < |s.sets| && s.sets[k].at >= s.now - maxAge|
  {
    hide IsRun, Look, BuildFRSView, TerminalEntry, PendingEntry, Window, Decisive, Moved, SetWatch;
    var s := run[i];
    RunKeepsLogged(run, i);
    var swept := Apply(s, Sweep(maxAge)).watches;
    forall r | r in swept
      ensures exists k | 0 <= k < |s.sets| :: s.sets[k].ref == r && s.sets[k].at >= s.now - maxAge
    {
      assert Stamp(r, s.watches[r].createdAt) in s.sets;
    }
    RecentRefs(swept.Keys, s.sets, s.now - maxAge);
    assert |swept| == |swept.Keys|;
    assert SetsSince(s.sets, s.now - maxAge) == set k: nat | k < |s.sets| && s.sets[k].at >= s.now - maxAge;
  }
}
