// The handlers that read and write the watch map and the pool: the decisions
// of the browse page and its poll, and the delete, cancel and watch steps.
module Handlers {
  import opened Basics
  import opened Frs
  import opened WatchMap
  import opened WatchProtocol
  import Pool

  // ---------------------------------------------------------------------
  // GET /browse?partial=ready
  // ---------------------------------------------------------------------

  datatype Reply =
    | HxRedirect                // 204 with HX-Redirect to the browse page
    | NoContent                 // 204: poll again
    | Fragment(phase: Phase)    // the body fragment
    | FullPage(phase: Phase)    // the page with its layout

  // `entry` is the watch entry at first, `polled` what GetFRS then says, and
  // `later` the entry when the not-ready branch looks again.
  function PartialReady(
    entry: Option<WatchState>, polled: Polled, later: Option<WatchState>, htmx: bool): Reply
  {
    var notReady :=
      if htmx then NoContent
      else FullPage(if later.Some? then later.value.phase else Pending);
    if entry.Some? && entry.value.phase == Ready then HxRedirect
    else if entry.Some? && entry.value.phase != Pending then Fragment(entry.value.phase)
    else if polled.failed then notReady
    else if polled.view.state == "Ready" then HxRedirect
    else if polled.view.state == "Failed" then Fragment(WatchMap.Failed)
    else notReady
  }

  // A poll by htmx never gets a page with a layout; a direct visit gets one
  // exactly when neither the entry nor the cluster has settled. Otherwise the
  // entry decides if it has settled, and else the cluster.
  lemma PartialNeverNests(entry: Option<WatchState>, polled: Polled, later: Option<WatchState>, htmx: bool)
    ensures PartialReady(entry, polled, later, htmx).FullPage? <==>
            !htmx && (entry.Some? ==> entry.value.phase == Pending) && !Decisive(polled)
    ensures PartialReady(entry, polled, later, htmx) == NoContent <==>
            htmx && (entry.Some? ==> entry.value.phase == Pending) && !Decisive(polled)
    ensures PartialReady(entry, polled, later, htmx) == HxRedirect <==>
            if entry.Some? && entry.value.phase != Pending then entry.value.phase == Ready else ShowsReady(polled)
    ensures PartialReady(entry, polled, later, htmx).Fragment? <==>
            if entry.Some? && entry.value.phase != Pending then entry.value.phase != Ready else ShowsFailed(polled)
    ensures var reply := PartialReady(entry, polled, later, htmx);
            && (reply.Fragment? ==>
                  reply.phase == if entry.Some? && entry.value.phase != Pending then entry.value.phase
                                 else WatchMap.Failed)
            && (reply.FullPage? ==> reply.phase == if later.Some? then later.value.phase else Pending)
  {
  }

  // A redirect out of the preparing page is always justified. The handler
  // read the map in state i of some run and the cluster in a later state j.
  // It redirects exactly if, the entry having settled, its watcher's last
  // poll found the FRS Ready and published; or, while nothing has settled,
  // its own call in state j does.
  lemma RedirectIsJustified(
    run: seq<State>, i: nat, j: nat, ref: FRSRef, reachable: bool, later: Option<WatchState>, htmx: bool)
    requires IsRun(run) && i <= j < |run|
    ensures var entry := Shown(run[i], ref);
            PartialReady(entry, Look(run[j], ref, reachable), later, htmx) == HxRedirect <==>
            if entry.Some? && entry.value.phase != Pending then LastPollFound(run, i, ref, "Ready")
            else PublishedAs(run[j], ref, reachable, "Ready")
  {
    hide IsRun, Look, LastPollFound, PublishedAs, PartialReady;
    LookExact(run[j], ref, reachable);
    PartialNeverNests(Shown(run[i], ref), Look(run[j], ref, reachable), later, htmx);
    if ref in run[i].watches && run[i].watches[ref].phase != Pending {
      SettledIffLastPoll(run, i, ref);
    }
  }

  // What the entry shows, in terms of its watcher's last poll.
  ghost predicate ShowsPhase(run: seq<State>, i: nat, ref: FRSRef, phase: Phase)
    requires i < |run|
  {
    var settled := ref in run[i].watches && run[i].watches[ref].phase != Pending;
    match phase
    case Pending => !settled
    case Ready => settled && LastPollFound(run, i, ref, "Ready")
    case Failed => settled && LastPollFound(run, i, ref, "Failed")
    case Timeout => settled && !LastPollFound(run, i, ref, "Ready") && !LastPollFound(run, i, ref, "Failed")
  }

  // Which body is sent to the page that waits. The fragment says Failed
  // exactly if the watcher's last poll, or while nothing has settled the
  // handler's own call, found the FRS Failed and published; it says Timeout
  // exactly if the entry has settled on neither. The full page shows what
  // the entry shows when the handler looks again, in state m.
  lemma PartialSaysWhy(
    run: seq<State>, i: nat, j: nat, m: nat, ref: FRSRef, reachable: bool, htmx: bool, phase: Phase)
    requires IsRun(run) && i <= j <= m < |run|
    ensures var settled := Shown(run[i], ref).Some? && Shown(run[i], ref).value.phase != Pending;
            var own := Look(run[j], ref, reachable);
            var reply := PartialReady(Shown(run[i], ref), own, Shown(run[m], ref), htmx);
            && (reply == Fragment(WatchMap.Failed) <==>
                  if settled then LastPollFound(run, i, ref, "Failed")
                  else PublishedAs(run[j], ref, reachable, "Failed"))
            && (reply == Fragment(Timeout) <==>
                  settled && !LastPollFound(run, i, ref, "Ready") && !LastPollFound(run, i, ref, "Failed"))
            && reply != Fragment(Ready) && reply != Fragment(Pending)
            && (reply == FullPage(phase) <==>
                  !htmx && !settled && !PublishedAs(run[j], ref, reachable, "Ready")
                  && !PublishedAs(run[j], ref, reachable, "Failed") && ShowsPhase(run, m, ref, phase))
  {
    hide IsRun, Look, LastPollFound, PublishedAs, LastPoll;
    LookExact(run[j], ref, reachable);
    EntryShowsPhase(run, m, ref, phase);
    if ref in run[i].watches && run[i].watches[ref].phase != Pending {
      SettledIffLastPoll(run, i, ref);
      LastPollFoundOne(run, i, ref);
    }
  }

  lemma EntryShowsPhase(run: seq<State>, m: nat, ref: FRSRef, phase: Phase)
    requires IsRun(run) && m < |run|
    ensures ShowsPhase(run, m, ref, phase) <==>
            phase == if ref in run[m].watches then run[m].watches[ref].phase else Pending
  {
    hide IsRun, LastPollFound;
    if ref in run[m].watches && run[m].watches[ref].phase != Pending {
      SettledIffLastPoll(run, m, ref);
      LastPollFoundOne(run, m, ref);
    }
  }

  lemma LastPollFoundOne(run: seq<State>, i: nat, ref: FRSRef)
    requires IsRun(run) && i < |run| && ref in run[i].watches && run[i].watches[ref].phase != Pending
    ensures !(LastPollFound(run, i, ref, "Ready") && LastPollFound(run, i, ref, "Failed"))
  {
    hide IsRun, LastPollFound;
    SettledIffLastPoll(run, i, ref);
  }

  // ---------------------------------------------------------------------
  // GET /browse
  // ---------------------------------------------------------------------

  datatype Browse =
    | Preparing(state: string)
    | ListDirectory
    | GoConnect
    | BadGateway

  function PhaseText(phase: Phase): string {
    match phase
    case Pending => "Pending"
    case Ready => "Ready"
    case Failed => "Failed"
    case Timeout => "Timeout"
  }

  // `pooled` is whether the pool has a session for this user and FRS.
  function BrowseDecision(
    entry: Option<WatchState>, pooled: bool, polled: Polled, later: Option<WatchState>): Browse
  {
    if entry.Some? && entry.value.done && entry.value.phase != Ready then Preparing(PhaseText(entry.value.phase))
    else if pooled then ListDirectory
    else if polled.failed then
      if later.Some? then Preparing(PhaseText(later.value.phase)) else BadGateway
    else if polled.view.state != "Ready" then Preparing(polled.view.state)
    else GoConnect
  }

  // Going on to connect, or past a settled entry, is justified the same way;
  // a Failed or Timeout entry always stops at its page.
  lemma BrowseIsJustified(
    run: seq<State>, i: nat, j: nat, ref: FRSRef, pooled: bool, reachable: bool, later: Option<WatchState>)
    requires IsRun(run) && i <= j < |run|
    ensures var entry := Shown(run[i], ref);
            var settled := entry.Some? && entry.value.phase != Pending;
            var b := BrowseDecision(entry, pooled, Look(run[j], ref, reachable), later);
            var goOn := settled ==> LastPollFound(run, i, ref, "Ready");
            && (b == GoConnect <==> goOn && !pooled && PublishedAs(run[j], ref, reachable, "Ready"))
            && (b == ListDirectory <==> goOn && pooled)
            && (!goOn ==> b == Preparing(if LastPollFound(run, i, ref, "Failed") then "Failed" else "Timeout"))
            && (goOn && !pooled && Published(run[j], ref, reachable) && run[j].cluster[ref].state != "Ready" ==>
                  b == Preparing(run[j].cluster[ref].state))
            && (goOn && !pooled && !Published(run[j], ref, reachable) ==>
                  match later
                  case None => b == BadGateway
                  case Some(st) => b == Preparing(match st.phase
                                                  case Pending => "Pending"
                                                  case Ready => "Ready"
                                                  case Failed => "Failed"
                                                  case Timeout => "Timeout"))
  {
    hide IsRun, Look, LastPollFound, PublishedAs, Published, HasTransport;
    RunKeepsInv(run, i);
    LookExact(run[j], ref, reachable);
    if ref in run[i].watches && run[i].watches[ref].phase != Pending {
      SettledIffLastPoll(run, i, ref);
      LastPollFoundOne(run, i, ref);
    }
    PublishedNotReady(run[j], ref, reachable);
  }

  lemma PublishedNotReady(s: State, ref: FRSRef, reachable: bool)
    ensures PublishedAs(s, ref, reachable, "Ready") <==>
            Published(s, ref, reachable) && s.cluster[ref].state == "Ready"
    ensures Published(s, ref, reachable) ==> reachable && ref in s.cluster
  {
  }

  // ---------------------------------------------------------------------
  // The steps that write
  // ---------------------------------------------------------------------

  // What the API server answers to a delete.
  datatype DeleteReply = Gone | NotFound | Refused

  // DeleteFRS: an FRS that is not there counts as deleted.
  predicate Deleted(reply: DeleteReply) {
    reply != Refused
  }

  class Server {
    const pool: Pool.Pool
    const watches: WatchTable

    constructor (pool: Pool.Pool, watches: WatchTable)
      ensures this.pool == pool && this.watches == watches
    {
      this.pool := pool;
      this.watches := watches;
    }

    // The watcher goroutine: waits, then sets the terminal entry its last
    // poll calls for.
    method WatchFRSCreated(
      ref: FRSRef, poll: nat -> Polled, clock: nat -> int, start: int, timeout: int, now: int)
      returns (ghost polls: nat)
      requires Paced(clock, start)
      modifies watches
      ensures polls >= 1 && Reaches(poll, clock, start + timeout, polls - 1)
      ensures Decisive(poll(polls - 1)) || clock(polls - 1) > start + timeout
      ensures watches.m == old(watches.m)[ref := Stamped(TerminalEntry(poll(polls - 1)), now)]
    {
      var view, failed;
      view, failed, polls := WaitForReady(poll, clock, start, timeout);
      var phase := if !failed then Ready else if view.state == "Failed" then WatchMap.Failed else Timeout;
      watches.Set(ref, WatchState(phase, view, failed, true, 0), now);
    }

    // POST /wizard/cancel, once the delete call has answered. `s` is where the
    // protocol stands then. The new map is that of the protocol's step, and
    // the caller learns whether the reference can show up again.
    method HandleWizardCancel(ref: FRSRef, reply: DeleteReply, ghost s: State)
      requires Inv(s) && watches.m == s.watches && (reply != Refused ==> ref in s.deleting)
      modifies watches
      ensures reply == Refused ==> watches.m == old(watches.m)
      ensures reply == Gone || reply == NotFound ==> watches.m == Apply(s, DeleteEntry(ref)).watches
      ensures reply != Refused && ref in old(watches.m) ==>
                ((exists t: State :: Leads(Apply(s, DeleteEntry(ref)), t) && ref in t.watches)
                 <==> old(watches.m)[ref].phase == Pending)
    {
      if Deleted(reply) {
        if ref in s.watches {
          RemovedEntryReturnsIff(s, ref);
        }
        hide Leads, Inv;
        watches.Del(ref);
      }
    }

    // POST /sessions/{ns}/{name}/delete.
    method HandleSessionDelete(ref: FRSRef, reply: DeleteReply)
      modifies pool, watches
      ensures watches.m == if reply == Refused then old(watches.m) else old(watches.m) - {ref}
      ensures var frs := Pool.FrsName(ref.ns, ref.name);
              pool.Now() == if reply == Refused then old(pool.Now())
                            else Pool.Step(pool.ttl, old(pool.Now()), Pool.CloseAllForFRS(frs))
      ensures reply != Refused ==> forall k | k in pool.entries :: k.frs != Pool.FrsName(ref.ns, ref.name)
      ensures forall k
                | k in old(pool.entries) && (reply == Refused || k.frs != Pool.FrsName(ref.ns, ref.name)) ::
                k in pool.entries && pool.entries[k] == old(pool.entries)[k]
    {
      if Deleted(reply) {
        pool.CloseAllForFRS(Pool.FrsName(ref.ns, ref.name));
        watches.Del(ref);
      }
    }
  }
}
