/**
 * Coordination of deployed builds: successful builds wait for the announcement that the
 * repository databases carry them, the announcement refreshes the known versions, and
 * then each build gets one bump check.
 *
 * The service runs on one event loop. Every event below is one stretch of code between
 * two `await`s, so a run is any sequence of events; an event that cannot happen in a
 * state leaves it as it is.
 */
module DeploymentCoordination {
  import opened SortedIds
  import opened Wrappers

  const PENDING_DEPLOYMENT_TIMEOUT_MS := 5 * 60 * 1000

  // ----- State -----

  /** Builds are numbered in the order they were queued. */
  datatype Check = Check(build: nat, targetRepo: string, pkgbase: string, queuedAt: int)

  /**
   * Where one call of the refresh loop stands: awaiting an update, with the update's outcome
   * not acted on yet, done with its callback outstanding, or done and settled.
   */
  datatype Phase = Updating | Updated(ok: bool) | Exited(ok: bool) | Settled(ok: bool)

  /** A call of the refresh loop; the indices say where in the log its last update started and ended. */
  datatype Refresh = Refresh(phase: Phase, startedAt: nat, endedAt: nat)

  /** An announcement that waits for a refresh before its builds join the bump chain. */
  datatype Waiter = Waiter(builds: seq<nat>, refresh: nat)

  datatype Entry =
    | Requested(refresh: nat)
    | UpdateStarted(refresh: nat)
    | UpdateEnded(refresh: nat, ok: bool)
    | LoopExited(refresh: nat)
    | BumpStarted(build: nat)
    | BumpEnded(build: nat, ok: bool)

  datatype State = State(
    pending: seq<Check>,
    queued: nat,
    refreshInFlight: Option<nat>,
    scheduledUpdate: bool,
    refreshes: seq<Refresh>,
    waiters: seq<Waiter>,
    bumpChain: seq<nat>,
    bumpsStarted: nat,
    bumpRunning: bool,
    // Observations: what happened, which request each taken build waited for, which builds expired.
    log: seq<Entry>,
    takenBy: map<nat, nat>,
    expired: set<nat>)

  datatype Event =
    | BuildSucceeded(targetRepo: string, pkgbase: string, now: int)
    | DatabaseSuccess(targetRepo: string, pkgbase: string, now: int)
    | RemovalComplete
    | UpdateSettles(refresh: nat, ok: bool)
    | LoopContinues(refresh: nat)
    | RefreshSettles(refresh: nat)
    | AnnouncementResumes(waiter: nat)
    | BumpCheckStarts
    | BumpCheckEnds(ok: bool)

  const INITIAL := State([], 0, None, false, [], [], [], 0, false, [], map[], {})

  // ----- Taking the deployed builds -----

  /** What an announcement at time `now` does with a queued check. */
  datatype Fate = Expired | Deployed | Kept

  function FateOf(c: Check, targetRepo: string, pkgbase: string, now: int): Fate {
    if now - c.queuedAt >= PENDING_DEPLOYMENT_TIMEOUT_MS then Expired
    else if c.targetRepo == targetRepo && c.pkgbase == pkgbase then Deployed
    else Kept
  }

  /** The checks with the given fate, in queue order. */
  function WithFate(checks: seq<Check>, targetRepo: string, pkgbase: string, now: int, fate: Fate): seq<Check> {
    if checks == [] then []
    else
      (if FateOf(checks[0], targetRepo, pkgbase, now) == fate then [checks[0]] else [])
      + WithFate(checks[1..], targetRepo, pkgbase, now, fate)
  }

  function Builds(checks: seq<Check>): (builds: seq<nat>)
    ensures |builds| == |checks| && forall i :: 0 <= i < |checks| ==> builds[i] == checks[i].build
  {
    seq(|checks|, i requires 0 <= i < |checks| => checks[i].build)
  }

  function DeployedBuilds(s: State, targetRepo: string, pkgbase: string, now: int): seq<nat> {
    Builds(WithFate(s.pending, targetRepo, pkgbase, now, Deployed))
  }

  /** Takes the deployed builds out of the queue for the request about to be logged, and drops expired ones. */
  function Take(s: State, targetRepo: string, pkgbase: string, now: int): State {
    var taken := DeployedBuilds(s, targetRepo, pkgbase, now);
    s.(pending := WithFate(s.pending, targetRepo, pkgbase, now, Kept),
       takenBy := s.takenBy + map b | b in Elements(taken) :: |s.log|,
       expired := s.expired + Elements(Builds(WithFate(s.pending, targetRepo, pkgbase, now, Expired))))
  }

  // ----- The refresh loop -----

  function RequestedRefresh(s: State): nat {
    match s.refreshInFlight case Some(r) => r case None => |s.refreshes|
  }

  /** Joins the refresh in flight and asks it for one more round, or starts a refresh. */
  function Request(s: State): State {
    match s.refreshInFlight
    case Some(r) => s.(scheduledUpdate := true, log := s.log + [Requested(r)])
    case None =>
      var r := |s.refreshes|;
      s.(refreshInFlight := Some(r), scheduledUpdate := false,
         refreshes := s.refreshes + [Refresh(Updating, |s.log| + 1, 0)],
         log := s.log + [Requested(r), UpdateStarted(r)])
  }

  predicate InPhase(s: State, r: nat, phase: Phase) {
    r < |s.refreshes| && s.refreshes[r].phase == phase
  }

  function SettleUpdate(s: State, r: nat, ok: bool): State {
    if InPhase(s, r, Updating) then
      s.(refreshes := s.refreshes[r := s.refreshes[r].(phase := Updated(ok), endedAt := |s.log|)],
         log := s.log + [UpdateEnded(r, ok)])
    else s
  }

  /** The loop's test after an update: another round if one was scheduled meanwhile. */
  function ContinueLoop(s: State, r: nat): State {
    if InPhase(s, r, Updated(true)) then
      if s.scheduledUpdate then
        s.(scheduledUpdate := false,
           refreshes := s.refreshes[r := Refresh(Updating, |s.log|, 0)],
           log := s.log + [UpdateStarted(r)])
      else
        s.(refreshes := s.refreshes[r := s.refreshes[r].(phase := Exited(true))],
           log := s.log + [LoopExited(r)])
    else if InPhase(s, r, Updated(false)) then
      s.(refreshes := s.refreshes[r := s.refreshes[r].(phase := Exited(false))])
    else s
  }

  function SettleRefresh(s: State, r: nat): State {
    if r < |s.refreshes| && s.refreshes[r].phase.Exited? then
      s.(refreshInFlight := None,
         refreshes := s.refreshes[r := s.refreshes[r].(phase := Settled(s.refreshes[r].phase.ok))])
    else s
  }

  predicate CanResume(s: State, w: nat) {
    w < |s.waiters| && s.waiters[w].refresh < |s.refreshes| && s.refreshes[s.waiters[w].refresh].phase.Settled?
  }

  function Resume(s: State, w: nat): State {
    if CanResume(s, w) then
      s.(waiters := s.waiters[..w] + s.waiters[w + 1..], bumpChain := s.bumpChain + s.waiters[w].builds)
    else s
  }

  function StartBump(s: State): State {
    if !s.bumpRunning && s.bumpsStarted < |s.bumpChain| then
      s.(bumpsStarted := s.bumpsStarted + 1, bumpRunning := true,
         log := s.log + [BumpStarted(s.bumpChain[s.bumpsStarted])])
    else s
  }

  function EndBump(s: State, ok: bool): State {
    if s.bumpRunning && 0 < s.bumpsStarted <= |s.bumpChain| then
      s.(bumpRunning := false, log := s.log + [BumpEnded(s.bumpChain[s.bumpsStarted - 1], ok)])
    else s
  }

  function Announce(s: State, targetRepo: string, pkgbase: string, now: int): State {
    var s' := Request(Take(s, targetRepo, pkgbase, now));
    s'.(waiters := s'.waiters + [Waiter(DeployedBuilds(s, targetRepo, pkgbase, now), RequestedRefresh(s))])
  }

  function Step(s: State, e: Event): State {
    match e
    case BuildSucceeded(repo, pkgbase, now) =>
      s.(pending := s.pending + [Check(s.queued, repo, pkgbase, now)], queued := s.queued + 1)
    case DatabaseSuccess(repo, pkgbase, now) => Announce(s, repo, pkgbase, now)
    case RemovalComplete => Request(s)
    case UpdateSettles(r, ok) => SettleUpdate(s, r, ok)
    case LoopContinues(r) => ContinueLoop(s, r)
    case RefreshSettles(r) => SettleRefresh(s, r)
    case AnnouncementResumes(w) => Resume(s, w)
    case BumpCheckStarts => StartBump(s)
    case BumpCheckEnds(ok) => EndBump(s, ok)
  }

  /** The state after a run. */
  function Run(events: seq<Event>): State {
    if events == [] then INITIAL else Step(Run(events[..|events| - 1]), events[|events| - 1])
  }

  // ----- What the log of a run promises -----

  predicate IsUpdateEntry(e: Entry) {
    e.UpdateStarted? || e.UpdateEnded?
  }

  function Delta(e: Entry): int {
    match e
    case UpdateStarted(_) => 1
    case UpdateEnded(_, _) => -1
    case _ => 0
  }

  /** The number of versions updates running after the logged entries. */
  function UpdatesRunning(log: seq<Entry>): int {
    if log == [] then 0 else UpdatesRunning(log[..|log| - 1]) + Delta(log[|log| - 1])
  }

  ghost predicate AtMostOneUpdate(log: seq<Entry>) {
    forall n :: 0 <= n <= |log| ==> 0 <= UpdatesRunning(log[..n]) <= 1
  }

  /** An update of refresh `r` started at `j` and succeeded at `k`. */
  ghost predicate UpdateRan(log: seq<Entry>, r: nat, j: nat, k: nat) {
    && j < k < |log| && log[j] == UpdateStarted(r) && log[k] == UpdateEnded(r, true)
    && forall x :: j < x < k ==> !IsUpdateEntry(log[x])
  }

  /** An update of refresh `r` both started and succeeded after entry `q`. */
  ghost predicate UpdatedAfter(log: seq<Entry>, r: nat, q: nat) {
    exists j: nat, k: nat :: q < j && UpdateRan(log, r, j, k)
  }

  ghost predicate Rejected(log: seq<Entry>, r: nat) {
    UpdateEnded(r, false) in log
  }

  /** The loop of refresh `r` had decided to end before entry `q`. */
  ghost predicate ExitedBefore(log: seq<Entry>, r: nat, q: nat) {
    q <= |log| && LoopExited(r) in log[..q]
  }

  /**
   * The request at `q` has been answered in `log`: by an update that began after it, by a
   * rejection, or, for a request between the loop's last test and its callback, by nothing new.
   */
  ghost predicate IsAnswered(log: seq<Entry>, q: nat) {
    && q < |log| && log[q].Requested?
    && (UpdatedAfter(log, log[q].refresh, q) || Rejected(log, log[q].refresh) || ExitedBefore(log, log[q].refresh, q))
  }

  /** Every bump check starts after the request its build waited for has been answered. */
  ghost predicate BumpsWait(log: seq<Entry>, takenBy: map<nat, nat>) {
    forall i :: 0 <= i < |log| && log[i].BumpStarted? ==>
      log[i].build in takenBy && IsAnswered(log[..i], takenBy[log[i].build])
  }

  // ----- Invariant: refreshes -----

  ghost predicate RefreshHolds(log: seq<Entry>, r: nat, f: Refresh) {
    && f.startedAt < |log| && log[f.startedAt] == UpdateStarted(r)
    && (f.phase.Updating? ==> forall x :: f.startedAt < x < |log| ==> !IsUpdateEntry(log[x]))
    && (!f.phase.Updating? ==> HasEnded(log, r, f))
    && (LoopExited(r) in log <==> f.phase == Exited(true) || f.phase == Settled(true))
  }

  ghost predicate HasEnded(log: seq<Entry>, r: nat, f: Refresh)
    requires f.startedAt < |log| && !f.phase.Updating?
  {
    && f.startedAt < f.endedAt < |log| && log[f.endedAt] == UpdateEnded(r, f.phase.ok)
    && (forall x :: f.startedAt < x < f.endedAt ==> !IsUpdateEntry(log[x]))
  }

  ghost predicate RefreshesHold(s: State) {
    && (s.refreshInFlight.Some? ==> s.refreshInFlight.value < |s.refreshes|)
    && (forall r: nat :: r < |s.refreshes| ==> (s.refreshes[r].phase.Settled? <==> s.refreshInFlight != Some(r)))
    && (forall r: nat :: r < |s.refreshes| ==> RefreshHolds(s.log, r, s.refreshes[r]))
    && (forall x :: 0 <= x < |s.log| && s.log[x].UpdateStarted? ==>
         s.log[x].refresh < |s.refreshes| && x <= s.refreshes[s.log[x].refresh].startedAt)
    && (forall x :: 0 <= x < |s.log| && s.log[x].LoopExited? ==> s.log[x].refresh < |s.refreshes|)
  }

  /** A pending request will still get its own update, or its refresh was past the last test. */
  ghost predicate RequestHolds(s: State, q: nat)
    requires q < |s.log| && s.log[q].Requested?
  {
    var r := s.log[q].refresh;
    && r < |s.refreshes|
    && (ExitedBefore(s.log, r, q) ==> s.refreshes[r].startedAt < q)
    && (!ExitedBefore(s.log, r, q) ==>
         match s.refreshes[r].phase
         case Updating => s.scheduledUpdate || q < s.refreshes[r].startedAt
         case Updated(ok) => ok ==> s.scheduledUpdate || q < s.refreshes[r].startedAt
         case Exited(ok) => ok ==> q < s.refreshes[r].startedAt
         case Settled(ok) => ok ==> q < s.refreshes[r].startedAt)
  }

  ghost predicate RequestsHold(s: State) {
    forall q: nat :: q < |s.log| && s.log[q].Requested? ==> RequestHolds(s, q)
  }

  ghost predicate UpdatesHold(s: State) {
    && AtMostOneUpdate(s.log)
    && (UpdatesRunning(s.log) == 1 <==> exists r: nat :: InPhase(s, r, Updating))
  }

  ghost predicate LoopHolds(s: State) {
    RefreshesHold(s) && RequestsHold(s) && UpdatesHold(s)
  }

  // ----- Each step of the refresh loop keeps it -----

  lemma UpdatesExtend(log: seq<Entry>, e: Entry)
    requires AtMostOneUpdate(log)
    requires e.UpdateStarted? ==> UpdatesRunning(log) == 0
    requires e.UpdateEnded? ==> UpdatesRunning(log) == 1
    ensures AtMostOneUpdate(log + [e]) && UpdatesRunning(log + [e]) == UpdatesRunning(log) + Delta(e)
    ensures 0 <= UpdatesRunning(log) <= 1
  {
    var log' := log + [e];
    assert log'[..|log|] == log == log[..|log|];
    forall n | 0 <= n <= |log'|
      ensures 0 <= UpdatesRunning(log'[..n]) <= 1
    {
      if n <= |log| { assert log'[..n] == log[..n]; } else { assert log'[..n] == log'; }
    }
  }

  lemma ExitedBeforeExtends(log: seq<Entry>, e: Entry, r: nat, q: nat)
    requires q <= |log|
    ensures ExitedBefore(log + [e], r, q) <==> ExitedBefore(log, r, q)
  {
    assert (log + [e])[..q] == log[..q];
  }

  lemma RefreshExtends(log: seq<Entry>, e: Entry, r: nat, f: Refresh)
    requires RefreshHolds(log, r, f)
    requires f.phase.Updating? ==> !IsUpdateEntry(e)
    requires e != LoopExited(r)
    ensures RefreshHolds(log + [e], r, f)
  {
  }

  /** Logging what does not concern the refresh loop changes nothing about it. */
  lemma LogOther(s: State, s': State, e: Entry)
    requires LoopHolds(s) && !IsUpdateEntry(e) && !e.LoopExited? && !e.Requested?
    requires s'.log == s.log + [e] && s'.refreshes == s.refreshes
    requires s'.refreshInFlight == s.refreshInFlight && s'.scheduledUpdate == s.scheduledUpdate
    ensures LoopHolds(s')
  {
    UpdatesExtend(s.log, e);
    forall r: nat | r < |s.refreshes|
      ensures RefreshHolds(s'.log, r, s'.refreshes[r])
    {
      RefreshExtends(s.log, e, r, s.refreshes[r]);
    }
    assert UpdatesHold(s') by {
      forall r: nat ensures InPhase(s', r, Updating) <==> InPhase(s, r, Updating) {}
    }
    forall q: nat | q < |s'.log| && s'.log[q].Requested?
      ensures RequestHolds(s', q)
    {
      assert RequestHolds(s, q);
      ExitedBeforeExtends(s.log, e, s.log[q].refresh, q);
    }
  }

  lemma JoinHolds(s: State)
    requires LoopHolds(s) && s.refreshInFlight.Some?
    ensures LoopHolds(Request(s))
  {
    JoinRefreshes(s);
    JoinUpdates(s);
    JoinRequests(s);
    hide UpdatesHold, RefreshesHold, RequestsHold;
  }

  lemma JoinRefreshes(s: State)
    requires RefreshesHold(s) && s.refreshInFlight.Some?
    ensures RefreshesHold(Request(s))
  {
    hide RefreshHolds;
    forall x: nat | x < |s.refreshes|
      ensures RefreshHolds(Request(s).log, x, s.refreshes[x])
    {
      RefreshExtends(s.log, Requested(s.refreshInFlight.value), x, s.refreshes[x]);
    }
  }

  lemma JoinUpdates(s: State)
    requires UpdatesHold(s) && s.refreshInFlight.Some?
    ensures UpdatesHold(Request(s))
  {
    UpdatesExtend(s.log, Requested(s.refreshInFlight.value));
    hide UpdatesRunning, AtMostOneUpdate;
    forall x: nat
      ensures InPhase(Request(s), x, Updating) <==> InPhase(s, x, Updating)
    {
    }
  }

  lemma JoinRequests(s: State)
    requires LoopHolds(s) && s.refreshInFlight.Some?
    ensures RequestsHold(Request(s))
  {
    var r, s' := s.refreshInFlight.value, Request(s);
    var e := Requested(r);
    forall q: nat | q < |s'.log| && s'.log[q].Requested?
      ensures RequestHolds(s', q)
    {
      ExitedBeforeExtends(s.log, e, s'.log[q].refresh, q);
      if q < |s.log| {
        assert RequestHolds(s, q);
      } else {
        if s.refreshes[r].phase == Exited(true) { JoiningRequest(s, r); }
        assert s'.log[..q] == s.log;
      }
    }
  }

  /** A loop that has exited logged that, unless its update was rejected. */
  lemma JoiningRequest(s: State, r: nat)
    requires LoopHolds(s) && r < |s.refreshes| && s.refreshes[r].phase == Exited(true)
    ensures ExitedBefore(s.log, r, |s.log|)
  {
    assert s.log[..|s.log|] == s.log;
  }

  lemma StartHolds(s: State)
    requires LoopHolds(s) && s.refreshInFlight.None?
    ensures LoopHolds(Request(s))
  {
    StartUpdates(s);
    StartRefreshes(s);
    StartRequests(s);
    hide UpdatesHold, RefreshesHold, RequestsHold;
  }

  lemma StartUpdates(s: State)
    requires RefreshesHold(s) && UpdatesHold(s) && s.refreshInFlight.None?
    ensures UpdatesHold(Request(s))
  {
    var r, s' := |s.refreshes|, Request(s);
    var mid := s.log + [Requested(r)];
    assert s'.log == mid + [UpdateStarted(r)];
    assert UpdatesRunning(s.log) != 1;
    UpdatesExtend(s.log, Requested(r));
    UpdatesExtend(mid, UpdateStarted(r));
    hide AtMostOneUpdate, UpdatesRunning, RefreshesHold;
    assert InPhase(s', r, Updating);
  }

  lemma StartRefreshes(s: State)
    requires RefreshesHold(s) && s.refreshInFlight.None?
    ensures RefreshesHold(Request(s))
  {
    var r, s' := |s.refreshes|, Request(s);
    var mid := s.log + [Requested(r)];
    assert s'.log == mid + [UpdateStarted(r)];
    forall x: nat | x < |s'.refreshes|
      ensures RefreshHolds(s'.log, x, s'.refreshes[x])
    {
      if x < r {
        RefreshExtends(s.log, Requested(r), x, s.refreshes[x]);
        RefreshExtends(mid, UpdateStarted(r), x, s.refreshes[x]);
      }
    }
    hide RefreshHolds;
  }

  lemma StartRequests(s: State)
    requires RefreshesHold(s) && RequestsHold(s) && s.refreshInFlight.None?
    ensures RequestsHold(Request(s))
  {
    var r, s' := |s.refreshes|, Request(s);
    var mid := s.log + [Requested(r)];
    assert s'.log == mid + [UpdateStarted(r)];
    hide RefreshHolds;
    forall q: nat | q < |s'.log| && s'.log[q].Requested?
      ensures RequestHolds(s', q)
    {
      if q < |s.log| {
        assert RequestHolds(s, q);
        ExitedBeforeExtends(s.log, Requested(r), s.log[q].refresh, q);
        ExitedBeforeExtends(mid, UpdateStarted(r), s.log[q].refresh, q);
      } else {
        assert s'.log[..q] == s.log;
      }
    }
  }

  lemma SettleUpdateHolds(s: State, r: nat, ok: bool)
    requires LoopHolds(s)
    ensures LoopHolds(SettleUpdate(s, r, ok))
  {
    if InPhase(s, r, Updating) {
      var s' := SettleUpdate(s, r, ok);
      var e := UpdateEnded(r, ok);
      UpdatesExtend(s.log, e);
      forall x: nat | x < |s'.refreshes|
        ensures RefreshHolds(s'.log, x, s'.refreshes[x])
      {
        if x != r { RefreshExtends(s.log, e, x, s.refreshes[x]); }
      }
      OnlyCurrentActive(s, r);
      assert UpdatesHold(s');
      forall q: nat | q < |s'.log| && s'.log[q].Requested?
        ensures RequestHolds(s', q)
      {
        assert RequestHolds(s, q);
        ExitedBeforeExtends(s.log, e, s.log[q].refresh, q);
      }
    }
  }

  /** All refreshes but the one in flight are settled. */
  lemma OnlyCurrentActive(s: State, r: nat)
    requires RefreshesHold(s) && r < |s.refreshes| && !s.refreshes[r].phase.Settled?
    ensures s.refreshInFlight == Some(r)
    ensures forall x: nat :: x < |s.refreshes| && x != r ==> s.refreshes[x].phase.Settled?
  {
  }

  lemma RestartHolds(s: State, r: nat)
    requires LoopHolds(s) && InPhase(s, r, Updated(true)) && s.scheduledUpdate
    ensures LoopHolds(ContinueLoop(s, r))
  {
    var s' := ContinueLoop(s, r);
    var e := UpdateStarted(r);
    OnlyCurrentActive(s, r);
    assert UpdatesRunning(s.log) != 1;
    UpdatesBounds(s.log);
    UpdatesExtend(s.log, e);
    forall x: nat | x < |s'.refreshes|
      ensures RefreshHolds(s'.log, x, s'.refreshes[x])
    {
      if x != r { RefreshExtends(s.log, e, x, s.refreshes[x]); }
    }
    assert InPhase(s', r, Updating);
    forall q: nat | q < |s'.log| && s'.log[q].Requested?
      ensures RequestHolds(s', q)
    {
      assert RequestHolds(s, q);
      ExitedBeforeExtends(s.log, e, s.log[q].refresh, q);
      if s.log[q].refresh == r { assert LoopExited(r) !in s.log[..q]; }
    }
  }

  lemma UpdatesBounds(log: seq<Entry>)
    requires AtMostOneUpdate(log)
    ensures 0 <= UpdatesRunning(log) <= 1
  {
    assert log[..|log|] == log;
  }

  lemma ExitHolds(s: State, r: nat)
    requires LoopHolds(s) && InPhase(s, r, Updated(true)) && !s.scheduledUpdate
    ensures LoopHolds(ContinueLoop(s, r))
  {
    var s' := ContinueLoop(s, r);
    var e := LoopExited(r);
    OnlyCurrentActive(s, r);
    UpdatesExtend(s.log, e);
    forall x: nat | x < |s'.refreshes|
      ensures RefreshHolds(s'.log, x, s'.refreshes[x])
    {
      if x != r { RefreshExtends(s.log, e, x, s.refreshes[x]); }
    }
    assert UpdatesHold(s') by {
      forall x: nat ensures InPhase(s', x, Updating) <==> InPhase(s, x, Updating) {}
    }
    forall q: nat | q < |s'.log| && s'.log[q].Requested?
      ensures RequestHolds(s', q)
    {
      assert RequestHolds(s, q);
      ExitedBeforeExtends(s.log, e, s.log[q].refresh, q);
    }
  }

  /** Steps that only move one refresh to a later phase with the same outcome. */
  lemma PhaseMoveHolds(s: State, s': State, r: nat, phase: Phase)
    requires LoopHolds(s) && r < |s.refreshes| && s'.log == s.log && s'.scheduledUpdate == s.scheduledUpdate
    requires s'.refreshes == s.refreshes[r := s.refreshes[r].(phase := phase)]
    requires
      || (s.refreshes[r].phase == Updated(false) && phase == Exited(false) && s'.refreshInFlight == s.refreshInFlight)
      || (s.refreshes[r].phase.Exited? && phase == Settled(s.refreshes[r].phase.ok) && s'.refreshInFlight == None)
    ensures LoopHolds(s')
  {
    OnlyCurrentActive(s, r);
    assert UpdatesHold(s') by {
      forall x: nat ensures InPhase(s', x, Updating) <==> InPhase(s, x, Updating) {}
    }
    forall x: nat | x < |s'.refreshes|
      ensures RefreshHolds(s'.log, x, s'.refreshes[x])
    {
      assert RefreshHolds(s.log, x, s.refreshes[x]);
    }
    forall q: nat | q < |s'.log| && s'.log[q].Requested?
      ensures RequestHolds(s', q)
    {
      assert RequestHolds(s, q);
    }
  }

  /** What the refresh loop does not read or write may change freely. */
  lemma LoopFrame(s: State, s': State)
    requires LoopHolds(s) && s'.log == s.log && s'.refreshes == s.refreshes
    requires s'.refreshInFlight == s.refreshInFlight && s'.scheduledUpdate == s.scheduledUpdate
    ensures LoopHolds(s')
  {
    forall x: nat ensures InPhase(s', x, Updating) <==> InPhase(s, x, Updating) {}
    forall q: nat | q < |s'.log| && s'.log[q].Requested?
      ensures RequestHolds(s', q)
    {
      assert RequestHolds(s, q);
    }
  }

  lemma RequestStepHolds(s: State)
    requires LoopHolds(s)
    ensures LoopHolds(Request(s))
  {
    if s.refreshInFlight.Some? { JoinHolds(s); } else { StartHolds(s); }
  }

  lemma LoopStepHolds(s: State, e: Event)
    requires LoopHolds(s)
    ensures LoopHolds(Step(s, e))
  {
    hide LoopHolds;
    var s' := Step(s, e);
    match e {
      case BuildSucceeded(_, _, _) => LoopFrame(s, s');
      case DatabaseSuccess(repo, pkgbase, now) =>
        var taken := Take(s, repo, pkgbase, now);
        LoopFrame(s, taken);
        RequestStepHolds(taken);
        LoopFrame(Request(taken), s');
      case RemovalComplete => RequestStepHolds(s);
      case UpdateSettles(r, ok) => SettleUpdateHolds(s, r, ok);
      case LoopContinues(r) =>
        if InPhase(s, r, Updated(true)) {
          if s.scheduledUpdate { RestartHolds(s, r); } else { ExitHolds(s, r); }
        } else if InPhase(s, r, Updated(false)) {
          PhaseMoveHolds(s, s', r, Exited(false));
        }
      case RefreshSettles(r) =>
        if s' != s { PhaseMoveHolds(s, s', r, Settled(s.refreshes[r].phase.ok)); }
      case AnnouncementResumes(w) => LoopFrame(s, s');
      case BumpCheckStarts =>
        if s' != s { LogOther(s, s', BumpStarted(s.bumpChain[s.bumpsStarted])); }
      case BumpCheckEnds(ok) =>
        if s' != s { LogOther(s, s', BumpEnded(s.bumpChain[s.bumpsStarted - 1], ok)); }
    }
  }

  lemma {:induction false} RunLoopHolds(events: seq<Event>)
    ensures LoopHolds(Run(events))
  {
    if events == [] {
      assert INITIAL.log == [] && UpdatesRunning([]) == 0;
    } else {
      RunLoopHolds(events[..|events| - 1]);
      LoopStepHolds(Run(events[..|events| - 1]), events[|events| - 1]);
    }
  }

  /** At most one versions update runs at any time. */
  lemma UpdatesNeverOverlap(events: seq<Event>)
    ensures AtMostOneUpdate(Run(events).log)
  {
    RunLoopHolds(events);
  }

  /**
   * Once the refresh a request waited for has succeeded, an update of it ran entirely after
   * the request exactly when the request came before the loop's last test.
   */
  lemma RefreshIsNewerIffBeforeExit(events: seq<Event>, q: nat)
    requires q < |Run(events).log| && Run(events).log[q].Requested?
    requires InPhase(Run(events), Run(events).log[q].refresh, Settled(true))
    ensures var log := Run(events).log; var r := log[q].refresh;
      UpdatedAfter(log, r, q) <==> !ExitedBefore(log, r, q)
  {
    RunLoopHolds(events);
    var s := Run(events);
    var r := s.log[q].refresh;
    var f := s.refreshes[r];
    assert RequestHolds(s, q) && RefreshHolds(s.log, r, f);
    if !ExitedBefore(s.log, r, q) {
      assert UpdateRan(s.log, r, f.startedAt, f.endedAt);
    } else {
      forall j: nat, k: nat | q < j && UpdateRan(s.log, r, j, k)
        ensures false
      {
      }
    }
  }

  /** A request is answered by the time its refresh settles. */
  lemma SettledIsAnswered(s: State, q: nat)
    requires LoopHolds(s) && q < |s.log| && s.log[q].Requested?
    requires s.log[q].refresh < |s.refreshes| && s.refreshes[s.log[q].refresh].phase.Settled?
    ensures IsAnswered(s.log, q)
  {
    var r := s.log[q].refresh;
    var f := s.refreshes[r];
    assert RequestHolds(s, q) && RefreshHolds(s.log, r, f);
    if f.phase.ok && !ExitedBefore(s.log, r, q) {
      assert UpdateRan(s.log, r, f.startedAt, f.endedAt);
    }
  }

  lemma AnsweredExtends(log: seq<Entry>, log': seq<Entry>, q: nat)
    requires IsAnswered(log, q) && log <= log'
    ensures IsAnswered(log', q)
  {
    var r := log[q].refresh;
    assert log'[..q] == log[..q];
    if UpdatedAfter(log, r, q) {
      var j: nat, k: nat :| q < j && UpdateRan(log, r, j, k);
      assert UpdateRan(log', r, j, k);
    }
    if Rejected(log, r) {
      var i :| 0 <= i < |log| && log[i] == UpdateEnded(r, false);
      assert log'[i] == UpdateEnded(r, false);
    }
  }

  // ----- Invariant: builds -----

  predicate Ascending(xs: seq<nat>) {
    forall i, j :: 0 <= i < j < |xs| ==> xs[i] < xs[j]
  }

  /** The builds of all waiting announcements. */
  function Waiting(waiters: seq<Waiter>): seq<nat> {
    if waiters == [] then [] else Waiting(waiters[..|waiters| - 1]) + waiters[|waiters| - 1].builds
  }

  /** Every queued build is pending, taken or expired, and only one of them; pending ones are in queue order. */
  ghost predicate PlacesHold(s: State) {
    && Ascending(Builds(s.pending))
    && (forall b: nat :: b < s.queued <==> b in Builds(s.pending) || b in s.takenBy || b in s.expired)
    && (forall b: nat :: b in Builds(s.pending) ==> b !in s.takenBy && b !in s.expired)
    && (forall b: nat :: b in s.takenBy ==> b !in s.expired)
  }

  /** Every taken build waits with one announcement or is in the bump chain, exactly once. */
  ghost predicate TakenHold(s: State) {
    multiset(Waiting(s.waiters)) + multiset(s.bumpChain) == multiset(s.takenBy.Keys)
  }

  ghost predicate WaiterHolds(s: State, w: Waiter) {
    forall b :: b in w.builds ==>
      b in s.takenBy && s.takenBy[b] < |s.log| && s.log[s.takenBy[b]] == Requested(w.refresh)
  }

  ghost predicate AnswersHold(s: State) {
    && (forall w :: w in s.waiters ==> WaiterHolds(s, w))
    && (forall b :: b in s.bumpChain ==> b in s.takenBy && IsAnswered(s.log, s.takenBy[b]))
    && BumpsWait(s.log, s.takenBy)
  }

  ghost predicate QueueHolds(s: State) {
    PlacesHold(s) && TakenHold(s) && AnswersHold(s)
  }

  lemma {:induction false} WithFateMembers(checks: seq<Check>, targetRepo: string, pkgbase: string, now: int,
                                           fate: Fate)
    ensures forall c :: c in WithFate(checks, targetRepo, pkgbase, now, fate) <==>
      c in checks && FateOf(c, targetRepo, pkgbase, now) == fate
  {
    hide FateOf;
    if checks != [] {
      WithFateMembers(checks[1..], targetRepo, pkgbase, now, fate);
      assert forall c :: c in checks <==> c == checks[0] || c in checks[1..];
    }
  }

  lemma FirstIsLeast(checks: seq<Check>, c: Check)
    requires Ascending(Builds(checks)) && checks != [] && c in checks[1..]
    ensures checks[0].build < c.build
  {
    var k :| 0 <= k < |checks[1..]| && checks[1..][k] == c;
    assert Builds(checks)[0] < Builds(checks)[k + 1];
  }

  lemma AscendingRest(checks: seq<Check>)
    requires Ascending(Builds(checks)) && checks != []
    ensures Ascending(Builds(checks[1..]))
  {
    assert Builds(checks)[1..] == Builds(checks[1..]);
  }

  lemma AscendingCons(c: Check, rest: seq<Check>)
    requires Ascending(Builds(rest)) && forall d :: d in rest ==> c.build < d.build
    ensures Ascending(Builds([c] + rest))
  {
    assert forall i :: 0 <= i < |rest| ==> rest[i] in rest;
  }

  lemma {:induction false} WithFateAscending(checks: seq<Check>, targetRepo: string, pkgbase: string, now: int,
                                             fate: Fate)
    requires Ascending(Builds(checks))
    ensures Ascending(Builds(WithFate(checks, targetRepo, pkgbase, now, fate)))
  {
    hide FateOf, Ascending, Builds;
    if checks != [] {
      var rest := WithFate(checks[1..], targetRepo, pkgbase, now, fate);
      AscendingRest(checks);
      WithFateAscending(checks[1..], targetRepo, pkgbase, now, fate);
      WithFateMembers(checks[1..], targetRepo, pkgbase, now, fate);
      forall d | d in rest
        ensures checks[0].build < d.build
      {
        FirstIsLeast(checks, d);
      }
      AscendingCons(checks[0], rest);
      assert [] + rest == rest;
    }
  }

  lemma BuildsMember(checks: seq<Check>)
    ensures forall b :: b in Builds(checks) <==> exists c :: c in checks && c.build == b
  {
    forall b | b in Builds(checks)
      ensures exists c :: c in checks && c.build == b
    {
      var i :| 0 <= i < |checks| && Builds(checks)[i] == b;
      assert checks[i] in checks;
    }
    forall c | c in checks
      ensures c.build in Builds(checks)
    {
      var i :| 0 <= i < |checks| && checks[i] == c;
      assert Builds(checks)[i] == c.build;
    }
  }

  lemma {:induction false} AscendingMultiset(xs: seq<nat>)
    requires Ascending(xs)
    ensures multiset(xs) == multiset(Elements(xs))
  {
    if xs != [] {
      var init, last := xs[..|xs| - 1], xs[|xs| - 1];
      AscendingMultiset(init);
      assert xs == init + [last];
      assert Elements(xs) == Elements(init) + {last};
      assert last !in init;
    }
  }

  lemma BuildIdentifies(checks: seq<Check>, c: Check, d: Check)
    requires Ascending(Builds(checks)) && c in checks && d in checks && c.build == d.build
    ensures c == d
  {
    var i :| 0 <= i < |checks| && checks[i] == c;
    var j :| 0 <= j < |checks| && checks[j] == d;
    assert Builds(checks)[i] == Builds(checks)[j];
  }

  lemma FateOfBuild(checks: seq<Check>, targetRepo: string, pkgbase: string, now: int, c: Check, fate: Fate)
    requires Ascending(Builds(checks)) && c in checks
    ensures c.build in Builds(WithFate(checks, targetRepo, pkgbase, now, fate)) <==>
      FateOf(c, targetRepo, pkgbase, now) == fate
  {
    var chosen := WithFate(checks, targetRepo, pkgbase, now, fate);
    WithFateMembers(checks, targetRepo, pkgbase, now, fate);
    BuildsMember(chosen);
    if c.build in Builds(chosen) {
      var d :| d in chosen && d.build == c.build;
      BuildIdentifies(checks, c, d);
    }
  }

  lemma WithFateSubset(checks: seq<Check>, targetRepo: string, pkgbase: string, now: int, fate: Fate, b: nat)
    requires b in Builds(WithFate(checks, targetRepo, pkgbase, now, fate))
    ensures b in Builds(checks)
  {
    WithFateMembers(checks, targetRepo, pkgbase, now, fate);
    BuildsMember(checks);
    BuildsMember(WithFate(checks, targetRepo, pkgbase, now, fate));
  }

  /** An announcement splits the queue into taken, expired and remaining builds. */
  lemma FatesPartition(checks: seq<Check>, targetRepo: string, pkgbase: string, now: int, b: nat)
    requires Ascending(Builds(checks))
    ensures var kept := b in Builds(WithFate(checks, targetRepo, pkgbase, now, Kept));
      var taken := b in Builds(WithFate(checks, targetRepo, pkgbase, now, Deployed));
      var gone := b in Builds(WithFate(checks, targetRepo, pkgbase, now, Expired));
      && (b in Builds(checks) <==> kept || taken || gone)
      && !(kept && taken) && !(kept && gone) && !(taken && gone)
  {
    if b in Builds(checks) {
      BuildsMember(checks);
      var c :| c in checks && c.build == b;
      FateOfBuild(checks, targetRepo, pkgbase, now, c, Kept);
      FateOfBuild(checks, targetRepo, pkgbase, now, c, Deployed);
      FateOfBuild(checks, targetRepo, pkgbase, now, c, Expired);
    } else {
      forall fate | b in Builds(WithFate(checks, targetRepo, pkgbase, now, fate))
        ensures false
      {
        WithFateSubset(checks, targetRepo, pkgbase, now, fate, b);
      }
    }
  }

  lemma TakePlaces(s: State, targetRepo: string, pkgbase: string, now: int)
    requires PlacesHold(s)
    ensures PlacesHold(Take(s, targetRepo, pkgbase, now))
    ensures Ascending(DeployedBuilds(s, targetRepo, pkgbase, now))
    ensures forall b :: b in DeployedBuilds(s, targetRepo, pkgbase, now) ==> b !in s.takenBy
  {
    WithFateAscending(s.pending, targetRepo, pkgbase, now, Kept);
    WithFateAscending(s.pending, targetRepo, pkgbase, now, Deployed);
    forall b: nat
      ensures var kept := b in Builds(WithFate(s.pending, targetRepo, pkgbase, now, Kept));
        var taken := b in Builds(WithFate(s.pending, targetRepo, pkgbase, now, Deployed));
        var gone := b in Builds(WithFate(s.pending, targetRepo, pkgbase, now, Expired));
        && (b in Builds(s.pending) <==> kept || taken || gone)
        && !(kept && taken) && !(kept && gone) && !(taken && gone)
    {
      FatesPartition(s.pending, targetRepo, pkgbase, now, b);
    }
    hide WithFate, Ascending;
  }

  lemma DisjointUnion(xs: set<nat>, ys: set<nat>)
    requires xs !! ys
    ensures multiset(xs + ys) == multiset(xs) + multiset(ys)
  {
  }

  /** What a request changes, apart from the refresh loop. */
  lemma RequestShape(s: State)
    ensures var s' := Request(s);
      && s'.pending == s.pending && s'.queued == s.queued && s'.takenBy == s.takenBy && s'.expired == s.expired
      && s'.waiters == s.waiters && s'.bumpChain == s.bumpChain
      && s'.bumpsStarted == s.bumpsStarted && s'.bumpRunning == s.bumpRunning
      && s.log + [Requested(RequestedRefresh(s))] <= s'.log
      && forall i :: |s.log| <= i < |s'.log| ==> !s'.log[i].BumpStarted? && !s'.log[i].BumpEnded?
  {
  }

  /** What an announcement changes, apart from the refresh loop. */
  lemma AnnounceShape(s: State, targetRepo: string, pkgbase: string, now: int)
    ensures var s' := Announce(s, targetRepo, pkgbase, now);
      var taken := DeployedBuilds(s, targetRepo, pkgbase, now);
      var r := RequestedRefresh(s);
      var split := Take(s, targetRepo, pkgbase, now);
      && s'.waiters == s.waiters + [Waiter(taken, r)] && s'.bumpChain == s.bumpChain
      && s'.takenBy == s.takenBy + (map b | b in Elements(taken) :: |s.log|)
      && s'.pending == split.pending && s'.queued == s.queued
      && s'.expired == split.expired && s'.takenBy == split.takenBy
      && s'.bumpsStarted == s.bumpsStarted && s'.bumpRunning == s.bumpRunning
      && s.log + [Requested(r)] <= s'.log
      && forall i :: |s.log| <= i < |s'.log| ==> !s'.log[i].BumpStarted? && !s'.log[i].BumpEnded?
  {
    hide Request, DeployedBuilds, WithFate, Builds, Elements;
    RequestShape(Take(s, targetRepo, pkgbase, now));
  }

  lemma TakenJoin(waiters: seq<Waiter>, chain: seq<nat>, keys: set<nat>, taken: seq<nat>, r: nat)
    requires multiset(Waiting(waiters)) + multiset(chain) == multiset(keys)
    requires Ascending(taken) && keys !! Elements(taken)
    ensures multiset(Waiting(waiters + [Waiter(taken, r)])) + multiset(chain) == multiset(keys + Elements(taken))
  {
    AscendingMultiset(taken);
    DisjointUnion(keys, Elements(taken));
    var all := waiters + [Waiter(taken, r)];
    assert all[..|all| - 1] == waiters;
    assert Waiting(all) == Waiting(waiters) + taken;
  }

  lemma AnnounceTaken(s: State, targetRepo: string, pkgbase: string, now: int)
    requires PlacesHold(s) && TakenHold(s)
    ensures TakenHold(Announce(s, targetRepo, pkgbase, now))
  {
    AnnounceShape(s, targetRepo, pkgbase, now);
    TakePlaces(s, targetRepo, pkgbase, now);
    hide PlacesHold, DeployedBuilds, Announce, Take, Ascending, Waiting;
    var s' := Announce(s, targetRepo, pkgbase, now);
    var taken := DeployedBuilds(s, targetRepo, pkgbase, now);
    assert s.takenBy.Keys !! Elements(taken);
    assert s'.takenBy.Keys == s.takenBy.Keys + Elements(taken);
    TakenJoin(s.waiters, s.bumpChain, s.takenBy.Keys, taken, RequestedRefresh(s));
  }

  lemma WaitingAppend(waiters: seq<Waiter>, w: Waiter)
    ensures Waiting(waiters + [w]) == Waiting(waiters) + w.builds
  {
    assert (waiters + [w])[..|waiters|] == waiters;
  }

  lemma {:induction false} WaitingWithout(waiters: seq<Waiter>, w: nat)
    requires w < |waiters|
    ensures multiset(Waiting(waiters)) ==
      multiset(Waiting(waiters[..w] + waiters[w + 1..])) + multiset(waiters[w].builds)
  {
    hide Waiting;
    var n := |waiters| - 1;
    var rest := waiters[..w] + waiters[w + 1..];
    assert waiters == waiters[..n] + [waiters[n]];
    WaitingAppend(waiters[..n], waiters[n]);
    if w == n {
      assert rest == waiters[..n];
    } else {
      var rest' := waiters[..n][..w] + waiters[..n][w + 1..];
      assert rest == rest' + [waiters[n]];
      WaitingAppend(rest', waiters[n]);
      WaitingWithout(waiters[..n], w);
    }
  }

  lemma BumpsWaitExtends(s: State, s': State)
    requires AnswersHold(s) && s.log <= s'.log
    requires forall b :: b in s.takenBy ==> b in s'.takenBy && s'.takenBy[b] == s.takenBy[b]
    requires forall i :: |s.log| <= i < |s'.log| && s'.log[i].BumpStarted? ==> s'.log[i].build in s.bumpChain
    ensures BumpsWait(s'.log, s'.takenBy)
    ensures forall b :: b in s.bumpChain ==> b in s'.takenBy && IsAnswered(s'.log, s'.takenBy[b])
    ensures forall w :: w in s.waiters ==> WaiterHolds(s', w)
  {
    forall b | b in s.bumpChain
      ensures IsAnswered(s'.log, s'.takenBy[b])
    {
      AnsweredExtends(s.log, s'.log, s.takenBy[b]);
    }
    forall i | 0 <= i < |s'.log| && s'.log[i].BumpStarted?
      ensures s'.log[i].build in s'.takenBy && IsAnswered(s'.log[..i], s'.takenBy[s'.log[i].build])
    {
      if i < |s.log| {
        assert s'.log[i] == s.log[i] && s'.log[..i] == s.log[..i];
      } else {
        AnsweredExtends(s.log, s'.log[..i], s.takenBy[s'.log[i].build]);
      }
    }
  }

  lemma AnnounceAnswers(s: State, targetRepo: string, pkgbase: string, now: int)
    requires PlacesHold(s) && AnswersHold(s)
    ensures AnswersHold(Announce(s, targetRepo, pkgbase, now))
  {
    AnnounceShape(s, targetRepo, pkgbase, now);
    TakePlaces(s, targetRepo, pkgbase, now);
    hide PlacesHold, DeployedBuilds, Announce, Take, IsAnswered, BumpsWait, WaiterHolds, RequestedRefresh;
    var s' := Announce(s, targetRepo, pkgbase, now);
    NewWaiter(s, s', DeployedBuilds(s, targetRepo, pkgbase, now), RequestedRefresh(s));
    BumpsWaitExtends(s, s');
  }

  lemma NewWaiter(s: State, s': State, taken: seq<nat>, r: nat)
    requires s'.takenBy == s.takenBy + (map b | b in Elements(taken) :: |s.log|)
    requires s.log + [Requested(r)] <= s'.log
    ensures WaiterHolds(s', Waiter(taken, r))
  {
    assert s'.log[|s.log|] == Requested(r);
    assert forall b :: b in Elements(taken) <==> b in taken;
  }

  lemma AnnounceHolds(s: State, targetRepo: string, pkgbase: string, now: int)
    requires QueueHolds(s)
    ensures QueueHolds(Announce(s, targetRepo, pkgbase, now))
  {
    AnnounceShape(s, targetRepo, pkgbase, now);
    TakePlaces(s, targetRepo, pkgbase, now);
    AnnounceTaken(s, targetRepo, pkgbase, now);
    AnnounceAnswers(s, targetRepo, pkgbase, now);
    hide AnswersHold, TakenHold, Announce, Take;
  }

  lemma ResumeHolds(s: State, w: nat)
    requires LoopHolds(s) && TakenHold(s) && AnswersHold(s)
    ensures TakenHold(Resume(s, w)) && AnswersHold(Resume(s, w))
  {
    if CanResume(s, w) {
      var s' := Resume(s, w);
      WaitingWithout(s.waiters, w);
      assert multiset(s'.bumpChain) == multiset(s.bumpChain) + multiset(s.waiters[w].builds);
      assert WaiterHolds(s, s.waiters[w]);
      forall b | b in s.waiters[w].builds
        ensures IsAnswered(s.log, s.takenBy[b])
      {
        SettledIsAnswered(s, s.takenBy[b]);
      }
      forall x | x in s'.waiters
        ensures WaiterHolds(s', x)
      {
        assert x in s.waiters && WaiterHolds(s, x);
      }
    }
  }

  lemma QueuedHolds(s: State, targetRepo: string, pkgbase: string, now: int)
    requires QueueHolds(s)
    ensures QueueHolds(Step(s, BuildSucceeded(targetRepo, pkgbase, now)))
  {
    hide IsAnswered, BumpsWait;
    var s' := Step(s, BuildSucceeded(targetRepo, pkgbase, now));
    BumpsWaitExtends(s, s');
    assert Builds(s'.pending) == Builds(s.pending) + [s.queued];
    var n: nat := s.queued;
    assert n !in Builds(s.pending) && n !in s.takenBy && n !in s.expired;
    assert forall i :: 0 <= i < |s.pending| ==> Builds(s.pending)[i] in Builds(s.pending);
    assert PlacesHold(s');
  }

  /** Steps that leave the builds where they are. */
  lemma QueueFrame(s: State, s': State)
    requires QueueHolds(s) && s.log <= s'.log
    requires s'.pending == s.pending && s'.queued == s.queued && s'.takenBy == s.takenBy && s'.expired == s.expired
    requires s'.waiters == s.waiters && s'.bumpChain == s.bumpChain
    requires forall i :: |s.log| <= i < |s'.log| && s'.log[i].BumpStarted? ==> s'.log[i].build in s.bumpChain
    ensures QueueHolds(s')
  {
    hide IsAnswered, BumpsWait;
    BumpsWaitExtends(s, s');
  }

  lemma OtherSteps(s: State, e: Event)
    requires !e.BuildSucceeded? && !e.DatabaseSuccess? && !e.AnnouncementResumes?
    ensures var s' := Step(s, e);
      && s.log <= s'.log
      && s'.pending == s.pending && s'.queued == s.queued && s'.takenBy == s.takenBy && s'.expired == s.expired
      && s'.waiters == s.waiters && s'.bumpChain == s.bumpChain
      && forall i :: |s.log| <= i < |s'.log| && s'.log[i].BumpStarted? ==> s'.log[i].build in s.bumpChain
  {
    if e.RemovalComplete? {
      hide Request;
      RequestShape(s);
    }
  }

  lemma ResumeQueueHolds(s: State, w: nat)
    requires LoopHolds(s) && QueueHolds(s)
    ensures QueueHolds(Resume(s, w))
  {
    ResumeHolds(s, w);
    hide AnswersHold, TakenHold;
  }

  lemma OtherQueueHolds(s: State, e: Event)
    requires QueueHolds(s) && !e.BuildSucceeded? && !e.DatabaseSuccess? && !e.AnnouncementResumes?
    ensures QueueHolds(Step(s, e))
  {
    hide QueueHolds, Step;
    OtherSteps(s, e);
    QueueFrame(s, Step(s, e));
  }

  lemma QueueStepHolds(s: State, e: Event)
    requires LoopHolds(s) && QueueHolds(s)
    ensures QueueHolds(Step(s, e))
  {
    hide LoopHolds, QueueHolds, Announce, Resume;
    if e.BuildSucceeded? {
      QueuedHolds(s, e.targetRepo, e.pkgbase, e.now);
    } else if e.DatabaseSuccess? {
      AnnounceHolds(s, e.targetRepo, e.pkgbase, e.now);
    } else if e.AnnouncementResumes? {
      ResumeQueueHolds(s, e.waiter);
    } else {
      OtherQueueHolds(s, e);
    }
  }

  lemma {:induction false} RunQueueHolds(events: seq<Event>)
    ensures QueueHolds(Run(events))
  {
    if events != [] {
      RunLoopHolds(events[..|events| - 1]);
      RunQueueHolds(events[..|events| - 1]);
      QueueStepHolds(Run(events[..|events| - 1]), events[|events| - 1]);
    }
  }

  /**
   * In every run, a bump check starts only after the request its build was taken with has
   * been answered: a newer update succeeded, the refresh was rejected, or the request came
   * after the loop's last test.
   */
  lemma BumpsWaitForRefresh(events: seq<Event>)
    ensures BumpsWait(Run(events).log, Run(events).takenBy)
  {
    RunQueueHolds(events);
  }

  // ----- Every build in one place, every bump check once and in order -----

  /** Every queued build is pending, taken or expired, and every taken one waits or is in the chain exactly once. */
  lemma EachBuildInOnePlace(events: seq<Event>)
    ensures PlacesHold(Run(events)) && TakenHold(Run(events))
  {
    RunQueueHolds(events);
  }

  /** An announcement takes exactly the builds of its repository and package base queued within five minutes. */
  lemma TakenBuildsMatch(events: seq<Event>, targetRepo: string, pkgbase: string, now: int, c: Check)
    requires c in Run(events).pending
    ensures c.build in DeployedBuilds(Run(events), targetRepo, pkgbase, now) <==>
      c.targetRepo == targetRepo && c.pkgbase == pkgbase && now - c.queuedAt < PENDING_DEPLOYMENT_TIMEOUT_MS
  {
    RunQueueHolds(events);
    FateOfBuild(Run(events).pending, targetRepo, pkgbase, now, c, Deployed);
  }

  /** Event `q` queued the check. */
  ghost predicate IsQueuedBy(events: seq<Event>, q: nat, c: Check) {
    && q < |events| && events[q] == BuildSucceeded(c.targetRepo, c.pkgbase, c.queuedAt)
    && Run(events[..q]).queued == c.build
  }

  /** Event `k` is an announcement that finds the check, queued by event `q`, with the given fate. */
  ghost predicate IsDecidedBy(events: seq<Event>, q: nat, k: nat, c: Check, fate: Fate) {
    && q < k < |events| && IsQueuedBy(events, q, c) && events[k].DatabaseSuccess?
    && c in Run(events[..k]).pending && FateOf(c, events[k].targetRepo, events[k].pkgbase, events[k].now) == fate
  }

  lemma QueuedEarlier(events: seq<Event>, e: Event, q: nat, c: Check)
    requires IsQueuedBy(events, q, c)
    ensures IsQueuedBy(events + [e], q, c)
  {
    assert (events + [e])[..q] == events[..q];
  }

  lemma DecidedEarlier(events: seq<Event>, e: Event, q: nat, k: nat, c: Check, fate: Fate)
    requires IsDecidedBy(events, q, k, c, fate)
    ensures IsDecidedBy(events + [e], q, k, c, fate)
  {
    QueuedEarlier(events, e, q, c);
    assert (events + [e])[..k] == events[..k];
  }

  lemma StepPending(s: State, e: Event)
    ensures forall c :: c in Step(s, e).pending ==>
      c in s.pending || (e == BuildSucceeded(c.targetRepo, c.pkgbase, c.queuedAt) && c.build == s.queued)
    ensures !e.DatabaseSuccess? ==> Step(s, e).takenBy == s.takenBy && Step(s, e).expired == s.expired
  {
    if e.DatabaseSuccess? {
      WithFateMembers(s.pending, e.targetRepo, e.pkgbase, e.now, Kept);
      AnnounceShape(s, e.targetRepo, e.pkgbase, e.now);
      hide Announce, WithFate;
    } else if e.RemovalComplete? {
      RequestShape(s);
    }
  }

  /** What is pending was queued by an event of the run, with its repository, base and time. */
  lemma {:induction false} PendingWasQueued(events: seq<Event>, c: Check) returns (q: nat)
    requires c in Run(events).pending
    ensures IsQueuedBy(events, q, c)
  {
    assert events != [];
    var before, e := events[..|events| - 1], events[|events| - 1];
    assert events == before + [e] && (before + [e])[..|before|] == before;
    StepPending(Run(before), e);
    hide Step;
    if c in Run(before).pending {
      q := PendingWasQueued(before, c);
      QueuedEarlier(before, e, q, c);
    } else {
      q := |before|;
    }
  }

  /** What a step takes or drops, it found among the pending checks with that fate. */
  lemma StepDecides(s: State, e: Event, b: nat, fate: Fate) returns (c: Check)
    requires fate == Deployed ==> b in Step(s, e).takenBy && b !in s.takenBy
    requires fate == Expired ==> b in Step(s, e).expired && b !in s.expired
    requires fate != Kept
    ensures e.DatabaseSuccess? && c in s.pending && c.build == b
    ensures FateOf(c, e.targetRepo, e.pkgbase, e.now) == fate
    ensures fate == Deployed ==> Step(s, e).takenBy[b] == |s.log|
  {
    StepPending(s, e);
    assert e.DatabaseSuccess?;
    AnnounceShape(s, e.targetRepo, e.pkgbase, e.now);
    var chosen := WithFate(s.pending, e.targetRepo, e.pkgbase, e.now, fate);
    assert b in Builds(chosen);
    BuildsMember(chosen);
    WithFateMembers(s.pending, e.targetRepo, e.pkgbase, e.now, fate);
    c :| c in chosen && c.build == b;
  }

  /** A taken build is not taken again. */
  lemma TakenStays(s: State, e: Event, b: nat)
    requires PlacesHold(s) && b in s.takenBy
    ensures b in Step(s, e).takenBy && Step(s, e).takenBy[b] == s.takenBy[b]
  {
    if e.DatabaseSuccess? {
      TakePlaces(s, e.targetRepo, e.pkgbase, e.now);
      AnnounceShape(s, e.targetRepo, e.pkgbase, e.now);
      hide PlacesHold, Announce, DeployedBuilds;
    } else {
      StepPending(s, e);
    }
  }

  /**
   * In every run, each taken build was queued with the repository and package base of the
   * announcement that took it, less than five minutes before it.
   */
  lemma {:induction false} TakenWasDeployed(events: seq<Event>, b: nat) returns (q: nat, k: nat, c: Check)
    requires b in Run(events).takenBy
    ensures IsDecidedBy(events, q, k, c, Deployed) && c.build == b
    ensures events[k].targetRepo == c.targetRepo && events[k].pkgbase == c.pkgbase
    ensures events[k].now - c.queuedAt < PENDING_DEPLOYMENT_TIMEOUT_MS
    ensures Run(events).takenBy[b] == |Run(events[..k]).log|
  {
    assert events != [];
    var before, e := events[..|events| - 1], events[|events| - 1];
    assert events == before + [e] && (before + [e])[..|before|] == before;
    if b in Run(before).takenBy {
      q, k, c := TakenWasDeployed(before, b);
      DecidedEarlier(before, e, q, k, c, Deployed);
      assert events[..k] == before[..k];
      RunQueueHolds(before);
      TakenStays(Run(before), e, b);
    } else {
      c := StepDecides(Run(before), e, b, Deployed);
      q := PendingWasQueued(before, c);
      QueuedEarlier(before, e, q, c);
      k := |before|;
    }
  }

  /** In every run, each expired build was dropped by an announcement at least five minutes after it was queued. */
  lemma {:induction false} ExpiredWasOld(events: seq<Event>, b: nat) returns (q: nat, k: nat, c: Check)
    requires b in Run(events).expired
    ensures IsDecidedBy(events, q, k, c, Expired) && c.build == b
    ensures events[k].now - c.queuedAt >= PENDING_DEPLOYMENT_TIMEOUT_MS
  {
    assert events != [];
    var before, e := events[..|events| - 1], events[|events| - 1];
    assert events == before + [e] && (before + [e])[..|before|] == before;
    if b in Run(before).expired {
      q, k, c := ExpiredWasOld(before, b);
      DecidedEarlier(before, e, q, k, c, Expired);
    } else {
      c := StepDecides(Run(before), e, b, Expired);
      q := PendingWasQueued(before, c);
      QueuedEarlier(before, e, q, c);
      k := |before|;
    }
  }

  function StartedBumps(log: seq<Entry>): seq<nat> {
    if log == [] then []
    else
      var e := log[|log| - 1];
      StartedBumps(log[..|log| - 1]) + if e.BumpStarted? then [e.build] else []
  }

  function EndedBumps(log: seq<Entry>): seq<nat> {
    if log == [] then []
    else
      var e := log[|log| - 1];
      EndedBumps(log[..|log| - 1]) + if e.BumpEnded? then [e.build] else []
  }

  /** A bump check ends, well or badly, before the next one starts. */
  ghost predicate OneBumpAtATime(log: seq<Entry>) {
    forall n :: 0 <= n <= |log| ==>
      var started, ended := StartedBumps(log[..n]), EndedBumps(log[..n]);
      ended <= started && |started| <= |ended| + 1
  }

  /** The first `n` checks of the chain have started, and all but a running last one have ended. */
  ghost predicate BumpsLogged(log: seq<Entry>, chain: seq<nat>, n: nat, running: bool) {
    && n <= |chain| && (running ==> n > 0)
    && StartedBumps(log) == chain[..n]
    && EndedBumps(log) == chain[..n - if running then 1 else 0]
    && OneBumpAtATime(log)
  }

  ghost predicate BumpsHold(s: State) {
    BumpsLogged(s.log, s.bumpChain, s.bumpsStarted, s.bumpRunning)
  }

  lemma BumpLogExtends(log: seq<Entry>, e: Entry)
    requires OneBumpAtATime(log)
    ensures StartedBumps(log + [e]) == StartedBumps(log) + if e.BumpStarted? then [e.build] else []
    ensures EndedBumps(log + [e]) == EndedBumps(log) + if e.BumpEnded? then [e.build] else []
    ensures
      EndedBumps(log + [e]) <= StartedBumps(log + [e]) && |StartedBumps(log + [e])| <= |EndedBumps(log + [e])| + 1 ==>
        OneBumpAtATime(log + [e])
  {
    var log' := log + [e];
    assert log'[..|log|] == log && log'[..|log'|] == log';
    assert forall n :: 0 <= n <= |log| ==> log'[..n] == log[..n];
  }

  lemma LoggedOther(log: seq<Entry>, chain: seq<nat>, n: nat, running: bool, e: Entry)
    requires BumpsLogged(log, chain, n, running) && !e.BumpStarted? && !e.BumpEnded?
    ensures BumpsLogged(log + [e], chain, n, running)
  {
    BumpLogExtends(log, e);
    var k := n - if running then 1 else 0;
    assert chain[..k] == chain[..n][..k];
  }

  lemma {:induction false} LoggedOthers(log: seq<Entry>, chain: seq<nat>, n: nat, running: bool, more: seq<Entry>)
    requires BumpsLogged(log, chain, n, running)
    requires forall x :: x in more ==> !x.BumpStarted? && !x.BumpEnded?
    ensures BumpsLogged(log + more, chain, n, running)
    decreases |more|
  {
    hide BumpsLogged;
    if more == [] {
      assert log + more == log;
    } else {
      LoggedOther(log, chain, n, running, more[0]);
      LoggedOthers(log + [more[0]], chain, n, running, more[1..]);
      assert log + more == log + [more[0]] + more[1..];
    }
  }

  lemma LoggedStart(log: seq<Entry>, chain: seq<nat>, n: nat)
    requires BumpsLogged(log, chain, n, false) && n < |chain|
    ensures BumpsLogged(log + [BumpStarted(chain[n])], chain, n + 1, true)
  {
    BumpLogExtends(log, BumpStarted(chain[n]));
    assert chain[..n + 1] == chain[..n] + [chain[n]];
  }

  lemma LoggedEnd(log: seq<Entry>, chain: seq<nat>, n: nat, ok: bool)
    requires BumpsLogged(log, chain, n, true)
    ensures BumpsLogged(log + [BumpEnded(chain[n - 1], ok)], chain, n, false)
  {
    BumpLogExtends(log, BumpEnded(chain[n - 1], ok));
    assert chain[..n] == chain[..n - 1] + [chain[n - 1]];
  }

  lemma LoggedChain(log: seq<Entry>, chain: seq<nat>, chain': seq<nat>, n: nat, running: bool)
    requires BumpsLogged(log, chain, n, running) && chain <= chain'
    ensures BumpsLogged(log, chain', n, running)
  {
    assert chain'[..n] == chain[..n];
    var k := n - if running then 1 else 0;
    assert chain'[..k] == chain[..k];
  }

  lemma BumpStepHolds(s: State, e: Event)
    requires BumpsHold(s)
    ensures BumpsHold(Step(s, e))
  {
    var s' := Step(s, e);
    hide BumpsLogged;
    if e.BumpCheckStarts? {
      if s' != s { LoggedStart(s.log, s.bumpChain, s.bumpsStarted); }
    } else if e.BumpCheckEnds? {
      if s' != s { LoggedEnd(s.log, s.bumpChain, s.bumpsStarted, e.ok); }
    } else {
      var more := NewEntries(s, e);
      hide Step;
      LoggedOthers(s.log, s.bumpChain, s.bumpsStarted, s.bumpRunning, more);
      LoggedChain(s'.log, s.bumpChain, s'.bumpChain, s.bumpsStarted, s.bumpRunning);
    }
  }

  lemma NewEntries(s: State, e: Event) returns (more: seq<Entry>)
    requires !e.BumpCheckStarts? && !e.BumpCheckEnds?
    ensures var s' := Step(s, e);
      && s'.log == s.log + more && s.bumpChain <= s'.bumpChain
      && s'.bumpsStarted == s.bumpsStarted && s'.bumpRunning == s.bumpRunning
    ensures forall x :: x in more ==> !x.BumpStarted? && !x.BumpEnded?
  {
    hide Announce, Elements, Request;
    if e.DatabaseSuccess? {
      AnnounceShape(s, e.targetRepo, e.pkgbase, e.now);
    } else if e.RemovalComplete? {
      RequestShape(s);
    }
    more := Step(s, e).log[|s.log|..];
  }

  lemma ChainIsDistinct(s: State)
    requires TakenHold(s)
    ensures forall i, j :: 0 <= i < j < |s.bumpChain| ==> s.bumpChain[i] != s.bumpChain[j]
  {
    var chain := s.bumpChain;
    forall i, j | 0 <= i < j < |chain|
      ensures chain[i] != chain[j]
    {
      var b := chain[i];
      assert chain == chain[..j] + [chain[j]] + chain[j + 1..];
      assert b in chain[..j];
      assert (multiset(Waiting(s.waiters)) + multiset(chain))[b] <= 1;
    }
  }

  /**
   * Bump checks start in the order their builds joined the chain, one at a time and each
   * at most once, whether or not an earlier one failed.
   */
  lemma {:induction false} BumpsRunInOrder(events: seq<Event>)
    ensures BumpsHold(Run(events))
    ensures StartedBumps(Run(events).log) <= Run(events).bumpChain && OneBumpAtATime(Run(events).log)
    ensures forall i, j :: 0 <= i < j < |Run(events).bumpChain| ==> Run(events).bumpChain[i] != Run(events).bumpChain[j]
  {
    if events != [] {
      BumpsRunInOrder(events[..|events| - 1]);
      BumpStepHolds(Run(events[..|events| - 1]), events[|events| - 1]);
    }
    EachBuildInOnePlace(events);
    hide TakenHold, PlacesHold, OneBumpAtATime;
    ChainIsDistinct(Run(events));
  }

  /** What every run promises of its state. */
  ghost predicate Holds(s: State) {
    LoopHolds(s) && QueueHolds(s) && BumpsHold(s)
  }

  lemma StepHolds(s: State, e: Event)
    requires Holds(s)
    ensures Holds(Step(s, e))
  {
    hide LoopHolds, QueueHolds, BumpsHold, Step;
    LoopStepHolds(s, e);
    QueueStepHolds(s, e);
    BumpStepHolds(s, e);
  }

  lemma InitialHolds()
    ensures Holds(INITIAL)
  {
    RunLoopHolds([]);
    RunQueueHolds([]);
    BumpsRunInOrder([]);
  }

  // ----- The gap after the last test -----

  /** A refresh past its last test whose callback is still to come, with one build queued. */
  const PAST_LAST_TEST := State(
    [Check(0, "r", "p", 0)], 1, Some(0), false, [Refresh(Exited(true), 1, 2)], [], [], 0, false,
    [Requested(0), UpdateStarted(0), UpdateEnded(0, true), LoopExited(0)], map[], {})

  lemma RunStep(events: seq<Event>, e: Event)
    ensures Run(events + [e]) == Step(Run(events), e)
  {
    assert (events + [e])[..|events|] == events;
  }

  lemma PastLastTestReachable() returns (events: seq<Event>)
    ensures Run(events) == PAST_LAST_TEST
  {
    events := [];
    assert Run(events) == INITIAL;
    var refreshing := INITIAL.(pending := [Check(0, "r", "p", 0)], queued := 1, refreshInFlight := Some(0),
                               refreshes := [Refresh(Updating, 1, 0)], log := [Requested(0), UpdateStarted(0)]);
    RunStep(events, BuildSucceeded("r", "p", 0));
    events := events + [BuildSucceeded("r", "p", 0)];
    RunStep(events, RemovalComplete);
    events := events + [RemovalComplete];
    assert Run(events) == refreshing;
    RunStep(events, UpdateSettles(0, true));
    events := events + [UpdateSettles(0, true)];
    RunStep(events, LoopContinues(0));
    events := events + [LoopContinues(0)];
  }

  lemma TakenInGap()
    ensures Step(PAST_LAST_TEST, DatabaseSuccess("r", "p", 1)) == PAST_LAST_TEST.(
      pending := [], scheduledUpdate := true, waiters := [Waiter([0], 0)],
      log := PAST_LAST_TEST.log + [Requested(0)], takenBy := map[0 := 4])
  {
    var checks := PAST_LAST_TEST.pending;
    assert forall fate :: WithFate(checks[1..], "r", "p", 1, fate) == [];
    assert Builds(WithFate(checks, "r", "p", 1, Deployed)) == [0];
    assert (map b | b in Elements([0]) :: |PAST_LAST_TEST.log|) == map[0 := 4];
    assert Elements(Builds(WithFate(checks, "r", "p", 1, Expired))) == {};
  }

  /** A bump check can start although no update began after the request of its build's announcement. */
  lemma GapIsReachable()
    ensures exists events, i ::
      && 0 <= i < |Run(events).log| && Run(events).log[i] == BumpStarted(0)
      && 0 in Run(events).takenBy
      && forall x :: Run(events).takenBy[0] <= x < |Run(events).log| ==> !IsUpdateEntry(Run(events).log[x])
  {
    var events := PastLastTestReachable();
    TakenInGap();
    hide Run;
    RunStep(events, DatabaseSuccess("r", "p", 1));
    events := events + [DatabaseSuccess("r", "p", 1)];
    RunStep(events, RefreshSettles(0));
    events := events + [RefreshSettles(0)];
    RunStep(events, AnnouncementResumes(0));
    events := events + [AnnouncementResumes(0)];
    assert Run(events).bumpChain == [0];
    RunStep(events, BumpCheckStarts);
    events := events + [BumpCheckStarts];
    assert Run(events).log == PAST_LAST_TEST.log + [Requested(0), BumpStarted(0)];
    assert Run(events).log[5] == BumpStarted(0);
  }
}
