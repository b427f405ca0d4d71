/**
 * What becomes of builds, requests and bump checks, read off the events of a run alone.
 */
module DeploymentRuns {
  import opened SortedIds
  import opened Wrappers
  import opened DeploymentCoordination

  lemma NextStep(events: seq<Event>, k: nat)
    requires k < |events|
    ensures Run(events[..k + 1]) == Step(Run(events[..k]), events[k])
  {
    assert events[..k + 1][..k] == events[..k];
  }

  // ----- Every successful build is queued -----

  function Successes(events: seq<Event>): nat {
    if events == [] then 0
    else Successes(events[..|events| - 1]) + if events[|events| - 1].BuildSucceeded? then 1 else 0
  }

  lemma QueuedStep(s: State, e: Event)
    ensures Step(s, e).queued == s.queued + if e.BuildSucceeded? then 1 else 0
    ensures e.BuildSucceeded? ==>
      Step(s, e).pending == s.pending + [Check(s.queued, e.targetRepo, e.pkgbase, e.now)]
  {
    if e.DatabaseSuccess? {
      AnnounceShape(s, e.targetRepo, e.pkgbase, e.now);
      hide Announce;
    } else if e.RemovalComplete? {
      RequestShape(s);
    }
  }

  lemma {:induction false} QueuedCount(events: seq<Event>)
    ensures Run(events).queued == Successes(events)
  {
    if events != [] {
      QueuedCount(events[..|events| - 1]);
      QueuedStep(Run(events[..|events| - 1]), events[|events| - 1]);
    }
  }

  /** The check of the build that event `q` reports. */
  function CheckOf(events: seq<Event>, q: nat): Check
    requires q < |events| && events[q].BuildSucceeded?
  {
    Check(Successes(events[..q]), events[q].targetRepo, events[q].pkgbase, events[q].now)
  }

  /** Each successful build is queued at the end, numbered by the successes before it. */
  lemma SuccessIsQueued(events: seq<Event>, q: nat)
    requires q < |events| && events[q].BuildSucceeded?
    ensures Run(events[..q + 1]).pending == Run(events[..q]).pending + [CheckOf(events, q)]
    ensures Run(events).queued == Successes(events)
  {
    NextStep(events, q);
    QueuedStep(Run(events[..q]), events[q]);
    QueuedCount(events[..q]);
    QueuedCount(events);
  }

  // ----- What becomes of a queued build -----

  /** An announcement that takes the check, or drops it because it is too old. */
  predicate Settles(e: Event, c: Check) {
    && e.DatabaseSuccess?
    && (e.now - c.queuedAt >= PENDING_DEPLOYMENT_TIMEOUT_MS || (e.targetRepo == c.targetRepo && e.pkgbase == c.pkgbase))
  }

  predicate IsTooOld(e: Event, c: Check)
    requires e.DatabaseSuccess?
  {
    e.now - c.queuedAt >= PENDING_DEPLOYMENT_TIMEOUT_MS
  }

  datatype Place = Pending | Taken | Dropped

  ghost predicate IsIn(s: State, c: Check, place: Place) {
    && (c in s.pending <==> place == Pending)
    && (c.build in s.takenBy <==> place == Taken)
    && (c.build in s.expired <==> place == Dropped)
  }

  /** Where the events after `q`, up to `n`, leave the check: the first to settle it decides. */
  function PlaceOf(events: seq<Event>, q: nat, c: Check, n: nat): Place
    requires q < n <= |events|
  {
    if n == q + 1 then Pending
    else
      var place := PlaceOf(events, q, c, n - 1);
      if place != Pending || !Settles(events[n - 1], c) then place
      else if IsTooOld(events[n - 1], c) then Dropped else Taken
  }

  lemma OnePlace(s: State, c: Check)
    requires PlacesHold(s)
    ensures c in s.pending ==> IsIn(s, c, Pending)
    ensures c.build in s.takenBy ==> IsIn(s, c, Taken)
    ensures c.build in s.expired ==> IsIn(s, c, Dropped)
  {
    BuildsMember(s.pending);
  }

  lemma OtherPending(s: State, e: Event, c: Check)
    requires c in s.pending && !e.DatabaseSuccess?
    ensures c in Step(s, e).pending
  {
    if e.RemovalComplete? {
      hide Request;
      RequestShape(s);
    }
  }

  lemma SettleStep(s: State, e: Event, c: Check)
    requires PlacesHold(s) && c in s.pending && e.DatabaseSuccess?
    ensures !Settles(e, c) ==> c in Step(s, e).pending
    ensures Settles(e, c) && !IsTooOld(e, c) ==> c.build in Step(s, e).takenBy
    ensures Settles(e, c) && IsTooOld(e, c) ==> c.build in Step(s, e).expired
  {
    AnnounceShape(s, e.targetRepo, e.pkgbase, e.now);
    WithFateMembers(s.pending, e.targetRepo, e.pkgbase, e.now, Kept);
    FateOfBuild(s.pending, e.targetRepo, e.pkgbase, e.now, c, Deployed);
    FateOfBuild(s.pending, e.targetRepo, e.pkgbase, e.now, c, Expired);
    hide WithFate, Builds, Announce;
  }

  lemma ExpiredStays(s: State, e: Event, b: nat)
    requires b in s.expired
    ensures b in Step(s, e).expired
  {
    if e.DatabaseSuccess? {
      AnnounceShape(s, e.targetRepo, e.pkgbase, e.now);
      hide Announce, WithFate, Builds;
    } else {
      StepPending(s, e);
      hide Step;
    }
  }

  lemma FateStep(s: State, e: Event, c: Check)
    requires PlacesHold(s) && PlacesHold(Step(s, e))
    ensures IsIn(s, c, Pending) && !Settles(e, c) ==> IsIn(Step(s, e), c, Pending)
    ensures IsIn(s, c, Pending) && Settles(e, c) ==> IsIn(Step(s, e), c, if IsTooOld(e, c) then Dropped else Taken)
    ensures IsIn(s, c, Taken) ==> IsIn(Step(s, e), c, Taken)
    ensures IsIn(s, c, Dropped) ==> IsIn(Step(s, e), c, Dropped)
  {
    OnePlace(Step(s, e), c);
    hide PlacesHold, Step;
    if c in s.pending {
      if e.DatabaseSuccess? { SettleStep(s, e, c); } else { OtherPending(s, e, c); }
    }
    if c.build in s.takenBy { TakenStays(s, e, c.build); }
    if c.build in s.expired { ExpiredStays(s, e, c.build); }
  }

  /**
   * A queued build is pending until the first announcement after it that matches it or comes five
   * minutes later or more. That one drops it if it is too old and takes it otherwise, for good.
   */
  lemma {:induction false} BuildFate(events: seq<Event>, q: nat, n: nat)
    requires q < n <= |events| && events[q].BuildSucceeded?
    ensures IsIn(Run(events[..n]), CheckOf(events, q), PlaceOf(events, q, CheckOf(events, q), n))
    decreases n
  {
    hide PlacesHold, Step, Run, IsIn, Settles, IsTooOld;
    var c := CheckOf(events, q);
    RunQueueHolds(events[..n]);
    if n == q + 1 {
      SuccessIsQueued(events, q);
      OnePlace(Run(events[..n]), c);
    } else {
      BuildFate(events, q, n - 1);
      NextStep(events, n - 1);
      RunQueueHolds(events[..n - 1]);
      FateStep(Run(events[..n - 1]), events[n - 1], c);
    }
  }

  lemma {:induction false} PlaceIsDecidedFirst(events: seq<Event>, q: nat, c: Check, n: nat)
    requires q < n <= |events|
    ensures PlaceOf(events, q, c, n) == Pending <==> forall j :: q < j < n ==> !Settles(events[j], c)
    ensures PlaceOf(events, q, c, n) != Pending ==>
      exists k :: && q < k < n && Settles(events[k], c) && (forall j :: q < j < k ==> !Settles(events[j], c))
                  && PlaceOf(events, q, c, n) == (if IsTooOld(events[k], c) then Dropped else Taken)
    decreases n
  {
    if n > q + 1 { PlaceIsDecidedFirst(events, q, c, n - 1); }
  }

  // ----- The order of the bump chain -----

  ghost predicate Together(s: State, b: nat, c: nat) {
    b in s.takenBy && c in s.takenBy && s.takenBy[b] == s.takenBy[c]
  }

  ghost predicate WaitersOrdered(s: State) {
    && (forall w :: w in s.waiters ==> Ascending(w.builds))
    && (forall i, b, c :: 0 <= i < |s.waiters| && b in s.waiters[i].builds && Together(s, b, c) ==>
         c in s.waiters[i].builds)
  }

  /** Builds taken by one announcement join the chain in the order they were queued. */
  ghost predicate ChainOrdered(s: State) {
    forall i, j :: 0 <= i < j < |s.bumpChain| && Together(s, s.bumpChain[i], s.bumpChain[j]) ==>
      s.bumpChain[i] < s.bumpChain[j]
  }

  ghost predicate TakenInLog(s: State) {
    forall b :: b in s.takenBy ==> s.takenBy[b] < |s.log|
  }

  ghost predicate OrderHolds(s: State) {
    WaitersOrdered(s) && ChainOrdered(s) && TakenInLog(s)
  }

  lemma OrderFrame(s: State, s': State)
    requires OrderHolds(s) && s.log <= s'.log
    requires s'.takenBy == s.takenBy && s'.waiters == s.waiters && s'.bumpChain == s.bumpChain
    ensures OrderHolds(s')
  {
    assert forall b, c :: Together(s', b, c) <==> Together(s, b, c);
    hide Together, Ascending;
  }

  lemma AnnounceOrdered(s: State, targetRepo: string, pkgbase: string, now: int)
    requires OrderHolds(s) && PlacesHold(s) && AnswersHold(s)
    ensures OrderHolds(Announce(s, targetRepo, pkgbase, now))
  {
    AnnounceShape(s, targetRepo, pkgbase, now);
    TakePlaces(s, targetRepo, pkgbase, now);
    var s' := Announce(s, targetRepo, pkgbase, now);
    var taken := DeployedBuilds(s, targetRepo, pkgbase, now);
    assert forall b :: b in Elements(taken) <==> b in taken;
    hide Announce, Take, DeployedBuilds, PlacesHold, Ascending, BumpsWait, IsAnswered, RequestedRefresh;
    AnnouncedWaiters(s, s', taken, RequestedRefresh(s));
    forall b, c | b in s.takenBy && c in s.takenBy
      ensures Together(s', b, c) ==> Together(s, b, c)
    {
    }
    assert forall w :: w in s.bumpChain ==> w in s.takenBy;
    assert ChainOrdered(s');
    assert TakenInLog(s');
  }

  lemma AnnouncedWaiters(s: State, s': State, taken: seq<nat>, r: nat)
    requires WaitersOrdered(s) && TakenInLog(s) && AnswersHold(s) && Ascending(taken)
    requires s'.waiters == s.waiters + [Waiter(taken, r)]
    requires s'.takenBy == s.takenBy + (map b | b in Elements(taken) :: |s.log|)
    requires forall b :: b in taken ==> b !in s.takenBy
    ensures WaitersOrdered(s')
  {
    hide Ascending, BumpsWait, IsAnswered;
    assert forall b :: b in Elements(taken) <==> b in taken;
    forall i, b, c | 0 <= i < |s'.waiters| && b in s'.waiters[i].builds && Together(s', b, c)
      ensures c in s'.waiters[i].builds
    {
      if i < |s.waiters| {
        assert WaiterHolds(s, s.waiters[i]);
        assert Together(s, b, c);
      }
    }
  }

  lemma ResumeOrdered(s: State, w: nat)
    requires OrderHolds(s) && TakenHold(s)
    ensures OrderHolds(Resume(s, w))
  {
    if CanResume(s, w) {
      var s' := Resume(s, w);
      var chain, builds := s.bumpChain, s.waiters[w].builds;
      WaitingWithout(s.waiters, w);
      assert s.waiters[w] in s.waiters;
      forall i, j | 0 <= i < j < |s'.bumpChain| && Together(s', s'.bumpChain[i], s'.bumpChain[j])
        ensures s'.bumpChain[i] < s'.bumpChain[j]
      {
        if i < |chain| <= j {
          NotInBoth(s, w, chain[i]);
          assert s'.bumpChain[j] in builds;
          assert Together(s, s'.bumpChain[j], chain[i]);
        } else if j < |chain| {
          assert Together(s, chain[i], chain[j]);
        }
      }
      forall i, b, c | 0 <= i < |s'.waiters| && b in s'.waiters[i].builds && Together(s', b, c)
        ensures c in s'.waiters[i].builds
      {
        assert s'.waiters[i] == s.waiters[if i < w then i else i + 1] && Together(s, b, c);
      }
      forall x | x in s'.waiters
        ensures Ascending(x.builds)
      {
        assert x in s.waiters;
      }
    }
  }

  lemma NotInBoth(s: State, w: nat, b: nat)
    requires TakenHold(s) && w < |s.waiters| && b in s.bumpChain
    ensures b !in s.waiters[w].builds
  {
    WaitingWithout(s.waiters, w);
    assert (multiset(Waiting(s.waiters)) + multiset(s.bumpChain))[b] <= 1;
  }

  lemma OrderStep(s: State, e: Event)
    requires OrderHolds(s) && QueueHolds(s)
    ensures OrderHolds(Step(s, e))
  {
    hide OrderHolds, PlacesHold, TakenHold, AnswersHold, Announce, Resume;
    if e.DatabaseSuccess? {
      AnnounceOrdered(s, e.targetRepo, e.pkgbase, e.now);
    } else if e.AnnouncementResumes? {
      ResumeOrdered(s, e.waiter);
    } else if e.BuildSucceeded? {
      OrderFrame(s, Step(s, e));
    } else {
      OtherSteps(s, e);
      hide Step;
      OrderFrame(s, Step(s, e));
    }
  }

  /** In every run, builds taken by one announcement are in the chain in the order they were queued. */
  lemma {:induction false} ChainKeepsQueueOrder(events: seq<Event>)
    ensures OrderHolds(Run(events))
  {
    if events != [] {
      ChainKeepsQueueOrder(events[..|events| - 1]);
      RunQueueHolds(events[..|events| - 1]);
      hide OrderHolds, QueueHolds, Step;
      OrderStep(Run(events[..|events| - 1]), events[|events| - 1]);
    }
  }

  // ----- When the refresh loop runs again -----

  /** A request after the last update of the refresh began. */
  ghost predicate IsRequestedSince(s: State, r: nat)
    requires r < |s.refreshes|
  {
    exists q: nat :: s.refreshes[r].startedAt < q < |s.log| && s.log[q].Requested?
  }

  ghost predicate ScheduleHolds(s: State) {
    s.refreshInFlight.Some? && s.refreshInFlight.value < |s.refreshes| ==>
      && s.refreshes[s.refreshInFlight.value].startedAt < |s.log|
      && (s.scheduledUpdate <==> IsRequestedSince(s, s.refreshInFlight.value))
  }

  /** New entries of which none is a request leave the schedule alone. */
  lemma NoRequest(s: State, s': State, r: nat, more: seq<Entry>)
    requires r < |s.refreshes| == |s'.refreshes| && s'.refreshes[r].startedAt == s.refreshes[r].startedAt
    requires s'.log == s.log + more && forall x :: x in more ==> !x.Requested?
    ensures IsRequestedSince(s', r) <==> IsRequestedSince(s, r)
  {
    if IsRequestedSince(s, r) {
      var q: nat :| s.refreshes[r].startedAt < q < |s.log| && s.log[q].Requested?;
      assert s'.log[q].Requested?;
    }
    if IsRequestedSince(s', r) {
      var q: nat :| s'.refreshes[r].startedAt < q < |s'.log| && s'.log[q].Requested?;
      if q >= |s.log| { assert s'.log[q] in more; }
    }
  }

  lemma RequestSchedules(s: State)
    requires ScheduleHolds(s) && LoopHolds(s)
    ensures ScheduleHolds(Request(s))
  {
    var s' := Request(s);
    if s.refreshInFlight.Some? {
      assert s'.log[|s.log|].Requested?;
      assert IsRequestedSince(s', s.refreshInFlight.value);
    }
  }

  lemma LoopSchedules(s: State, r: nat)
    requires ScheduleHolds(s) && LoopHolds(s)
    ensures ScheduleHolds(ContinueLoop(s, r))
  {
    var s' := ContinueLoop(s, r);
    if InPhase(s, r, Updated(true)) || InPhase(s, r, Updated(false)) {
      OnlyCurrentActive(s, r);
      if !(InPhase(s, r, Updated(true)) && s.scheduledUpdate) {
        NoRequest(s, s', r, if InPhase(s, r, Updated(true)) then [LoopExited(r)] else []);
      }
    }
  }

  lemma UpdateSchedules(s: State, r: nat, ok: bool)
    requires ScheduleHolds(s) && LoopHolds(s)
    ensures ScheduleHolds(SettleUpdate(s, r, ok))
  {
    if InPhase(s, r, Updating) {
      OnlyCurrentActive(s, r);
      NoRequest(s, SettleUpdate(s, r, ok), r, [UpdateEnded(r, ok)]);
    }
  }

  lemma BumpSchedules(s: State, s': State, more: seq<Entry>)
    requires ScheduleHolds(s) && s'.log == s.log + more && forall x :: x in more ==> !x.Requested?
    requires s'.refreshes == s.refreshes && s'.refreshInFlight == s.refreshInFlight
    requires s'.scheduledUpdate == s.scheduledUpdate
    ensures ScheduleHolds(s')
  {
    if s.refreshInFlight.Some? && s.refreshInFlight.value < |s.refreshes| {
      NoRequest(s, s', s.refreshInFlight.value, more);
    }
  }

  lemma AnnounceSchedules(s: State, targetRepo: string, pkgbase: string, now: int)
    requires ScheduleHolds(s) && LoopHolds(s)
    ensures ScheduleHolds(Announce(s, targetRepo, pkgbase, now))
  {
    var split := Take(s, targetRepo, pkgbase, now);
    LoopFrame(s, split);
    BumpSchedules(s, split, []);
    hide Take, DeployedBuilds, LoopHolds, ScheduleHolds;
    RequestSchedules(split);
    var requested := Request(split);
    BumpSchedules(requested, Announce(s, targetRepo, pkgbase, now), []);
  }

  lemma ScheduleStep(s: State, e: Event)
    requires ScheduleHolds(s) && LoopHolds(s)
    ensures ScheduleHolds(Step(s, e))
  {
    hide LoopHolds;
    match e {
      case DatabaseSuccess(repo, pkgbase, now) => AnnounceSchedules(s, repo, pkgbase, now);
      case RemovalComplete => RequestSchedules(s);
      case UpdateSettles(r, ok) => UpdateSchedules(s, r, ok);
      case LoopContinues(r) => LoopSchedules(s, r);
      case RefreshSettles(r) =>
      case BumpCheckStarts =>
        if Step(s, e) != s { BumpSchedules(s, Step(s, e), [BumpStarted(s.bumpChain[s.bumpsStarted])]); }
      case BumpCheckEnds(ok) =>
        if Step(s, e) != s { BumpSchedules(s, Step(s, e), [BumpEnded(s.bumpChain[s.bumpsStarted - 1], ok)]); }
      case _ => BumpSchedules(s, Step(s, e), []);
    }
  }

  lemma {:induction false} RunScheduleHolds(events: seq<Event>)
    ensures ScheduleHolds(Run(events))
  {
    if events != [] {
      RunScheduleHolds(events[..|events| - 1]);
      RunLoopHolds(events[..|events| - 1]);
      hide ScheduleHolds, LoopHolds, Step;
      ScheduleStep(Run(events[..|events| - 1]), events[|events| - 1]);
    }
  }

  /**
   * After a successful update the loop runs again exactly when there was a request since that
   * update began; else it exits. So requests are neither lost nor answered twice.
   */
  lemma RestartsIffRequested(events: seq<Event>, k: nat)
    requires k < |events| && events[k].LoopContinues? && InPhase(Run(events[..k]), events[k].refresh, Updated(true))
    ensures var s, r := Run(events[..k]), events[k].refresh;
      Run(events[..k + 1]).log == s.log + [if IsRequestedSince(s, r) then UpdateStarted(r) else LoopExited(r)]
  {
    NextStep(events, k);
    RunScheduleHolds(events[..k]);
    RunLoopHolds(events[..k]);
    OnlyCurrentActive(Run(events[..k]), events[k].refresh);
  }

  /** A removal or an announcement is logged as a request; without a refresh in flight an update starts at once. */
  lemma RequestIsLogged(events: seq<Event>, k: nat)
    requires k < |events| && (events[k].RemovalComplete? || events[k].DatabaseSuccess?)
    ensures var s, s' := Run(events[..k]), Run(events[..k + 1]);
      if forall r: nat :: r < |s.refreshes| ==> s.refreshes[r].phase.Settled?
      then s'.log == s.log + [Requested(|s.refreshes|), UpdateStarted(|s.refreshes|)]
      else exists r: nat :: && r < |s.refreshes| && !s.refreshes[r].phase.Settled?
                            && s'.log == s.log + [Requested(r)]
  {
    var s := Run(events[..k]);
    NextStep(events, k);
    RunLoopHolds(events[..k]);
    if s.refreshInFlight.Some? {
      var r := s.refreshInFlight.value;
      assert r < |s.refreshes| && !s.refreshes[r].phase.Settled?;
    }
  }

  // ----- Nothing gets stuck -----

  lemma MoreEvents(events: seq<Event>, e: Event)
    ensures Run(events + [e]) == Step(Run(events), e)
    ensures LoopHolds(Run(events + [e])) && QueueHolds(Run(events + [e])) && BumpsHold(Run(events + [e]))
  {
    RunStep(events, e);
    RunLoopHolds(events + [e]);
    RunQueueHolds(events + [e]);
    BumpsRunInOrder(events + [e]);
  }

  /** Updates that end, the loop's tests and the callback; nothing else is needed to settle a refresh. */
  lemma SettleNow(events: seq<Event>, r: nat) returns (later: seq<Event>)
    requires Run(events).refreshInFlight == Some(r) && r < |Run(events).refreshes|
    requires Run(events).refreshes[r].phase.Exited?
    ensures events <= later && AllSettled(Run(later)) && KeepsQueue(Run(events), Run(later))
  {
    later := events + [RefreshSettles(r)];
    MoreEvents(events, RefreshSettles(r));
    assert Run(later).refreshInFlight.None?;
    hide QueueHolds, BumpsHold, Step;
  }

  ghost predicate AllSettled(s: State) {
    forall r: nat :: r < |s.refreshes| ==> s.refreshes[r].phase.Settled?
  }

  /** Nothing of the queue or the chain has changed. */
  ghost predicate KeepsQueue(s: State, s': State) {
    && s'.pending == s.pending && s'.takenBy == s.takenBy && s'.waiters == s.waiters && s'.bumpChain == s.bumpChain
    && s'.bumpsStarted == s.bumpsStarted && s'.bumpRunning == s.bumpRunning
  }

  /** The refresh in flight has its update ended and its test done; a scheduled round runs first. */
  lemma {:induction false} SettleRefreshes(events: seq<Event>) returns (later: seq<Event>)
    ensures events <= later && AllSettled(Run(later)) && KeepsQueue(Run(events), Run(later))
    decreases RoundsLeft(Run(events))
  {
    var s := Run(events);
    RunLoopHolds(events);
    if s.refreshInFlight.None? {
      later := events;
    } else {
      var r := s.refreshInFlight.value;
      assert r < |s.refreshes| && !s.refreshes[r].phase.Settled?;
      if s.refreshes[r].phase.Exited? {
        later := SettleNow(events, r);
      } else {
        var e := if s.refreshes[r].phase.Updating? then UpdateSettles(r, true) else LoopContinues(r);
        MoreEvents(events, e);
        MoreSettled(s, e, r);
        hide LoopHolds, QueueHolds, BumpsHold, Step, KeepsQueue;
        later := SettleRefreshes(events + [e]);
        QueueKept(s, Run(events + [e]), Run(later));
      }
    }
  }

  lemma QueueKept(s: State, s': State, s'': State)
    requires KeepsQueue(s, s') && KeepsQueue(s', s'')
    ensures KeepsQueue(s, s'')
  {
  }

  /** How many steps the refresh in flight is from its callback. */
  function RoundsLeft(s: State): nat {
    if s.refreshInFlight.None? || s.refreshInFlight.value >= |s.refreshes| then 0
    else
      match s.refreshes[s.refreshInFlight.value].phase
      case Updating => if s.scheduledUpdate then 5 else 3
      case Updated(ok) => if s.scheduledUpdate && ok then 4 else 2
      case _ => 1
  }

  lemma MoreSettled(s: State, e: Event, r: nat)
    requires LoopHolds(s) && s.refreshInFlight == Some(r) && r < |s.refreshes|
    requires s.refreshes[r].phase.Updating? || s.refreshes[r].phase.Updated?
    requires e == if s.refreshes[r].phase.Updating? then UpdateSettles(r, true) else LoopContinues(r)
    ensures RoundsLeft(Step(s, e)) < RoundsLeft(s) && KeepsQueue(s, Step(s, e))
  {
  }

  /** Announcements resume one by one until none waits. */
  lemma {:induction false} ResumeAll(events: seq<Event>) returns (later: seq<Event>)
    requires AllSettled(Run(events))
    ensures events <= later && Run(later).waiters == [] && Run(later).takenBy == Run(events).takenBy
    decreases |Run(events).waiters|
  {
    var s := Run(events);
    if s.waiters == [] {
      later := events;
    } else {
      MoreEvents(events, AnnouncementResumes(0));
      RunQueueHolds(events);
      FirstCanResume(events);
      later := ResumeAll(events + [AnnouncementResumes(0)]);
    }
  }

  /** Every waiting announcement waits for a refresh that was started. */
  ghost predicate WaitsForRefresh(s: State) {
    forall w :: w in s.waiters ==> w.refresh < |s.refreshes|
  }

  lemma WaitsStep(s: State, e: Event)
    requires WaitsForRefresh(s) && LoopHolds(s)
    ensures WaitsForRefresh(Step(s, e))
  {
    match e {
      case DatabaseSuccess(repo, pkgbase, now) =>
        AnnounceShape(s, repo, pkgbase, now);
        hide Take, WithFate;
      case _ =>
    }
  }

  lemma {:induction false} RunWaitsForRefresh(events: seq<Event>)
    ensures WaitsForRefresh(Run(events))
  {
    if events != [] {
      RunWaitsForRefresh(events[..|events| - 1]);
      RunLoopHolds(events[..|events| - 1]);
      hide LoopHolds, Step, WaitsForRefresh;
      WaitsStep(Run(events[..|events| - 1]), events[|events| - 1]);
    }
  }

  lemma FirstCanResume(events: seq<Event>)
    requires AllSettled(Run(events)) && Run(events).waiters != []
    ensures CanResume(Run(events), 0)
    ensures var s' := Step(Run(events), AnnouncementResumes(0));
      AllSettled(s') && |s'.waiters| < |Run(events).waiters| && s'.takenBy == Run(events).takenBy
  {
    RunWaitsForRefresh(events);
    assert Run(events).waiters[0] in Run(events).waiters;
  }

  /** Checks start and end one by one until the chain is done. */
  lemma {:induction false} BumpAll(events: seq<Event>) returns (later: seq<Event>)
    ensures events <= later && Run(later).bumpChain == Run(events).bumpChain
    ensures StartedBumps(Run(later).log) == Run(later).bumpChain
    decreases 2 * (|Run(events).bumpChain| - Run(events).bumpsStarted) + if Run(events).bumpRunning then 1 else 0
  {
    var s := Run(events);
    BumpsRunInOrder(events);
    if s.bumpsStarted == |s.bumpChain| {
      later := events;
    } else {
      var e := if s.bumpRunning then BumpCheckEnds(true) else BumpCheckStarts;
      MoreEvents(events, e);
      hide LoopHolds, QueueHolds, BumpsLogged, OneBumpAtATime;
      later := BumpAll(events + [e]);
    }
  }

  /**
   * From every state of every run there is a way on after which every build taken so far has had
   * its bump check started: no step can lose one or block the others.
   */
  lemma EveryTakenBuildCanStart(events: seq<Event>) returns (later: seq<Event>)
    ensures events <= later
    ensures forall b :: b in Run(events).takenBy ==> BumpStarted(b) in Run(later).log
  {
    var settled := SettleRefreshes(events);
    var resumed := ResumeAll(settled);
    later := BumpAll(resumed);
    RunQueueHolds(resumed);
    forall b | b in Run(events).takenBy
      ensures BumpStarted(b) in Run(later).log
    {
      TakenIsInChain(Run(resumed), b);
      StartedIsLogged(Run(later).log, b);
    }
  }

  lemma TakenIsInChain(s: State, b: nat)
    requires TakenHold(s) && s.waiters == [] && b in s.takenBy
    ensures b in s.bumpChain
  {
    assert Waiting(s.waiters) == [];
    assert multiset(s.takenBy.Keys)[b] == 1;
    assert (multiset(Waiting(s.waiters)) + multiset(s.bumpChain))[b] == 1;
  }

  lemma {:induction false} StartedIsLogged(log: seq<Entry>, b: nat)
    requires b in StartedBumps(log)
    ensures BumpStarted(b) in log
  {
    var before := log[..|log| - 1];
    if b in StartedBumps(before) {
      StartedIsLogged(before, b);
      assert BumpStarted(b) in before;
    }
  }
}
