/**
 * The service object behind the deployment coordination. Each method is the stretch of
 * code the service runs for one event, up to its next `await`, and is proved to take the
 * step the run semantics of DeploymentCoordination gives that event.
 */
module BuilderDatabase {
  import opened SortedIds
  import opened Wrappers
  import opened DeploymentCoordination

  lemma {:induction false} WithFateAppend(checks: seq<Check>, c: Check, targetRepo: string, pkgbase: string, now: int,
                                          fate: Fate)
    ensures WithFate(checks + [c], targetRepo, pkgbase, now, fate) ==
      WithFate(checks, targetRepo, pkgbase, now, fate)
      + if FateOf(c, targetRepo, pkgbase, now) == fate then [c] else []
  {
    hide FateOf;
    if checks == [] {
      assert checks + [c] == [c] && [c][1..] == [];
      assert WithFate([], targetRepo, pkgbase, now, fate) == [];
    } else {
      assert (checks + [c])[1..] == checks[1..] + [c];
      WithFateAppend(checks[1..], c, targetRepo, pkgbase, now, fate);
      var kept := if FateOf(checks[0], targetRepo, pkgbase, now) == fate then [checks[0]] else [];
      assert WithFate(checks, targetRepo, pkgbase, now, fate) ==
        kept + WithFate(checks[1..], targetRepo, pkgbase, now, fate);
    }
  }

  lemma NoChecks(targetRepo: string, pkgbase: string, now: int)
    ensures forall fate :: WithFate([], targetRepo, pkgbase, now, fate) == []
  {
  }

  class Service {
    var pendingDeploymentChecks: seq<Check>
    var bumpChain: seq<nat>
    var refreshInFlight: Option<nat>
    var scheduledUpdate: bool

    // The calls in progress on the event loop.
    var queued: nat
    var refreshes: seq<Refresh>
    var waiters: seq<Waiter>
    var bumpsStarted: nat
    var bumpRunning: bool

    // What an observer saw so far.
    var log: seq<Entry>
    ghost var takenBy: map<nat, nat>
    ghost var expired: set<nat>

    ghost function Abstract(): State
      reads this
    {
      State(pendingDeploymentChecks, queued, refreshInFlight, scheduledUpdate, refreshes, waiters,
            bumpChain, bumpsStarted, bumpRunning, log, takenBy, expired)
    }

    ghost predicate Valid()
      reads this
    {
      Holds(Abstract())
    }

    constructor ()
      ensures Valid() && Abstract() == INITIAL
    {
      hide Holds;
      InitialHolds();
      pendingDeploymentChecks, queued := [], 0;
      refreshInFlight, scheduledUpdate, refreshes := None, false, [];
      waiters, bumpChain, bumpsStarted, bumpRunning := [], [], 0, false;
      log, takenBy, expired := [], map[], {};
    }

    /** The queueing step for a successful build. */
    method LogBuild(targetRepo: string, pkgbase: string, now: int)
      requires Valid()
      modifies this
      ensures Valid() && Abstract() == Step(old(Abstract()), BuildSucceeded(targetRepo, pkgbase, now))
    {
      hide Holds;
      StepHolds(Abstract(), BuildSucceeded(targetRepo, pkgbase, now));
      pendingDeploymentChecks := pendingDeploymentChecks + [Check(queued, targetRepo, pkgbase, now)];
      queued := queued + 1;
    }

    method TakeDeployedBuilds(targetRepo: string, pkgbase: string, now: int) returns (taken: seq<nat>)
      modifies this`pendingDeploymentChecks, this`takenBy, this`expired
      ensures Abstract() == Take(old(Abstract()), targetRepo, pkgbase, now)
      ensures taken == DeployedBuilds(old(Abstract()), targetRepo, pkgbase, now)
    {
      ghost var all := pendingDeploymentChecks;
      var remaining: seq<Check> := [];
      ghost var deployed: seq<Check>, dropped: seq<Check> := [], [];
      taken := [];
      var i := 0;
      NoChecks(targetRepo, pkgbase, now);
      assert all[..0] == [];
      hide WithFate, Builds, Elements;
      while i < |pendingDeploymentChecks|
        modifies {}
        invariant 0 <= i <= |all|
        invariant remaining == WithFate(all[..i], targetRepo, pkgbase, now, Kept)
        invariant deployed == WithFate(all[..i], targetRepo, pkgbase, now, Deployed)
        invariant dropped == WithFate(all[..i], targetRepo, pkgbase, now, Expired)
        invariant taken == Builds(deployed)
      {
        var pending := pendingDeploymentChecks[i];
        assert all[..i + 1] == all[..i] + [pending];
        WithFateAppend(all[..i], pending, targetRepo, pkgbase, now, Kept);
        WithFateAppend(all[..i], pending, targetRepo, pkgbase, now, Deployed);
        WithFateAppend(all[..i], pending, targetRepo, pkgbase, now, Expired);
        i := i + 1;
        if now - pending.queuedAt >= PENDING_DEPLOYMENT_TIMEOUT_MS {
          dropped := dropped + [pending];
          continue;
        }
        if pending.targetRepo == targetRepo && pending.pkgbase == pkgbase {
          taken := taken + [pending.build];
          deployed := deployed + [pending];
        } else {
          remaining := remaining + [pending];
        }
      }
      assert all[..|all|] == all;
      pendingDeploymentChecks := remaining;
      takenBy := takenBy + map b | b in Elements(taken) :: |log|;
      expired := expired + Elements(Builds(dropped));
    }

    /** Joins the refresh in flight, or starts one and runs its loop up to the first update. */
    method RequestChaoticVersionsUpdate() returns (refresh: nat)
      modifies this`scheduledUpdate, this`refreshInFlight, this`refreshes, this`log
      ensures Abstract() == Request(old(Abstract()))
      ensures refresh == RequestedRefresh(old(Abstract()))
    {
      if refreshInFlight.Some? {
        scheduledUpdate := true;
        log := log + [Requested(refreshInFlight.value)];
        return refreshInFlight.value;
      }
      refresh := |refreshes|;
      scheduledUpdate := false;
      refreshes := refreshes + [Refresh(Updating, |log| + 1, 0)];
      log := log + [Requested(refresh), UpdateStarted(refresh)];
      refreshInFlight := Some(refresh);
    }

    /** An announced deployment, up to waiting for the refresh. */
    method RunDeferredDeploymentChecks(targetRepo: string, pkgbase: string, now: int)
      requires Valid()
      modifies this
      ensures Valid() && Abstract() == Step(old(Abstract()), DatabaseSuccess(targetRepo, pkgbase, now))
    {
      hide Holds;
      StepHolds(Abstract(), DatabaseSuccess(targetRepo, pkgbase, now));
      var deployedBuilds := TakeDeployedBuilds(targetRepo, pkgbase, now);
      var refresh := RequestChaoticVersionsUpdate();
      waiters := waiters + [Waiter(deployedBuilds, refresh)];
    }

    method RemovalCompleted()
      requires Valid()
      modifies this
      ensures Valid() && Abstract() == Step(old(Abstract()), RemovalComplete)
    {
      hide Holds;
      StepHolds(Abstract(), RemovalComplete);
      var _ := RequestChaoticVersionsUpdate();
    }

    method UpdateSettled(refresh: nat, ok: bool)
      requires Valid()
      modifies this
      ensures Valid() && Abstract() == Step(old(Abstract()), UpdateSettles(refresh, ok))
    {
      hide Holds;
      StepHolds(Abstract(), UpdateSettles(refresh, ok));
      if refresh < |refreshes| && refreshes[refresh].phase == Updating {
        refreshes := refreshes[refresh := refreshes[refresh].(phase := Updated(ok), endedAt := |log|)];
        log := log + [UpdateEnded(refresh, ok)];
      }
    }

    /** The refresh loop after its `await`: a rejection leaves the loop, else its condition decides. */
    method RefreshChaoticVersionsContinues(refresh: nat)
      requires Valid()
      modifies this
      ensures Valid() && Abstract() == Step(old(Abstract()), LoopContinues(refresh))
    {
      hide Holds;
      StepHolds(Abstract(), LoopContinues(refresh));
      if refresh >= |refreshes| || !refreshes[refresh].phase.Updated? { return; }
      if !refreshes[refresh].phase.ok {
        refreshes := refreshes[refresh := refreshes[refresh].(phase := Exited(false))];
      } else if scheduledUpdate {
        scheduledUpdate := false;
        refreshes := refreshes[refresh := Refresh(Updating, |log|, 0)];
        log := log + [UpdateStarted(refresh)];
      } else {
        refreshes := refreshes[refresh := refreshes[refresh].(phase := Exited(true))];
        log := log + [LoopExited(refresh)];
      }
    }

    /** The callback that clears the refresh in flight. */
    method RefreshSettled(refresh: nat)
      requires Valid()
      modifies this
      ensures Valid() && Abstract() == Step(old(Abstract()), RefreshSettles(refresh))
    {
      hide Holds;
      StepHolds(Abstract(), RefreshSettles(refresh));
      if refresh < |refreshes| && refreshes[refresh].phase.Exited? {
        refreshInFlight := None;
        refreshes := refreshes[refresh := refreshes[refresh].(phase := Settled(refreshes[refresh].phase.ok))];
      }
    }

    /** An announcement after its refresh, succeeded or not: its builds join the bump chain. */
    method DeploymentChecksResume(w: nat)
      requires Valid()
      modifies this
      ensures Valid() && Abstract() == Step(old(Abstract()), AnnouncementResumes(w))
    {
      hide Holds;
      StepHolds(Abstract(), AnnouncementResumes(w));
      if w < |waiters| && waiters[w].refresh < |refreshes| && refreshes[waiters[w].refresh].phase.Settled? {
        var deployedBuilds := waiters[w].builds;
        waiters := waiters[..w] + waiters[w + 1..];
        ghost var before := bumpChain;
        var i := 0;
        while i < |deployedBuilds|
          modifies this`bumpChain
          invariant 0 <= i <= |deployedBuilds|
          invariant bumpChain == before + deployedBuilds[..i]
        {
          bumpChain := bumpChain + [deployedBuilds[i]];
          i := i + 1;
        }
        assert deployedBuilds[..i] == deployedBuilds;
      }
    }

    method BumpCheckStart()
      requires Valid()
      modifies this
      ensures Valid() && Abstract() == Step(old(Abstract()), BumpCheckStarts)
    {
      hide Holds;
      StepHolds(Abstract(), BumpCheckStarts);
      if !bumpRunning && bumpsStarted < |bumpChain| {
        log := log + [BumpStarted(bumpChain[bumpsStarted])];
        bumpsStarted := bumpsStarted + 1;
        bumpRunning := true;
      }
    }

    /** A failed check is caught, so the chain goes on. */
    method BumpCheckEnd(ok: bool)
      requires Valid()
      modifies this
      ensures Valid() && Abstract() == Step(old(Abstract()), BumpCheckEnds(ok))
    {
      hide Holds;
      StepHolds(Abstract(), BumpCheckEnds(ok));
      if bumpRunning && 0 < bumpsStarted <= |bumpChain| {
        bumpRunning := false;
        log := log + [BumpEnded(bumpChain[bumpsStarted - 1], ok)];
      }
    }
  }
}
