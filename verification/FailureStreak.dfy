/**
 * Two definitions of a failure streak: a query that counts the failures newer than the last
 * build that resolved something, and a loop over the newest builds that stops at the first
 * that is no failure.
 */
module FailureStreak {
  import opened SortedIds
  import opened Wrappers

  const SUCCESS := 0
  const ALREADY_BUILT := 1
  const SKIPPED := 2
  const FAILED := 3
  const TIMED_OUT := 4
  const CANCELED := 5
  const CANCELED_REQUEUE := 6
  const SOFTWARE_FAILURE := 7

  const BUILD_FAILURE_STATUSES: seq<int> := [FAILED, TIMED_OUT, SOFTWARE_FAILURE]
  const BUILD_SUCCESS_STATUSES: seq<int> := [SUCCESS, ALREADY_BUILT, SKIPPED]
  const BUILD_VERDICT_STATUSES: seq<int> := BUILD_SUCCESS_STATUSES + BUILD_FAILURE_STATUSES

  const BUILD_RATE_LIMIT_FAILURE_STREAK := 5
  const SHOULD_BUILD_RETRY_MS := 24 * 60 * 60 * 1000
  const SHOULD_BUILD_MAX_RECENT_BUILDS := 20
  const DAY_MS := 24 * 60 * 60 * 1000
  const SHOULD_BUILD_TRAILING_DAYS := 30
  const UNRESOLVED_FAILURE_LOOKBACK_DAYS := 90

  datatype Build = Build(package: int, timestamp: int, status: int)

  /** The builds by their ids, which the database numbers from 1. */
  type Builds = map<int, Build>

  ghost predicate IsNumbered(builds: Builds) {
    forall id :: id in builds ==> id > 0
  }

  predicate IsFailing(status: int) {
    status in BUILD_FAILURE_STATUSES
  }

  /** Every verdict is a failure or a success, and none is both. */
  lemma VerdictsArePartitioned(status: int)
    ensures status in BUILD_VERDICT_STATUSES <==> (IsFailing(status) <==> status !in BUILD_SUCCESS_STATUSES)
  {
  }

  // ----- The queries -----

  /** The builds of the packages since a time whose status is among those given. */
  function Select(builds: Builds, packages: set<int>, since: int, statuses: seq<int>): set<int> {
    set id |
      && id in builds && builds[id].package in packages
      && builds[id].timestamp > since && builds[id].status in statuses
  }

  function Verdicts(builds: Builds, packages: set<int>, since: int): set<int> {
    Select(builds, packages, since, BUILD_VERDICT_STATUSES)
  }

  /** The largest id of a resolving build, 0 when there is none. */
  function LastResolving(builds: Builds, packages: set<int>, since: int): int {
    var successes := Select(builds, packages, since, BUILD_SUCCESS_STATUSES);
    if successes == {} then 0 else Largest(successes)
  }

  function Streak(builds: Builds, packages: set<int>, since: int): set<int> {
    set id |
      && id in Select(builds, packages, since, BUILD_FAILURE_STATUSES)
      && id > LastResolving(builds, packages, since)
  }

  datatype UnresolvedRow = UnresolvedRow(
    latest: int,
    status: int,
    timestamp: int,
    consecutiveFailures: nat,
    streakStartedAt: Option<int>)

  /** The row of a package: there is one when its latest verdict is a failure. */
  function UnresolvedFailure(builds: Builds, package: int, since: int): Option<UnresolvedRow> {
    var verdicts := Verdicts(builds, {package}, since);
    if verdicts == {} then None
    else
      var l := Largest(verdicts);
      if !IsFailing(builds[l].status) then None
      else
        var streak := Streak(builds, {package}, since);
        Some(UnresolvedRow(l, builds[l].status, builds[l].timestamp, |streak|, Earliest(builds, streak)))
  }

  function Earliest(builds: Builds, ids: set<int>): Option<int>
    requires ids <= builds.Keys
  {
    var negated := set id | id in ids :: -builds[id].timestamp;
    if negated == {} then None else Some(-Largest(negated))
  }

  /** The verdict builds of the packages since a time, from the newest to the oldest. */
  function NewestFirst(builds: Builds, packages: set<int>, since: int): (ids: seq<int>)
    ensures forall i :: 0 <= i < |ids| ==> ids[i] in builds
  {
    var ids := Descending(Verdicts(builds, packages, since));
    assert forall i :: 0 <= i < |ids| ==> ids[i] in ids;
    ids
  }

  function Recent(builds: Builds, packages: set<int>, since: int): (recent: seq<int>)
    ensures forall i :: 0 <= i < |recent| ==> recent[i] in builds
  {
    var ids := NewestFirst(builds, packages, since);
    if |ids| <= SHOULD_BUILD_MAX_RECENT_BUILDS then ids else ids[..SHOULD_BUILD_MAX_RECENT_BUILDS]
  }

  function Statuses(builds: Builds, ids: seq<int>): seq<int>
    requires forall i :: 0 <= i < |ids| ==> ids[i] in builds
  {
    seq(|ids|, i requires 0 <= i < |ids| && ids[i] in builds => builds[ids[i]].status)
  }

  // ----- The loop -----

  /** The first `n` statuses, and no more in a row, are failures. */
  ghost predicate IsLeadingRun(statuses: seq<int>, n: nat) {
    && n <= |statuses|
    && (forall i :: 0 <= i < n ==> IsFailing(statuses[i]))
    && (n < |statuses| ==> !IsFailing(statuses[n]))
  }

  datatype Decision = Decision(shouldBuild: bool, consecutiveFailures: nat)

  /**
   * A package in a failure loop is not built again until its newest build is old enough.
   */
  method ShouldBuildDecision(statuses: seq<int>, newestBuildAgeMs: Option<int>) returns (decision: Decision)
    ensures IsLeadingRun(statuses, decision.consecutiveFailures)
    ensures decision.shouldBuild <==>
      || decision.consecutiveFailures < BUILD_RATE_LIMIT_FAILURE_STREAK
      || (newestBuildAgeMs.Some? && newestBuildAgeMs.value >= SHOULD_BUILD_RETRY_MS)
  {
    var consecutiveFailures: nat := 0;
    while consecutiveFailures < |statuses|
      invariant consecutiveFailures <= |statuses|
      invariant forall i :: 0 <= i < consecutiveFailures ==> IsFailing(statuses[i])
    {
      if !IsFailing(statuses[consecutiveFailures]) { break; }
      consecutiveFailures := consecutiveFailures + 1;
    }
    if consecutiveFailures < BUILD_RATE_LIMIT_FAILURE_STREAK { return Decision(true, consecutiveFailures); }
    var cooldownOver := newestBuildAgeMs.Some? && newestBuildAgeMs.value >= SHOULD_BUILD_RETRY_MS;
    return Decision(cooldownOver, consecutiveFailures);
  }

  // ----- The two definitions agree -----

  lemma RunsAreUnique(statuses: seq<int>, m: nat, n: nat)
    requires IsLeadingRun(statuses, m) && IsLeadingRun(statuses, n)
    ensures m == n
  {
  }

  lemma ListsVerdicts(builds: Builds, packages: set<int>, since: int)
    ensures var ids := NewestFirst(builds, packages, since);
      && (forall id :: id in ids <==> id in Verdicts(builds, packages, since))
      && (forall i, j :: 0 <= i < j < |ids| ==> ids[i] > ids[j])
      && (forall i :: 0 <= i < |ids| ==> ids[i] in Verdicts(builds, packages, since))
  {
    var ids := NewestFirst(builds, packages, since);
    DescendingOrder(Verdicts(builds, packages, since));
    assert forall i :: 0 <= i < |ids| ==> ids[i] in ids;
  }

  /** Up to the leading run everything is newer than what resolved last, and nothing after it is. */
  lemma RunIsStreak(builds: Builds, packages: set<int>, since: int, n: nat)
    requires IsNumbered(builds)
    requires IsLeadingRun(Statuses(builds, NewestFirst(builds, packages, since)), n)
    ensures forall j :: 0 <= j < |NewestFirst(builds, packages, since)| ==>
      (NewestFirst(builds, packages, since)[j] in Streak(builds, packages, since) <==> j < n)
  {
    var ids := NewestFirst(builds, packages, since);
    var statuses := Statuses(builds, ids);
    ListsVerdicts(builds, packages, since);
    var successes := Select(builds, packages, since, BUILD_SUCCESS_STATUSES);
    var last := LastResolving(builds, packages, since);
    hide NewestFirst;
    forall j | 0 <= j < |ids|
      ensures ids[j] in Streak(builds, packages, since) <==> j < n
    {
      VerdictsArePartitioned(statuses[j]);
      if j < n {
        assert IsFailing(statuses[j]);
        if successes != {} {
          assert last in ids;
          var k :| 0 <= k < |ids| && ids[k] == last;
          VerdictsArePartitioned(statuses[k]);
          assert !IsFailing(statuses[k]);
        }
      } else {
        VerdictsArePartitioned(statuses[n]);
        assert ids[n] in successes;
        assert ids[j] <= ids[n] <= last;
      }
    }
  }

  /**
   * The failures newer than the last resolving build are as many as lead the list of verdict
   * builds from the newest to the oldest.
   */
  lemma StreakIsLeadingRun(builds: Builds, packages: set<int>, since: int, n: nat)
    requires IsNumbered(builds)
    ensures IsLeadingRun(Statuses(builds, NewestFirst(builds, packages, since)), n)
      <==> n == |Streak(builds, packages, since)|
  {
    var ids := NewestFirst(builds, packages, since);
    var m := LeadingRun(Statuses(builds, ids));
    CountOfRun(builds, packages, since, m);
    if IsLeadingRun(Statuses(builds, ids), n) { RunsAreUnique(Statuses(builds, ids), m, n); }
  }

  ghost function LeadingRun(statuses: seq<int>): (n: nat)
    ensures IsLeadingRun(statuses, n)
  {
    if statuses == [] || !IsFailing(statuses[0]) then 0
    else
      var n := LeadingRun(statuses[1..]);
      assert forall i :: 0 < i < |statuses| ==> statuses[i] == statuses[1..][i - 1];
      n + 1
  }

  lemma CountOfRun(builds: Builds, packages: set<int>, since: int, n: nat)
    requires IsNumbered(builds)
    requires IsLeadingRun(Statuses(builds, NewestFirst(builds, packages, since)), n)
    ensures n == |Streak(builds, packages, since)|
  {
    ListsVerdicts(builds, packages, since);
    RunIsStreak(builds, packages, since, n);
    StreakOfVerdicts(builds, packages, since);
    hide NewestFirst, Streak, Verdicts;
    CountOfPrefix(NewestFirst(builds, packages, since), Verdicts(builds, packages, since),
      Streak(builds, packages, since), n);
  }

  /** A subset that makes up the first `n` places of a listing has `n` elements. */
  lemma CountOfPrefix(ids: seq<int>, all: set<int>, part: set<int>, n: nat)
    requires (forall id :: id in ids <==> id in all) && part <= all && n <= |ids|
    requires forall i, j :: 0 <= i < j < |ids| ==> ids[i] > ids[j]
    requires forall j :: 0 <= j < |ids| ==> (ids[j] in part <==> j < n)
    ensures |part| == n
  {
    ElementsOfDistinct(ids[..n]);
    var prefix := Elements(ids[..n]);
    forall id
      ensures id in prefix <==> id in part
    {
      if id in part {
        var j :| 0 <= j < |ids| && ids[j] == id;
        assert ids[..n][j] == id;
      }
    }
    assert prefix == part;
  }

  lemma StreakOfVerdicts(builds: Builds, packages: set<int>, since: int)
    ensures Streak(builds, packages, since) <= Verdicts(builds, packages, since) <= builds.Keys
  {
    hide LastResolving;
  }

  /** A build of the packages from after a time. */
  ghost predicate IsOf(builds: Builds, packages: set<int>, since: int, id: int) {
    id in builds && builds[id].package in packages && since < builds[id].timestamp
  }

  /** A build that failed, timed out or failed by its own software. */
  ghost predicate IsFailure(builds: Builds, packages: set<int>, since: int, id: int) {
    IsOf(builds, packages, since, id) && builds[id].status in {3, 4, 7}
  }

  /** A build that succeeded, was there already or was skipped. */
  ghost predicate IsResolving(builds: Builds, packages: set<int>, since: int, id: int) {
    IsOf(builds, packages, since, id) && builds[id].status in {0, 1, 2}
  }

  /** The verdict build with the largest id. */
  ghost predicate IsNewest(builds: Builds, packages: set<int>, since: int, id: int) {
    && (IsFailure(builds, packages, since, id) || IsResolving(builds, packages, since, id))
    && forall x :: IsFailure(builds, packages, since, x) || IsResolving(builds, packages, since, x) ==> x <= id
  }

  /** The streak is the failures above all resolving builds. */
  lemma StreakIff(builds: Builds, packages: set<int>, since: int, id: int)
    requires IsNumbered(builds)
    ensures id in Streak(builds, packages, since) <==>
      IsFailure(builds, packages, since, id) && forall r :: IsResolving(builds, packages, since, r) ==> r < id
  {
    var successes := Select(builds, packages, since, BUILD_SUCCESS_STATUSES);
    forall r
      ensures r in successes <==> IsResolving(builds, packages, since, r)
    {
    }
    LastResolvingIsBound(builds, packages, since);
    hide LastResolving;
  }

  lemma NewestIff(builds: Builds, packages: set<int>, since: int, id: int)
    ensures IsNewest(builds, packages, since, id) <==>
      Verdicts(builds, packages, since) != {} && id == Largest(Verdicts(builds, packages, since))
  {
    var verdicts := Verdicts(builds, packages, since);
    forall x
      ensures x in verdicts <==> IsFailure(builds, packages, since, x) || IsResolving(builds, packages, since, x)
    {
    }
    hide Verdicts, IsFailure, IsResolving;
    if IsNewest(builds, packages, since, id) {
      assert id in verdicts;
    }
  }

  /** A package is listed with its newest verdict build, if that is a failure, and as that build ended. */
  lemma RowIs(builds: Builds, package: int, since: int, row: UnresolvedRow)
    requires IsNumbered(builds)
    ensures UnresolvedFailure(builds, package, since) == Some(row) ==>
      && IsNewest(builds, {package}, since, row.latest) && IsFailure(builds, {package}, since, row.latest)
      && row.status == builds[row.latest].status && row.timestamp == builds[row.latest].timestamp
      && row.latest in Streak(builds, {package}, since)
      && forall id :: id in Streak(builds, {package}, since) ==> id <= row.latest
    ensures UnresolvedFailure(builds, package, since) == None <==>
      forall id :: IsNewest(builds, {package}, since, id) ==> !IsFailure(builds, {package}, since, id)
  {
    hide Streak, IsNewest, IsOf;
    var verdicts := Verdicts(builds, {package}, since);
    if verdicts != {} {
      var l := Largest(verdicts);
      LatestInStreak(builds, {package}, since);
      NewestIff(builds, {package}, since, l);
      StreakOfVerdicts(builds, {package}, since);
      VerdictStatus(builds, {package}, since, l);
    }
    forall id
      ensures IsNewest(builds, {package}, since, id) <==> verdicts != {} && id == Largest(verdicts)
    {
      NewestIff(builds, {package}, since, id);
    }
    hide IsFailure;
  }

  lemma VerdictStatus(builds: Builds, packages: set<int>, since: int, id: int)
    requires id in Verdicts(builds, packages, since)
    ensures IsFailure(builds, packages, since, id) <==> IsFailing(builds[id].status)
  {
  }

  /** The age the rate limit looks at is that of the newest verdict build. */
  lemma NewestAgeIff(builds: Builds, packages: set<int>, since: int, now: int, age: int)
    ensures NewestAge(builds, packages, since, now) == Some(age) <==>
      exists id :: IsNewest(builds, packages, since, id) && age == now - builds[id].timestamp
  {
    var verdicts := Verdicts(builds, packages, since);
    if verdicts != {} { NewestIff(builds, packages, since, Largest(verdicts)); }
    if id :| IsNewest(builds, packages, since, id) && age == now - builds[id].timestamp {
      NewestIff(builds, packages, since, id);
    }
  }

  /** A package is listed exactly when its streak is not empty, and then the streak contains its latest build. */
  lemma ListedIffStreak(builds: Builds, package: int, since: int)
    requires IsNumbered(builds)
    ensures UnresolvedFailure(builds, package, since).Some? <==> |Streak(builds, {package}, since)| > 0
    ensures UnresolvedFailure(builds, package, since).Some? ==>
      var row := UnresolvedFailure(builds, package, since).value;
      && row.latest in Streak(builds, {package}, since)
      && row.consecutiveFailures == |Streak(builds, {package}, since)| > 0
      && row.streakStartedAt.Some? && row.streakStartedAt.value <= row.timestamp
      && (forall id :: id in Streak(builds, {package}, since) ==> row.streakStartedAt.value <= builds[id].timestamp)
      && (exists id :: id in Streak(builds, {package}, since) && row.streakStartedAt.value == builds[id].timestamp)
  {
    var verdicts := Verdicts(builds, {package}, since);
    var streak := Streak(builds, {package}, since);
    StreakOfVerdicts(builds, {package}, since);
    if verdicts != {} {
      var l := Largest(verdicts);
      LatestInStreak(builds, {package}, since);
      if IsFailing(builds[l].status) {
        EarliestIsLeast(builds, streak);
      } else {
        EmptyHasNone(streak);
      }
    } else {
      EmptyHasNone(streak);
    }
  }

  lemma EmptyHasNone(s: set<int>)
    ensures |s| == 0 <==> forall x :: x !in s
  {
    if |s| > 0 {
      var x := Pick(s);
      assert x in s;
    }
  }

  lemma LatestInStreak(builds: Builds, packages: set<int>, since: int)
    requires IsNumbered(builds) && Verdicts(builds, packages, since) != {}
    ensures var l := Largest(Verdicts(builds, packages, since));
      if IsFailing(builds[l].status) then l in Streak(builds, packages, since)
      else Streak(builds, packages, since) == {}
  {
    hide Streak;
    var l := Largest(Verdicts(builds, packages, since));
    NewestIff(builds, packages, since, l);
    VerdictStatus(builds, packages, since, l);
    forall id | id in Streak(builds, packages, since)
      ensures IsFailing(builds[l].status)
    {
      StreakIff(builds, packages, since, id);
    }
    StreakIff(builds, packages, since, l);
    hide IsFailure;
  }

  lemma EarliestIsLeast(builds: Builds, ids: set<int>)
    requires ids <= builds.Keys && ids != {}
    ensures Earliest(builds, ids).Some?
    ensures forall id :: id in ids ==> Earliest(builds, ids).value <= builds[id].timestamp
    ensures exists id :: id in ids && Earliest(builds, ids).value == builds[id].timestamp
  {
    var negated := set id | id in ids :: -builds[id].timestamp;
    var first := Pick(ids);
    assert forall id :: id in ids ==> -builds[id].timestamp in negated;
    assert -builds[first].timestamp in negated;
  }

  // ----- The rate limit -----

  /** The limit on the list cuts the streak off at 20. */
  lemma RecentRun(builds: Builds, packages: set<int>, since: int, n: nat)
    requires IsNumbered(builds)
    requires IsLeadingRun(Statuses(builds, Recent(builds, packages, since)), n)
    ensures n == Min(|Streak(builds, packages, since)|, SHOULD_BUILD_MAX_RECENT_BUILDS)
  {
    var all := Statuses(builds, NewestFirst(builds, packages, since));
    var recent := Statuses(builds, Recent(builds, packages, since));
    var m := LeadingRun(all);
    CountOfRun(builds, packages, since, m);
    assert recent == if |all| <= SHOULD_BUILD_MAX_RECENT_BUILDS then all else all[..SHOULD_BUILD_MAX_RECENT_BUILDS];
    hide Statuses, NewestFirst, Recent, Streak;
    RunsAreUnique(recent, n, Min(m, SHOULD_BUILD_MAX_RECENT_BUILDS));
  }

  function Min(a: nat, b: nat): nat {
    if a <= b then a else b
  }

  /** The age of the newest verdict build. */
  function NewestAge(builds: Builds, packages: set<int>, since: int, now: int): Option<int> {
    var verdicts := Verdicts(builds, packages, since);
    if verdicts == {} then None else Some(now - builds[Largest(verdicts)].timestamp)
  }

  lemma NewestIsFirst(builds: Builds, packages: set<int>, since: int, now: int)
    ensures var rows := Recent(builds, packages, since);
      NewestAge(builds, packages, since, now) == if rows == [] then None else Some(now - builds[rows[0]].timestamp)
  {
  }

  /**
   * Although only the newest 20 builds are looked at, a package is held back exactly when its
   * whole streak, as the query counts it, has five failures or more and its newest build is
   * less than a day old.
   */
  method GetShouldBuild(builds: Builds, packages: set<int>, now: int) returns (decision: Decision)
    requires IsNumbered(builds)
    ensures var since := now - SHOULD_BUILD_TRAILING_DAYS * DAY_MS;
      && decision.consecutiveFailures == Min(|Streak(builds, packages, since)|, SHOULD_BUILD_MAX_RECENT_BUILDS)
      && (!decision.shouldBuild <==>
           && |Streak(builds, packages, since)| >= BUILD_RATE_LIMIT_FAILURE_STREAK
           && NewestAge(builds, packages, since, now).Some?
           && NewestAge(builds, packages, since, now).value < SHOULD_BUILD_RETRY_MS)
  {
    var since := now - SHOULD_BUILD_TRAILING_DAYS * DAY_MS;
    var rows := Recent(builds, packages, since);
    var newestBuildAgeMs := None;
    if |rows| > 0 { newestBuildAgeMs := Some(now - builds[rows[0]].timestamp); }
    decision := ShouldBuildDecision(Statuses(builds, rows), newestBuildAgeMs);
    RecentRun(builds, packages, since, decision.consecutiveFailures);
    NewestIsFirst(builds, packages, since, now);
  }

  // ----- The two windows -----

  /** Builds are created in the order of their ids. */
  ghost predicate IsChronological(builds: Builds) {
    forall i, j :: i in builds && j in builds && i < j ==> builds[i].timestamp <= builds[j].timestamp
  }

  /** A resolving build that only the longer window has. */
  ghost predicate IsOld(builds: Builds, packages: set<int>, since: int, later: int, r: int) {
    r in Select(builds, packages, since, BUILD_SUCCESS_STATUSES) && builds[r].timestamp <= later
  }

  /** No resolving build that only the longer window has is above a failure of the shorter one's streak. */
  ghost predicate NoneOutOfOrder(builds: Builds, packages: set<int>, since: int, later: int) {
    forall r, id :: IsOld(builds, packages, since, later, r) && id in Streak(builds, packages, later) ==> r < id
  }

  lemma ChronologicalIsInOrder(builds: Builds, packages: set<int>, since: int, later: int)
    requires IsChronological(builds)
    ensures NoneOutOfOrder(builds, packages, since, later)
  {
    forall r, id | IsOld(builds, packages, since, later, r) && id in Streak(builds, packages, later)
      ensures r < id
    {
      assert builds[id].timestamp > later;
    }
  }

  ghost predicate IsRestriction(builds: Builds, packages: set<int>, since: int, later: int) {
    forall id :: id in Streak(builds, packages, later) <==>
      id in Streak(builds, packages, since) && builds[id].timestamp > later
  }

  lemma LastResolvingIsBound(builds: Builds, packages: set<int>, since: int)
    requires IsNumbered(builds)
    ensures var last := LastResolving(builds, packages, since);
      var successes := Select(builds, packages, since, BUILD_SUCCESS_STATUSES);
      (last == 0 || last in successes) && last >= 0 && forall id :: id in successes ==> id <= last
  {
  }

  /** A failure of the shorter window that is in the longer one's streak is in the shorter one's. */
  lemma WiderIsStricter(builds: Builds, packages: set<int>, since: int, later: int, id: int)
    requires IsNumbered(builds) && since <= later
    requires id in Streak(builds, packages, since) && builds[id].timestamp > later
    ensures id in Streak(builds, packages, later)
  {
    LastResolvingIsBound(builds, packages, since);
    LastResolvingIsBound(builds, packages, later);
    hide LastResolving;
    var narrow := LastResolving(builds, packages, later);
    assert narrow != 0 ==> narrow in Select(builds, packages, since, BUILD_SUCCESS_STATUSES);
  }

  /** In order, a failure of the shorter one's streak is above everything that resolved in the longer window. */
  lemma InOrderIsInWider(builds: Builds, packages: set<int>, since: int, later: int, id: int)
    requires IsNumbered(builds) && since <= later && NoneOutOfOrder(builds, packages, since, later)
    requires id in Streak(builds, packages, later)
    ensures id in Streak(builds, packages, since) && builds[id].timestamp > later
  {
    LastResolvingIsBound(builds, packages, since);
    LastResolvingIsBound(builds, packages, later);
    hide LastResolving;
    var wide := LastResolving(builds, packages, since);
    if wide != 0 {
      if builds[wide].timestamp > later {
        assert wide in Select(builds, packages, later, BUILD_SUCCESS_STATUSES);
      } else {
        assert IsOld(builds, packages, since, later, wide);
      }
    }
  }

  /**
   * The streak of a shorter window is what the streak of a longer one has in it, exactly when
   * no resolving build is out of order.
   */
  lemma NarrowerWindow(builds: Builds, packages: set<int>, since: int, later: int)
    requires IsNumbered(builds) && since <= later
    ensures IsRestriction(builds, packages, since, later) <==> NoneOutOfOrder(builds, packages, since, later)
  {
    if NoneOutOfOrder(builds, packages, since, later) {
      forall id
        ensures id in Streak(builds, packages, later) <==>
          id in Streak(builds, packages, since) && builds[id].timestamp > later
      {
        if id in Streak(builds, packages, later) {
          InOrderIsInWider(builds, packages, since, later, id);
        } else if id in Streak(builds, packages, since) && builds[id].timestamp > later {
          WiderIsStricter(builds, packages, since, later, id);
        }
      }
    }
    if IsRestriction(builds, packages, since, later) {
      LastResolvingIsBound(builds, packages, since);
      hide LastResolving;
      forall r, id | IsOld(builds, packages, since, later, r) && id in Streak(builds, packages, later)
        ensures r < id
      {
        assert id in Streak(builds, packages, since);
      }
    }
  }

  /** Every resolving build that only the longer window has is below one of its failures. */
  ghost predicate FailsAfterOld(builds: Builds, packages: set<int>, since: int, later: int) {
    forall r :: IsOld(builds, packages, since, later, r) ==>
      exists f :: f in Select(builds, packages, since, BUILD_FAILURE_STATUSES) && r < f
  }

  lemma WiderStreakIff(builds: Builds, packages: set<int>, since: int, later: int, top: int)
    requires IsNumbered(builds) && since <= later && top in Streak(builds, packages, later)
    ensures (exists id :: id in Streak(builds, packages, since)) <==> FailsAfterOld(builds, packages, since, later)
  {
    LastResolvingIsBound(builds, packages, since);
    LastResolvingIsBound(builds, packages, later);
    hide LastResolving;
    var wide := LastResolving(builds, packages, since);
    if FailsAfterOld(builds, packages, since, later) {
      if wide != 0 && builds[wide].timestamp <= later {
        assert IsOld(builds, packages, since, later, wide);
        var f :| f in Select(builds, packages, since, BUILD_FAILURE_STATUSES) && wide < f;
        assert f in Streak(builds, packages, since);
      } else {
        assert wide != 0 ==> wide in Select(builds, packages, later, BUILD_SUCCESS_STATUSES);
        assert top in Streak(builds, packages, since);
      }
    }
    if id :| id in Streak(builds, packages, since) {
      assert id in Select(builds, packages, since, BUILD_FAILURE_STATUSES);
    }
  }

  /**
   * A package that is held back is on the list of unresolved failures exactly when no resolving
   * build older than the shorter window is above all failures of the longer one. Its count there
   * is at least as large when none is above a failure of the streak.
   */
  lemma HeldBackIsListed(builds: Builds, package: int, now: int)
    requires IsNumbered(builds)
    requires |Streak(builds, {package}, now - SHOULD_BUILD_TRAILING_DAYS * DAY_MS)| >= BUILD_RATE_LIMIT_FAILURE_STREAK
    ensures var since := now - UNRESOLVED_FAILURE_LOOKBACK_DAYS * DAY_MS;
      var later := now - SHOULD_BUILD_TRAILING_DAYS * DAY_MS;
      var row := UnresolvedFailure(builds, package, since);
      && (row.Some? <==> FailsAfterOld(builds, {package}, since, later))
      && (NoneOutOfOrder(builds, {package}, since, later) ==>
           row.Some? && row.value.consecutiveFailures >= |Streak(builds, {package}, later)|)
  {
    var since, later := now - UNRESOLVED_FAILURE_LOOKBACK_DAYS * DAY_MS, now - SHOULD_BUILD_TRAILING_DAYS * DAY_MS;
    var wide, narrow := Streak(builds, {package}, since), Streak(builds, {package}, later);
    hide UnresolvedFailure, FailsAfterOld, Streak, NoneOutOfOrder;
    EmptyHasNone(narrow);
    var top := Pick(narrow);
    WiderStreakIff(builds, {package}, since, later, top);
    ListedIffStreak(builds, package, since);
    EmptyHasNone(wide);
    if NoneOutOfOrder(builds, {package}, since, later) {
      forall id | id in narrow
        ensures id in wide
      {
        InOrderIsInWider(builds, {package}, since, later, id);
      }
      CardinalityOfSubset(narrow, wide);
    }
  }

  /** Five failures of the last days, and an older success that was numbered after them. */
  function LateNumbered(now: int): Builds {
    var failed := Build(1, now - DAY_MS, FAILED);
    map[1 := failed, 2 := failed, 3 := failed, 4 := failed, 5 := failed, 6 := Build(1, now - 40 * DAY_MS, SUCCESS)]
  }

  lemma LateNumberedBuilds(now: int)
    ensures LateNumbered(now).Keys == {1, 2, 3, 4, 5, 6}
    ensures forall id :: id in {1, 2, 3, 4, 5} ==> LateNumbered(now)[id] == Build(1, now - DAY_MS, FAILED)
    ensures LateNumbered(now)[6] == Build(1, now - 40 * DAY_MS, SUCCESS)
  {
  }

  lemma LateNumberedStreak(now: int, later: int)
    requires now - 40 * DAY_MS <= later < now - DAY_MS
    ensures Streak(LateNumbered(now), {1}, later) == {1, 2, 3, 4, 5}
  {
    hide LateNumbered;
    var builds := LateNumbered(now);
    LateNumberedBuilds(now);
    VerdictsArePartitioned(FAILED);
    assert Select(builds, {1}, later, BUILD_SUCCESS_STATUSES) == {};
    assert LastResolving(builds, {1}, later) == 0;
    hide LastResolving;
    assert Select(builds, {1}, later, BUILD_FAILURE_STATUSES) == {1, 2, 3, 4, 5};
  }

  lemma LateNumberedRow(now: int, since: int)
    requires since < now - 40 * DAY_MS
    ensures UnresolvedFailure(LateNumbered(now), 1, since).None?
  {
    hide LateNumbered, Streak;
    var builds := LateNumbered(now);
    LateNumberedBuilds(now);
    var verdicts := Verdicts(builds, {1}, since);
    assert 6 in verdicts && forall id :: id in verdicts ==> id <= 6;
    assert Largest(verdicts) == 6;
  }

  /** With a build out of order, a package can be held back and yet not be listed. */
  lemma HeldBackNotListed(now: int)
    ensures IsNumbered(LateNumbered(now))
    ensures |Streak(LateNumbered(now), {1}, now - SHOULD_BUILD_TRAILING_DAYS * DAY_MS)| >=
      BUILD_RATE_LIMIT_FAILURE_STREAK
    ensures UnresolvedFailure(LateNumbered(now), 1, now - UNRESOLVED_FAILURE_LOOKBACK_DAYS * DAY_MS).None?
  {
    hide Streak, UnresolvedFailure, LateNumbered;
    LateNumberedBuilds(now);
    LateNumberedStreak(now, now - SHOULD_BUILD_TRAILING_DAYS * DAY_MS);
    LateNumberedRow(now, now - UNRESOLVED_FAILURE_LOOKBACK_DAYS * DAY_MS);
  }
}
