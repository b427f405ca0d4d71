/**
 * Batching of AUR info requests: requests wait in an open batch until it is full or its timer
 * fires, and each batch is answered by one call.
 *
 * Requests, timers, answers and the passing of time may come in any order; a run is any
 * sequence of them.
 */
module InfoBatcher {
  import opened Wrappers

  const INFO_BATCH_WINDOW_MS := 50
  const INFO_BATCH_SIZE := 50

  datatype Info = Info(name: string, details: string)

  /** The answer to one call: a response with its results, or an exception on the way to them. */
  datatype Outcome = Response(ok: bool, results: seq<Info>) | Exception

  /** A waiting request: its name, its number, which stands for its resolver, and its time. */
  datatype Entry = Entry(name: string, request: nat, at: nat)

  /** A batch sent off, with the answer once it is there. */
  datatype Flight = Flight(batch: seq<Entry>, outcome: Option<Outcome>)

  datatype State = State(
    infoBatch: seq<Entry>,
    infoBatchTimer: Option<nat>,
    // The event loop: armed timers with their due times, and the calls made.
    armed: map<nat, nat>,
    nextTimer: nat,
    flights: seq<Flight>,
    // Observations: every request made, all values its resolver was called with, and the time.
    asked: seq<Entry>,
    resolved: seq<seq<Option<Info>>>,
    now: nat)

  datatype Event = Fetch(name: string) | Fire(timer: nat) | Settle(flight: nat, outcome: Outcome) | Wait(ms: nat)

  const INITIAL := State([], None, map[], 0, [], [], [], 0)

  // ----- Steps -----

  function Flush(s: State): State {
    var cleared := s.(
      infoBatch := [],
      armed := if s.infoBatchTimer.Some? then s.armed - {s.infoBatchTimer.value} else s.armed,
      infoBatchTimer := None);
    if s.infoBatch == [] then cleared else cleared.(flights := s.flights + [Flight(s.infoBatch, None)])
  }

  function Pushed(s: State, name: string): State {
    var entry := Entry(name, |s.asked|, s.now);
    s.(infoBatch := s.infoBatch + [entry], asked := s.asked + [entry], resolved := s.resolved + [[]])
  }

  function Armed(s: State): State {
    s.(infoBatchTimer := Some(s.nextTimer),
       armed := s.armed[s.nextTimer := s.now + INFO_BATCH_WINDOW_MS],
       nextTimer := s.nextTimer + 1)
  }

  function FetchInfo(s: State, name: string): State {
    var pushed := Pushed(s, name);
    if |pushed.infoBatch| >= INFO_BATCH_SIZE then Flush(pushed)
    else if pushed.infoBatchTimer.None? then Armed(pushed)
    else pushed
  }

  /** The results by name; of several results with one name the last stays. */
  function ByName(results: seq<Info>): map<string, Info> {
    if results == [] then map[]
    else
      var last := results[|results| - 1];
      ByName(results[..|results| - 1])[last.name := last]
  }

  function Get(byName: map<string, Info>, name: string): Option<Info> {
    if name in byName then Some(byName[name]) else None
  }

  /** What a request for `name` is resolved with. */
  function Value(outcome: Outcome, name: string): Option<Info> {
    match outcome
    case Response(ok, results) => Get(ByName(if ok then results else []), name)
    case Exception => None
  }

  function ResolveAll(resolved: seq<seq<Option<Info>>>, batch: seq<Entry>, outcome: Outcome)
    : (r: seq<seq<Option<Info>>>)
    ensures |r| == |resolved|
  {
    if batch == [] then resolved
    else
      var entry := batch[|batch| - 1];
      var before := ResolveAll(resolved, batch[..|batch| - 1], outcome);
      if entry.request < |before|
      then before[entry.request := before[entry.request] + [Value(outcome, entry.name)]] else before
  }

  function Settled(s: State, f: nat, outcome: Outcome): State
    requires f < |s.flights|
  {
    s.(flights := s.flights[f := s.flights[f].(outcome := Some(outcome))],
       resolved := ResolveAll(s.resolved, s.flights[f].batch, outcome))
  }

  function Step(s: State, e: Event): State {
    match e
    case Fetch(name) => FetchInfo(s, name)
    case Fire(t) => if t in s.armed then Flush(s.(armed := s.armed - {t})) else s
    case Settle(f, outcome) =>
      if f < |s.flights| && s.flights[f].outcome.None?
      then Settled(s, f, outcome) else s
    case Wait(ms) => s.(now := s.now + ms)
  }

  function Run(events: seq<Event>): State {
    if events == [] then INITIAL else Step(Run(events[..|events| - 1]), events[|events| - 1])
  }

  // ----- What every run promises -----

  /**
   * The open batch has room, and exactly while it is not empty is there one timer, which is
   * due a window after its first request.
   */
  ghost predicate BatchHolds(s: State) {
    && |s.infoBatch| < INFO_BATCH_SIZE
    && (s.infoBatch == [] ==> s.infoBatchTimer.None? && s.armed == map[])
    && (s.infoBatch != [] ==>
         && s.infoBatchTimer.Some?
         && s.armed == map[s.infoBatchTimer.value := s.infoBatch[0].at + INFO_BATCH_WINDOW_MS])
  }

  function Start(flights: seq<Flight>, f: nat): nat
    requires f <= |flights|
  {
    if f == 0 then 0 else Start(flights, f - 1) + |flights[f - 1].batch|
  }

  /** The batches sent off and then the open one cut the requests into pieces, in the order made. */
  ghost predicate PartitionHolds(s: State) {
    && IsPiece(s.asked, Start(s.flights, |s.flights|), s.infoBatch)
    && Start(s.flights, |s.flights|) + |s.infoBatch| == |s.asked|
    && (forall f :: 0 <= f < |s.flights| ==>
         1 <= |s.flights[f].batch| <= INFO_BATCH_SIZE && IsPiece(s.asked, Start(s.flights, f), s.flights[f].batch))
  }

  ghost predicate IsPiece(asked: seq<Entry>, start: nat, batch: seq<Entry>) {
    start + |batch| <= |asked| && batch == asked[start..start + |batch|]
  }

  /** A request is numbered by its place and not made later than now. */
  ghost predicate AskedHolds(s: State) {
    && |s.resolved| == |s.asked|
    && (forall r :: 0 <= r < |s.asked| ==> s.asked[r].request == r && s.asked[r].at <= s.now)
    && (forall q, r :: 0 <= q < r < |s.asked| ==> s.asked[q].at <= s.asked[r].at)
  }

  /** Each request was resolved once, with what its batch's answer says, or is still waiting. */
  ghost predicate AreResolvedBy(resolved: seq<seq<Option<Info>>>, batch: seq<Entry>, outcome: Option<Outcome>) {
    forall i :: 0 <= i < |batch| ==>
      && batch[i].request < |resolved|
      && resolved[batch[i].request] == if outcome.None? then [] else [Value(outcome.value, batch[i].name)]
  }

  ghost predicate ResolvedHolds(s: State) {
    && AreResolvedBy(s.resolved, s.infoBatch, None)
    && (forall f :: 0 <= f < |s.flights| ==> AreResolvedBy(s.resolved, s.flights[f].batch, s.flights[f].outcome))
  }

  ghost predicate Holds(s: State) {
    BatchHolds(s) && PartitionHolds(s) && AskedHolds(s) && ResolvedHolds(s)
  }

  // ----- Each step keeps it -----

  lemma {:induction false} StartMonotone(flights: seq<Flight>, i: nat, j: nat)
    requires i <= j <= |flights|
    ensures Start(flights, i) <= Start(flights, j)
    ensures i < j ==> Start(flights, i) + |flights[i].batch| <= Start(flights, j)
  {
    if i < j { StartMonotone(flights, i, j - 1); }
  }

  /** The places depend only on the sizes of the batches in front. */
  lemma {:induction false} StartOfSameSizes(flights: seq<Flight>, flights': seq<Flight>, f: nat)
    requires f <= |flights| && f <= |flights'|
    requires forall k :: 0 <= k < f ==> |flights[k].batch| == |flights'[k].batch|
    ensures Start(flights, f) == Start(flights', f)
  {
    if f > 0 { StartOfSameSizes(flights, flights', f - 1); }
  }

  /** The batch of a place: one of those sent off, or the open one after the last of them. */
  function BatchAt(s: State, f: nat): seq<Entry>
    requires f <= |s.flights|
  {
    if f < |s.flights| then s.flights[f].batch else s.infoBatch
  }

  ghost predicate IsNumberedFrom(asked: seq<Entry>, start: nat, batch: seq<Entry>) {
    forall i :: 0 <= i < |batch| ==> batch[i].request == start + i < |asked| && batch[i] == asked[start + i]
  }

  /** The requests of a batch are numbered from its start. */
  lemma RequestsOf(s: State, f: nat)
    requires PartitionHolds(s) && AskedHolds(s) && f <= |s.flights|
    ensures IsNumberedFrom(s.asked, Start(s.flights, f), BatchAt(s, f))
  {
    hide *;
    PieceAt(s, f);
    PieceRequests(s, Start(s.flights, f), BatchAt(s, f));
  }

  lemma PieceAt(s: State, f: nat)
    requires PartitionHolds(s) && f <= |s.flights|
    ensures IsPiece(s.asked, Start(s.flights, f), BatchAt(s, f))
  {
    hide Start, IsPiece;
  }

  lemma PieceRequests(s: State, start: nat, batch: seq<Entry>)
    requires AskedHolds(s) && IsPiece(s.asked, start, batch)
    ensures IsNumberedFrom(s.asked, start, batch)
  {
  }

  /** Requests in different batches are different requests. */
  lemma DifferentRequests(s: State, f: nat, g: nat, i: nat, j: nat)
    requires PartitionHolds(s) && AskedHolds(s) && f < g <= |s.flights|
    requires i < |BatchAt(s, f)| && j < |BatchAt(s, g)|
    ensures BatchAt(s, f)[i].request < BatchAt(s, g)[j].request
  {
    StartMonotone(s.flights, f, g);
    RequestsOf(s, f);
    RequestsOf(s, g);
  }

  lemma PushHolds(s: State, name: string)
    requires Holds(s)
    ensures PartitionHolds(Pushed(s, name)) && AskedHolds(Pushed(s, name)) && ResolvedHolds(Pushed(s, name))
  {
    PushPartition(s, name);
    PushResolved(s, name);
  }

  lemma PushPartition(s: State, name: string)
    requires PartitionHolds(s)
    ensures PartitionHolds(Pushed(s, name))
  {
    var s' := Pushed(s, name);
    hide Start;
    forall f | 0 <= f < |s.flights|
      ensures IsPiece(s'.asked, Start(s.flights, f), s.flights[f].batch)
    {
    }
  }

  lemma PushResolved(s: State, name: string)
    requires AskedHolds(s) && ResolvedHolds(s)
    ensures AskedHolds(Pushed(s, name)) && ResolvedHolds(Pushed(s, name))
  {
    var s' := Pushed(s, name);
    hide Value;
    forall f | 0 <= f < |s.flights|
      ensures AreResolvedBy(s'.resolved, s.flights[f].batch, s.flights[f].outcome)
    {
    }
  }

  lemma FlushPartition(s: State)
    requires PartitionHolds(s) && |s.infoBatch| <= INFO_BATCH_SIZE
    ensures PartitionHolds(Flush(s))
  {
    if s.infoBatch == [] {
      hide Start, IsPiece;
      assert Flush(s).flights == s.flights;
    } else {
      FlushPieces(s, Flush(s));
    }
  }

  lemma FlushPieces(s: State, s': State)
    requires PartitionHolds(s) && 0 < |s.infoBatch| <= INFO_BATCH_SIZE
    requires s'.infoBatch == [] && s'.asked == s.asked && s'.flights == s.flights + [Flight(s.infoBatch, None)]
    ensures PartitionHolds(s')
  {
    var n := |s.flights|;
    StartOfAppended(s.flights, Flight(s.infoBatch, None));
    PieceAtEnd(s.asked);
    hide Start, IsPiece;
    forall f | 0 <= f < n + 1
      ensures 1 <= |s'.flights[f].batch| <= INFO_BATCH_SIZE
      ensures IsPiece(s'.asked, Start(s'.flights, f), s'.flights[f].batch)
    {
      if f < n { assert s'.flights[f] == s.flights[f]; } else { assert s'.flights[f].batch == s.infoBatch; }
    }
  }

  lemma StartOfAppended(flights: seq<Flight>, flight: Flight)
    ensures forall f :: 0 <= f <= |flights| ==> Start(flights + [flight], f) == Start(flights, f)
    ensures Start(flights + [flight], |flights| + 1) == Start(flights, |flights|) + |flight.batch|
  {
    forall f | 0 <= f <= |flights|
      ensures Start(flights + [flight], f) == Start(flights, f)
    {
      StartOfSameSizes(flights, flights + [flight], f);
    }
  }

  lemma PieceAtEnd(asked: seq<Entry>)
    ensures IsPiece(asked, |asked|, [])
  {
  }

  lemma FlushResolved(s: State)
    requires ResolvedHolds(s)
    ensures ResolvedHolds(Flush(s))
  {
    hide AreResolvedBy;
    assert AreResolvedBy(s.resolved, [], None) by { EmptyResolved(s.resolved); }
  }

  lemma EmptyResolved(resolved: seq<seq<Option<Info>>>)
    ensures AreResolvedBy(resolved, [], None)
  {
  }

  lemma FlushHolds(s: State)
    requires PartitionHolds(s) && AskedHolds(s) && ResolvedHolds(s) && |s.infoBatch| <= INFO_BATCH_SIZE
    requires s.armed == map[] || (s.infoBatchTimer.Some? && s.armed.Keys == {s.infoBatchTimer.value})
    ensures Holds(Flush(s))
  {
    FlushPartition(s);
    FlushResolved(s);
    hide PartitionHolds, ResolvedHolds;
    assert AskedHolds(Flush(s));
    assert BatchHolds(Flush(s));
  }

  lemma PushBatch(s: State, name: string)
    requires BatchHolds(s)
    ensures |Pushed(s, name).infoBatch| < INFO_BATCH_SIZE ==> BatchHolds(FetchInfo(s, name))
    ensures |Pushed(s, name).infoBatch| <= INFO_BATCH_SIZE
    ensures s.armed == map[] || (s.infoBatchTimer.Some? && s.armed.Keys == {s.infoBatchTimer.value})
  {
  }

  lemma FetchHolds(s: State, name: string)
    requires Holds(s)
    ensures Holds(FetchInfo(s, name))
  {
    PushHolds(s, name);
    PushBatch(s, name);
    var pushed := Pushed(s, name);
    hide PartitionHolds, ResolvedHolds, AskedHolds, BatchHolds, Pushed, Flush;
    if |pushed.infoBatch| >= INFO_BATCH_SIZE {
      PushedTimer(s, name);
      FlushHolds(pushed);
    } else {
      SameHolds(pushed, FetchInfo(s, name));
    }
  }

  lemma PushedTimer(s: State, name: string)
    ensures Pushed(s, name).armed == s.armed && Pushed(s, name).infoBatchTimer == s.infoBatchTimer
  {
  }

  /** Timers and the time play no part in what becomes of the requests. */
  lemma SameHolds(s: State, s': State)
    requires PartitionHolds(s) && AskedHolds(s) && ResolvedHolds(s) && s.now <= s'.now
    requires s' == s.(infoBatchTimer := s'.infoBatchTimer, armed := s'.armed, nextTimer := s'.nextTimer, now := s'.now)
    ensures PartitionHolds(s') && AskedHolds(s') && ResolvedHolds(s')
  {
    hide IsPiece, AreResolvedBy, Start;
  }

  lemma FireHolds(s: State, t: nat)
    requires Holds(s)
    ensures Holds(Step(s, Fire(t)))
  {
    hide PartitionHolds, ResolvedHolds, AskedHolds;
    if t in s.armed {
      var fired := s.(armed := s.armed - {t});
      SameHolds(s, fired);
      assert fired.armed == map[];
      FlushHolds(fired);
    }
  }

  lemma WaitHolds(s: State, ms: nat)
    requires Holds(s)
    ensures Holds(Step(s, Wait(ms)))
  {
    hide PartitionHolds, ResolvedHolds, AskedHolds;
    SameHolds(s, Step(s, Wait(ms)));
  }

  /** Resolving a batch of different requests adds one value to each of them and none to others. */
  lemma {:induction false} ResolveAllOnce(resolved: seq<seq<Option<Info>>>, batch: seq<Entry>, outcome: Outcome)
    requires forall i :: 0 <= i < |batch| ==> batch[i].request < |resolved|
    requires forall i, j :: 0 <= i < j < |batch| ==> batch[i].request != batch[j].request
    ensures forall i :: 0 <= i < |batch| ==>
      ResolveAll(resolved, batch, outcome)[batch[i].request] ==
      resolved[batch[i].request] + [Value(outcome, batch[i].name)]
    ensures forall r :: 0 <= r < |resolved| && (forall i :: 0 <= i < |batch| ==> batch[i].request != r) ==>
      ResolveAll(resolved, batch, outcome)[r] == resolved[r]
  {
    if batch != [] {
      var init := batch[..|batch| - 1];
      ResolveAllOnce(resolved, init, outcome);
      assert forall i :: 0 <= i < |init| ==> init[i] == batch[i];
      forall r | 0 <= r < |resolved| && forall i :: 0 <= i < |batch| ==> batch[i].request != r
        ensures ResolveAll(resolved, batch, outcome)[r] == resolved[r]
      {
        assert batch[|batch| - 1].request != r;
      }
    }
  }

  lemma SettlePartition(s: State, f: nat, outcome: Outcome)
    requires PartitionHolds(s) && f < |s.flights|
    ensures PartitionHolds(Settled(s, f, outcome))
  {
    var flights' := Settled(s, f, outcome).flights;
    forall g | 0 <= g <= |s.flights|
      ensures Start(flights', g) == Start(s.flights, g)
    {
      StartOfSameSizes(s.flights, flights', g);
    }
    hide ResolveAll, Start, IsPiece;
    SamePieces(s, Settled(s, f, outcome));
  }

  lemma SamePieces(s: State, s': State)
    requires PartitionHolds(s) && s'.infoBatch == s.infoBatch && s'.asked == s.asked
    requires |s'.flights| == |s.flights|
    requires forall g :: 0 <= g < |s.flights| ==> s'.flights[g].batch == s.flights[g].batch
    requires forall g :: 0 <= g <= |s.flights| ==> Start(s'.flights, g) == Start(s.flights, g)
    ensures PartitionHolds(s')
  {
    hide Start, IsPiece;
  }

  lemma BatchDistinct(s: State, f: nat)
    requires PartitionHolds(s) && AskedHolds(s) && f < |s.flights|
    ensures forall i :: 0 <= i < |s.flights[f].batch| ==> s.flights[f].batch[i].request < |s.resolved|
    ensures forall i, j :: 0 <= i < j < |s.flights[f].batch| ==>
      s.flights[f].batch[i].request != s.flights[f].batch[j].request
  {
    RequestsOf(s, f);
    assert BatchAt(s, f) == s.flights[f].batch;
    hide PartitionHolds;
  }

  lemma SettleOthers(s: State, f: nat, g: nat, outcome: Outcome, before: Option<Outcome>)
    requires PartitionHolds(s) && AskedHolds(s) && f < |s.flights| && f != g <= |s.flights|
    requires AreResolvedBy(s.resolved, BatchAt(s, g), before)
    ensures AreResolvedBy(ResolveAll(s.resolved, s.flights[f].batch, outcome), BatchAt(s, g), before)
  {
    BatchDistinct(s, f);
    ResolveAllOnce(s.resolved, s.flights[f].batch, outcome);
    assert BatchAt(s, f) == s.flights[f].batch;
    hide ResolveAll, PartitionHolds, AskedHolds, Value;
    forall i, j | 0 <= i < |BatchAt(s, f)| && 0 <= j < |BatchAt(s, g)|
      ensures BatchAt(s, f)[i].request != BatchAt(s, g)[j].request
    {
      if f < g { DifferentRequests(s, f, g, i, j); } else { DifferentRequests(s, g, f, j, i); }
    }
  }

  lemma SettleOwn(s: State, f: nat, outcome: Outcome)
    requires PartitionHolds(s) && AskedHolds(s) && f < |s.flights|
    requires AreResolvedBy(s.resolved, s.flights[f].batch, None)
    ensures AreResolvedBy(ResolveAll(s.resolved, s.flights[f].batch, outcome), s.flights[f].batch, Some(outcome))
  {
    BatchDistinct(s, f);
    ResolveAllOnce(s.resolved, s.flights[f].batch, outcome);
    hide ResolveAll, PartitionHolds, AskedHolds, Value;
  }

  lemma SettleResolved(s: State, f: nat, outcome: Outcome)
    requires Holds(s) && f < |s.flights| && s.flights[f].outcome.None?
    ensures ResolvedHolds(Settled(s, f, outcome))
  {
    var s' := Settled(s, f, outcome);
    SettleOthers(s, f, |s.flights|, outcome, None);
    assert BatchAt(s, |s.flights|) == s.infoBatch;
    hide PartitionHolds, AskedHolds, AreResolvedBy, ResolveAll;
    forall g | 0 <= g < |s'.flights|
      ensures AreResolvedBy(s'.resolved, s'.flights[g].batch, s'.flights[g].outcome)
    {
      if g == f { SettleOwn(s, f, outcome); } else { SettleOthers(s, f, g, outcome, s.flights[g].outcome); }
    }
  }

  lemma SettleHolds(s: State, f: nat, outcome: Outcome)
    requires Holds(s) && f < |s.flights| && s.flights[f].outcome.None?
    ensures Holds(Settled(s, f, outcome))
  {
    SettlePartition(s, f, outcome);
    SettleResolved(s, f, outcome);
    hide PartitionHolds, ResolvedHolds;
    SettleFrame(s, f, outcome);
    hide Settled;
  }

  lemma SettleFrame(s: State, f: nat, outcome: Outcome)
    requires BatchHolds(s) && AskedHolds(s) && f < |s.flights|
    ensures BatchHolds(Settled(s, f, outcome)) && AskedHolds(Settled(s, f, outcome))
  {
    hide ResolveAll;
  }

  lemma StepHolds(s: State, e: Event)
    requires Holds(s)
    ensures Holds(Step(s, e))
  {
    hide Holds, Flush, FetchInfo, Settled;
    match e {
      case Fetch(name) => FetchHolds(s, name);
      case Fire(t) => FireHolds(s, t);
      case Settle(f, outcome) =>
        if f < |s.flights| && s.flights[f].outcome.None? { SettleHolds(s, f, outcome); }
      case Wait(ms) => WaitHolds(s, ms);
    }
  }

  /**
   * In every run the open batch is not empty exactly while its timer is armed and has fewer
   * than 50 requests; every request is in one batch, in the order made; and it is resolved
   * exactly once when the batch is answered, be it well, badly or by an exception.
   */
  lemma {:induction false} RunHolds(events: seq<Event>)
    ensures Holds(Run(events))
  {
    if events != [] {
      RunHolds(events[..|events| - 1]);
      StepHolds(Run(events[..|events| - 1]), events[|events| - 1]);
    }
  }

  lemma RequestsInRange(s: State, f: nat)
    requires Holds(s) && f < |s.flights|
    ensures forall i :: 0 <= i < |s.flights[f].batch| ==> s.flights[f].batch[i].request < |s.resolved|
  {
    BatchDistinct(s, f);
  }

  // ----- Consequences -----

  ghost predicate IsAt(s: State, r: nat, f: nat, i: nat) {
    f < |s.flights| && i < |s.flights[f].batch| && s.flights[f].batch[i].request == r
  }

  lemma {:induction false} FlightAt(flights: seq<Flight>, n: nat, r: nat) returns (f: nat, i: nat)
    requires n <= |flights| && r < Start(flights, n)
    ensures f < n && i < |flights[f].batch| && r == Start(flights, f) + i
  {
    if r < Start(flights, n - 1) {
      f, i := FlightAt(flights, n - 1, r);
    } else {
      f, i := n - 1, r - Start(flights, n - 1);
    }
  }

  /** What request `r` was resolved with when it is at place `i` of the `f`-th batch. */
  ghost predicate IsResolvedAt(s: State, r: nat, f: nat, i: nat)
    requires IsAt(s, r, f, i) && r < |s.asked| == |s.resolved|
  {
    && s.flights[f].batch[i] == s.asked[r]
    && s.resolved[r] ==
       if s.flights[f].outcome.None? then [] else [Value(s.flights[f].outcome.value, s.asked[r].name)]
  }

  /**
   * A request is either in the open batch and unresolved, or in exactly one place of exactly
   * one batch sent off; then it is resolved once that batch is answered, with what the answer
   * has for its name.
   */
  lemma EachRequestInOneBatch(events: seq<Event>, s: State, r: nat)
    requires s == Run(events) && r < |s.asked|
    ensures |s.resolved| == |s.asked|
    ensures s.asked[r] in s.infoBatch <==> !exists f: nat, i: nat :: IsAt(s, r, f, i)
    ensures s.asked[r] in s.infoBatch ==> s.resolved[r] == []
    ensures forall f: nat, g: nat, i: nat, j: nat :: IsAt(s, r, f, i) && IsAt(s, r, g, j) ==> f == g && i == j
    ensures forall f: nat, i: nat :: IsAt(s, r, f, i) ==> IsResolvedAt(s, r, f, i)
  {
    hide *;
    RunHolds(events);
    EachRequestHolds(s, r);
  }

  lemma EachRequestHolds(s: State, r: nat)
    requires Holds(s) && r < |s.asked|
    ensures |s.resolved| == |s.asked|
    ensures s.asked[r] in s.infoBatch <==> !exists f: nat, i: nat :: IsAt(s, r, f, i)
    ensures s.asked[r] in s.infoBatch ==> s.resolved[r] == []
    ensures forall f: nat, g: nat, i: nat, j: nat :: IsAt(s, r, f, i) && IsAt(s, r, g, j) ==> f == g && i == j
    ensures forall f: nat, i: nat :: IsAt(s, r, f, i) ==> IsResolvedAt(s, r, f, i)
  {
    RequestAt(s, r);
    WaitingOrSent(s, r);
    hide PartitionHolds, AskedHolds, ResolvedHolds, BatchHolds, Start;
    forall f: nat, g: nat, i: nat, j: nat | IsAt(s, r, f, i) && IsAt(s, r, g, j)
      ensures f == g && i == j
    {
      RequestsOf(s, f);
      RequestsOf(s, g);
      PlaceUnique(s.flights, f, g, i, j);
    }
    forall f: nat, i: nat | IsAt(s, r, f, i)
      ensures IsResolvedAt(s, r, f, i)
    {
      PlaceResolved(s, r, f, i);
    }
  }

  lemma PlaceResolved(s: State, r: nat, f: nat, i: nat)
    requires PartitionHolds(s) && AskedHolds(s) && ResolvedHolds(s) && r < |s.asked| == |s.resolved| && IsAt(s, r, f, i)
    ensures IsResolvedAt(s, r, f, i)
  {
    hide PartitionHolds, AskedHolds, Start, Value;
    RequestsOf(s, f);
    assert BatchAt(s, f) == s.flights[f].batch;
    assert AreResolvedBy(s.resolved, s.flights[f].batch, s.flights[f].outcome);
    hide ResolvedHolds;
  }

  lemma WaitingOrSent(s: State, r: nat)
    requires Holds(s) && r < |s.asked|
    ensures s.asked[r] in s.infoBatch <==> !exists f: nat, i: nat :: IsAt(s, r, f, i)
    ensures s.asked[r] in s.infoBatch ==> s.resolved[r] == []
  {
    var n := |s.flights|;
    RequestsOf(s, n);
    assert AreResolvedBy(s.resolved, s.infoBatch, None);
    hide PartitionHolds, ResolvedHolds, AskedHolds;
    if s.asked[r] in s.infoBatch {
      var j :| 0 <= j < |s.infoBatch| && s.infoBatch[j] == s.asked[r];
      RequestAt(s, r);
      forall f: nat, i: nat ensures !IsAt(s, r, f, i) {
        if IsAt(s, r, f, i) { DifferentRequests(s, f, n, i, j); }
      }
    } else {
      NotWaitingIsSent(s, r);
    }
  }

  lemma RequestAt(s: State, r: nat)
    requires AskedHolds(s) && r < |s.asked|
    ensures s.asked[r].request == r && |s.resolved| == |s.asked|
  {
  }

  lemma LastOnesWait(s: State, r: nat)
    requires PartitionHolds(s) && Start(s.flights, |s.flights|) <= r < |s.asked|
    ensures s.asked[r] in s.infoBatch
  {
    hide Start;
    assert s.infoBatch[r - Start(s.flights, |s.flights|)] == s.asked[r];
  }

  lemma NotWaitingIsSent(s: State, r: nat)
    requires Holds(s) && r < |s.asked| && s.asked[r] !in s.infoBatch
    ensures exists f: nat, i: nat :: IsAt(s, r, f, i)
  {
    var start := Start(s.flights, |s.flights|);
    RequestsOf(s, |s.flights|);
    if start <= r {
      LastOnesWait(s, r);
      assert false;
    } else {
      var f, i := FlightAt(s.flights, |s.flights|, r);
      RequestsOf(s, f);
      assert BatchAt(s, f)[i].request == r;
      assert IsAt(s, r, f, i);
    }
  }

  /** Different places of the batches sent off are different numbers. */
  lemma PlaceUnique(flights: seq<Flight>, f: nat, g: nat, i: nat, j: nat)
    requires f < |flights| && g < |flights| && i < |flights[f].batch| && j < |flights[g].batch|
    ensures Start(flights, f) + i == Start(flights, g) + j ==> f == g && i == j
  {
    if f < g {
      StartMonotone(flights, f, g);
    } else if g < f {
      StartMonotone(flights, g, f);
    }
  }

  /** A waiting request has an armed timer that is due within the window after it was made. */
  lemma WaitsAtMostAWindow(events: seq<Event>, s: State, entry: Entry)
    requires s == Run(events) && entry in s.infoBatch
    ensures s.infoBatchTimer.Some? && s.infoBatchTimer.value in s.armed
    ensures s.armed[s.infoBatchTimer.value] <= entry.at + INFO_BATCH_WINDOW_MS
  {
    RunHolds(events);
    FirstIsEarliest(s, entry);
    hide Run, PartitionHolds, AskedHolds, ResolvedHolds;
  }

  lemma FirstIsEarliest(s: State, entry: Entry)
    requires PartitionHolds(s) && AskedHolds(s) && entry in s.infoBatch
    ensures s.infoBatch[0].at <= entry.at
  {
    RequestsOf(s, |s.flights|);
    assert BatchAt(s, |s.flights|) == s.infoBatch;
    hide PartitionHolds, Start;
    var j :| 0 <= j < |s.infoBatch| && s.infoBatch[j] == entry;
  }

  /** A name gets the last result that has it, and nothing exactly when no result has it. */
  lemma {:induction false} LastResultWins(results: seq<Info>, name: string)
    ensures Value(Response(true, results), name).None? <==> forall info :: info in results ==> info.name != name
    ensures Value(Response(true, results), name).Some? ==>
      exists k :: && 0 <= k < |results| && results[k] == Value(Response(true, results), name).value
                  && results[k].name == name
                  && forall m :: k < m < |results| ==> results[m].name != name
  {
    if results != [] {
      var init, last := results[..|results| - 1], results[|results| - 1];
      LastResultWins(init, name);
      assert results == init + [last];
      var value := Value(Response(true, init), name);
      if last.name == name {
        assert results[|init|] == last && last in results;
      } else if value.Some? {
        var k :| && 0 <= k < |init| && init[k] == value.value && init[k].name == name
                 && forall m :: k < m < |init| ==> init[m].name != name;
        assert results[k] == value.value && results[k] in results;
      }
    }
  }

  // ----- The service -----

  class AurScanService {
    var infoBatch: seq<Entry>
    var infoBatchTimer: Option<nat>
    var armed: map<nat, nat>
    var nextTimer: nat
    var flights: seq<Flight>
    var asked: seq<Entry>
    var resolved: seq<seq<Option<Info>>>
    var now: nat

    ghost function Abstract(): State
      reads this
    {
      State(infoBatch, infoBatchTimer, armed, nextTimer, flights, asked, resolved, now)
    }

    ghost predicate Valid()
      reads this
    {
      Holds(Abstract())
    }

    constructor ()
      ensures Valid() && Abstract() == INITIAL
    {
      infoBatch, infoBatchTimer, armed, nextTimer := [], None, map[], 0;
      flights, asked, resolved, now := [], [], [], 0;
    }

    method FetchInfo(packageName: string)
      requires Valid()
      modifies this
      ensures Valid() && Abstract() == Step(old(Abstract()), Fetch(packageName))
    {
      hide Holds;
      StepHolds(Abstract(), Fetch(packageName));
      var entry := Entry(packageName, |asked|, now);
      asked, resolved := asked + [entry], resolved + [[]];
      infoBatch := infoBatch + [entry];
      if |infoBatch| >= INFO_BATCH_SIZE {
        FlushInfoBatch();
      } else if infoBatchTimer == None {
        armed := armed[nextTimer := now + INFO_BATCH_WINDOW_MS];
        infoBatchTimer := Some(nextTimer);
        nextTimer := nextTimer + 1;
      }
    }

    /** The part of a flush before its call to the AUR. */
    method FlushInfoBatch()
      modifies this
      ensures Abstract() == Flush(old(Abstract()))
    {
      var batch := infoBatch;
      infoBatch := [];
      if infoBatchTimer.Some? {
        armed := armed - {infoBatchTimer.value};
        infoBatchTimer := None;
      }
      if |batch| == 0 { return; }
      flights := flights + [Flight(batch, None)];
    }

    method TimerFires(t: nat)
      requires Valid() && t in armed
      modifies this
      ensures Valid() && Abstract() == Step(old(Abstract()), Fire(t))
    {
      hide Holds;
      StepHolds(Abstract(), Fire(t));
      armed := armed - {t};
      FlushInfoBatch();
    }

    /** The part of a flush after its call: every request of the batch is resolved. */
    method CallSettles(f: nat, outcome: Outcome)
      requires Valid() && f < |flights| && flights[f].outcome == None
      modifies this
      ensures Valid() && Abstract() == Step(old(Abstract()), Settle(f, outcome))
    {
      hide Holds;
      StepHolds(Abstract(), Settle(f, outcome));
      RequestsInRange(Abstract(), f);
      var batch := flights[f].batch;
      var byName: map<string, Info> := map[];
      if outcome.Response? {
        var results := if outcome.ok then outcome.results else [];
        byName := IndexByName(results);
      }
      ghost var before := resolved;
      var i := 0;
      while i < |batch|
        modifies this`resolved
        invariant 0 <= i <= |batch|
        invariant |resolved| == |before| && resolved == ResolveAll(before, batch[..i], outcome)
      {
        var entry := batch[i];
        assert batch[..i + 1][..i] == batch[..i];
        var value := if outcome.Response? && entry.name in byName then Some(byName[entry.name]) else None;
        resolved := resolved[entry.request := resolved[entry.request] + [value]];
        i := i + 1;
      }
      assert batch[..i] == batch;
      flights := flights[f := flights[f].(outcome := Some(outcome))];
    }

    static method IndexByName(results: seq<Info>) returns (byName: map<string, Info>)
      ensures byName == ByName(results)
    {
      byName := map[];
      var i := 0;
      while i < |results|
        invariant 0 <= i <= |results|
        invariant byName == ByName(results[..i])
      {
        assert results[..i + 1][..i] == results[..i];
        byName := byName[results[i].name := results[i]];
        i := i + 1;
      }
      assert results[..i] == results;
    }
  }
}
