/**
 * Batched info requests, told from the events: which requests were made when, what makes a
 * batch be sent off, which answer a batch gets, and what an answer says about a name.
 */
module InfoRuns {
  import opened InfoBatcher
  import opened Wrappers

  // ----- What an answer says -----

  /** Place `k` has the last result for the name. */
  ghost predicate IsLastFor(results: seq<Info>, name: string, k: int) {
    0 <= k < |results| && results[k].name == name && forall m :: k < m < |results| ==> results[m].name != name
  }

  /** A request gets the last result with its name from a good response, and nothing from anything else. */
  lemma ValueIff(outcome: Outcome, name: string, info: Info)
    ensures Value(outcome, name) == Some(info) <==>
      && outcome.Response? && outcome.ok
      && exists k :: IsLastFor(outcome.results, name, k) && outcome.results[k] == info
  {
    if outcome.Response? && outcome.ok {
      var results := outcome.results;
      LastResultWins(results, name);
      hide Value, ByName;
      if Value(outcome, name).Some? {
        var k :| 0 <= k < |results| && results[k] == Value(outcome, name).value && results[k].name == name
                 && forall m :: k < m < |results| ==> results[m].name != name;
        assert IsLastFor(results, name, k);
      } else {
        assert forall k :: 0 <= k < |results| ==> results[k] in results;
      }
    }
  }

  // ----- The requests -----

  function FetchCount(events: seq<Event>): nat {
    if events == [] then 0
    else FetchCount(events[..|events| - 1]) + if events[|events| - 1].Fetch? then 1 else 0
  }

  /** The time that has passed. */
  function Clock(events: seq<Event>): nat {
    if events == [] then 0
    else
      var last := events[|events| - 1];
      Clock(events[..|events| - 1]) + if last.Wait? then last.ms else 0
  }

  lemma StepAsks(s: State, e: Event)
    ensures Step(s, e).asked == s.asked + if e.Fetch? then [Entry(e.name, |s.asked|, s.now)] else []
    ensures Step(s, e).now == s.now + if e.Wait? then e.ms else 0
  {
  }

  lemma {:induction false} AskedSoFar(events: seq<Event>)
    ensures |Run(events).asked| == FetchCount(events) && Run(events).now == Clock(events)
  {
    if events != [] {
      AskedSoFar(events[..|events| - 1]);
      StepAsks(Run(events[..|events| - 1]), events[|events| - 1]);
    }
  }

  /** A request is numbered and timed when it is made, and that never changes. */
  lemma {:induction false} RequestOfEvent(events: seq<Event>, k: nat)
    requires k < |events| && events[k].Fetch?
    ensures |Run(events).asked| == FetchCount(events) > FetchCount(events[..k])
    ensures Run(events).asked[FetchCount(events[..k])] ==
      Entry(events[k].name, FetchCount(events[..k]), Clock(events[..k]))
  {
    var init, last := events[..|events| - 1], events[|events| - 1];
    AskedSoFar(events);
    AskedSoFar(init);
    StepAsks(Run(init), last);
    hide Step;
    if k < |init| {
      assert init[..k] == events[..k];
      RequestOfEvent(init, k);
    }
  }

  // ----- The batches sent off -----

  /** Event `k` sends off the `f`-th batch: its timer fires, or the fiftieth request fills it. */
  ghost predicate IsSending(events: seq<Event>, k: nat, f: nat, batch: seq<Entry>)
    requires k < |events|
  {
    var s := Run(events[..k]);
    && |s.flights| == f
    && match events[k]
       case Fire(t) => t in s.armed && batch == s.infoBatch
       case Fetch(name) => |s.infoBatch| == 49 && batch == s.infoBatch + [Entry(name, |s.asked|, s.now)]
       case _ => false
  }

  /** What an event sends off at a state. */
  function Sent(s: State, e: Event): seq<seq<Entry>> {
    match e
    case Fire(t) => if t in s.armed then [s.infoBatch] else []
    case Fetch(name) =>
      if |s.infoBatch| == 49 then [s.infoBatch + [Entry(name, |s.asked|, s.now)]] else []
    case _ => []
  }

  lemma StepSends(s: State, e: Event)
    requires Holds(s)
    ensures var flights := Step(s, e).flights;
      && |flights| == |s.flights| + |Sent(s, e)|
      && (forall f :: 0 <= f < |s.flights| ==> flights[f].batch == s.flights[f].batch)
      && (forall f :: 0 <= f < |Sent(s, e)| ==> flights[|s.flights| + f] == Flight(Sent(s, e)[f], None))
  {
    hide PartitionHolds, AskedHolds, ResolvedHolds, ResolveAll;
  }

  lemma {:induction false} SendingSends(events: seq<Event>, k: nat, f: nat, batch: seq<Entry>)
    requires k < |events| && IsSending(events, k, f, batch)
    ensures f < |Run(events).flights| && Run(events).flights[f].batch == batch
  {
    var init, last := events[..|events| - 1], events[|events| - 1];
    RunHolds(init);
    StepSends(Run(init), last);
    hide Holds, Step;
    if k < |init| {
      assert init[..k] == events[..k];
      SendingSends(init, k, f, batch);
    }
  }

  lemma {:induction false} SentByEvent(events: seq<Event>, f: nat) returns (k: nat)
    requires f < |Run(events).flights|
    ensures k < |events| && IsSending(events, k, f, Run(events).flights[f].batch)
  {
    var init, last := events[..|events| - 1], events[|events| - 1];
    RunHolds(init);
    StepSends(Run(init), last);
    hide Holds, Step;
    if f < |Run(init).flights| {
      k := SentByEvent(init, f);
      assert init[..k] == events[..k];
    } else {
      k := |init|;
    }
  }

  /**
   * A batch is sent off exactly when its timer fires or the fiftieth request joins it, and it
   * is what was open then.
   */
  lemma SentIff(events: seq<Event>, f: nat, batch: seq<Entry>)
    ensures (f < |Run(events).flights| && Run(events).flights[f].batch == batch) <==>
      exists k: nat :: k < |events| && IsSending(events, k, f, batch)
  {
    hide *;
    if f < |Run(events).flights| {
      var k := SentByEvent(events, f);
    }
    if k: nat :| k < |events| && IsSending(events, k, f, batch) {
      SendingSends(events, k, f, batch);
    }
  }

  // ----- The answers -----

  /** Event `k` is an answer to the `f`-th batch once it is sent off. */
  ghost predicate Answers(events: seq<Event>, k: nat, f: nat)
    requires k < |events|
  {
    events[k].Settle? && events[k].flight == f < |Run(events[..k]).flights|
  }

  ghost predicate IsAnswer(events: seq<Event>, k: nat, f: nat, outcome: Outcome) {
    && k < |events| && Answers(events, k, f) && events[k].outcome == outcome
    && forall j: nat :: j < k ==> !Answers(events, j, f)
  }

  lemma StepAnswers(s: State, e: Event, f: nat)
    requires Holds(s) && f < |Step(s, e).flights|
    ensures Step(s, e).flights[f].outcome ==
      if f >= |s.flights| then None
      else if e.Settle? && e.flight == f && s.flights[f].outcome.None? then Some(e.outcome)
      else s.flights[f].outcome
  {
    hide PartitionHolds, AskedHolds, ResolvedHolds, ResolveAll;
  }

  lemma RunLast(events: seq<Event>)
    requires events != []
    ensures Run(events) == Step(Run(events[..|events| - 1]), events[|events| - 1])
  {
  }

  lemma FlightsStay(s: State, e: Event)
    requires Holds(s)
    ensures |s.flights| <= |Step(s, e).flights|
  {
    StepSends(s, e);
    hide *;
  }

  lemma {:induction false} FirstAnswerSets(events: seq<Event>, k: nat, f: nat, outcome: Outcome)
    requires IsAnswer(events, k, f, outcome)
    ensures f < |Run(events).flights| && Run(events).flights[f].outcome == Some(outcome)
  {
    hide Run, Step, Holds;
    var init, last := events[..|events| - 1], events[|events| - 1];
    RunLast(events);
    RunHolds(init);
    FlightsStay(Run(init), last);
    if k < |init| {
      EarlierAnswer(events, k, f, outcome);
      FirstAnswerSets(init, k, f, outcome);
    } else {
      Unanswered(events, f);
    }
    StepAnswers(Run(init), last, f);
  }

  lemma EarlierAnswer(events: seq<Event>, k: nat, f: nat, outcome: Outcome)
    requires events != [] && k < |events| - 1
    ensures IsAnswer(events, k, f, outcome) <==> IsAnswer(events[..|events| - 1], k, f, outcome)
  {
    hide Run;
    var init := events[..|events| - 1];
    assert forall j: nat :: j < |init| ==> init[..j] == events[..j] && init[j] == events[j];
    assert forall j: nat :: j < |init| ==> (Answers(events, j, f) <==> Answers(init, j, f));
  }

  /** Without an answer among all events but the last one the batch has none. */
  lemma {:induction false} Unanswered(events: seq<Event>, f: nat)
    requires events != [] && forall j: nat :: j < |events| - 1 ==> !Answers(events, j, f)
    requires f < |Run(events[..|events| - 1]).flights|
    ensures Run(events[..|events| - 1]).flights[f].outcome == None
  {
    var init := events[..|events| - 1];
    hide Step;
    if init != [] {
      var before, last := init[..|init| - 1], init[|init| - 1];
      assert init[..|init| - 1] == events[..|init| - 1];
      assert !Answers(events, |init| - 1, f);
      assert forall j: nat :: j < |before| ==> init[..j] == events[..j] && !Answers(events, j, f);
      assert forall j: nat :: j < |before| ==> !Answers(init, j, f);
      if f < |Run(before).flights| { Unanswered(init, f); }
      RunHolds(before);
      StepAnswers(Run(before), last, f);
    }
  }

  lemma {:induction false} AnswerOf(events: seq<Event>, f: nat, outcome: Outcome) returns (k: nat)
    requires f < |Run(events).flights| && Run(events).flights[f].outcome == Some(outcome)
    ensures IsAnswer(events, k, f, outcome)
  {
    var init, last := events[..|events| - 1], events[|events| - 1];
    RunHolds(init);
    StepAnswers(Run(init), last, f);
    if f < |Run(init).flights| && Run(init).flights[f].outcome.Some? {
      k := AnswerOf(init, f, outcome);
      EarlierAnswer(events, k, f, outcome);
    } else {
      k := |init|;
      NoneBefore(events, f);
    }
    hide Holds, Step;
  }

  lemma NoneBefore(events: seq<Event>, f: nat)
    requires events != [] && f < |Run(events[..|events| - 1]).flights|
    requires Run(events[..|events| - 1]).flights[f].outcome == None
    ensures forall j: nat :: j < |events| - 1 ==> !Answers(events, j, f)
  {
    var init := events[..|events| - 1];
    if j: nat :| j < |events| - 1 && Answers(events, j, f) {
      var k := FirstOf(events, j, f);
      EarlierAnswer(events, k, f, events[k].outcome);
      FirstAnswerSets(init, k, f, events[k].outcome);
    }
  }

  lemma {:induction false} FirstOf(events: seq<Event>, j: nat, f: nat) returns (k: nat)
    requires j < |events| && Answers(events, j, f)
    ensures k <= j && Answers(events, k, f) && IsAnswer(events, k, f, events[k].outcome)
    decreases j
  {
    hide Answers;
    if i: nat :| i < j && Answers(events, i, f) {
      k := FirstOf(events, i, f);
    } else {
      k := j;
    }
  }

  /** A batch has the first answer that came for it after it was sent off, for good. */
  lemma AnsweredIff(events: seq<Event>, f: nat, outcome: Outcome)
    ensures (f < |Run(events).flights| && Run(events).flights[f].outcome == Some(outcome)) <==>
      exists k: nat :: IsAnswer(events, k, f, outcome)
  {
    hide *;
    if f < |Run(events).flights| && Run(events).flights[f].outcome == Some(outcome) {
      var k := AnswerOf(events, f, outcome);
    }
    if k: nat :| IsAnswer(events, k, f, outcome) {
      FirstAnswerSets(events, k, f, outcome);
    }
  }

  lemma RunMore(events: seq<Event>, e: Event)
    ensures Run(events + [e]) == Step(Run(events), e)
  {
    assert (events + [e])[..|events|] == events;
  }

  /** A waiting request is resolved once its timer has fired and its batch has any answer at all. */
  lemma WaitingIsAnswered(events: seq<Event>, s: State, outcome: Outcome, entry: Entry)
    requires s == Run(events) && entry in s.infoBatch
    ensures s.infoBatchTimer.Some?
    ensures var fire, settle := Fire(s.infoBatchTimer.value), Settle(|s.flights|, outcome);
      var after := Run(events + [fire] + [settle]);
      entry.request < |after.resolved| && after.resolved[entry.request] == [Value(outcome, entry.name)]
  {
    hide Run, Step, Holds;
    WaitsAtMostAWindow(events, s, entry);
    var fire, settle := Fire(s.infoBatchTimer.value), Settle(|s.flights|, outcome);
    RunHolds(events);
    RunMore(events, fire);
    StepSends(s, fire);
    assert Sent(s, fire)[0] == s.infoBatch;
    assert Step(s, fire).flights[|s.flights| + 0] == Flight(s.infoBatch, None);
    RunHolds(events + [fire]);
    var fired := Run(events + [fire]);
    RunMore(events + [fire], settle);
    StepAnswers(s, fire, |s.flights|);
    StepSends(fired, settle);
    StepAnswers(fired, settle, |s.flights|);
    RunHolds(events + [fire] + [settle]);
    BatchIsResolved(Run(events + [fire] + [settle]), |s.flights|, entry);
  }

  lemma BatchIsResolved(s: State, f: nat, entry: Entry)
    requires Holds(s) && f < |s.flights| && s.flights[f].outcome.Some? && entry in s.flights[f].batch
    ensures entry.request < |s.resolved|
    ensures s.resolved[entry.request] == [Value(s.flights[f].outcome.value, entry.name)]
  {
    assert AreResolvedBy(s.resolved, s.flights[f].batch, s.flights[f].outcome);
    var i :| 0 <= i < |s.flights[f].batch| && s.flights[f].batch[i] == entry;
    hide PartitionHolds, AskedHolds, ResolvedHolds, Value;
  }
}
