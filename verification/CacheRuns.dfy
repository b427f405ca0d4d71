/**
 * What the cache stores and serves, read off the events of a run alone.
 */
module CacheRuns {
  import opened Wrappers
  import opened ResponseCache

  lemma NextStep(events: seq<Event>, n: nat)
    requires n < |events|
    ensures Run(events[..n + 1]) == Step(Run(events[..n]), events[n])
  {
    assert events[..n + 1][..n] == events[..n];
  }

  lemma {:induction false} StepsAreEvents(events: seq<Event>)
    ensures Run(events).steps == |events|
  {
    if events != [] { StepsAreEvents(events[..|events| - 1]); }
  }

  // ----- Requests -----

  /** Event `k` is the lookup that sends request `r`. */
  ghost predicate IsSentBy(events: seq<Event>, k: nat, r: nat, url: string) {
    && k < |events| && events[k].Lookup? && events[k].url == url
    && r == |Run(events[..k]).requests| < |Run(events[..k + 1]).requests|
  }

  predicate Answers(e: Event, r: nat) {
    (e.Arrival? || e.Failure?) && e.request == r
  }

  function NextPhase(phase: Phase, e: Event, r: nat): Phase {
    match phase
    case Sent => if Answers(e, r) then Answered else Sent
    case Answered => if e == CleanUp(r) then Cleaned else Answered
    case Cleaned => Cleaned
  }

  /** The phase that the events from `k` on, before event `n`, leave request `r` in. */
  function PhaseAfter(events: seq<Event>, r: nat, k: nat, n: nat): Phase
    requires k <= n <= |events|
    decreases n
  {
    if n == k then Sent else NextPhase(PhaseAfter(events, r, k, n - 1), events[n - 1], r)
  }

  lemma RequestsStep(s: State, e: Event)
    ensures |s.requests| <= |Step(s, e).requests| <= |s.requests| + 1
    ensures |Step(s, e).requests| > |s.requests| ==>
      e.Lookup? && Step(s, e).requests[|s.requests|] == Request(e.url, Sent)
    ensures forall r: nat :: r < |s.requests| ==>
      Step(s, e).requests[r] == Request(s.requests[r].url, NextPhase(s.requests[r].phase, e, r))
  {
    hide IndexOf, Set, Delete, Evict;
    if e.Lookup? {
      ReuseFrame(s, e.url, e.now);
      hide Reuse;
    }
  }

  /** Each request was sent by a lookup of its URL, and the events since decide its phase. */
  lemma {:induction false} RequestIs(events: seq<Event>, n: nat, r: nat) returns (k: nat)
    requires n <= |events| && r < |Run(events[..n]).requests|
    ensures k < n && IsSentBy(events, k, r, Run(events[..n]).requests[r].url)
    ensures Run(events[..n]).requests[r].phase == PhaseAfter(events, r, k + 1, n)
    decreases n
  {
    hide Step, Run;
    NothingAtFirst(events, n);
    NextStep(events, n - 1);
    RequestsStep(Run(events[..n - 1]), events[n - 1]);
    if r < |Run(events[..n - 1]).requests| {
      k := RequestIs(events, n - 1, r);
    } else {
      k := n - 1;
    }
  }

  // ----- Stored responses -----

  /** The lifetime of a response in milliseconds: five minutes after a success, one after a failure. */
  function Lifetime(ok: bool): int {
    if ok then 300000 else 60000
  }

  /** Event `k` is the arrival of the response, which lives from then on; nothing was cleared before event `n`. */
  ghost predicate IsArrivalOf(events: seq<Event>, k: nat, n: nat, url: string, x: CachedResponse) {
    && k < n <= |events| && events[k] == Arrival(x.request, x.body, x.ok, x.storedAt)
    && x.expiresAt == x.storedAt + Lifetime(x.ok) && |x.body| <= 2 * 1024 * 1024
    && x.request < |Run(events[..k]).requests| && Run(events[..k]).requests[x.request].url == url
    && forall j :: k < j < n ==> !events[j].Clear?
  }

  /** The entry was last used by the event its recency says: its arrival, or the last lookup of its URL. */
  predicate IsLastUse(events: seq<Event>, k: nat, n: nat, slot: Slot) {
    && k <= slot.usedAt < n <= |events|
    && (slot.usedAt == k || (events[slot.usedAt].Lookup? && events[slot.usedAt].url == slot.url))
    && forall j :: slot.usedAt < j < n && events[j].Lookup? ==> events[j].url != slot.url
  }

  ghost predicate IsStoredBy(events: seq<Event>, k: nat, n: nat, slot: Slot) {
    IsArrivalOf(events, k, n, slot.url, slot.response) && IsLastUse(events, k, n, slot)
  }

  /** What a step leaves in the cache: what was there, the entry used or the response that arrived. */
  ghost predicate IsKept(s: State, e: Event, slot: Slot) {
    slot in s.entries && !(e.Lookup? && e.url == slot.url)
  }

  ghost predicate IsUsed(s: State, e: Event, slot: Slot) {
    && e.Lookup? && e.url == slot.url && slot.usedAt == s.steps
    && exists earlier :: earlier in s.entries && earlier.url == slot.url && earlier.response == slot.response
  }

  ghost predicate IsNew(s: State, e: Event, slot: Slot) {
    && e.Arrival? && e.request < |s.requests| && s.requests[e.request].url == slot.url && |e.body| <= 2 * 1024 * 1024
    && slot.usedAt == s.steps
    && slot.response == CachedResponse(e.body, e.ok, e.now, e.now + Lifetime(e.ok), e.request)
  }

  lemma AfterLookup(s: State, url: string, now: int, slot: Slot)
    requires Holds(s) && slot in Step(s, Lookup(url, now)).entries
    ensures IsKept(s, Lookup(url, now), slot) || IsUsed(s, Lookup(url, now), slot)
  {
    DeleteOrdered(s.entries, url, s.steps);
    var i := IndexOf(s.entries, url);
    IndexOfPresent(s.entries, url);
    if i < |s.entries| {
      assert s.entries[i] in s.entries;
      if now < s.entries[i].response.expiresAt { HitShape(s, url, now, i); }
    }
    hide IndexOf, Set, IsRecencyOrder;
  }

  lemma AfterArrival(s: State, r: nat, body: string, ok: bool, now: int, slot: Slot)
    requires Holds(s) && slot in Step(s, Arrival(r, body, ok, now)).entries
    ensures IsKept(s, Arrival(r, body, ok, now), slot) || IsNew(s, Arrival(r, body, ok, now), slot)
  {
    hide Set, IsRecencyOrder;
    if r < |s.requests| && s.requests[r].phase == Sent {
      NobodyElseAwaits(s, r);
      var stored := Slot(s.requests[r].url, ResponseOf(r, body, ok, now), s.steps);
      AppendOrdered(s.entries, stored, s.steps);
      EvictOrdered(s.entries + [stored], s.steps + 1);
      hide Evict;
    }
  }

  lemma EntriesAfter(s: State, e: Event, slot: Slot)
    requires Holds(s) && slot in Step(s, e).entries
    ensures !e.Clear? && (IsKept(s, e, slot) || IsUsed(s, e, slot) || IsNew(s, e, slot))
  {
    hide Holds, IsUsed, IsNew;
    match e {
      case Lookup(url, now) => AfterLookup(s, url, now, slot);
      case Arrival(r, body, ok, now) => AfterArrival(s, r, body, ok, now, slot);
      case _ =>
    }
  }

  lemma NothingAtFirst(events: seq<Event>, n: nat)
    requires n <= |events|
    ensures n == 0 ==> Run(events[..n]) == INITIAL
  {
  }

  lemma StoredLater(events: seq<Event>, k: nat, n: nat, slot: Slot)
    requires IsStoredBy(events, k, n, slot) && n < |events| && !events[n].Clear?
    requires !(events[n].Lookup? && events[n].url == slot.url)
    ensures IsStoredBy(events, k, n + 1, slot)
  {
    hide Run;
  }

  lemma StoredUsed(events: seq<Event>, k: nat, n: nat, earlier: Slot, slot: Slot)
    requires IsStoredBy(events, k, n, earlier) && n < |events|
    requires events[n].Lookup? && events[n].url == slot.url && slot.usedAt == n
    requires earlier.url == slot.url && earlier.response == slot.response
    ensures IsStoredBy(events, k, n + 1, slot)
  {
    hide Run;
  }

  /** Each stored response arrived for its URL, with its body, outcome and time, and was not cleared since. */
  lemma {:induction false} StoredIsArrival(events: seq<Event>, n: nat, slot: Slot) returns (k: nat)
    requires n <= |events| && slot in Run(events[..n]).entries
    ensures IsStoredBy(events, k, n, slot)
    decreases n
  {
    hide Step, Run, Holds, IsStoredBy;
    NothingAtFirst(events, n);
    var s, e := Run(events[..n - 1]), events[n - 1];
    NextStep(events, n - 1);
    RunHolds(events[..n - 1]);
    StepsAreEvents(events[..n - 1]);
    EntriesAfter(s, e, slot);
    if IsKept(s, e, slot) {
      k := StoredIsArrival(events, n - 1, slot);
      StoredLater(events, k, n - 1, slot);
    } else if IsUsed(s, e, slot) {
      var earlier :| earlier in s.entries && earlier.url == slot.url && earlier.response == slot.response;
      k := StoredIsArrival(events, n - 1, earlier);
      StoredUsed(events, k, n - 1, earlier, slot);
    } else {
      k := n - 1;
      StoredNow(events, k, slot);
    }
  }

  lemma StoredNow(events: seq<Event>, k: nat, slot: Slot)
    requires k < |events| && IsNew(Run(events[..k]), events[k], slot) && slot.usedAt == k
    ensures IsStoredBy(events, k, k + 1, slot)
  {
    hide Run;
  }

  // ----- Served responses -----

  /** Event `j` is the lookup served, within the life of a response that arrived before and was not cleared. */
  ghost predicate IsServedBy(events: seq<Event>, k: nat, j: nat, x: Served) {
    && j < |events| && events[j] == Lookup(x.url, x.at) && IsArrivalOf(events, k, j, x.url, x.response)
    && x.at < x.response.storedAt + Lifetime(x.response.ok)
  }

  lemma ServedAfter(s: State, e: Event, x: Served)
    requires x in Step(s, e).served && x !in s.served
    ensures e == Lookup(x.url, x.at) && x.at < x.response.expiresAt
    ensures exists slot :: slot in s.entries && slot.url == x.url && slot.response == x.response
  {
    var i := IndexOf(s.entries, x.url);
    assert i < |s.entries| ==> s.entries[i] in s.entries;
  }

  /** Whatever was served is the response that arrived for its URL, served within its life. */
  lemma {:induction false} ServedIsArrival(events: seq<Event>, n: nat, x: Served) returns (k: nat, j: nat)
    requires n <= |events| && x in Run(events[..n]).served
    ensures j < n && IsServedBy(events, k, j, x)
    decreases n
  {
    hide Step, Run;
    NothingAtFirst(events, n);
    var s, e := Run(events[..n - 1]), events[n - 1];
    NextStep(events, n - 1);
    if x in s.served {
      k, j := ServedIsArrival(events, n - 1, x);
    } else {
      ServedAfter(s, e, x);
      var slot :| slot in s.entries && slot.url == x.url && slot.response == x.response;
      k := StoredIsArrival(events, n - 1, slot);
      j := n - 1;
    }
  }

  // ----- What leaves the entries alone -----

  lemma EntriesKept(events: seq<Event>, n: nat)
    requires n < |events|
    ensures var s, s' := Run(events[..n]), Run(events[..n + 1]);
      && (events[n].Clear? ==> s'.entries == [])
      && (events[n].Failure? || events[n].CleanUp? ==> s'.entries == s.entries)
      && (events[n].Arrival? && (events[n].request >= |s.requests| || s.requests[events[n].request].phase != Sent) ==>
           s'.entries == s.entries)
  {
    NextStep(events, n);
  }
}
