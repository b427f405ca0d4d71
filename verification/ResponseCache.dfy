/**
 * The bounded cache for AUR responses: least-recently-used eviction, a lifetime per
 * response, and one request per URL at a time.
 *
 * Lookups, arrivals, clean-ups and clears may come in any order the event loop allows;
 * a run is any sequence of them.
 */
module ResponseCache {
  import opened Wrappers

  const CACHE_TTL_MS := 5 * 60 * 1000
  const FAILURE_TTL_MS := 60 * 1000
  const MAX_ENTRIES := 500
  const MAX_CACHED_BODY_BYTES := 2 * 1024 * 1024

  // ----- An insertion-ordered map -----

  /** A response with the time it was stored at and the number of the request it answered. */
  datatype CachedResponse = CachedResponse(body: string, ok: bool, storedAt: int, expiresAt: int, request: nat)

  /** `usedAt` observes the step of the last use; the cache itself only has the order. */
  datatype Slot = Slot(url: string, response: CachedResponse, usedAt: nat)

  /** The keys of the map in insertion order, with their values. */
  type Entries = seq<Slot>

  predicate Has(entries: Entries, url: string) {
    exists slot :: slot in entries && slot.url == url
  }

  function IndexOf(entries: Entries, url: string): (i: nat)
    ensures i <= |entries|
    ensures i < |entries| ==> entries[i].url == url
    ensures forall k :: 0 <= k < i ==> entries[k].url != url
  {
    if entries == [] || entries[0].url == url then 0 else 1 + IndexOf(entries[1..], url)
  }

  function Delete(entries: Entries, url: string): Entries {
    var i := IndexOf(entries, url);
    if i < |entries| then entries[..i] + entries[i + 1..] else entries
  }

  /** Setting a present key keeps its place; a new key goes last. */
  function Set(entries: Entries, slot: Slot): Entries {
    var i := IndexOf(entries, slot.url);
    if i < |entries| then entries[i := slot] else entries + [slot]
  }

  function Evict(entries: Entries): Entries {
    if |entries| > MAX_ENTRIES then entries[|entries| - MAX_ENTRIES..] else entries
  }

  // ----- Steps -----

  datatype Phase = Sent | Answered | Cleaned

  datatype Request = Request(url: string, phase: Phase)

  datatype Served = Served(url: string, response: CachedResponse, at: int)

  datatype State = State(
    entries: Entries,
    inFlight: map<string, nat>,
    requests: seq<Request>,
    // Observations: the number of steps so far, and what lookups took from the cache.
    steps: nat,
    served: seq<Served>)

  datatype Event =
    | Lookup(url: string, now: int)
    | Arrival(request: nat, body: string, ok: bool, now: int)
    | Failure(request: nat)
    | CleanUp(request: nat)
    | Clear

  const INITIAL := State([], map[], [], 0, [])

  function Fresh(s: State, url: string, now: int): Option<CachedResponse> {
    var i := IndexOf(s.entries, url);
    if i < |s.entries| && now < s.entries[i].response.expiresAt then Some(s.entries[i].response) else None
  }

  /** A fresh entry moves to the end; a stale one goes. */
  function Reuse(s: State, url: string, now: int): State {
    var i := IndexOf(s.entries, url);
    if i == |s.entries| then s
    else if now >= s.entries[i].response.expiresAt then s.(entries := Delete(s.entries, url))
    else
      s.(entries := Set(Delete(s.entries, url), s.entries[i].(usedAt := s.steps)),
         served := s.served + [Served(url, s.entries[i].response, now)])
  }

  function Look(s: State, url: string, now: int): State {
    var s' := Reuse(s, url, now);
    if Fresh(s, url, now).Some? || url in s.inFlight then s'
    else s'.(inFlight := s.inFlight[url := |s.requests|], requests := s.requests + [Request(url, Sent)])
  }

  function ResponseOf(r: nat, body: string, ok: bool, now: int): CachedResponse {
    CachedResponse(body, ok, now, now + (if ok then CACHE_TTL_MS else FAILURE_TTL_MS), r)
  }

  function CacheResponse(s: State, r: nat, body: string, ok: bool, now: int): State
    requires r < |s.requests|
  {
    var slot := Slot(s.requests[r].url, ResponseOf(r, body, ok, now), s.steps);
    s.(entries := if |body| <= MAX_CACHED_BODY_BYTES then Evict(Set(s.entries, slot)) else s.entries,
       requests := s.requests[r := s.requests[r].(phase := Answered)])
  }

  function Effect(s: State, e: Event): State {
    match e
    case Lookup(url, now) => Look(s, url, now)
    case Arrival(r, body, ok, now) =>
      if r < |s.requests| && s.requests[r].phase == Sent then CacheResponse(s, r, body, ok, now) else s
    case Failure(r) =>
      if r < |s.requests| && s.requests[r].phase == Sent
      then s.(requests := s.requests[r := s.requests[r].(phase := Answered)]) else s
    case CleanUp(r) =>
      if r < |s.requests| && s.requests[r].phase == Answered
      then s.(inFlight := s.inFlight - {s.requests[r].url},
              requests := s.requests[r := s.requests[r].(phase := Cleaned)]) else s
    case Clear => s.(entries := [])
  }

  function Step(s: State, e: Event): State {
    Effect(s, e).(steps := s.steps + 1)
  }

  function Run(events: seq<Event>): State {
    if events == [] then INITIAL else Step(Run(events[..|events| - 1]), events[|events| - 1])
  }

  // ----- What every run promises -----

  /** Each key once, in the order of last use. */
  ghost predicate IsRecencyOrder(entries: Entries, steps: nat) {
    && (forall i, j :: 0 <= i < j < |entries| ==> entries[i].url != entries[j].url)
    && (forall i, j :: 0 <= i < j < |entries| ==> entries[i].usedAt < entries[j].usedAt)
    && (forall i :: 0 <= i < |entries| ==> entries[i].usedAt < steps)
  }

  /** A response answers a request for its URL and lives for the time its outcome allows. */
  ghost predicate IsGenuine(requests: seq<Request>, url: string, response: CachedResponse) {
    && response.request < |requests| && requests[response.request].url == url
    && response.expiresAt == response.storedAt + if response.ok then CACHE_TTL_MS else FAILURE_TTL_MS
  }

  ghost predicate EntriesHold(s: State) {
    && |s.entries| <= MAX_ENTRIES && IsRecencyOrder(s.entries, s.steps)
    && forall slot :: slot in s.entries ==> IsGenuine(s.requests, slot.url, slot.response)
  }

  ghost predicate IsOut(requests: seq<Request>, url: string, r: nat) {
    r < |requests| && requests[r].url == url && requests[r].phase != Cleaned
  }

  /** The requests not cleaned up are exactly those in flight, so there is one per URL at most. */
  ghost predicate FlightsHold(s: State) {
    && (forall url :: url in s.inFlight ==> IsOut(s.requests, url, s.inFlight[url]))
    && (forall r :: 0 <= r < |s.requests| && s.requests[r].phase != Cleaned ==>
         s.requests[r].url in s.inFlight && s.inFlight[s.requests[r].url] == r)
  }

  /** While a request is out, its URL is not cached: its answer never overwrites an entry. */
  ghost predicate AwaitedAbsent(s: State) {
    forall r :: 0 <= r < |s.requests| && s.requests[r].phase == Sent ==> !Has(s.entries, s.requests[r].url)
  }

  ghost predicate ServedInTime(s: State) {
    forall x :: x in s.served ==>
      && IsGenuine(s.requests, x.url, x.response)
      && x.at - x.response.storedAt < if x.response.ok then CACHE_TTL_MS else FAILURE_TTL_MS
  }

  ghost predicate Holds(s: State) {
    EntriesHold(s) && FlightsHold(s) && AwaitedAbsent(s) && ServedInTime(s)
  }

  // ----- Facts about the ordered map -----

  lemma IndexOfPresent(entries: Entries, url: string)
    ensures IndexOf(entries, url) < |entries| <==> Has(entries, url)
  {
    if Has(entries, url) {
      var slot :| slot in entries && slot.url == url;
      var k :| 0 <= k < |entries| && entries[k] == slot;
    }
  }

  lemma DeleteOrdered(entries: Entries, url: string, steps: nat)
    requires IsRecencyOrder(entries, steps)
    ensures IsRecencyOrder(Delete(entries, url), steps) && !Has(Delete(entries, url), url)
    ensures forall slot :: slot in Delete(entries, url) ==> slot in entries
    ensures IndexOf(entries, url) < |entries| ==> |Delete(entries, url)| < |entries|
  {
    var i := IndexOf(entries, url);
    var rest := Delete(entries, url);
    hide IndexOf;
    if i < |entries| {
      assert forall k :: 0 <= k < |rest| ==> rest[k] == entries[if k < i then k else k + 1];
      hide Delete;
    }
  }

  lemma AppendOrdered(entries: Entries, slot: Slot, steps: nat)
    requires IsRecencyOrder(entries, steps) && !Has(entries, slot.url) && slot.usedAt == steps
    ensures Set(entries, slot) == entries + [slot]
    ensures IsRecencyOrder(entries + [slot], steps + 1)
  {
    IndexOfPresent(entries, slot.url);
    forall i | 0 <= i < |entries|
      ensures entries[i].url != slot.url
    {
      assert entries[i] in entries;
    }
  }

  lemma EvictOrdered(entries: Entries, steps: nat)
    requires IsRecencyOrder(entries, steps)
    ensures IsRecencyOrder(Evict(entries), steps) && |Evict(entries)| <= MAX_ENTRIES
    ensures |entries| <= MAX_ENTRIES ==> Evict(entries) == entries
    ensures forall x :: x in Evict(entries) ==> x in entries
  {
    if |entries| > MAX_ENTRIES {
      hide IsRecencyOrder;
      RestOrdered(entries, |entries| - MAX_ENTRIES, steps);
    }
  }

  lemma RestOrdered(entries: Entries, from: nat, steps: nat)
    requires IsRecencyOrder(entries, steps) && from <= |entries|
    ensures IsRecencyOrder(entries[from..], steps)
    ensures forall x :: x in entries[from..] ==> x in entries
  {
  }

  lemma OrderLater(entries: Entries, steps: nat)
    requires IsRecencyOrder(entries, steps)
    ensures IsRecencyOrder(entries, steps + 1)
  {
  }

  // ----- Each step keeps it -----

  /** The requests stay what they were, apart from their phases and from new ones. */
  ghost predicate Extends(requests: seq<Request>, requests': seq<Request>) {
    |requests| <= |requests'| && forall r :: 0 <= r < |requests| ==> requests'[r].url == requests[r].url
  }

  lemma EntriesStep(s: State, s': State)
    requires EntriesHold(s) && Extends(s.requests, s'.requests)
    requires |s'.entries| <= MAX_ENTRIES && IsRecencyOrder(s'.entries, s'.steps)
    requires forall slot :: slot in s'.entries ==>
      IsGenuine(s'.requests, slot.url, slot.response)
      || exists earlier :: earlier in s.entries && earlier.url == slot.url && earlier.response == slot.response
    ensures EntriesHold(s')
  {
    hide IsRecencyOrder;
  }

  lemma ServedStep(s: State, s': State)
    requires ServedInTime(s) && s'.served == s.served && Extends(s.requests, s'.requests)
    ensures ServedInTime(s')
  {
  }

  lemma AbsentStep(s: State, s': State)
    requires AwaitedAbsent(s)
    requires forall r :: 0 <= r < |s'.requests| && s'.requests[r].phase == Sent ==>
      (r < |s.requests| && s.requests[r] == s'.requests[r]) || !Has(s'.entries, s'.requests[r].url)
    requires forall slot :: slot in s'.entries ==> Has(s.entries, slot.url)
    ensures AwaitedAbsent(s')
  {
    forall r | 0 <= r < |s'.requests| && s'.requests[r].phase == Sent
      ensures !Has(s'.entries, s'.requests[r].url)
    {
    }
  }

  lemma StaleStep(s: State, url: string, i: nat)
    requires Holds(s) && i == IndexOf(s.entries, url) < |s.entries|
    ensures Holds(s.(entries := Delete(s.entries, url), steps := s.steps + 1))
    ensures !Has(Delete(s.entries, url), url)
  {
    var s' := s.(entries := Delete(s.entries, url), steps := s.steps + 1);
    DeleteOrdered(s.entries, url, s.steps);
    OrderLater(s'.entries, s.steps);
    EntriesStep(s, s');
    ServedStep(s, s');
    AbsentStep(s, s');
  }

  /** A fresh entry moves to the end. */
  lemma HitShape(s: State, url: string, now: int, i: nat)
    requires IsRecencyOrder(s.entries, s.steps)
    requires i == IndexOf(s.entries, url) < |s.entries| && now < s.entries[i].response.expiresAt
    ensures Reuse(s, url, now) == s.(
      entries := Delete(s.entries, url) + [s.entries[i].(usedAt := s.steps)],
      served := s.served + [Served(url, s.entries[i].response, now)])
    ensures IsRecencyOrder(Reuse(s, url, now).entries, s.steps + 1)
    ensures Delete(s.entries, url) == s.entries[..i] + s.entries[i + 1..]
  {
    DeleteOrdered(s.entries, url, s.steps);
    AppendOrdered(Delete(s.entries, url), s.entries[i].(usedAt := s.steps), s.steps);
    hide Set, IndexOf, IsRecencyOrder;
  }

  lemma HitStep(s: State, url: string, now: int, i: nat)
    requires Holds(s) && i == IndexOf(s.entries, url) < |s.entries| && now < s.entries[i].response.expiresAt
    ensures Holds(Reuse(s, url, now).(steps := s.steps + 1))
  {
    HitShape(s, url, now, i);
    hide Set, Delete, IndexOf, IsRecencyOrder, Reuse, Has, Holds;
    var rest, moved := s.entries[..i] + s.entries[i + 1..], s.entries[i].(usedAt := s.steps);
    HitHolds(s, i, rest, moved, Served(url, s.entries[i].response, now));
  }

  lemma HitHolds(s: State, i: nat, rest: Entries, moved: Slot, x: Served)
    requires Holds(s) && i < |s.entries| && rest == s.entries[..i] + s.entries[i + 1..]
    requires moved == s.entries[i].(usedAt := s.steps) && IsRecencyOrder(rest + [moved], s.steps + 1)
    requires x.url == moved.url && x.response == moved.response && x.at < x.response.expiresAt
    ensures Holds(s.(entries := rest + [moved], served := s.served + [x], steps := s.steps + 1))
  {
    var s' := s.(entries := rest + [moved], served := s.served + [x], steps := s.steps + 1);
    assert s.entries[i] in s.entries;
    hide IsRecencyOrder;
    assert forall slot :: slot in rest ==> slot in s.entries;
    EntriesStep(s, s');
    AbsentStep(s, s');
    hide Has, IsGenuine;
    assert ServedInTime(s') by { ServedOneMore(s, s', x); }
  }

  lemma ServedOneMore(s: State, s': State, x: Served)
    requires ServedInTime(s) && s'.served == s.served + [x] && s'.requests == s.requests
    requires IsGenuine(s.requests, x.url, x.response) && x.at < x.response.expiresAt
    ensures ServedInTime(s')
  {
  }

  lemma ReuseHolds(s: State, url: string, now: int)
    requires Holds(s)
    ensures Holds(Reuse(s, url, now).(steps := s.steps + 1))
    ensures Fresh(s, url, now).None? ==> !Has(Reuse(s, url, now).entries, url)
  {
    var i := IndexOf(s.entries, url);
    IndexOfPresent(s.entries, url);
    if i == |s.entries| {
      OrderLater(s.entries, s.steps);
    } else if now < s.entries[i].response.expiresAt {
      HitStep(s, url, now, i);
    } else {
      StaleStep(s, url, i);
    }
  }

  /** A request is started only for a URL that is neither cached nor asked for already. */
  lemma StartHolds(s: State, url: string)
    requires Holds(s) && !Has(s.entries, url) && url !in s.inFlight
    ensures Holds(s.(inFlight := s.inFlight[url := |s.requests|], requests := s.requests + [Request(url, Sent)]))
  {
    var s' := s.(inFlight := s.inFlight[url := |s.requests|], requests := s.requests + [Request(url, Sent)]);
    hide Has, IsRecencyOrder;
    EntriesStep(s, s');
    ServedStep(s, s');
  }

  lemma LookHolds(s: State, url: string, now: int)
    requires Holds(s)
    ensures Holds(Step(s, Lookup(url, now)))
  {
    hide Holds, Reuse, Has, Fresh, IndexOf;
    ReuseHolds(s, url, now);
    var s' := Reuse(s, url, now).(steps := s.steps + 1);
    ReuseFrame(s, url, now);
    if Fresh(s, url, now).None? && url !in s.inFlight {
      StartHolds(s', url);
    }
  }

  lemma ReuseFrame(s: State, url: string, now: int)
    ensures Reuse(s, url, now).inFlight == s.inFlight && Reuse(s, url, now).requests == s.requests
  {
  }

  /** An answered request stays in flight until it is cleaned up. */
  lemma AnswerHolds(s: State, r: nat)
    requires Holds(s) && r < |s.requests| && s.requests[r].phase == Sent
    ensures Holds(s.(requests := s.requests[r := s.requests[r].(phase := Answered)]))
  {
    var s' := s.(requests := s.requests[r := s.requests[r].(phase := Answered)]);
    hide Has, IsRecencyOrder;
    EntriesStep(s, s');
    ServedStep(s, s');
  }

  /** A genuine response for a URL nobody awaits goes last, and what exceeds the bound goes from the front. */
  lemma InsertHolds(s: State, slot: Slot)
    requires Holds(s) && !Has(s.entries, slot.url) && slot.usedAt == s.steps
    requires IsGenuine(s.requests, slot.url, slot.response)
    requires forall q :: 0 <= q < |s.requests| && s.requests[q].phase == Sent ==> s.requests[q].url != slot.url
    ensures Holds(s.(entries := Evict(Set(s.entries, slot)), steps := s.steps + 1))
  {
    AppendOrdered(s.entries, slot, s.steps);
    EvictOrdered(s.entries + [slot], s.steps + 1);
    var kept := Evict(s.entries + [slot]);
    hide Evict, Set, IsRecencyOrder, IsGenuine, Has;
    InsertEntries(s, slot, kept);
    InsertAbsent(s, slot, kept);
  }

  lemma InsertEntries(s: State, slot: Slot, kept: Entries)
    requires EntriesHold(s) && IsGenuine(s.requests, slot.url, slot.response)
    requires |kept| <= MAX_ENTRIES && IsRecencyOrder(kept, s.steps + 1)
    requires forall x :: x in kept ==> x in s.entries + [slot]
    ensures EntriesHold(s.(entries := kept, steps := s.steps + 1))
  {
    hide IsRecencyOrder, IsGenuine;
  }

  lemma InsertAbsent(s: State, slot: Slot, kept: Entries)
    requires AwaitedAbsent(s) && forall x :: x in kept ==> x in s.entries + [slot]
    requires forall q :: 0 <= q < |s.requests| && s.requests[q].phase == Sent ==> s.requests[q].url != slot.url
    ensures AwaitedAbsent(s.(entries := kept, steps := s.steps + 1))
  {
    forall q | 0 <= q < |s.requests| && s.requests[q].phase == Sent
      ensures !Has(kept, s.requests[q].url)
    {
      assert !Has(s.entries, s.requests[q].url);
    }
  }

  lemma ArrivalHolds(s: State, r: nat, body: string, ok: bool, now: int)
    requires Holds(s) && r < |s.requests| && s.requests[r].phase == Sent
    ensures Holds(Step(s, Arrival(r, body, ok, now)))
  {
    var answered := s.(requests := s.requests[r := s.requests[r].(phase := Answered)]);
    var slot := Slot(s.requests[r].url, ResponseOf(r, body, ok, now), s.steps);
    AnswerHolds(s, r);
    if |body| <= MAX_CACHED_BODY_BYTES {
      NobodyElseAwaits(s, r);
      assert !Has(s.entries, slot.url);
      hide Holds, Set, Evict, Has;
      InsertHolds(answered, slot);
    } else {
      LaterHolds(answered);
    }
  }

  lemma NobodyElseAwaits(s: State, r: nat)
    requires FlightsHold(s) && r < |s.requests| && s.requests[r].phase == Sent
    ensures forall q :: 0 <= q < |s.requests| && q != r && s.requests[q].phase == Sent ==>
      s.requests[q].url != s.requests[r].url
  {
  }

  lemma CleanUpHolds(s: State, r: nat)
    requires Holds(s) && r < |s.requests| && s.requests[r].phase == Answered
    ensures Holds(s.(inFlight := s.inFlight - {s.requests[r].url},
                     requests := s.requests[r := s.requests[r].(phase := Cleaned)]))
  {
    var s' := s.(inFlight := s.inFlight - {s.requests[r].url},
                 requests := s.requests[r := s.requests[r].(phase := Cleaned)]);
    hide Has, IsRecencyOrder;
    EntriesStep(s, s');
    ServedStep(s, s');
  }

  lemma LaterHolds(s: State)
    requires Holds(s)
    ensures Holds(s.(steps := s.steps + 1))
  {
    OrderLater(s.entries, s.steps);
  }

  lemma ClearHolds(s: State)
    requires Holds(s)
    ensures Holds(s.(entries := []))
  {
  }

  lemma StepHolds(s: State, e: Event)
    requires Holds(s)
    ensures Holds(Step(s, e))
  {
    hide Holds;
    match e {
      case Lookup(url, now) => LookHolds(s, url, now);
      case Arrival(r, body, ok, now) =>
        if r < |s.requests| && s.requests[r].phase == Sent {
          ArrivalHolds(s, r, body, ok, now);
        } else {
          LaterHolds(s);
        }
      case Failure(r) =>
        if r < |s.requests| && s.requests[r].phase == Sent { AnswerHolds(s, r); }
        LaterHolds(Effect(s, e));
      case CleanUp(r) =>
        if r < |s.requests| && s.requests[r].phase == Answered { CleanUpHolds(s, r); }
        LaterHolds(Effect(s, e));
      case Clear =>
        ClearHolds(s);
        LaterHolds(Effect(s, e));
    }
  }

  /**
   * In every run the cache has at most 500 entries in the order of last use, at most one
   * request per URL is outstanding, no arrival finds its URL cached, and nothing is served
   * past its lifetime or for another URL.
   */
  lemma {:induction false} RunHolds(events: seq<Event>)
    ensures Holds(Run(events))
    ensures |Run(events).entries| <= MAX_ENTRIES && IsRecencyOrder(Run(events).entries, Run(events).steps)
  {
    if events != [] {
      RunHolds(events[..|events| - 1]);
      StepHolds(Run(events[..|events| - 1]), events[|events| - 1]);
    }
  }

  lemma OneRequestPerUrl(events: seq<Event>, i: nat, j: nat)
    requires i < j < |Run(events).requests|
    requires Run(events).requests[i].phase != Cleaned && Run(events).requests[j].phase != Cleaned
    ensures Run(events).requests[i].url != Run(events).requests[j].url
  {
    RunHolds(events);
  }

  /**
   * A lookup serves a response that is still alive, as the most recently used one and without
   * a new request. Otherwise nothing is stored for the URL, and exactly one request for it is
   * out, which is new unless there was one before.
   */
  lemma LookupServesOrAwaits(events: seq<Event>, s: State, url: string, now: int)
    requires s == Run(events)
    ensures var s' := Step(s, Lookup(url, now));
      match Fresh(s, url, now)
      case Some(response) =>
        && (exists i :: && 0 <= i < |s.entries| && s.entries[i].url == url && s.entries[i].response == response
                        && s'.entries == s.entries[..i] + s.entries[i + 1..] + [Slot(url, response, s.steps)])
        && now < response.expiresAt && s'.requests == s.requests && s'.inFlight == s.inFlight
        && s'.served == s.served + [Served(url, response, now)]
      case None =>
        && (if Has(s.entries, url) then
              exists i :: && 0 <= i < |s.entries| && s.entries[i].url == url && now >= s.entries[i].response.expiresAt
                          && s'.entries == s.entries[..i] + s.entries[i + 1..]
            else s'.entries == s.entries)
        && !Has(s'.entries, url) && s'.served == s.served
        && url in s'.inFlight && IsOut(s'.requests, url, s'.inFlight[url])
        && s'.requests == s.requests + if url in s.inFlight then [] else [Request(url, Sent)]
  {
    RunHolds(events);
    hide Run;
    IndexOfPresent(s.entries, url);
    var i := IndexOf(s.entries, url);
    if Fresh(s, url, now).Some? {
      assert s.entries[i] in s.entries;
      LookupHit(s, url, now, i);
    } else {
      StepHolds(s, Lookup(url, now));
      ReuseHolds(s, url, now);
      OnlyOneEntry(s, url, i);
    }
  }

  lemma LookupHit(s: State, url: string, now: int, i: nat)
    requires Holds(s) && i == IndexOf(s.entries, url) < |s.entries| && now < s.entries[i].response.expiresAt
    ensures Step(s, Lookup(url, now)).entries ==
      s.entries[..i] + s.entries[i + 1..] + [Slot(url, s.entries[i].response, s.steps)]
  {
    HitShape(s, url, now, i);
  }

  lemma OnlyOneEntry(s: State, url: string, i: nat)
    requires EntriesHold(s) && i == IndexOf(s.entries, url)
    ensures forall slot :: slot in s.entries && slot.url == url ==> i < |s.entries| && slot == s.entries[i]
  {
    forall slot | slot in s.entries && slot.url == url
      ensures i < |s.entries| && slot == s.entries[i]
    {
      var k :| 0 <= k < |s.entries| && s.entries[k] == slot;
      assert i <= k;
    }
  }

  /** An arrived body that is not too large is stored as the most recently used one, any other not at all. */
  lemma ArrivalStores(events: seq<Event>, s: State, r: nat, body: string, ok: bool, now: int)
    requires s == Run(events) && r < |s.requests| && s.requests[r].phase == Sent
    ensures Step(s, Arrival(r, body, ok, now)).entries ==
      if |body| > 2 * 1024 * 1024 then s.entries
      else
        var expiresAt := now + if ok then 5 * 60 * 1000 else 60 * 1000;
        s.entries[if |s.entries| == 500 then 1 else 0..]
        + [Slot(s.requests[r].url, CachedResponse(body, ok, now, expiresAt, r), s.steps)]
  {
    RunHolds(events);
    hide Run;
    var slot := Slot(s.requests[r].url, ResponseOf(r, body, ok, now), s.steps);
    AppendOrdered(s.entries, slot, s.steps);
  }

  /** An arrival evicts at most one entry, only from a full cache, and the least recently used one. */
  lemma EvictsLeastRecentlyUsed(events: seq<Event>, s: State, r: nat, body: string, ok: bool, now: int, gone: Slot)
    requires s == Run(events) && r < |s.requests| && s.requests[r].phase == Sent
    requires gone in s.entries && gone !in Step(s, Arrival(r, body, ok, now)).entries
    ensures |s.entries| == MAX_ENTRIES && gone == s.entries[0]
    ensures forall kept :: kept in Step(s, Arrival(r, body, ok, now)).entries ==> gone.usedAt < kept.usedAt
    ensures Step(s, Arrival(r, body, ok, now)).entries ==
      s.entries[1..] + [Slot(s.requests[r].url, ResponseOf(r, body, ok, now), s.steps)]
  {
    hide Run;
    RunHolds(events);
    var slot := Slot(s.requests[r].url, ResponseOf(r, body, ok, now), s.steps);
    AppendOrdered(s.entries, slot, s.steps);
    var after := Step(s, Arrival(r, body, ok, now)).entries;
    assert after == Evict(s.entries + [slot]);
    hide Step, Set;
    if |s.entries| >= MAX_ENTRIES {
      assert after == s.entries[1..] + [slot];
      assert s.entries == [s.entries[0]] + s.entries[1..];
    }
  }

  // ----- The cache -----

  class AurResponseCache {
    /** The map's keys in insertion order with their values. */
    var entries: Entries
    var inFlight: map<string, nat>
    var requests: seq<Request>
    var steps: nat
    ghost var served: seq<Served>

    ghost function Abstract(): State
      reads this
    {
      State(entries, inFlight, requests, steps, served)
    }

    ghost predicate Valid()
      reads this
    {
      Holds(Abstract())
    }

    constructor ()
      ensures Valid() && Abstract() == INITIAL
    {
      entries, inFlight, requests, steps, served := [], map[], [], 0, [];
    }

    method ReuseIfFresh(url: string, now: int) returns (response: Option<CachedResponse>)
      modifies this`entries, this`served
      ensures Abstract() == Reuse(old(Abstract()), url, now)
      ensures response == Fresh(old(Abstract()), url, now)
    {
      var i := IndexOf(entries, url);
      if i == |entries| { return None; }
      var entry := entries[i];
      if now >= entry.response.expiresAt {
        entries := Delete(entries, url);
        return None;
      }
      entries := Delete(entries, url);
      entries := Set(entries, entry.(usedAt := steps));
      served := served + [Served(url, entry.response, now)];
      return Some(entry.response);
    }

    /** A lookup, up to waiting for a response; `waitsFor` is the request it waits for, if any. */
    method Lookup(url: string, now: int) returns (cached: Option<CachedResponse>, waitsFor: Option<nat>)
      requires Valid()
      modifies this
      ensures Valid() && Abstract() == Step(old(Abstract()), Event.Lookup(url, now))
      ensures cached == Fresh(old(Abstract()), url, now)
      ensures cached.None? ==> url in inFlight && waitsFor == Some(inFlight[url])
    {
      hide Holds;
      StepHolds(Abstract(), Event.Lookup(url, now));
      cached := ReuseIfFresh(url, now);
      waitsFor := None;
      steps := steps + 1;
      if cached.Some? { return; }
      if url !in inFlight {
        inFlight := inFlight[url := |requests|];
        requests := requests + [Request(url, Sent)];
      }
      waitsFor := Some(inFlight[url]);
    }

    /** Stores an arrived response. */
    method CacheResponse(r: nat, body: string, ok: bool, now: int)
      requires Valid() && r < |requests| && requests[r].phase == Sent
      modifies this
      ensures Valid() && Abstract() == Step(old(Abstract()), Arrival(r, body, ok, now))
    {
      hide Holds;
      StepHolds(Abstract(), Arrival(r, body, ok, now));
      hide Set, Evict;
      var url := requests[r].url;
      var response := CachedResponse(body, ok, now, now + (if ok then CACHE_TTL_MS else FAILURE_TTL_MS), r);
      requests := requests[r := requests[r].(phase := Answered)];
      if |body| <= MAX_CACHED_BODY_BYTES {
        entries := Set(entries, Slot(url, response, steps));
        EvictOldest();
      }
      steps := steps + 1;
    }

    /** Evicts from the front while there are too many entries. */
    method EvictOldest()
      modifies this`entries
      ensures entries == Evict(old(entries))
    {
      ghost var all := entries;
      while |entries| > MAX_ENTRIES
        invariant |entries| <= |all| && entries == all[|all| - |entries|..]
        invariant |all| > MAX_ENTRIES ==> |entries| >= MAX_ENTRIES
        invariant |all| <= MAX_ENTRIES ==> entries == all
      {
        entries := entries[1..];
      }
    }

    method RequestFailed(r: nat)
      requires Valid() && r < |requests| && requests[r].phase == Sent
      modifies this
      ensures Valid() && Abstract() == Step(old(Abstract()), Failure(r))
    {
      hide Holds;
      StepHolds(Abstract(), Failure(r));
      requests := requests[r := requests[r].(phase := Answered)];
      steps := steps + 1;
    }

    method RequestFinished(r: nat)
      requires Valid() && r < |requests| && requests[r].phase == Answered
      modifies this
      ensures Valid() && Abstract() == Step(old(Abstract()), CleanUp(r))
    {
      hide Holds;
      StepHolds(Abstract(), CleanUp(r));
      inFlight := inFlight - {requests[r].url};
      requests := requests[r := requests[r].(phase := Cleaned)];
      steps := steps + 1;
    }

    method Clear()
      requires Valid()
      modifies this
      ensures Valid() && Abstract() == Step(old(Abstract()), Event.Clear)
    {
      hide Holds;
      StepHolds(Abstract(), Event.Clear);
      entries := [];
      steps := steps + 1;
    }
  }
}
