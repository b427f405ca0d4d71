/**
 * What the bounded store of pipelines holds, told from the listing it was seeded with last and
 * the webhooks received since: what a store without a bound would hold, cut back once.
 */
module PipelineRuns {
  import opened PipelineStore
  import opened SortedIds
  import opened Wrappers

  // ----- The listing that seeds the store -----

  /** The places of the first pipelines of a listing that were not skipped, 40 at most. */
  ghost predicate ArePlaces(fetched: seq<Pipeline>, at: seq<nat>, most: nat) {
    && |at| <= most
    && (forall i :: 0 <= i < |at| ==> at[i] < |fetched| && fetched[at[i]].status != "skipped")
    && (forall i, j :: 0 <= i < j < |at| ==> at[i] < at[j])
    && (forall k :: 0 <= k < |fetched| && fetched[k].status != "skipped" && k !in at ==>
         |at| == most && forall i :: 0 <= i < |at| ==> at[i] < k)
  }

  ghost predicate ArePicked(fetched: seq<Pipeline>, at: seq<nat>, picked: seq<Pipeline>) {
    && |picked| == |at|
    && forall i :: 0 <= i < |at| ==> at[i] < |fetched| && picked[i] == fetched[at[i]]
  }

  /** The pipelines kept of a listing. */
  ghost predicate IsSeeding(fetched: seq<Pipeline>, listing: seq<Pipeline>) {
    exists at :: ArePlaces(fetched, at, 40) && ArePicked(fetched, at, listing)
  }

  /** The places of all pipelines that were not skipped. */
  ghost predicate AreAllPlaces(fetched: seq<Pipeline>, at: seq<nat>) {
    && (forall i :: 0 <= i < |at| ==> at[i] < |fetched| && fetched[at[i]].status != "skipped")
    && (forall i, j :: 0 <= i < j < |at| ==> at[i] < at[j])
    && (forall k :: 0 <= k < |fetched| && fetched[k].status != "skipped" ==> k in at)
  }

  lemma {:induction false} UnskippedPlaces(fetched: seq<Pipeline>) returns (at: seq<nat>)
    ensures AreAllPlaces(fetched, at) && ArePicked(fetched, at, Unskipped(fetched))
  {
    if fetched == [] {
      at := [];
    } else {
      var last := fetched[|fetched| - 1];
      at := UnskippedPlaces(fetched[..|fetched| - 1]);
      hide AreAllPlaces, ArePicked;
      assert fetched == fetched[..|fetched| - 1] + [last];
      OneMore(fetched[..|fetched| - 1], last, at, Unskipped(fetched[..|fetched| - 1]));
      if last.status != "skipped" {
        at := at + [|fetched| - 1];
      } else {
        assert Unskipped(fetched) == Unskipped(fetched[..|fetched| - 1]);
      }
    }
  }

  lemma OneMore(fetched: seq<Pipeline>, last: Pipeline, at: seq<nat>, picked: seq<Pipeline>)
    requires AreAllPlaces(fetched, at) && ArePicked(fetched, at, picked)
    ensures last.status == "skipped" ==>
      AreAllPlaces(fetched + [last], at) && ArePicked(fetched + [last], at, picked)
    ensures last.status != "skipped" ==>
      AreAllPlaces(fetched + [last], at + [|fetched|]) && ArePicked(fetched + [last], at + [|fetched|], picked + [last])
  {
    var all, at' := fetched + [last], at + [|fetched|];
    assert forall k :: 0 <= k < |fetched| ==> all[k] == fetched[k];
    assert forall k :: k in at' <==> k in at || k == |fetched|;
  }

  /** Seeding keeps the first 40 pipelines of the listing that were not skipped, in its order. */
  lemma SeedingIs(fetched: seq<Pipeline>)
    ensures IsSeeding(fetched, Seeding(fetched))
  {
    var at := UnskippedPlaces(fetched);
    if |at| <= 40 {
      assert ArePlaces(fetched, at, 40);
    } else {
      CutPlaces(fetched, at);
      assert ArePicked(fetched, at[..40], Seeding(fetched));
    }
  }

  lemma CutPlaces(fetched: seq<Pipeline>, at: seq<nat>)
    requires AreAllPlaces(fetched, at) && |at| > 40
    ensures ArePlaces(fetched, at[..40], 40)
  {
    forall k | 0 <= k < |fetched| && fetched[k].status != "skipped" && k !in at[..40]
      ensures forall i :: 0 <= i < 40 ==> at[..40][i] < k
    {
      var j :| 0 <= j < |at| && at[j] == k;
      assert forall i :: 0 <= i < 40 ==> at[i] in at[..40];
    }
  }

  // ----- The store without a bound -----

  /** What a store that is never cut back holds after a listing and webhooks. */
  function Unbounded(listing: seq<Pipeline>, hooks: seq<Webhook>): map<int, Pipeline> {
    if hooks == [] then ById(listing)
    else
      var before := Unbounded(listing, hooks[..|hooks| - 1]);
      var body := hooks[|hooks| - 1];
      before[body.id := Merged(before, body)]
  }

  /** The hooks are all events since the last seed, which kept the listing. */
  ghost predicate AreSinceSeed(events: seq<Event>, listing: seq<Pipeline>, hooks: seq<Webhook>) {
    && |hooks| <= |events|
    && (forall i :: 0 <= i < |hooks| ==> events[|events| - |hooks| + i] == Hook(hooks[i]))
    && (if |hooks| == |events| then listing == []
        else
          var seed := events[|events| - |hooks| - 1];
          seed.Seed? && listing == Seeding(seed.fetched))
  }

  /** Every run has them. */
  lemma {:induction false} SinceSeed(events: seq<Event>) returns (listing: seq<Pipeline>, hooks: seq<Webhook>)
    ensures AreSinceSeed(events, listing, hooks)
  {
    listing, hooks := [], [];
    if events != [] {
      var last := events[|events| - 1];
      if last.Seed? {
        listing := Seeding(last.fetched);
      } else {
        listing, hooks := SinceSeed(events[..|events| - 1]);
        hooks := hooks + [last.body];
      }
    }
  }

  predicate IsListed(listing: seq<Pipeline>, id: int) {
    exists i :: 0 <= i < |listing| && listing[i].id == id
  }

  predicate IsHooked(hooks: seq<Webhook>, id: int) {
    exists i :: 0 <= i < |hooks| && hooks[i].id == id
  }

  predicate IsLastListed(listing: seq<Pipeline>, id: int, k: int) {
    0 <= k < |listing| && listing[k].id == id && forall i :: k < i < |listing| ==> listing[i].id != id
  }

  predicate IsLastHook(hooks: seq<Webhook>, id: int, k: int) {
    0 <= k < |hooks| && hooks[k].id == id && forall i :: k < i < |hooks| ==> hooks[i].id != id
  }

  predicate IsFirstHook(hooks: seq<Webhook>, id: int, k: int) {
    0 <= k < |hooks| && hooks[k].id == id && forall i :: 0 <= i < k ==> hooks[i].id != id
  }

  /**
   * The status and creation time are those received last; the project and the update time
   * are those the pipeline was listed with, or else those its first webhook stands in with.
   */
  ghost predicate IsRecord(listing: seq<Pipeline>, hooks: seq<Webhook>, id: int, p: Pipeline) {
    && p.id == id
    && (forall k :: IsLastHook(hooks, id, k) ==> p.status == hooks[k].status && p.createdAt == hooks[k].createdAt)
    && (forall k :: IsLastListed(listing, id, k) ==>
         && p.projectId == listing[k].projectId && p.updatedAt == listing[k].updatedAt
         && (!IsHooked(hooks, id) ==> p == listing[k]))
    && (forall k :: IsFirstHook(hooks, id, k) && !IsListed(listing, id) ==>
         && p.projectId == (match hooks[k].projectId case None => 0 case Some(project) => project)
         && p.updatedAt == hooks[k].createdAt)
  }

  lemma {:induction false} ListedIs(listing: seq<Pipeline>, id: int)
    ensures id in ById(listing) <==> IsListed(listing, id)
    ensures forall k :: IsLastListed(listing, id, k) ==> id in ById(listing) && ById(listing)[id] == listing[k]
  {
    if listing != [] {
      var init, last := listing[..|listing| - 1], listing[|listing| - 1];
      ListedIs(init, id);
      assert last.id == id ==> IsListed(listing, id);
      assert forall k :: 0 <= k < |init| ==> init[k] == listing[k];
      forall k | IsLastListed(listing, id, k)
        ensures ById(listing)[id] == listing[k]
      {
        assert k < |init| ==> IsLastListed(init, id, k);
      }
    }
  }

  lemma OneMoreHook(hooks: seq<Webhook>, body: Webhook, id: int)
    ensures IsHooked(hooks + [body], id) <==> IsHooked(hooks, id) || body.id == id
    ensures forall k :: IsLastHook(hooks + [body], id, k) <==>
      if body.id == id then k == |hooks| else IsLastHook(hooks, id, k)
    ensures forall k :: IsFirstHook(hooks + [body], id, k) <==>
      if IsHooked(hooks, id) then IsFirstHook(hooks, id, k) else body.id == id && k == |hooks|
  {
    var all := hooks + [body];
    assert forall k :: 0 <= k < |hooks| ==> all[k] == hooks[k];
    assert all[|hooks|] == body;
  }

  lemma HookRecord(listing: seq<Pipeline>, hooks: seq<Webhook>, body: Webhook, before: map<int, Pipeline>)
    requires body.id in before <==> IsListed(listing, body.id) || IsHooked(hooks, body.id)
    requires body.id in before ==> IsRecord(listing, hooks, body.id, before[body.id])
    ensures IsRecord(listing, hooks + [body], body.id, Merged(before, body))
  {
    OneMoreHook(hooks, body, body.id);
    assert (hooks + [body])[|hooks|] == body;
    assert forall k :: 0 <= k < |hooks| ==> (hooks + [body])[k] == hooks[k];
    assert forall k :: IsFirstHook(hooks, body.id, k) ==> k < |hooks|;
    assert forall k :: IsLastListed(listing, body.id, k) ==> IsListed(listing, body.id);
    hide IsLastHook, IsFirstHook, IsLastListed, IsListed, IsHooked;
  }

  lemma OtherRecord(listing: seq<Pipeline>, hooks: seq<Webhook>, body: Webhook, id: int, p: Pipeline)
    requires id != body.id && IsRecord(listing, hooks, id, p)
    ensures IsRecord(listing, hooks + [body], id, p)
  {
    OneMoreHook(hooks, body, id);
    assert forall k :: IsFirstHook(hooks, id, k) || IsLastHook(hooks, id, k) ==> (hooks + [body])[k] == hooks[k];
    assert forall k :: IsFirstHook(hooks, id, k) ==> IsHooked(hooks, id);
    hide IsLastHook, IsFirstHook, IsLastListed, IsListed, IsHooked;
  }

  /** What a store without a bound holds for an id follows from the listing and the webhooks of that id. */
  lemma {:induction false} UnboundedIs(listing: seq<Pipeline>, hooks: seq<Webhook>, id: int)
    ensures id in Unbounded(listing, hooks) <==> IsListed(listing, id) || IsHooked(hooks, id)
    ensures id in Unbounded(listing, hooks) ==> IsRecord(listing, hooks, id, Unbounded(listing, hooks)[id])
  {
    if hooks == [] {
      ListedIs(listing, id);
      ListedRecord(listing, id);
    } else {
      var init, body := hooks[..|hooks| - 1], hooks[|hooks| - 1];
      hide IsListed, IsHooked, IsRecord, IsLastListed, Merged;
      assert hooks == init + [body];
      UnboundedIs(listing, init, id);
      OneMoreHook(init, body, id);
      if id == body.id {
        HookRecord(listing, init, body, Unbounded(listing, init));
      } else if id in Unbounded(listing, init) {
        OtherRecord(listing, init, body, id, Unbounded(listing, init)[id]);
      }
    }
  }

  lemma ListedRecord(listing: seq<Pipeline>, id: int)
    ensures !IsHooked([], id)
    ensures id in ById(listing) ==> IsRecord(listing, [], id, ById(listing)[id])
  {
    ListedIs(listing, id);
    ByIdHolds(listing);
  }

  // ----- One cut at the end -----

  /** The store agrees with one that is never cut back, for the ids it has. */
  ghost predicate Agree(s: State, all: map<int, Pipeline>) {
    && s.latest.Keys == all.Keys
    && s.pipelines.Keys <= all.Keys
    && forall id :: id in s.pipelines ==> s.pipelines[id] == all[id]
  }

  /** A pipeline that was cut off never comes back, so its lost fields do not matter. */
  lemma HookAgrees(s: State, all: map<int, Pipeline>, body: Webhook)
    requires Holds(s) && Agree(s, all)
    ensures Agree(Step(s, Hook(body)), all[body.id := Merged(all, body)])
  {
    hide Holds, IsTop, CutBack, Merged;
    var merged := s.pipelines[body.id := Merged(s.pipelines, body)];
    KeysOfUpdate(s.pipelines, body.id, Merged(s.pipelines, body));
    KeysOfUpdate(s.latest, body.id, body.status);
    KeysOfUpdate(all, body.id, Merged(all, body));
    CutBackIsTop(merged);
    TopIsSubset(CutBack(merged).Keys, merged.Keys, MAX_CACHED_PIPELINES);
    if body.id in s.latest && body.id !in s.pipelines {
      CutOffStaysOut(s, body);
    } else {
      SameMerged(s, all, body);
    }
  }

  lemma SameMerged(s: State, all: map<int, Pipeline>, body: Webhook)
    requires Agree(s, all) && (body.id in s.pipelines || body.id !in s.latest)
    ensures Merged(s.pipelines, body) == Merged(all, body)
  {
  }

  lemma CutOffStaysOut(s: State, body: Webhook)
    requires Holds(s) && body.id in s.latest && body.id !in s.pipelines
    ensures body.id !in Step(s, Hook(body)).pipelines
  {
    HookHolds(s, body);
    var s' := Step(s, Hook(body));
    KeysOfUpdate(s.latest, body.id, body.status);
    hide CutBack, Merged;
    TopUnique(s.pipelines.Keys, s'.pipelines.Keys, s.latest.Keys, 40);
  }

  /** The largest ids of a set are determined. */
  lemma TopUnique(top: set<int>, other: set<int>, s: set<int>, n: nat)
    requires IsTop(top, s, n) && IsTop(other, s, n)
    ensures top == other
  {
    if !(top <= other) {
      if other <= top { CardinalityOfSubset(other, top); }
      NotSubset(top, other);
      NotSubset(other, top);
      var x, y := Pick(top - other), Pick(other - top);
      assert false;
    } else {
      CardinalityOfSubset(top, other);
    }
  }

  lemma {:induction false} RunAgrees(events: seq<Event>, listing: seq<Pipeline>, hooks: seq<Webhook>)
    requires AreSinceSeed(events, listing, hooks)
    ensures Agree(Run(events), Unbounded(listing, hooks))
    decreases |events|
  {
    if events == [] {
      assert Unbounded(listing, hooks) == map[];
    } else {
      var init, last := events[..|events| - 1], events[|events| - 1];
      hide Agree, Unbounded, Holds;
      if hooks == [] {
        SeedAgrees(Run(init), last.fetched);
      } else {
        var body := hooks[|hooks| - 1];
        assert last == Hook(body);
        RunAgrees(init, listing, hooks[..|hooks| - 1]);
        RunHolds(init);
        HookAgrees(Run(init), Unbounded(listing, hooks[..|hooks| - 1]), body);
        UnboundedHook(listing, hooks);
      }
    }
  }

  lemma SeedAgrees(s: State, fetched: seq<Pipeline>)
    ensures Agree(Step(s, Seed(fetched)), Unbounded(Seeding(fetched), []))
  {
  }

  lemma UnboundedHook(listing: seq<Pipeline>, hooks: seq<Webhook>)
    requires hooks != []
    ensures var before := Unbounded(listing, hooks[..|hooks| - 1]);
      var body := hooks[|hooks| - 1];
      Unbounded(listing, hooks) == before[body.id := Merged(before, body)]
  {
  }

  /** The ids of a listing and of webhooks. */
  function Ids(listing: seq<Pipeline>, hooks: seq<Webhook>): set<int> {
    (set i | 0 <= i < |listing| :: listing[i].id) + (set i | 0 <= i < |hooks| :: hooks[i].id)
  }

  lemma IdsAre(listing: seq<Pipeline>, hooks: seq<Webhook>)
    ensures Unbounded(listing, hooks).Keys == Ids(listing, hooks)
  {
    hide IsRecord;
    forall id
      ensures id in Unbounded(listing, hooks) <==> id in Ids(listing, hooks)
    {
      UnboundedIs(listing, hooks, id);
    }
  }

  /**
   * After any run, the store has the 40 largest of the ids listed at the last seed or received
   * since, and for each of them the record its own listing and webhooks give it, whatever was
   * cut off in between.
   */
  lemma StoreIs(events: seq<Event>, listing: seq<Pipeline>, hooks: seq<Webhook>)
    requires AreSinceSeed(events, listing, hooks)
    ensures IsTop(Run(events).pipelines.Keys, Ids(listing, hooks), 40)
    ensures forall id :: id in Run(events).pipelines ==> IsRecord(listing, hooks, id, Run(events).pipelines[id])
  {
    hide IsRecord, IsTop, Unbounded;
    RunHolds(events);
    RunAgrees(events, listing, hooks);
    IdsAre(listing, hooks);
    forall id | id in Run(events).pipelines
      ensures IsRecord(listing, hooks, id, Run(events).pipelines[id])
    {
      UnboundedIs(listing, hooks, id);
    }
  }
}
