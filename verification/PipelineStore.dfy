/**
 * The bounded store of pipelines: seeded from the API, updated by webhooks, and cut back to
 * the pipelines with the largest ids after each of them.
 */
module PipelineStore {
  import opened SortedIds
  import opened Wrappers

  const MAX_CACHED_PIPELINES := 40
  const SKIPPED_PIPELINE_STATUS := "skipped"

  datatype Pipeline = Pipeline(id: int, projectId: int, status: string, createdAt: string, updatedAt: string)

  datatype Webhook = Webhook(id: int, projectId: Option<int>, status: string, createdAt: string)

  // ----- The largest ids -----

  /** Cutting back after each arrival leaves what one cut of everything would leave. */
  lemma TopOfTop(keys: set<int>, seen: set<int>, id: int, top: set<int>, n: nat)
    requires IsTop(keys, seen, n) && IsTop(top, keys + {id}, n)
    ensures IsTop(top, seen + {id}, n)
  {
    CardinalityOfSubset(keys, seen);
    CardinalityOfSubset(keys + {id}, seen + {id});
    if keys != seen {
      assert |keys| == n by { if |seen| < n { CardinalityOfSubset(keys, seen); } }
      CardinalityOfSubset(keys, keys + {id});
      forall k, x | k in top && x in seen + {id} && x !in top
        ensures x < k
      {
        if x !in keys + {id} && k !in keys {
          assert k == id;
          var y := Dropped(keys, id, top);
          assert x < y < k;
        }
      }
    }
  }

  lemma Dropped(keys: set<int>, id: int, top: set<int>) returns (y: int)
    requires id !in keys && id in top && |top| <= |keys|
    ensures y in keys && y !in top
  {
    if keys <= top {
      assert keys + {id} <= top;
      CardinalityOfSubset(keys + {id}, top);
      assert false;
    }
    NotSubset(keys, top);
    y := Pick(keys - top);
  }

  lemma KeysOfUpdate<K, V>(m: map<K, V>, k: K, v: V)
    ensures m[k := v].Keys == m.Keys + {k}
  {
  }

  // ----- Steps -----

  datatype Event = Seed(fetched: seq<Pipeline>) | Hook(body: Webhook)

  /** The map with the ids and the latest status of everything received since the last seed. */
  datatype State = State(pipelines: map<int, Pipeline>, latest: map<int, string>)

  const INITIAL := State(map[], map[])

  function Merged(pipelines: map<int, Pipeline>, body: Webhook): Pipeline {
    if body.id in pipelines then
      var existing := pipelines[body.id];
      Pipeline(body.id, existing.projectId, body.status, body.createdAt, existing.updatedAt)
    else
      var projectId := if body.projectId.Some? then body.projectId.value else 0;
      Pipeline(body.id, projectId, body.status, body.createdAt, body.createdAt)
  }

  function CutBack(pipelines: map<int, Pipeline>): map<int, Pipeline> {
    if |pipelines| <= MAX_CACHED_PIPELINES then pipelines
    else pipelines - Elements(Descending(pipelines.Keys)[MAX_CACHED_PIPELINES..])
  }

  /** The first pipelines of an API listing that were not skipped. */
  function Unskipped(fetched: seq<Pipeline>): seq<Pipeline> {
    if fetched == [] then []
    else
      var last := fetched[|fetched| - 1];
      Unskipped(fetched[..|fetched| - 1]) + if last.status == SKIPPED_PIPELINE_STATUS then [] else [last]
  }

  function Seeding(fetched: seq<Pipeline>): seq<Pipeline> {
    var kept := Unskipped(fetched);
    if |kept| <= MAX_CACHED_PIPELINES then kept else kept[..MAX_CACHED_PIPELINES]
  }

  function ById(pipelines: seq<Pipeline>): map<int, Pipeline> {
    if pipelines == [] then map[]
    else
      var last := pipelines[|pipelines| - 1];
      ById(pipelines[..|pipelines| - 1])[last.id := last]
  }

  function Step(s: State, e: Event): State {
    match e
    case Seed(fetched) =>
      var pipelines := ById(Seeding(fetched));
      State(pipelines, map id | id in pipelines :: pipelines[id].status)
    case Hook(body) =>
      State(CutBack(s.pipelines[body.id := Merged(s.pipelines, body)]), s.latest[body.id := body.status])
  }

  function Run(events: seq<Event>): State {
    if events == [] then INITIAL else Step(Run(events[..|events| - 1]), events[|events| - 1])
  }

  // ----- What every run promises -----

  /** Each stored pipeline is under its own id and has the status received last for it. */
  ghost predicate IsCurrent(pipelines: map<int, Pipeline>, latest: map<int, string>) {
    forall id :: id in pipelines ==> id in latest && pipelines[id].id == id && pipelines[id].status == latest[id]
  }

  /** The store holds the 40 largest ids received, each under its own id and with its latest status. */
  ghost predicate Holds(s: State) {
    && IsTop(s.pipelines.Keys, s.latest.Keys, MAX_CACHED_PIPELINES)
    && IsCurrent(s.pipelines, s.latest)
  }

  lemma {:induction false} ByIdHolds(pipelines: seq<Pipeline>)
    ensures |ById(pipelines)| <= |pipelines|
    ensures forall id :: id in ById(pipelines) ==> ById(pipelines)[id].id == id
  {
    if pipelines != [] {
      var init, last := pipelines[..|pipelines| - 1], pipelines[|pipelines| - 1];
      ByIdHolds(init);
      assert ById(pipelines).Keys == ById(init).Keys + {last.id};
    }
  }

  lemma CutBackIsTop(pipelines: map<int, Pipeline>)
    ensures IsTop(CutBack(pipelines).Keys, pipelines.Keys, MAX_CACHED_PIPELINES)
    ensures forall id :: id in CutBack(pipelines) ==> CutBack(pipelines)[id] == pipelines[id]
  {
    if |pipelines| > MAX_CACHED_PIPELINES {
      TopOfSorted(pipelines.Keys, MAX_CACHED_PIPELINES);
    }
  }

  lemma MergedIsCurrent(s: State, body: Webhook)
    requires IsCurrent(s.pipelines, s.latest)
    ensures IsCurrent(s.pipelines[body.id := Merged(s.pipelines, body)], s.latest[body.id := body.status])
  {
  }

  lemma HookHolds(s: State, body: Webhook)
    requires Holds(s)
    ensures Holds(Step(s, Hook(body)))
  {
    var all := s.pipelines[body.id := Merged(s.pipelines, body)];
    KeysOfUpdate(s.pipelines, body.id, Merged(s.pipelines, body));
    KeysOfUpdate(s.latest, body.id, body.status);
    MergedIsCurrent(s, body);
    CutBackIsTop(all);
    hide IsTop, CutBack, Merged;
    TopOfTop(s.pipelines.Keys, s.latest.Keys, body.id, CutBack(all).Keys, MAX_CACHED_PIPELINES);
    TopIsSubset(CutBack(all).Keys, all.Keys, MAX_CACHED_PIPELINES);
  }

  lemma TopIsSubset(top: set<int>, s: set<int>, n: nat)
    requires IsTop(top, s, n)
    ensures top <= s
  {
  }

  lemma SeedHolds(s: State, fetched: seq<Pipeline>)
    ensures Holds(Step(s, Seed(fetched)))
  {
    ByIdHolds(Seeding(fetched));
    var pipelines := ById(Seeding(fetched));
    assert Step(s, Seed(fetched)).latest.Keys == pipelines.Keys;
  }

  lemma StepHolds(s: State, e: Event)
    requires Holds(s)
    ensures Holds(Step(s, e))
  {
    match e {
      case Seed(fetched) => SeedHolds(s, fetched);
      case Hook(body) => HookHolds(s, body);
    }
  }

  lemma InitialHolds()
    ensures Holds(INITIAL)
  {
    assert INITIAL.pipelines.Keys == {} && INITIAL.latest.Keys == {};
  }

  /**
   * After any run of webhooks, the store holds exactly the 40 largest ids among those of the
   * last seed and all received since, late updates to evicted ids included, each with the
   * status received last.
   */
  lemma {:induction false} RunHolds(events: seq<Event>)
    ensures Holds(Run(events))
  {
    hide Holds, Step;
    if events == [] {
      InitialHolds();
    } else {
      RunHolds(events[..|events| - 1]);
      StepHolds(Run(events[..|events| - 1]), events[|events| - 1]);
    }
  }

  // ----- The listing -----

  function VisibleIds(pipelines: map<int, Pipeline>): set<int> {
    set id | id in pipelines && pipelines[id].status != SKIPPED_PIPELINE_STATUS
  }

  /** The pipelines that were not skipped, each once, from the newest to the oldest. */
  ghost predicate IsListing(pipelines: map<int, Pipeline>, listing: seq<Pipeline>) {
    && (forall i :: 0 <= i < |listing| ==>
         listing[i].id in pipelines && pipelines[listing[i].id] == listing[i]
         && listing[i].status != SKIPPED_PIPELINE_STATUS)
    && (forall id :: id in pipelines && pipelines[id].status != SKIPPED_PIPELINE_STATUS ==>
         exists i :: 0 <= i < |listing| && listing[i] == pipelines[id])
    && (forall i, j :: 0 <= i < j < |listing| ==> listing[i].id > listing[j].id)
  }

  lemma ListingOfIds(pipelines: map<int, Pipeline>, latest: map<int, string>, listing: seq<Pipeline>)
    requires IsCurrent(pipelines, latest)
    requires var ids := Descending(VisibleIds(pipelines));
      |listing| == |ids| && forall i :: 0 <= i < |ids| ==> ids[i] in pipelines && listing[i] == pipelines[ids[i]]
    ensures IsListing(pipelines, listing)
  {
    hide Descending;
    var ids := Descending(VisibleIds(pipelines));
    DescendingOrder(VisibleIds(pipelines));
    forall i | 0 <= i < |listing|
      ensures listing[i].id == ids[i] && listing[i].status != SKIPPED_PIPELINE_STATUS
    {
      assert ids[i] in ids;
    }
    forall id | id in pipelines && pipelines[id].status != SKIPPED_PIPELINE_STATUS
      ensures exists i :: 0 <= i < |listing| && listing[i] == pipelines[id]
    {
      assert id in VisibleIds(pipelines);
      var i :| 0 <= i < |ids| && ids[i] == id;
      assert listing[i] == pipelines[id];
    }
  }

  lemma VisibleFit(s: State)
    requires Holds(s)
    ensures |VisibleIds(s.pipelines)| <= MAX_CACHED_PIPELINES
  {
    CardinalityOfSubset(VisibleIds(s.pipelines), s.pipelines.Keys);
  }
}
