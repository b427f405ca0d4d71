/** The service object behind the pipeline store. */
module GitlabPipelines {
  import opened PipelineStore
  import opened SortedIds

  class Service {
    var pipelineMap: map<int, Pipeline>
    ghost var latest: map<int, string>

    ghost function Abstract(): State
      reads this
    {
      State(pipelineMap, latest)
    }

    ghost predicate Valid()
      reads this
    {
      Holds(Abstract())
    }

    constructor ()
      ensures Valid() && Abstract() == INITIAL
    {
      hide Holds;
      InitialHolds();
      pipelineMap, latest := map[], map[];
    }

    method HandlePipelineWebhook(body: Webhook)
      requires Valid()
      modifies this
      ensures Valid() && Abstract() == Step(old(Abstract()), Hook(body))
    {
      hide Holds;
      StepHolds(Abstract(), Hook(body));
      var merged := Merged(pipelineMap, body);
      pipelineMap := pipelineMap[body.id := merged];
      latest := latest[body.id := body.status];
      if |pipelineMap| > MAX_CACHED_PIPELINES {
        var sortedIds := Descending(pipelineMap.Keys);
        RemoveAll(sortedIds[MAX_CACHED_PIPELINES..]);
      }
    }

    method RemoveAll(oldIds: seq<int>)
      modifies this`pipelineMap
      ensures pipelineMap == old(pipelineMap) - Elements(oldIds)
    {
      var i := 0;
      while i < |oldIds|
        invariant 0 <= i <= |oldIds|
        invariant pipelineMap == old(pipelineMap) - Elements(oldIds[..i])
      {
        assert oldIds[..i + 1] == oldIds[..i] + [oldIds[i]];
        pipelineMap := pipelineMap - {oldIds[i]};
        i := i + 1;
      }
      assert oldIds[..i] == oldIds;
    }

    /** Replaces everything by a fresh listing. */
    method SeedPipelines(fetched: seq<Pipeline>)
      requires Valid()
      modifies this
      ensures Valid() && Abstract() == Step(old(Abstract()), Seed(fetched))
    {
      hide Holds;
      StepHolds(Abstract(), Seed(fetched));
      var allPipelines := Seeding(fetched);
      pipelineMap := map[];
      var i := 0;
      while i < |allPipelines|
        modifies this`pipelineMap
        invariant 0 <= i <= |allPipelines|
        invariant pipelineMap == ById(allPipelines[..i])
      {
        assert allPipelines[..i + 1][..i] == allPipelines[..i];
        pipelineMap := pipelineMap[allPipelines[i].id := allPipelines[i]];
        i := i + 1;
      }
      assert allPipelines[..i] == allPipelines;
      latest := map id | id in pipelineMap :: pipelineMap[id].status;
    }

    /** The stored pipelines that were not skipped, sorted by id and cut to the bound. */
    method GetLastPipelines() returns (pipelines: seq<Pipeline>)
      requires Valid()
      ensures IsListing(pipelineMap, pipelines)
    {
      hide Descending, IsListing;
      var sorted := Descending(VisibleIds(pipelineMap));
      var last := if |sorted| <= MAX_CACHED_PIPELINES then sorted else sorted[..MAX_CACHED_PIPELINES];
      pipelines := [];
      var i := 0;
      while i < |last|
        invariant 0 <= i <= |last| && |pipelines| == i
        invariant forall k :: 0 <= k < i ==> last[k] in pipelineMap && pipelines[k] == pipelineMap[last[k]]
      {
        assert sorted[i] in sorted;
        pipelines := pipelines + [pipelineMap[last[i]]];
        i := i + 1;
      }
      VisibleFit(Abstract());
      ListingOfIds(pipelineMap, latest, pipelines);
    }
  }
}
