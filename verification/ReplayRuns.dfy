/**
 * What viewers of the manager log get, read off the events of a run alone: who is attached,
 * which messages are broadcast, and what each viewer asked for.
 */
module ReplayRuns {
  import opened Wrappers
  import opened ReplayBuffer

  lemma NextStep(events: seq<Event>, n: nat)
    requires n < |events|
    ensures Run(events[..n + 1]) == Step(Run(events[..n]), events[n])
  {
    assert events[..n + 1][..n] == events[..n];
  }

  // ----- Viewers -----

  /** Event `k` connects a client for the first time. */
  predicate IsFirstConnect(events: seq<Event>, k: nat) {
    && k < |events| && events[k].Connect?
    && forall j :: 0 <= j < k && events[j].Connect? ==> events[j].client != events[k].client
  }

  lemma ViewersStep(s: State, e: Event)
    ensures e.Connect? && e.client !in s.viewers ==>
      Step(s, e).viewers == s.viewers[e.client := Viewer(e.resumeFrom, s.sequence)]
    ensures !(e.Connect? && e.client !in s.viewers) ==> Step(s, e).viewers == s.viewers
  {
  }

  /** A client is known exactly when some event before connected it. */
  lemma {:induction false} KnownIff(events: seq<Event>, n: nat, c: nat)
    requires n <= |events|
    ensures c in Run(events[..n]).viewers <==> exists k :: 0 <= k < n && events[k].Connect? && events[k].client == c
    decreases n
  {
    if n > 0 {
      hide Step, Run;
      NextStep(events, n - 1);
      KnownIff(events, n - 1, c);
      ViewersStep(Run(events[..n - 1]), events[n - 1]);
      if c in Run(events[..n]).viewers && c !in Run(events[..n - 1]).viewers {
        assert events[n - 1].Connect? && events[n - 1].client == c;
      }
    }
  }

  lemma FirstConnectIff(events: seq<Event>, n: nat)
    requires n < |events|
    ensures IsFirstConnect(events, n) <==>
      events[n].Connect? && events[n].client !in Run(events[..n]).viewers
  {
    hide Run;
    if events[n].Connect? { KnownIff(events, n, events[n].client); }
  }

  /** A viewer is remembered with what it asked for and the number of messages broadcast before it came. */
  lemma {:induction false} ViewerOfEvent(events: seq<Event>, k: nat, n: nat)
    requires IsFirstConnect(events, k) && k < n <= |events|
    ensures var viewers := Run(events[..n]).viewers;
      && events[k].client in viewers
      && viewers[events[k].client] == Viewer(events[k].resumeFrom, |Run(events[..k]).history|)
    decreases n
  {
    hide Step, Run, IsFirstConnect;
    NextStep(events, n - 1);
    ViewersStep(Run(events[..n - 1]), events[n - 1]);
    if n > k + 1 {
      ViewerOfEvent(events, k, n - 1);
    } else {
      FirstConnectIff(events, k);
      SequenceIsCount(events[..k]);
    }
  }

  lemma SequenceIsCount(events: seq<Event>)
    ensures Run(events).sequence == |Run(events).history|
  {
    hide Run, Frames;
    RunHolds(events);
  }

  // ----- The upstream -----

  /** The upstream runs once a client has connected for the first time since it last ended. */
  ghost predicate IsLive(events: seq<Event>, n: nat)
    requires n <= |events|
  {
    exists k :: 0 <= k < n && IsFirstConnect(events, k) && NoEnd(events, k, n)
  }

  /** The upstream does not end from event `m` on, before event `n`. */
  predicate NoEnd(events: seq<Event>, m: nat, n: nat)
    requires n <= |events|
  {
    forall j :: m <= j < n ==> !events[j].UpstreamEnds?
  }

  lemma UpstreamStep(s: State, e: Event)
    ensures Step(s, e).upstream.Stopped? <==>
      e.UpstreamEnds? || (s.upstream.Stopped? && !(e.Connect? && e.client !in s.viewers))
  {
  }

  lemma {:induction false} LiveIff(events: seq<Event>, n: nat)
    requires n <= |events|
    ensures !Run(events[..n]).upstream.Stopped? <==> IsLive(events, n)
    decreases n
  {
    if n > 0 {
      var e := events[n - 1];
      NextStep(events, n - 1);
      LiveIff(events, n - 1);
      UpstreamStep(Run(events[..n - 1]), e);
      if e.Connect? { KnownIff(events, n - 1, e.client); }
      hide Step, Run;
      LiveStep(events, n);
    }
  }

  lemma LiveStep(events: seq<Event>, n: nat)
    requires 0 < n <= |events|
    ensures IsLive(events, n) <==>
      !events[n - 1].UpstreamEnds? && (IsLive(events, n - 1) || IsFirstConnect(events, n - 1))
  {
    if IsLive(events, n) {
      var k: nat :| k < n && IsFirstConnect(events, k) && NoEnd(events, k, n);
      assert k < n - 1 ==> NoEnd(events, k, n - 1);
    }
    if !events[n - 1].UpstreamEnds? && IsLive(events, n - 1) {
      var k: nat :| k < n - 1 && IsFirstConnect(events, k) && NoEnd(events, k, n - 1);
      assert NoEnd(events, k, n);
    }
  }

  /** The messages that come while the upstream runs. */
  ghost function Broadcasts(events: seq<Event>, n: nat): seq<string>
    requires n <= |events|
  {
    if n == 0 then []
    else
      Broadcasts(events, n - 1)
      + if events[n - 1].Broadcast? && IsLive(events, n - 1) then [events[n - 1].message] else []
  }

  /** The history is every message that came while the upstream ran, in order. */
  lemma {:induction false} HistoryIs(events: seq<Event>, n: nat)
    requires n <= |events|
    ensures Run(events[..n]).history == Broadcasts(events, n)
    decreases n
  {
    if n > 0 {
      NextStep(events, n - 1);
      HistoryIs(events, n - 1);
      LiveIff(events, n - 1);
    }
  }

  // ----- Who is attached -----

  /** The client connected, and neither left nor saw the upstream end since. */
  ghost predicate IsAttached(events: seq<Event>, c: nat, n: nat)
    requires n <= |events|
  {
    exists k :: 0 <= k < n && IsFirstConnect(events, k) && events[k].client == c && Stays(events, c, k, n)
  }

  predicate Stays(events: seq<Event>, c: nat, m: nat, n: nat)
    requires n <= |events|
  {
    forall j :: m <= j < n ==> !events[j].UpstreamEnds? && events[j] != Disconnect(c)
  }

  lemma ClientsStep(s: State, e: Event, c: nat)
    ensures c in Step(s, e).clients <==>
      !e.UpstreamEnds? && e != Disconnect(c) && (c in s.clients || (e.Connect? && e.client == c && c !in s.viewers))
  {
  }

  lemma AttachedStep(events: seq<Event>, c: nat, n: nat)
    requires 0 < n <= |events|
    ensures IsAttached(events, c, n) <==>
      && !events[n - 1].UpstreamEnds? && events[n - 1] != Disconnect(c)
      && (IsAttached(events, c, n - 1) || (IsFirstConnect(events, n - 1) && events[n - 1].client == c))
  {
    if IsAttached(events, c, n) {
      var k: nat :| k < n && IsFirstConnect(events, k) && events[k].client == c && Stays(events, c, k, n);
      assert k < n - 1 ==> Stays(events, c, k, n - 1);
    }
    if !events[n - 1].UpstreamEnds? && events[n - 1] != Disconnect(c) && IsAttached(events, c, n - 1) {
      var k: nat :| k < n - 1 && IsFirstConnect(events, k) && events[k].client == c && Stays(events, c, k, n - 1);
      assert Stays(events, c, k, n);
    }
  }

  lemma {:induction false} AttachedIff(events: seq<Event>, c: nat, n: nat)
    requires n <= |events|
    ensures c in Run(events[..n]).clients <==> IsAttached(events, c, n)
    decreases n
  {
    if n > 0 {
      hide Step, Run, IsAttached, IsFirstConnect;
      NextStep(events, n - 1);
      AttachedIff(events, c, n - 1);
      ClientsStep(Run(events[..n - 1]), events[n - 1], c);
      FirstConnectIff(events, n - 1);
      AttachedStep(events, c, n);
    }
  }

  lemma WithoutViewers(events: seq<Event>)
    requires Run(events).clients == {}
    ensures !Run(events).upstream.Running?
  {
    hide Run, BufferHolds, ViewerHolds;
    RunHolds(events);
  }

  lemma AbortedStep(s: State, e: Event)
    requires s.upstream.Aborted? && !e.UpstreamEnds?
    ensures Step(s, e).upstream.Aborted?
  {
  }

  /** An upstream without viewers is aborted, and stays so until it ends, whoever comes. */
  lemma {:induction false} AbortStays(events: seq<Event>, m: nat, n: nat)
    requires m <= n <= |events| && IsLive(events, m) && Run(events[..m]).clients == {} && NoEnd(events, m, n)
    ensures Run(events[..n]).upstream.Aborted?
    decreases n
  {
    hide Step, Run, IsLive;
    if n == m {
      LiveIff(events, m);
      WithoutViewers(events[..m]);
    } else {
      NextStep(events, n - 1);
      AbortStays(events, m, n - 1);
      AbortedStep(Run(events[..n - 1]), events[n - 1]);
    }
  }

  /** An aborted upstream had lost its last viewer. */
  lemma {:induction false} AbortedWasLeft(events: seq<Event>, n: nat) returns (m: nat)
    requires n <= |events| && Run(events[..n]).upstream.Aborted?
    ensures m <= n && Run(events[..m]).clients == {} && !Run(events[..m]).upstream.Stopped? && NoEnd(events, m, n)
    decreases n
  {
    hide Step, Run;
    NotAtFirst(events, n);
    NextStep(events, n - 1);
    AbortStep(Run(events[..n - 1]), events[n - 1]);
    if Run(events[..n - 1]).upstream.Aborted? {
      m := AbortedWasLeft(events, n - 1);
    } else {
      m := n;
    }
  }

  lemma NotAtFirst(events: seq<Event>, n: nat)
    requires n <= |events| && Run(events[..n]).upstream.Aborted?
    ensures n > 0
  {
  }

  lemma AbortStep(s: State, e: Event)
    requires Step(s, e).upstream.Aborted?
    ensures !e.UpstreamEnds? && (s.upstream.Aborted? || Step(s, e).clients == {})
  {
  }

  lemma LeftStep(s: State, e: Event, c: nat)
    requires c in s.viewers && c in s.received && c !in s.clients
    ensures var s' := Step(s, e);
      c in s'.viewers && c !in s'.clients && c in s'.received && s'.received[c] == s.received[c]
  {
  }

  // ----- What viewers get -----

  /** After a viewer left, it gets nothing more. */
  lemma {:induction false} LeftGetsNothing(events: seq<Event>, c: nat, m: nat, n: nat)
    requires m <= n <= |events|
    requires c in Run(events[..m]).received && c in Run(events[..m]).viewers && c !in Run(events[..m]).clients
    ensures var s := Run(events[..n]);
      && c in s.viewers && c !in s.clients
      && c in s.received && s.received[c] == Run(events[..m]).received[c]
    decreases n
  {
    hide Step, Run;
    if n > m {
      NextStep(events, n - 1);
      LeftGetsNothing(events, c, m, n - 1);
      LeftStep(Run(events[..n - 1]), events[n - 1], c);
    }
  }

  /**
   * A viewer that connects with event `k` to resume from `r` and is attached after `n` events got
   * exactly the frames after `r` of everything broadcast if and only if the one after `r` was still
   * buffered or next to come when it connected, or `r` was ahead and no frame has come since.
   */
  lemma ResumeFromEvent(events: seq<Event>, k: nat, n: nat, r: int)
    requires IsFirstConnect(events, k) && k < n <= |events| && events[k].resumeFrom == Some(r)
    requires IsAttached(events, events[k].client, n)
    ensures var c, s := events[k].client, Run(events[..n]);
      var connectedAt := |Broadcasts(events, k)|;
      && c in s.received
      && (s.received[c] == FramesAfter(Broadcasts(events, n), r) <==>
           || connectedAt - MANAGER_LOG_BUFFER_FRAMES <= (if r < 0 then 0 else r) <= connectedAt
           || (r > connectedAt && |Broadcasts(events, n)| == connectedAt))
  {
    var c, s := events[k].client, Run(events[..n]);
    ViewerOfEvent(events, k, n);
    HistoryIs(events, k);
    HistoryIs(events, n);
    AttachedIff(events, c, n);
    RunHolds(events[..n]);
    hide Run, FramesAfter, Broadcasts, IsAttached;
    ResumeIsComplete(s, events[..n], c, r);
  }

  /** A viewer that asks for nothing in particular gets what is buffered and all that follows. */
  lemma NewViewerFromEvent(events: seq<Event>, k: nat, n: nat)
    requires IsFirstConnect(events, k) && k < n <= |events| && events[k].resumeFrom.None?
    requires IsAttached(events, events[k].client, n)
    ensures var c, s, history := events[k].client, Run(events[..n]), Broadcasts(events, n);
      var from := |Broadcasts(events, k)| - MANAGER_LOG_BUFFER_FRAMES;
      && c in s.received && from <= |history|
      && s.received[c] == Frames(history, if from < 0 then 0 else from, |history|)
  {
    hide Run, Broadcasts, IsAttached, Frames, Holds;
    var c, s := events[k].client, Run(events[..n]);
    ViewerOfEvent(events, k, n);
    HistoryIs(events, k);
    HistoryIs(events, n);
    AttachedIff(events, c, n);
    RunHolds(events[..n]);
    AttachedGot(s, c);
  }

  lemma AttachedGot(s: State, c: nat)
    requires Holds(s) && c in s.viewers && c in s.clients
    ensures StartOf(s.viewers[c]) <= |s.history|
    ensures c in s.received && s.received[c] == Frames(s.history, StartOf(s.viewers[c]), |s.history|)
  {
    hide Frames, StartOf, BufferHolds;
    assert ViewerHolds(s, c);
  }
}
