/**
 * The shared manager log: one upstream feeds every viewer, and the most recent frames are
 * kept so that a reconnecting viewer can resume after the last frame it received.
 */
module ReplayBuffer {
  import opened Wrappers

  const MANAGER_LOG_BUFFER_FRAMES := 500

  /** A frame carries its sequence number as its id. */
  datatype Frame = Frame(id: nat, data: string)

  /** What a viewer asked for, and how many frames had been broadcast when it connected. */
  datatype Viewer = Viewer(resumeFrom: Option<int>, connectedAt: nat)

  /** The upstream connection, which an abort has end soon. */
  datatype Upstream = Stopped | Running | Aborted

  datatype State = State(
    clients: set<nat>,
    buffer: seq<Frame>,
    sequence: nat,
    upstream: Upstream,
    received: map<nat, seq<Frame>>,
    // Observations: every message ever broadcast, and the viewers that ever connected.
    history: seq<string>,
    viewers: map<nat, Viewer>)

  datatype Event =
    | Connect(client: nat, resumeFrom: Option<int>)
    | Disconnect(client: nat)
    | Broadcast(message: string)
    | UpstreamEnds

  const INITIAL := State({}, [], 0, Stopped, map[], [], map[])

  // ----- Steps -----

  predicate WantsFrame(resumeFrom: Option<int>, frame: Frame) {
    resumeFrom.None? || frame.id > resumeFrom.value
  }

  /** The buffered frames a connecting viewer gets at once. */
  function Replay(buffer: seq<Frame>, resumeFrom: Option<int>): seq<Frame> {
    if buffer == [] then []
    else
      var last := buffer[|buffer| - 1];
      Replay(buffer[..|buffer| - 1], resumeFrom) + if WantsFrame(resumeFrom, last) then [last] else []
  }

  function Pushed(buffer: seq<Frame>, frame: Frame): seq<Frame> {
    var all := buffer + [frame];
    if |all| > MANAGER_LOG_BUFFER_FRAMES then all[1..] else all
  }

  /** The last viewer to leave aborts the upstream. */
  function Leave(s: State, c: nat): State {
    var clients := s.clients - {c};
    s.(clients := clients, upstream := if clients == {} && s.upstream.Running? then Aborted else s.upstream)
  }

  /** The state after an event; a viewer connects once, and frames come only from an upstream that has not ended. */
  function Step(s: State, e: Event): State {
    match e
    case Connect(c, resumeFrom) =>
      if c in s.viewers then s
      else s.(clients := s.clients + {c}, received := s.received[c := Replay(s.buffer, resumeFrom)],
              upstream := if s.upstream.Stopped? then Running else s.upstream,
              viewers := s.viewers[c := Viewer(resumeFrom, s.sequence)])
    case Disconnect(c) => Leave(s, c)
    case Broadcast(message) =>
      if s.upstream.Stopped? then s
      else
        var frame := Frame(s.sequence + 1, message);
        s.(sequence := s.sequence + 1, buffer := Pushed(s.buffer, frame), history := s.history + [message],
           received := map c | c in s.received :: if c in s.clients then s.received[c] + [frame] else s.received[c])
    case UpstreamEnds => s.(clients := {}, upstream := Stopped)
  }

  function Run(events: seq<Event>): State {
    if events == [] then INITIAL else Step(Run(events[..|events| - 1]), events[|events| - 1])
  }

  // ----- What every run promises -----

  /** The frames of the messages with numbers above `from`, up to `end`. */
  function Frames(history: seq<string>, from: nat, end: nat): (frames: seq<Frame>)
    requires from <= end <= |history|
    ensures |frames| == end - from
    ensures forall i :: 0 <= i < |frames| ==> frames[i] == Frame(from + i + 1, history[from + i])
  {
    seq(end - from, i requires 0 <= i < end - from => Frame(from + i + 1, history[from + i]))
  }

  /** The first message still buffered after `sequence` messages. */
  function Oldest(sequence: nat): nat {
    if sequence > MANAGER_LOG_BUFFER_FRAMES then sequence - MANAGER_LOG_BUFFER_FRAMES else 0
  }

  function Within(r: Option<int>, low: nat, high: nat): nat
    requires low <= high
  {
    match r
    case None => low
    case Some(x) => if x < low then low else if x > high then high else x
  }

  /** Where a viewer's frames start: where it asked for, as far as that was buffered. */
  function StartOf(v: Viewer): nat {
    Within(v.resumeFrom, Oldest(v.connectedAt), v.connectedAt)
  }

  ghost predicate BufferHolds(s: State) {
    && s.sequence == |s.history|
    && s.buffer == Frames(s.history, Oldest(s.sequence), s.sequence)
  }

  /** A viewer got consecutive frames from its start on, up to the newest one while it is attached. */
  ghost predicate ViewerHolds(s: State, c: nat)
    requires c in s.viewers && c in s.received
  {
    var start := StartOf(s.viewers[c]);
    var end := start + |s.received[c]|;
    && s.viewers[c].connectedAt <= end <= |s.history|
    && s.received[c] == Frames(s.history, start, end)
    && (c in s.clients ==> end == |s.history|)
  }

  ghost predicate Holds(s: State) {
    && BufferHolds(s)
    && s.received.Keys == s.viewers.Keys && s.clients <= s.viewers.Keys
    && (s.clients != {} ==> !s.upstream.Stopped?) && (s.clients == {} ==> !s.upstream.Running?)
    && forall c :: c in s.viewers ==> ViewerHolds(s, c)
  }

  lemma {:induction false} ReplayOfFrames(history: seq<string>, from: nat, end: nat, resumeFrom: Option<int>)
    requires from <= end <= |history|
    ensures Replay(Frames(history, from, end), resumeFrom) == Frames(history, Within(resumeFrom, from, end), end)
    decreases end
  {
    if end == from {
      assert Frames(history, from, end) == [];
    } else {
      ReplayOfFrames(history, from, end - 1, resumeFrom);
      LastFrame(history, from, end);
      LastFrame(history, Within(resumeFrom, from, end - 1), end);
      ReplayAppend(Frames(history, from, end - 1), Frame(end, history[end - 1]), resumeFrom);
      hide Replay;
    }
  }

  lemma LastFrame(history: seq<string>, from: nat, end: nat)
    requires from < end <= |history|
    ensures Frames(history, from, end) == Frames(history, from, end - 1) + [Frame(end, history[end - 1])]
  {
  }

  lemma ReplayAppend(buffer: seq<Frame>, frame: Frame, resumeFrom: Option<int>)
    ensures Replay(buffer + [frame], resumeFrom) ==
      Replay(buffer, resumeFrom) + if WantsFrame(resumeFrom, frame) then [frame] else []
  {
    assert (buffer + [frame])[..|buffer|] == buffer;
  }

  lemma FramesExtend(history: seq<string>, message: string, from: nat, end: nat)
    requires from <= end <= |history|
    ensures Frames(history + [message], from, end) == Frames(history, from, end)
    ensures end == |history| ==>
      Frames(history + [message], from, end + 1) == Frames(history, from, end) + [Frame(end + 1, message)]
    ensures from < end ==> Frames(history, from, end)[1..] == Frames(history, from + 1, end)
  {
  }

  /** What does not concern a viewer changes nothing about it. */
  lemma ViewerFrame(s: State, s': State, c: nat)
    requires c in s.viewers && c in s.received && ViewerHolds(s, c)
    requires c in s'.viewers && s'.viewers[c] == s.viewers[c] && c in s'.received && s'.received[c] == s.received[c]
    requires s'.history == s.history && (c in s'.clients ==> c in s.clients)
    ensures ViewerHolds(s', c)
  {
  }

  lemma ConnectHolds(s: State, c: nat, resumeFrom: Option<int>)
    requires Holds(s)
    ensures Holds(Step(s, Connect(c, resumeFrom)))
  {
    if c !in s.viewers {
      var s' := Step(s, Connect(c, resumeFrom));
      NewViewer(s, c, resumeFrom);
      hide Frames, Replay, ViewerHolds;
      forall x | x in s'.viewers
        ensures ViewerHolds(s', x)
      {
        if x != c { ViewerFrame(s, s', x); }
      }
    }
  }

  lemma NewViewer(s: State, c: nat, resumeFrom: Option<int>)
    requires BufferHolds(s) && c !in s.viewers
    ensures ViewerHolds(Step(s, Connect(c, resumeFrom)), c)
  {
    ReplayOfFrames(s.history, Oldest(s.sequence), s.sequence, resumeFrom);
    hide Frames, Replay;
  }

  lemma BufferExtends(s: State, message: string)
    requires BufferHolds(s) && !s.upstream.Stopped?
    ensures BufferHolds(Step(s, Broadcast(message)))
  {
    var oldest := Oldest(s.sequence);
    FramesExtend(s.history, message, oldest, s.sequence);
    hide Frames;
    if s.sequence >= MANAGER_LOG_BUFFER_FRAMES {
      FramesExtend(s.history + [message], message, oldest, s.sequence + 1);
    }
  }

  lemma ViewerExtends(s: State, message: string, c: nat)
    requires !s.upstream.Stopped? && c in s.viewers && c in s.received && ViewerHolds(s, c) && s.sequence == |s.history|
    ensures ViewerHolds(Step(s, Broadcast(message)), c)
  {
    var start := StartOf(s.viewers[c]);
    FramesExtend(s.history, message, start, start + |s.received[c]|);
    hide Frames, StartOf;
  }

  lemma BroadcastHolds(s: State, message: string)
    requires Holds(s)
    ensures Holds(Step(s, Broadcast(message)))
  {
    if !s.upstream.Stopped? {
      BufferExtends(s, message);
      hide ViewerHolds, BufferHolds;
      forall x | x in s.viewers
        ensures ViewerHolds(Step(s, Broadcast(message)), x)
      {
        ViewerExtends(s, message, x);
      }
    }
  }

  lemma StepHolds(s: State, e: Event)
    requires Holds(s)
    ensures Holds(Step(s, e))
  {
    match e {
      case Connect(c, resumeFrom) => ConnectHolds(s, c, resumeFrom);
      case Broadcast(message) => BroadcastHolds(s, message);
      case _ =>
        hide Frames, ViewerHolds;
        forall x | x in s.viewers
          ensures ViewerHolds(Step(s, e), x)
        {
          ViewerFrame(s, Step(s, e), x);
        }
    }
  }

  /**
   * In every run, across upstream restarts, the buffer is the last 500 frames with
   * consecutive ids, and every viewer got consecutive frames without gap or duplicate.
   */
  lemma {:induction false} RunHolds(events: seq<Event>)
    ensures Holds(Run(events))
    ensures BufferHolds(Run(events))
  {
    if events != [] {
      RunHolds(events[..|events| - 1]);
      StepHolds(Run(events[..|events| - 1]), events[|events| - 1]);
    }
  }

  /** The frames a viewer that wants what follows `r` should have got: those of everything broadcast. */
  function FramesAfter(history: seq<string>, r: int): seq<Frame> {
    Replay(Frames(history, 0, |history|), Some(r))
  }

  /**
   * An attached viewer resuming from `r` got exactly the frames after `r` if and only if the
   * one after `r` was still buffered or next to come when it connected, or `r` was ahead and
   * no frame has come since. Numbers below zero ask for everything.
   */
  lemma ResumeIsComplete(s: State, events: seq<Event>, c: nat, r: int)
    requires s == Run(events) && c in s.clients && c in s.viewers && c in s.received
    requires s.viewers[c].resumeFrom == Some(r)
    ensures var connectedAt := s.viewers[c].connectedAt;
      s.received[c] == FramesAfter(s.history, r) <==>
        || connectedAt - MANAGER_LOG_BUFFER_FRAMES <= (if r < 0 then 0 else r) <= connectedAt
        || (r > connectedAt && |s.history| == connectedAt)
  {
    RunHolds(events);
    assert ViewerHolds(s, c);
    ReplayOfFrames(s.history, 0, |s.history|, Some(r));
    hide Run, Replay;
    assert |s.received[c]| == |s.history| - StartOf(s.viewers[c]);
    assert |FramesAfter(s.history, r)| == |s.history| - Within(Some(r), 0, |s.history|);
  }

  // ----- The controller -----

  class ManagerLogs {
    var managerLogClients: set<nat>
    var managerLogBuffer: seq<Frame>
    var managerLogSequence: nat
    var upstream: Upstream
    /** What each viewer's callback was given. */
    var received: map<nat, seq<Frame>>
    ghost var history: seq<string>
    ghost var viewers: map<nat, Viewer>

    ghost function Abstract(): State
      reads this
    {
      State(managerLogClients, managerLogBuffer, managerLogSequence, upstream, received, history, viewers)
    }

    ghost predicate Valid()
      reads this
    {
      Holds(Abstract())
    }

    constructor ()
      ensures Valid() && Abstract() == INITIAL
    {
      managerLogClients, managerLogBuffer, managerLogSequence, upstream := {}, [], 0, Stopped;
      received, history, viewers := map[], [], map[];
    }

    method AddManagerLogClient(client: nat, resumeFrom: Option<int>)
      requires Valid() && client !in viewers
      modifies this
      ensures Valid() && Abstract() == Step(old(Abstract()), Connect(client, resumeFrom))
    {
      hide Holds;
      managerLogClients := managerLogClients + {client};
      viewers := viewers[client := Viewer(resumeFrom, managerLogSequence)];
      var replayed := [];
      var i := 0;
      while i < |managerLogBuffer|
        modifies {}
        invariant 0 <= i <= |managerLogBuffer|
        invariant replayed == Replay(managerLogBuffer[..i], resumeFrom)
      {
        var frame := managerLogBuffer[i];
        assert managerLogBuffer[..i + 1][..i] == managerLogBuffer[..i];
        if resumeFrom.None? || frame.id > resumeFrom.value {
          replayed := replayed + [frame];
        }
        i := i + 1;
      }
      assert managerLogBuffer[..i] == managerLogBuffer;
      received := received[client := replayed];
      if upstream.Stopped? {
        upstream := Running;
      }
      StepHolds(old(Abstract()), Connect(client, resumeFrom));
    }

    method RemoveManagerLogClient(client: nat)
      requires Valid()
      modifies this
      ensures Valid() && Abstract() == Step(old(Abstract()), Disconnect(client))
    {
      hide Holds;
      managerLogClients := managerLogClients - {client};
      if managerLogClients == {} && upstream.Running? {
        upstream := Aborted;
      }
      StepHolds(old(Abstract()), Disconnect(client));
    }

    method BroadcastManagerLogFrame(message: string)
      requires Valid() && !upstream.Stopped?
      modifies this
      ensures Valid() && Abstract() == Step(old(Abstract()), Broadcast(message))
    {
      hide Holds;
      managerLogSequence := managerLogSequence + 1;
      var frame := Frame(managerLogSequence, message);
      managerLogBuffer := managerLogBuffer + [frame];
      if |managerLogBuffer| > MANAGER_LOG_BUFFER_FRAMES {
        managerLogBuffer := managerLogBuffer[1..];
      }
      history := history + [message];
      received := map c | c in received :: if c in managerLogClients then received[c] + [frame] else received[c];
      StepHolds(old(Abstract()), Broadcast(message));
    }

    /** However the upstream ends, its viewers are completed and forgotten. */
    method StreamEnded()
      requires Valid()
      modifies this
      ensures Valid() && Abstract() == Step(old(Abstract()), UpstreamEnds)
    {
      hide Holds;
      managerLogClients := {};
      upstream := Stopped;
      StepHolds(old(Abstract()), UpstreamEnds);
    }
  }
}
