/**
 * Sharing one growing log among many clients, by offsets.
 *
 * Both services with this shape are covered: job traces, whose poller fetches the trace as
 * a whole and whose polls may overlap, and package logs, whose stream appends decoded text.
 * A poll or stream keeps hold of its entry even after the key was disposed of or reused.
 */
module LogFanout {
  import opened Wrappers

  /** Text up to a character offset. */
  datatype Chunk = Chunk(offset: nat, text: string)

  datatype Client = Client(key: string, resumeAt: nat, lastOffset: nat, received: seq<Chunk>, open: bool)

  datatype LogEntry = LogEntry(key: string, clients: set<nat>, text: string, terminal: bool)

  /** Entries are numbered in the order they were created; `current` says which one a key leads to. */
  datatype State = State(entries: seq<LogEntry>, current: map<string, nat>, clients: map<nat, Client>)

  datatype Event =
    | Attach(client: nat, key: string, resumeAt: int)
    | Detach(client: nat)
    | StatusFetched(entry: nat, terminal: bool)
    | TextFetched(key: string, entry: nat, text: string)
    | FetchFails(entry: nat)
    | AbortedStreamEnds(entry: nat)

  const INITIAL := State([], map[], map[])

  // ----- Steps -----

  /** Sends what follows the client's offset; a closed subscriber ignores it. */
  function Send(c: Client, text: string): Client {
    if |text| <= c.lastOffset then c
    else
      c.(lastOffset := |text|,
         received := if c.open then c.received + [Chunk(|text|, text[c.lastOffset..])] else c.received)
  }

  function Close(c: Client): Client {
    c.(open := false)
  }

  /** Forgets the entry a key leads to, whichever it is. */
  function Dispose(s: State, key: string): State {
    s.(current := s.current - {key})
  }

  /** Takes a client out of the entry its key leads to now, and disposes of that entry when it is empty. */
  function Leave(s: State, c: nat, key: string): State {
    if key !in s.current || s.current[key] >= |s.entries| then s
    else
      var e := s.current[key];
      var entry := s.entries[e].(clients := s.entries[e].clients - {c});
      var s' := s.(entries := s.entries[e := entry]);
      if entry.clients == {} then Dispose(s', key) else s'
  }

  function AttachTo(s: State, c: nat, key: string, resumeAt: int): State {
    var client := Client(key, if resumeAt < 0 then 0 else resumeAt, if resumeAt < 0 then 0 else resumeAt, [], true);
    if key in s.current && s.current[key] < |s.entries| then
      var e := s.current[key];
      s.(entries := s.entries[e := s.entries[e].(clients := s.entries[e].clients + {c})],
         clients := s.clients[c := Send(client, s.entries[e].text)])
    else
      s.(entries := s.entries + [LogEntry(key, {c}, "", false)],
         current := s.current[key := |s.entries|],
         clients := s.clients[c := client])
  }

  /** The members are sent the text, and closed when it is the last. */
  function SentAll(clients: map<nat, Client>, members: set<nat>, text: string, last: bool): map<nat, Client> {
    map c | c in clients ::
      if c !in members then clients[c]
      else if last then Close(Send(clients[c], text))
      else Send(clients[c], text)
  }

  function ClosedAll(clients: map<nat, Client>, members: set<nat>): map<nat, Client> {
    map c | c in clients :: if c in members then Close(clients[c]) else clients[c]
  }

  /** Every client of the entry is sent the new text, and closed if the job is over. */
  function Fetch(s: State, e: nat, text: string): State
    requires e < |s.entries|
  {
    var entry := s.entries[e];
    var s' := s.(entries := s.entries[e := entry.(text := text)],
                 clients := SentAll(s.clients, entry.clients, text, entry.terminal));
    if entry.terminal then Finish(s', e) else s'
  }

  function Fail(s: State, e: nat): State
    requires e < |s.entries|
  {
    Finish(s.(clients := ClosedAll(s.clients, s.entries[e].clients)), e)
  }

  /** Closed clients leave the entry if its key still leads to it; the key is disposed of in any case. */
  function Finish(s: State, e: nat): State
    requires e < |s.entries|
  {
    var entry := s.entries[e];
    var left := if entry.key in s.current && s.current[entry.key] == e then entry.(clients := {}) else entry;
    Dispose(s.(entries := s.entries[e := left]), entry.key)
  }

  function Step(s: State, e: Event): State {
    match e
    case Attach(c, key, resumeAt) => if c in s.clients then s else AttachTo(s, c, key, resumeAt)
    case Detach(c) =>
      if c !in s.clients || !s.clients[c].open then s
      else Leave(s.(clients := s.clients[c := Close(s.clients[c])]), c, s.clients[c].key)
    case StatusFetched(n, terminal) =>
      if n < |s.entries| then s.(entries := s.entries[n := s.entries[n].(terminal := terminal)]) else s
    case TextFetched(key, n, text) => if n < |s.entries| && s.entries[n].key == key then Fetch(s, n, text) else s
    case FetchFails(n) => if n < |s.entries| then Fail(s, n) else s
    case AbortedStreamEnds(n) => if n < |s.entries| then Dispose(s, s.entries[n].key) else s
  }

  function Run(events: seq<Event>): State {
    if events == [] then INITIAL else Step(Run(events[..|events| - 1]), events[|events| - 1])
  }

  // ----- What every client received -----

  /** The log behind each key only grows, so everything ever fetched is a prefix of its final text. */
  predicate IsFaithful(log: string -> string, e: Event) {
    e.TextFetched? ==> e.text <= log(e.key)
  }

  predicate AreFaithful(log: string -> string, events: seq<Event>) {
    forall i :: 0 <= i < |events| ==> IsFaithful(log, events[i])
  }

  function Text(chunks: seq<Chunk>): string {
    if chunks == [] then "" else Text(chunks[..|chunks| - 1]) + chunks[|chunks| - 1].text
  }

  /** The offset a client would resume from. */
  function EndOf(c: Client): nat {
    if c.received == [] then c.resumeAt else c.received[|c.received| - 1].offset
  }

  /** The chunks follow each other without gap or overlap, from `start` on. */
  ghost predicate AreContiguous(chunks: seq<Chunk>, start: nat) {
    && (forall i :: 0 <= i < |chunks| ==> chunks[i].text != "")
    && (chunks != [] ==> chunks[0].offset == start + |chunks[0].text|)
    && (forall i :: 0 < i < |chunks| ==> chunks[i].offset == chunks[i - 1].offset + |chunks[i].text|)
  }

  /** What a client received is the slice of the log from where it resumed to its last chunk. */
  ghost predicate ClientHolds(log: string -> string, c: Client) {
    && AreContiguous(c.received, c.resumeAt)
    && (c.received != [] ==>
         && c.resumeAt < EndOf(c) <= |log(c.key)|
         && Text(c.received) == log(c.key)[c.resumeAt..EndOf(c)])
    && (c.open ==> c.lastOffset == EndOf(c))
  }

  ghost predicate EntriesHold(log: string -> string, s: State) {
    && (forall i :: 0 <= i < |s.entries| ==> s.entries[i].text <= log(s.entries[i].key))
    && (forall key :: key in s.current ==> s.current[key] < |s.entries| && s.entries[s.current[key]].key == key)
  }

  /** The clients of an entry are clients of its key. */
  ghost predicate LinksHold(s: State) {
    forall i, c :: 0 <= i < |s.entries| && c in s.entries[i].clients ==>
      c in s.clients && s.clients[c].key == s.entries[i].key
  }

  ghost predicate ClientsHold(log: string -> string, s: State) {
    forall c :: c in s.clients ==> ClientHolds(log, s.clients[c])
  }

  ghost predicate Holds(log: string -> string, s: State) {
    EntriesHold(log, s) && LinksHold(s) && ClientsHold(log, s)
  }

  lemma ContiguousAppend(chunks: seq<Chunk>, start: nat, chunk: Chunk)
    requires AreContiguous(chunks, start) && chunk.text != ""
    requires chunk.offset == (if chunks == [] then start else chunks[|chunks| - 1].offset) + |chunk.text|
    ensures AreContiguous(chunks + [chunk], start)
  {
    var all := chunks + [chunk];
    assert forall i :: 0 <= i < |chunks| ==> all[i] == chunks[i];
    assert all[|chunks|] == chunk;
  }

  lemma TextAppend(chunks: seq<Chunk>, chunk: Chunk)
    ensures Text(chunks + [chunk]) == Text(chunks) + chunk.text
  {
    assert (chunks + [chunk])[..|chunks|] == chunks;
  }

  lemma SliceAppend(whole: string, from: nat, middle: nat, end: nat)
    requires from <= middle <= end <= |whole|
    ensures whole[from..middle] + whole[middle..end] == whole[from..end]
  {
  }

  lemma SendHolds(log: string -> string, c: Client, text: string)
    requires ClientHolds(log, c) && text <= log(c.key)
    ensures ClientHolds(log, Send(c, text))
  {
    if |text| > c.lastOffset && c.open {
      var whole := log(c.key);
      var chunk := Chunk(|text|, text[c.lastOffset..]);
      assert chunk.text == whole[c.lastOffset..|text|];
      ContiguousAppend(c.received, c.resumeAt, chunk);
      TextAppend(c.received, chunk);
      hide Text, AreContiguous;
      SliceAppend(whole, c.resumeAt, c.lastOffset, |text|);
      var c' := Send(c, text);
      assert c'.received == c.received + [chunk] && EndOf(c') == |text|;
      EmptyText();
    }
  }

  lemma EmptyText()
    ensures Text([]) == ""
  {
  }

  lemma CloseHolds(log: string -> string, c: Client)
    requires ClientHolds(log, c)
    ensures ClientHolds(log, Close(c))
  {
  }

  lemma KeysStay(c: Client, text: string)
    ensures Send(c, text).key == c.key && Close(c).key == c.key
  {
  }

  /** A step that changes no text and no client. */
  lemma EntriesFrame(log: string -> string, s: State, e: nat, entry: LogEntry, current: map<string, nat>)
    requires Holds(log, s) && e < |s.entries| && current.Keys <= s.current.Keys
    requires forall key :: key in current ==> current[key] == s.current[key]
    requires entry.key == s.entries[e].key && entry.text == s.entries[e].text && entry.clients <= s.entries[e].clients
    ensures Holds(log, s.(entries := s.entries[e := entry], current := current))
  {
    hide ClientHolds;
  }

  /** A step that replaces clients by clients of the same key. */
  lemma ClientsFrame(log: string -> string, s: State, clients: map<nat, Client>)
    requires Holds(log, s) && s.clients.Keys <= clients.Keys
    requires forall c :: c in clients ==> ClientHolds(log, clients[c])
    requires forall c :: c in s.clients ==> clients[c].key == s.clients[c].key
    ensures Holds(log, s.(clients := clients))
  {
    hide ClientHolds;
  }

  lemma FinishHolds(log: string -> string, s: State, e: nat)
    requires Holds(log, s) && e < |s.entries|
    ensures Holds(log, Finish(s, e))
  {
    var entry := s.entries[e];
    var left := if entry.key in s.current && s.current[entry.key] == e then entry.(clients := {}) else entry;
    EntriesFrame(log, s, e, left, s.current - {entry.key});
  }

  /** The clients after a fetch or a failure. */
  lemma UpdateHolds(log: string -> string, s: State, e: nat, text: string, clients: map<nat, Client>)
    requires Holds(log, s) && e < |s.entries| && text <= log(s.entries[e].key)
    requires clients.Keys == s.clients.Keys
    requires forall c :: c in clients ==>
      clients[c] == s.clients[c]
      || (c in s.entries[e].clients &&
          clients[c] in {Send(s.clients[c], text), Close(Send(s.clients[c], text)), Close(s.clients[c])})
    ensures Holds(log, s.(clients := clients))
  {
    forall c | c in clients
      ensures ClientHolds(log, clients[c]) && clients[c].key == s.clients[c].key
    {
      assert ClientHolds(log, s.clients[c]);
      KeysStay(s.clients[c], text);
      CloseHolds(log, s.clients[c]);
      if c in s.entries[e].clients {
        SendHolds(log, s.clients[c], text);
        CloseHolds(log, Send(s.clients[c], text));
      }
    }
    ClientsFrame(log, s, clients);
  }

  lemma TextHolds(log: string -> string, s: State, e: nat, text: string)
    requires Holds(log, s) && e < |s.entries| && text <= log(s.entries[e].key)
    ensures Holds(log, s.(entries := s.entries[e := s.entries[e].(text := text)]))
  {
    hide ClientHolds;
  }

  lemma FetchHolds(log: string -> string, s: State, e: nat, text: string)
    requires Holds(log, s) && e < |s.entries| && text <= log(s.entries[e].key)
    ensures Holds(log, Fetch(s, e, text))
  {
    hide Holds, Send, Close, Finish;
    var entry := s.entries[e];
    var clients := map c | c in s.clients ::
      if c !in entry.clients then s.clients[c]
      else if entry.terminal then Close(Send(s.clients[c], text))
      else Send(s.clients[c], text);
    UpdateHolds(log, s, e, text, clients);
    var sent := s.(clients := clients);
    TextHolds(log, sent, e, text);
    var s' := sent.(entries := s.entries[e := entry.(text := text)]);
    FinishHolds(log, s', e);
  }

  lemma FailHolds(log: string -> string, s: State, e: nat)
    requires Holds(log, s) && e < |s.entries|
    ensures Holds(log, Fail(s, e))
  {
    var clients := map c | c in s.clients :: if c in s.entries[e].clients then Close(s.clients[c]) else s.clients[c];
    assert s.entries[e].text <= log(s.entries[e].key);
    hide Holds, Send, Close, Finish;
    UpdateHolds(log, s, e, s.entries[e].text, clients);
    FinishHolds(log, s.(clients := clients), e);
  }

  lemma JoinHolds(log: string -> string, s: State, c: nat, client: Client, e: nat)
    requires Holds(log, s) && c !in s.clients && e < |s.entries|
    requires client.key == s.entries[e].key && ClientHolds(log, client)
    ensures Holds(log, s.(entries := s.entries[e := s.entries[e].(clients := s.entries[e].clients + {c})],
                          clients := s.clients[c := client]))
  {
    hide ClientHolds;
  }

  lemma OpenHolds(log: string -> string, s: State, c: nat, client: Client)
    requires Holds(log, s) && c !in s.clients && ClientHolds(log, client)
    ensures Holds(log, s.(entries := s.entries + [LogEntry(client.key, {c}, "", false)],
                          current := s.current[client.key := |s.entries|],
                          clients := s.clients[c := client]))
  {
    hide ClientHolds;
  }

  lemma AttachHolds(log: string -> string, s: State, c: nat, key: string, resumeAt: int)
    requires Holds(log, s) && c !in s.clients
    ensures Holds(log, AttachTo(s, c, key, resumeAt))
  {
    var start := if resumeAt < 0 then 0 else resumeAt;
    var client := Client(key, start, start, [], true);
    assert ClientHolds(log, client);
    if key in s.current {
      var e := s.current[key];
      SendHolds(log, client, s.entries[e].text);
      KeysStay(client, s.entries[e].text);
      hide Send, ClientHolds;
      JoinHolds(log, s, c, Send(client, s.entries[e].text), e);
    } else {
      OpenHolds(log, s, c, client);
    }
  }

  lemma DetachHolds(log: string -> string, s: State, c: nat)
    requires Holds(log, s)
    ensures Holds(log, Step(s, Detach(c)))
  {
    if c in s.clients && s.clients[c].open {
      var key := s.clients[c].key;
      var closed := s.clients[c := Close(s.clients[c])];
      CloseHolds(log, s.clients[c]);
      ClientsFrame(log, s, closed);
      var s' := s.(clients := closed);
      if key in s.current {
        var e := s.current[key];
        var entry := s.entries[e].(clients := s.entries[e].clients - {c});
        EntriesFrame(log, s', e, entry, if entry.clients == {} then s.current - {key} else s.current);
      }
    }
  }

  lemma StepHolds(log: string -> string, s: State, e: Event)
    requires Holds(log, s) && IsFaithful(log, e)
    ensures Holds(log, Step(s, e))
  {
    hide Holds;
    match e {
      case Attach(c, key, resumeAt) =>
        if c !in s.clients { AttachHolds(log, s, c, key, resumeAt); }
      case Detach(c) => DetachHolds(log, s, c);
      case StatusFetched(n, terminal) =>
        if n < |s.entries| { EntriesFrame(log, s, n, s.entries[n].(terminal := terminal), s.current); }
      case TextFetched(key, n, text) =>
        if n < |s.entries| && s.entries[n].key == key { FetchHolds(log, s, n, text); }
      case FetchFails(n) =>
        if n < |s.entries| { FailHolds(log, s, n); }
      case AbortedStreamEnds(n) =>
        if n < |s.entries| { EntriesFrame(log, s, n, s.entries[n], s.current - {s.entries[n].key}); }
        assert n < |s.entries| ==> s.entries[n := s.entries[n]] == s.entries;
    }
  }

  /**
   * Under any order of attaching, detaching, overlapping and out-of-order fetches, every
   * client received a slice of the log, without gap or duplicate.
   */
  lemma {:induction false} RunHolds(log: string -> string, events: seq<Event>)
    requires AreFaithful(log, events)
    ensures Holds(log, Run(events))
  {
    if events != [] {
      RunHolds(log, events[..|events| - 1]);
      StepHolds(log, Run(events[..|events| - 1]), events[|events| - 1]);
    }
  }

  /** A client that resumes where another one ended continues its text seamlessly. */
  lemma ReconnectContinues(log: string -> string, events: seq<Event>, first: Client, second: Client)
    requires AreFaithful(log, events)
    requires first in Run(events).clients.Values && second in Run(events).clients.Values
    requires first.key == second.key && second.resumeAt == EndOf(first) && first.resumeAt <= |log(first.key)|
    ensures first.resumeAt <= EndOf(second) <= |log(first.key)|
    ensures Text(first.received) + Text(second.received) == log(first.key)[first.resumeAt..EndOf(second)]
  {
    hide *;
    RunHolds(log, events);
    OneClientHolds(log, Run(events), first);
    OneClientHolds(log, Run(events), second);
    SlicesJoin(log, first, second);
  }

  lemma OneClientHolds(log: string -> string, s: State, client: Client)
    requires Holds(log, s) && client in s.clients.Values
    ensures ClientHolds(log, client)
  {
    hide ClientHolds;
  }

  lemma SlicesJoin(log: string -> string, first: Client, second: Client)
    requires ClientHolds(log, first) && ClientHolds(log, second)
    requires first.key == second.key && second.resumeAt == EndOf(first) && first.resumeAt <= |log(first.key)|
    ensures first.resumeAt <= EndOf(second) <= |log(first.key)|
    ensures Text(first.received) + Text(second.received) == log(first.key)[first.resumeAt..EndOf(second)]
  {
    hide AreContiguous;
    var whole := log(first.key);
    assert whole[first.resumeAt..EndOf(first)] + whole[EndOf(first)..EndOf(second)] ==
      whole[first.resumeAt..EndOf(second)];
  }

  lemma SendReachesEnd(c: Client, text: string)
    requires c.open && c.lastOffset == EndOf(c)
    ensures EndOf(Send(c, text)) >= |text| && EndOf(Send(c, text)) >= EndOf(c)
    ensures EndOf(Close(Send(c, text))) == EndOf(Send(c, text))
  {
  }

  /** After a fetch, every open client of the entry has the text up to its end or beyond. */
  lemma FetchCatchesUp(log: string -> string, events: seq<Event>, s: State, e: nat, text: string, c: nat)
    requires AreFaithful(log, events) && s == Run(events)
    requires e < |s.entries| && c in s.entries[e].clients && c in s.clients && s.clients[c].open
    ensures var s' := Step(s, TextFetched(s.entries[e].key, e, text));
      c in s'.clients && EndOf(s'.clients[c]) >= |text| && EndOf(s'.clients[c]) >= EndOf(s.clients[c])
  {
    RunHolds(log, events);
    assert ClientHolds(log, s.clients[c]);
    SendReachesEnd(s.clients[c], text);
    hide Run, Send, Close, EndOf, ClientHolds;
  }

  lemma CurrentInRange(log: string -> string, s: State)
    requires Holds(log, s)
    ensures forall key :: key in s.current ==> s.current[key] < |s.entries|
  {
  }

  lemma ClientsKnown(log: string -> string, s: State, e: nat)
    requires Holds(log, s) && e < |s.entries|
    ensures forall c :: c in s.entries[e].clients ==> c in s.clients
  {
  }

  // ----- The service -----

  /**
   * One stream service: entries per key, and the clients its subscribers stand for. The
   * fetched texts of a key are prefixes of one log.
   */
  class LogStreams {
    ghost const log: string -> string
    var entries: seq<LogEntry>
    var current: map<string, nat>
    var clients: map<nat, Client>

    ghost function Abstract(): State
      reads this
    {
      State(entries, current, clients)
    }

    ghost predicate Valid()
      reads this
    {
      Holds(log, Abstract())
    }

    constructor (ghost log: string -> string)
      ensures this.log == log && Valid() && Abstract() == INITIAL
    {
      this.log := log;
      entries, current, clients := [], map[], map[];
    }

    /** Sends a client what follows its offset. */
    method SendChunk(text: string, c: nat)
      requires c in clients
      modifies this`clients
      ensures clients == old(clients)[c := Send(old(clients)[c], text)]
    {
      var client := clients[c];
      if |text| <= client.lastOffset { return; }
      var offset := |text|;
      if client.open {
        client := client.(received := client.received + [Chunk(offset, text[client.lastOffset..])]);
      }
      clients := clients[c := client.(lastOffset := offset)];
    }

    method Attach(c: nat, key: string, resumeAt: int)
      requires Valid() && c !in clients
      modifies this
      ensures Valid() && Abstract() == Step(old(Abstract()), Event.Attach(c, key, resumeAt))
    {
      hide Holds, Send;
      CurrentInRange(log, Abstract());
      StepHolds(log, Abstract(), Event.Attach(c, key, resumeAt));
      var start := if resumeAt < 0 then 0 else resumeAt;
      clients := clients[c := Client(key, start, start, [], true)];
      if key !in current {
        entries := entries + [LogEntry(key, {c}, "", false)];
        current := current[key := |entries| - 1];
      } else {
        var e := current[key];
        SendChunk(entries[e].text, c);
        assert clients == old(clients)[c := Send(Client(key, start, start, [], true), entries[e].text)];
        entries := entries[e := entries[e].(clients := entries[e].clients + {c})];
      }
    }

    method Detach(c: nat)
      requires Valid() && c in clients && clients[c].open
      modifies this
      ensures Valid() && Abstract() == Step(old(Abstract()), Event.Detach(c))
    {
      hide Holds, Send;
      CurrentInRange(log, Abstract());
      StepHolds(log, Abstract(), Event.Detach(c));
      var key := clients[c].key;
      clients := clients[c := clients[c].(open := false)];
      if key !in current { return; }
      var e := current[key];
      entries := entries[e := entries[e].(clients := entries[e].clients - {c})];
      if entries[e].clients == {} {
        current := current - {key};
      }
    }

    method StatusArrived(e: nat, terminal: bool)
      requires Valid() && e < |entries|
      modifies this
      ensures Valid() && Abstract() == Step(old(Abstract()), StatusFetched(e, terminal))
    {
      hide Holds;
      StepHolds(log, Abstract(), StatusFetched(e, terminal));
      entries := entries[e := entries[e].(terminal := terminal)];
    }

    /** Sends the new text of an entry to a copy of its client set, one client after the other. */
    method TextArrived(key: string, e: nat, text: string)
      requires Valid() && e < |entries| && entries[e].key == key
      modifies this
      ensures Abstract() == Step(old(Abstract()), TextFetched(key, e, text))
      ensures text <= log(key) ==> Valid()
    {
      hide Holds, SentAll, Send;
      if text <= log(key) { StepHolds(log, Abstract(), TextFetched(key, e, text)); }
      ClientsKnown(log, Abstract(), e);
      entries := entries[e := entries[e].(text := text)];
      SendToAll(entries[e].clients, text, entries[e].terminal);
      if entries[e].terminal {
        FinishEntry(e);
      }
    }

    method SendToAll(members: set<nat>, text: string, last: bool)
      requires members <= clients.Keys
      modifies this`clients
      ensures clients == SentAll(old(clients), members, text, last)
    {
      hide Send;
      var todo := members;
      while todo != {}
        invariant todo <= members && clients == SentAll(old(clients), members - todo, text, last)
        decreases todo
      {
        var c :| c in todo;
        SendChunk(text, c);
        if last {
          clients := clients[c := clients[c].(open := false)];
        }
        todo := todo - {c};
      }
    }

    /** However a fetch fails or a stream ends, the clients of its entry are closed. */
    method FetchFailed(e: nat)
      requires Valid() && e < |entries|
      modifies this
      ensures Valid() && Abstract() == Step(old(Abstract()), FetchFails(e))
    {
      hide Holds, ClosedAll;
      StepHolds(log, Abstract(), FetchFails(e));
      ClientsKnown(log, Abstract(), e);
      CloseAll(entries[e].clients);
      FinishEntry(e);
    }

    method CloseAll(members: set<nat>)
      requires members <= clients.Keys
      modifies this`clients
      ensures clients == ClosedAll(old(clients), members)
    {
      var todo := members;
      while todo != {}
        invariant todo <= members && clients == ClosedAll(old(clients), members - todo)
        decreases todo
      {
        var c :| c in todo;
        clients := clients[c := clients[c].(open := false)];
        todo := todo - {c};
      }
    }

    /** The subscribers of closed clients unsubscribe, and the entry is disposed of by its key. */
    method FinishEntry(e: nat)
      requires e < |entries|
      modifies this`entries, this`current
      ensures Abstract() == Finish(old(Abstract()), e)
    {
      var key := entries[e].key;
      if key in current && current[key] == e {
        entries := entries[e := entries[e].(clients := {})];
      }
      current := current - {key};
    }

    /** An aborted stream leaves its clients alone and disposes of whatever its key leads to now. */
    method StreamUnwinds(e: nat)
      requires Valid() && e < |entries|
      modifies this
      ensures Valid() && Abstract() == Step(old(Abstract()), AbortedStreamEnds(e))
    {
      hide Holds;
      StepHolds(log, Abstract(), AbortedStreamEnds(e));
      current := current - {entries[e].key};
    }
  }
}
