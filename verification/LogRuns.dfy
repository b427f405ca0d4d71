/**
 * What becomes of the clients of a shared log, told from the events: which entry a client
 * joins, how long it stays open, and how far its text reaches.
 */
module LogRuns {
  import opened LogFanout
  import opened Wrappers

  lemma NextStep(events: seq<Event>, n: nat)
    requires n < |events|
    ensures Run(events[..n + 1]) == Step(Run(events[..n]), events[n])
  {
    assert events[..n + 1][..n] == events[..n];
  }

  // ----- Keys, entries and clients belong together -----

  ghost predicate KeysLinked(s: State) {
    forall key :: key in s.current ==> s.current[key] < |s.entries| && s.entries[s.current[key]].key == key
  }

  /** What one event does to a client that is already there. */
  function ClientAfter(s: State, e: Event, c: nat): Client
    requires c in s.clients
  {
    var client := s.clients[c];
    match e
    case Detach(d) => if d == c then Close(client) else client
    case TextFetched(key, n, text) =>
      if n < |s.entries| && s.entries[n].key == key && c in s.entries[n].clients
      then if s.entries[n].terminal then Close(Send(client, text)) else Send(client, text)
      else client
    case FetchFails(n) => if n < |s.entries| && c in s.entries[n].clients then Close(client) else client
    case _ => client
  }

  lemma StepClients(s: State, e: Event)
    ensures forall c :: c in s.clients ==> c in Step(s, e).clients && Step(s, e).clients[c] == ClientAfter(s, e, c)
    ensures forall c :: c in Step(s, e).clients <==> c in s.clients || (e.Attach? && e.client == c)
  {
    hide Send;
  }

  /** An event that ends the entry whatever its number. */
  predicate Finishes(s: State, e: Event, n: nat)
    requires n < |s.entries|
  {
    || e == FetchFails(n)
    || (e.TextFetched? && e.entry == n && e.key == s.entries[n].key && s.entries[n].terminal)
  }

  lemma StepEntries(s: State, e: Event, n: nat)
    requires n < |s.entries|
    ensures n < |Step(s, e).entries| && Step(s, e).entries[n].key == s.entries[n].key
    ensures Step(s, e).entries[n].text ==
      if e.TextFetched? && e.entry == n && e.key == s.entries[n].key then e.text else s.entries[n].text
    ensures Step(s, e).entries[n].terminal ==
      if e.StatusFetched? && e.entry == n then e.terminal else s.entries[n].terminal
  {
    hide Send;
  }

  /** Members leave by detaching and when the entry ends; only attaching makes a member. */
  lemma StepMembers(s: State, e: Event, n: nat, c: nat)
    requires n < |s.entries|
    ensures c in Step(s, e).entries[n].clients && !(e.Attach? && e.client == c && c !in s.clients) ==>
      c in s.entries[n].clients
    ensures c in s.entries[n].clients && e != Detach(c) && !Finishes(s, e, n) ==> c in Step(s, e).entries[n].clients
  {
    hide Send, SentAll;
  }

  /** A new client is sent what its entry has, or a new entry is opened for it. */
  lemma StepAttach(s: State, c: nat, key: string, resumeAt: int)
    requires KeysLinked(s) && c !in s.clients
    ensures var s' := Step(s, Attach(c, key, resumeAt));
      var e := if key in s.current then s.current[key] else |s.entries|;
      var start := if resumeAt < 0 then 0 else resumeAt;
      && |s'.entries| == (if key in s.current then |s.entries| else |s.entries| + 1)
      && key in s'.current && s'.current[key] == e < |s'.entries|
      && s'.entries[e].key == key && c in s'.entries[e].clients
      && (key !in s.current ==> s'.entries[e].text == "" && !s'.entries[e].terminal)
      && c in s'.clients && s'.clients[c] == Send(Client(key, start, start, [], true), s'.entries[e].text)
      && (forall i, d :: 0 <= i < |s'.entries| && d in s'.entries[i].clients ==>
           (d == c && i == e) || (i < |s.entries| && d in s.entries[i].clients))
  {
  }

  lemma StepNumbers(s: State, e: Event)
    ensures |s.entries| <= |Step(s, e).entries|
    ensures !(e.Attach? && e.client !in s.clients) ==>
      && |Step(s, e).entries| == |s.entries|
      && forall key :: key in Step(s, e).current ==> key in s.current && Step(s, e).current[key] == s.current[key]
    ensures e.Attach? && e.client !in s.clients && KeysLinked(s) ==>
      forall key :: key != e.key ==>
        (key in Step(s, e).current <==> key in s.current)
        && (key in s.current ==> Step(s, e).current[key] == s.current[key])
  {
    hide Send, SentAll, ClosedAll;
  }

  lemma StepKeysLinked(s: State, e: Event)
    requires KeysLinked(s)
    ensures KeysLinked(Step(s, e))
  {
    hide Step;
    StepNumbers(s, e);
    forall n | 0 <= n < |s.entries|
      ensures n < |Step(s, e).entries| && Step(s, e).entries[n].key == s.entries[n].key
    {
      StepEntries(s, e, n);
    }
    if e.Attach? && e.client !in s.clients { StepAttach(s, e.client, e.key, e.resumeAt); }
  }

  // ----- One client and its entry -----

  /** The client is in the entry while it is open, and in no other. */
  ghost predicate Joined(s: State, c: nat, n: nat) {
    && c in s.clients && n < |s.entries| && s.entries[n].key == s.clients[c].key
    && (s.clients[c].open ==> c in s.entries[n].clients)
    && forall i :: 0 <= i < |s.entries| && c in s.entries[i].clients ==> i == n
  }

  /** The event closes the client of the entry. */
  predicate Closes(s: State, e: Event, c: nat, n: nat)
    requires n < |s.entries|
  {
    e == Detach(c) || Finishes(s, e, n)
  }

  lemma StepOthers(s: State, e: Event, c: nat)
    requires KeysLinked(s) && c in s.clients
    ensures forall i :: 0 <= i < |Step(s, e).entries| && c in Step(s, e).entries[i].clients ==>
      i < |s.entries| && c in s.entries[i].clients
  {
    hide Step;
    StepNumbers(s, e);
    forall i | 0 <= i < |Step(s, e).entries| && c in Step(s, e).entries[i].clients
      ensures i < |s.entries| && c in s.entries[i].clients
    {
      if e.Attach? && e.client !in s.clients {
        StepAttach(s, e.client, e.key, e.resumeAt);
      } else {
        StepMembers(s, e, i, c);
      }
    }
  }

  lemma StepJoined(s: State, e: Event, c: nat, n: nat)
    requires KeysLinked(s) && Joined(s, c, n)
    ensures Joined(Step(s, e), c, n)
    ensures var client, client' := s.clients[c], Step(s, e).clients[c];
      && client'.key == client.key && client'.resumeAt == client.resumeAt
      && (client'.open <==> client.open && !Closes(s, e, c, n))
  {
    hide Step, Send, EndOf;
    StepClients(s, e);
    StepEntries(s, e, n);
    StepMembers(s, e, n, c);
    StepOthers(s, e, c);
    if e.TextFetched? { SendKeeps(s.clients[c], e.text); }
  }

  lemma SendKeeps(c: Client, text: string)
    ensures Send(c, text).key == c.key && Send(c, text).resumeAt == c.resumeAt && Send(c, text).open == c.open
  {
  }

  // ----- Runs -----

  /** Event `k` attaches a client for the first time. */
  ghost predicate IsFirstAttach(events: seq<Event>, k: nat) {
    && k < |events| && events[k].Attach?
    && forall j :: 0 <= j < k && events[j].Attach? ==> events[j].client != events[k].client
  }

  /** The entry a client attached by event `k` joins: the one of its key, or else a new one. */
  ghost function EntryOf(events: seq<Event>, k: nat): nat
    requires k < |events| && events[k].Attach?
  {
    var s := Run(events[..k]);
    if events[k].key in s.current then s.current[events[k].key] else |s.entries|
  }

  lemma {:induction false} KnownIff(events: seq<Event>, n: nat, c: nat)
    requires n <= |events|
    ensures c in Run(events[..n]).clients <==> exists k :: 0 <= k < n && events[k].Attach? && events[k].client == c
    decreases n
  {
    if n > 0 {
      hide Step, Run;
      NextStep(events, n - 1);
      KnownIff(events, n - 1, c);
      StepClients(Run(events[..n - 1]), events[n - 1]);
      if c in Run(events[..n]).clients && c !in Run(events[..n - 1]).clients {
        assert events[n - 1].Attach? && events[n - 1].client == c;
      }
    }
  }

  lemma {:induction false} RunKeysLinked(events: seq<Event>, n: nat)
    requires n <= |events|
    ensures KeysLinked(Run(events[..n]))
    decreases n
  {
    if n > 0 {
      hide Step, KeysLinked;
      NextStep(events, n - 1);
      RunKeysLinked(events, n - 1);
      StepKeysLinked(Run(events[..n - 1]), events[n - 1]);
    }
  }

  /** The clients of an entry are clients of its key, whatever is fetched. */
  lemma {:induction false} RunLinksHold(events: seq<Event>, n: nat)
    requires n <= |events|
    ensures LinksHold(Run(events[..n]))
    decreases n
  {
    if n > 0 {
      hide Step, KeysLinked, LinksHold;
      NextStep(events, n - 1);
      RunKeysLinked(events, n - 1);
      RunLinksHold(events, n - 1);
      StepLinksHold(Run(events[..n - 1]), events[n - 1]);
    } else {
      assert events[..0] == [];
    }
  }

  lemma StepLinksHold(s: State, e: Event)
    requires KeysLinked(s) && LinksHold(s)
    ensures LinksHold(Step(s, e))
  {
    hide Step, KeysLinked, Send;
    StepClients(s, e);
    StepNumbers(s, e);
    forall n, c | 0 <= n < |Step(s, e).entries| && c in Step(s, e).entries[n].clients
      ensures c in Step(s, e).clients && Step(s, e).clients[c].key == Step(s, e).entries[n].key
    {
      if e.Attach? && e.client !in s.clients {
        StepAttach(s, e.client, e.key, e.resumeAt);
        KeyAfterSend();
      }
      if n < |s.entries| {
        StepMembers(s, e, n, c);
        StepEntries(s, e, n);
        if c in s.clients { KeyStays(s, e, c); }
      }
    }
  }

  lemma KeyAfterSend()
    ensures forall c, text :: Send(c, text).key == c.key
  {
  }

  lemma KeyStays(s: State, e: Event, c: nat)
    requires c in s.clients
    ensures ClientAfter(s, e, c).key == s.clients[c].key
  {
  }

  lemma JoinsEntry(events: seq<Event>, k: nat)
    requires IsFirstAttach(events, k)
    ensures var s, e := Run(events[..k + 1]), events[k];
      var n, start := EntryOf(events, k), if e.resumeAt < 0 then 0 else e.resumeAt;
      && Joined(s, e.client, n) && e.key in s.current && s.current[e.key] == n
      && s.clients[e.client] == Send(Client(e.key, start, start, [], true), s.entries[n].text)
      && (e.key !in Run(events[..k]).current ==> s.entries[n].text == "" && !s.entries[n].terminal)
  {
    hide Step, Run, Send, KeysLinked;
    var e := events[k];
    NextStep(events, k);
    RunKeysLinked(events, k);
    RunLinksHold(events, k);
    KnownIff(events, k, e.client);
    StepAttach(Run(events[..k]), e.client, e.key, e.resumeAt);
    var start := if e.resumeAt < 0 then 0 else e.resumeAt;
    SendKeeps(Client(e.key, start, start, [], true), Run(events[..k + 1]).entries[EntryOf(events, k)].text);
  }

  /** From then on the client is in that entry while it is open, and in no other. */
  lemma {:induction false} JoinedUntil(events: seq<Event>, k: nat, n: nat)
    requires IsFirstAttach(events, k) && k < n <= |events|
    ensures var s, e := Run(events[..n]), events[k];
      && Joined(s, e.client, EntryOf(events, k))
      && s.clients[e.client].key == e.key
      && s.clients[e.client].resumeAt == (if e.resumeAt < 0 then 0 else e.resumeAt)
    decreases n
  {
    hide Run, Step, KeysLinked, EntryOf, Send;
    if n == k + 1 {
      JoinsEntry(events, k);
      var e := events[k];
      var start := if e.resumeAt < 0 then 0 else e.resumeAt;
      SendKeeps(Client(e.key, start, start, [], true), Run(events[..n]).entries[EntryOf(events, k)].text);
    } else {
      NextStep(events, n - 1);
      RunKeysLinked(events, n - 1);
      JoinedUntil(events, k, n - 1);
      StepJoined(Run(events[..n - 1]), events[n - 1], events[k].client, EntryOf(events, k));
    }
  }

  // ----- Texts and statuses of an entry -----

  /** Event `j` brings a text for an entry of the key. */
  ghost predicate IsText(events: seq<Event>, j: int, n: nat, key: string) {
    && 0 <= j < |events|
    && events[j].TextFetched? && events[j].entry == n && events[j].key == key && n < |Run(events[..j]).entries|
  }

  /** Event `j` brings a status for an entry. */
  ghost predicate IsStatus(events: seq<Event>, j: int, n: nat) {
    && 0 <= j < |events|
    && events[j].StatusFetched? && events[j].entry == n < |Run(events[..j]).entries|
  }

  ghost predicate IsLastText(events: seq<Event>, j: int, m: nat, n: nat, key: string) {
    j < m && IsText(events, j, n, key) && forall i :: j < i < m ==> !IsText(events, i, n, key)
  }

  ghost predicate IsLastStatus(events: seq<Event>, j: int, m: nat, n: nat) {
    j < m && IsStatus(events, j, n) && forall i :: j < i < m ==> !IsStatus(events, i, n)
  }

  /** The text is the one fetched last, or none before one was. */
  ghost predicate IsBuffer(events: seq<Event>, m: nat, n: nat, key: string, text: string) {
    && (forall j :: IsLastText(events, j, m, n, key) ==> text == events[j].text)
    && ((forall j :: 0 <= j < m ==> !IsText(events, j, n, key)) ==> text == "")
  }

  lemma BufferStep(events: seq<Event>, m: nat, n: nat, key: string, text: string)
    requires 0 < m <= |events| && n < |Run(events[..m - 1]).entries|
    requires IsBuffer(events, m - 1, n, key, text)
    ensures var e := events[m - 1];
      IsBuffer(events, m, n, key, if e.TextFetched? && e.entry == n && e.key == key then e.text else text)
  {
    hide Run;
    LastTextStep(events, m, n, key);
    var e := events[m - 1];
    assert IsText(events, m - 1, n, key) <==> e.TextFetched? && e.entry == n && e.key == key;
    hide IsLastText, IsText;
  }

  /** An entry buffers the text fetched for it last, and none before. */
  lemma {:induction false} BufferIs(events: seq<Event>, m: nat, n: nat)
    requires m <= |events| && n < |Run(events[..m]).entries|
    ensures IsBuffer(events, m, n, Run(events[..m]).entries[n].key, Run(events[..m]).entries[n].text)
    decreases m
  {
    hide Step, Run, IsText;
    if m > 0 {
      NextStep(events, m - 1);
      var s, e := Run(events[..m - 1]), events[m - 1];
      if n < |s.entries| {
        BufferIs(events, m - 1, n);
        StepEntries(s, e, n);
        BufferStep(events, m, n, s.entries[n].key, s.entries[n].text);
      } else {
        NewEntry(events, m - 1, n);
      }
    } else {
      assert events[..0] == [];
      RunOfNone();
    }
  }

  lemma LastTextStep(events: seq<Event>, m: nat, n: nat, key: string)
    requires 0 < m <= |events| && n < |Run(events[..m - 1]).entries|
    ensures forall j :: IsLastText(events, j, m, n, key) <==>
      if IsText(events, m - 1, n, key) then j == m - 1 else IsLastText(events, j, m - 1, n, key)
  {
    hide Run;
  }

  lemma RunOfNone()
    ensures Run([]) == INITIAL
  {
  }

  lemma NewEntry(events: seq<Event>, m: nat, n: nat)
    requires m < |events| && |Run(events[..m]).entries| <= n < |Run(events[..m + 1]).entries|
    ensures Run(events[..m + 1]).entries[n].text == "" && !Run(events[..m + 1]).entries[n].terminal
    ensures forall j, key :: j <= m ==> !IsText(events, j, n, key)
    ensures forall j :: j <= m ==> !IsStatus(events, j, n)
  {
    hide Step, Run;
    NextStep(events, m);
    var s, e := Run(events[..m]), events[m];
    RunKeysLinked(events, m);
    StepNumbers(s, e);
    StepAttach(s, e.client, e.key, e.resumeAt);
    forall j | 0 <= j <= m
      ensures |Run(events[..j]).entries| <= n
    {
      EntriesGrow(events, j, m);
    }
  }

  lemma {:induction false} EntriesGrow(events: seq<Event>, j: nat, m: nat)
    requires j <= m <= |events|
    ensures |Run(events[..j]).entries| <= |Run(events[..m]).entries|
    decreases m
  {
    if j < m {
      hide Step, Run;
      NextStep(events, m - 1);
      EntriesGrow(events, j, m - 1);
      StepNumbers(Run(events[..m - 1]), events[m - 1]);
    }
  }

  /** An entry is over exactly when the status fetched for it last said so. */
  lemma {:induction false} TerminalIff(events: seq<Event>, m: nat, n: nat)
    requires m <= |events| && n < |Run(events[..m]).entries|
    ensures Run(events[..m]).entries[n].terminal <==> exists j :: IsLastStatus(events, j, m, n) && events[j].terminal
    decreases m
  {
    hide Step, Run;
    if m > 0 {
      NextStep(events, m - 1);
      var s, e := Run(events[..m - 1]), events[m - 1];
      if n < |s.entries| {
        TerminalIff(events, m - 1, n);
        StepEntries(s, e, n);
        LastStatusStep(events, m, n);
      } else {
        NewEntry(events, m - 1, n);
      }
    } else {
      assert events[..0] == [];
      RunOfNone();
    }
  }

  lemma LastStatusStep(events: seq<Event>, m: nat, n: nat)
    requires 0 < m <= |events| && n < |Run(events[..m - 1]).entries|
    ensures forall j :: IsLastStatus(events, j, m, n) <==>
      if IsStatus(events, m - 1, n) then j == m - 1 else IsLastStatus(events, j, m - 1, n)
  {
    hide Run;
  }

  // ----- Open and closed -----

  /** Event `j` detaches the client of event `k`, or ends its entry by a failure or a last text. */
  ghost predicate Ends(events: seq<Event>, k: nat, j: int)
    requires k < |events| && events[k].Attach?
  {
    var c, key, n := events[k].client, events[k].key, EntryOf(events, k);
    && 0 <= j < |events|
    && (events[j] == Detach(c)
        || events[j] == FetchFails(n)
        || (IsText(events, j, n, key) && exists i :: IsLastStatus(events, i, j, n) && events[i].terminal))
  }

  lemma EndsIff(events: seq<Event>, k: nat, j: nat)
    requires IsFirstAttach(events, k) && k < j < |events|
    ensures EntryOf(events, k) < |Run(events[..j]).entries|
    ensures Ends(events, k, j) <==> Closes(Run(events[..j]), events[j], events[k].client, EntryOf(events, k))
  {
    hide Run, EntryOf, IsLastStatus;
    JoinedUntil(events, k, j);
    TerminalIff(events, j, EntryOf(events, k));
  }

  /** A client is open until it detaches or its entry ends. */
  lemma {:induction false} OpenIff(events: seq<Event>, k: nat, n: nat)
    requires IsFirstAttach(events, k) && k < n <= |events|
    ensures events[k].client in Run(events[..n]).clients
    ensures Run(events[..n]).clients[events[k].client].open <==> forall j :: k < j < n ==> !Ends(events, k, j)
    decreases n
  {
    hide Run, Step, EntryOf, Ends, Closes, KeysLinked, Send;
    if n == k + 1 {
      JoinsEntry(events, k);
      OpenAfterSend();
    } else {
      OpenIff(events, k, n - 1);
      NextStep(events, n - 1);
      RunKeysLinked(events, n - 1);
      JoinedUntil(events, k, n - 1);
      EndsIff(events, k, n - 1);
      StepJoined(Run(events[..n - 1]), events[n - 1], events[k].client, EntryOf(events, k));
    }
  }

  lemma OpenAfterSend()
    ensures forall c, text :: Send(c, text).open == c.open
  {
  }

  // ----- What a client receives -----

  predicate IsTracked(client: Client) {
    client.open ==> client.lastOffset == EndOf(client)
  }

  /** What a text adds to what an open client has. */
  function News(client: Client, text: string): seq<Chunk> {
    if client.open && |text| > EndOf(client) then [Chunk(|text|, text[EndOf(client)..])] else []
  }

  lemma SendNews(client: Client, text: string)
    requires IsTracked(client)
    ensures Send(client, text).received == client.received + News(client, text)
    ensures IsTracked(Send(client, text))
    ensures EndOf(Send(client, text)) == if client.open && |text| > EndOf(client) then |text| else EndOf(client)
  {
  }

  /** Event `j` brings a text for the entry of the client that event `k` attached. */
  ghost predicate IsTextFor(events: seq<Event>, k: nat, j: int)
    requires k < |events| && events[k].Attach?
  {
    IsText(events, j, EntryOf(events, k), events[k].key)
  }

  lemma {:induction false} RunTracked(events: seq<Event>, k: nat, n: nat)
    requires IsFirstAttach(events, k) && k < n <= |events|
    ensures events[k].client in Run(events[..n]).clients && IsTracked(Run(events[..n]).clients[events[k].client])
    decreases n
  {
    hide Run, Step, EntryOf, EndOf, Send, IsTracked;
    var c := events[k].client;
    if n == k + 1 {
      JoinsEntry(events, k);
      FreshTracked(events[k].key, if events[k].resumeAt < 0 then 0 else events[k].resumeAt,
        Run(events[..n]).entries[EntryOf(events, k)].text);
    } else {
      RunTracked(events, k, n - 1);
      NextStep(events, n - 1);
      var s, e := Run(events[..n - 1]), events[n - 1];
      StepClients(s, e);
      TrackedAfter(s, e, c);
    }
  }

  lemma FreshTracked(key: string, start: nat, text: string)
    ensures var client := Send(Client(key, start, start, [], true), text);
      && IsTracked(client)
      && EndOf(client) == (if |text| > start then |text| else start)
  {
  }

  lemma TrackedAfter(s: State, e: Event, c: nat)
    requires c in s.clients && IsTracked(s.clients[c])
    ensures IsTracked(ClientAfter(s, e, c))
  {
    if e.TextFetched? { SendNews(s.clients[c], e.text); }
    hide Send, EndOf;
  }

  /**
   * An open client gets, of each text fetched for its entry, what lies behind its last
   * chunk, and nothing of anything else.
   */
  lemma ReceivesIs(events: seq<Event>, k: nat, j: nat)
    requires IsFirstAttach(events, k) && k < j < |events|
    ensures events[k].client in Run(events[..j]).clients && events[k].client in Run(events[..j + 1]).clients
    ensures var client := Run(events[..j]).clients[events[k].client];
      Run(events[..j + 1]).clients[events[k].client].received ==
      client.received + if IsTextFor(events, k, j) then News(client, events[j].text) else []
  {
    hide Run, Step, EntryOf, EndOf, Send, IsTracked, News;
    var c := events[k].client;
    NextStep(events, j);
    JoinedUntil(events, k, j);
    RunTracked(events, k, j);
    StepClients(Run(events[..j]), events[j]);
    if events[j].TextFetched? { SendNews(Run(events[..j]).clients[c], events[j].text); }
    ClosedHasNoNews();
  }

  lemma ClosedHasNoNews()
    ensures forall client: Client, text :: !client.open ==> News(client, text) == []
  {
  }

  /** A text the client could read: the one buffered when it came, or one fetched while it is open. */
  ghost predicate IsOffered(events: seq<Event>, k: nat, j: int, text: string)
    requires IsFirstAttach(events, k)
  {
    var n, c := EntryOf(events, k), events[k].client;
    if j == k then
      var s := Run(events[..k + 1]);
      n < |s.entries| && text == s.entries[n].text
    else
      && k < j && IsTextFor(events, k, j) && text == events[j].text
      && (forall i :: k < i < j ==> !Ends(events, k, i))
  }

  /** `end` is where the longest text offered before event `n` ends, or where the client resumed. */
  ghost predicate IsReach(events: seq<Event>, k: nat, n: nat, end: nat)
    requires IsFirstAttach(events, k)
  {
    var start := if events[k].resumeAt < 0 then 0 else events[k].resumeAt;
    && start <= end
    && (forall j, text :: j < n && IsOffered(events, k, j, text) ==> |text| <= end)
    && (end == start || exists j, text :: j < n && IsOffered(events, k, j, text) && |text| == end)
  }

  /** Every client has read as far as the longest text that was there while it was open. */
  lemma {:induction false} ReachIs(events: seq<Event>, k: nat, n: nat)
    requires IsFirstAttach(events, k) && k < n <= |events|
    ensures events[k].client in Run(events[..n]).clients
    ensures IsReach(events, k, n, EndOf(Run(events[..n]).clients[events[k].client]))
    decreases n
  {
    hide Run, Step, EntryOf, EndOf, Send, IsTracked, IsOffered, IsReach, Ends, ClientAfter;
    var c := events[k].client;
    if n == k + 1 {
      JoinsEntry(events, k);
      var start := if events[k].resumeAt < 0 then 0 else events[k].resumeAt;
      FreshTracked(events[k].key, start, Run(events[..n]).entries[EntryOf(events, k)].text);
      FirstReach(events, k, EndOf(Run(events[..n]).clients[c]));
    } else {
      ReachIs(events, k, n - 1);
      NextStep(events, n - 1);
      JoinedUntil(events, k, n - 1);
      OpenIff(events, k, n - 1);
      RunTracked(events, k, n - 1);
      var s, e := Run(events[..n - 1]), events[n - 1];
      StepClients(s, e);
      EndAfter(s, e, c, EntryOf(events, k));
      NextReach(events, k, n, EndOf(s.clients[c]), EndOf(ClientAfter(s, e, c)));
    }
  }

  lemma FirstReach(events: seq<Event>, k: nat, end: nat)
    requires IsFirstAttach(events, k)
    requires EntryOf(events, k) < |Run(events[..k + 1]).entries|
    requires var text := Run(events[..k + 1]).entries[EntryOf(events, k)].text;
      var start := if events[k].resumeAt < 0 then 0 else events[k].resumeAt;
      end == if |text| > start then |text| else start
    ensures IsReach(events, k, k + 1, end)
  {
    hide Run, EntryOf;
    assert IsOffered(events, k, k, Run(events[..k + 1]).entries[EntryOf(events, k)].text);
  }

  lemma EndAfter(s: State, e: Event, c: nat, n: nat)
    requires Joined(s, c, n) && IsTracked(s.clients[c])
    ensures var client := s.clients[c];
      EndOf(ClientAfter(s, e, c)) ==
      if client.open && e.TextFetched? && e.entry == n && e.key == client.key && |e.text| > EndOf(client)
      then |e.text| else EndOf(client)
  {
    var client := s.clients[c];
    if e.TextFetched? { SendNews(client, e.text); }
    EndOfClosed();
    hide Send, EndOf;
  }

  lemma EndOfClosed()
    ensures forall client :: EndOf(Close(client)) == EndOf(client)
  {
  }

  lemma NextReach(events: seq<Event>, k: nat, n: nat, before: nat, after: nat)
    requires IsFirstAttach(events, k) && k + 1 < n <= |events| && IsReach(events, k, n - 1, before)
    requires EntryOf(events, k) < |Run(events[..n - 1]).entries|
    requires after ==
      if IsTextFor(events, k, n - 1) && (forall i :: k < i < n - 1 ==> !Ends(events, k, i))
         && |events[n - 1].text| > before
      then |events[n - 1].text| else before
    ensures IsReach(events, k, n, after)
  {
    hide Run, EntryOf, Ends;
    if IsTextFor(events, k, n - 1) && forall i :: k < i < n - 1 ==> !Ends(events, k, i) {
      assert IsOffered(events, k, n - 1, events[n - 1].text);
    }
  }

  /**
   * A client has read the log from where it resumed to the end of the longest text that was
   * there while it was open.
   */
  lemma ReadsTheLog(log: string -> string, events: seq<Event>, k: nat) returns (end: nat)
    requires IsFirstAttach(events, k) && AreFaithful(log, events)
    ensures events[k].client in Run(events).clients && IsReach(events, k, |events|, end)
    ensures var start := if events[k].resumeAt < 0 then 0 else events[k].resumeAt;
      var received, whole := Run(events).clients[events[k].client].received, log(events[k].key);
      (end == start && received == []) || (start < end <= |whole| && Text(received) == whole[start..end])
  {
    hide Run, Holds, IsReach, EntryOf;
    assert events[..|events|] == events;
    ReachIs(events, k, |events|);
    JoinedUntil(events, k, |events|);
    RunHolds(log, events);
    var client := Run(events).clients[events[k].client];
    OneClientHolds(log, Run(events), client);
    end := EndOf(client);
  }

  // ----- The entry a key leads to -----

  /** A failure, the last text or the end of an aborted stream of any entry of the key. */
  predicate Disposes(s: State, e: Event, key: string) {
    || (e.FetchFails? && e.entry < |s.entries| && s.entries[e.entry].key == key)
    || (e.AbortedStreamEnds? && e.entry < |s.entries| && s.entries[e.entry].key == key)
    || (e.TextFetched? && e.entry < |s.entries| && e.key == key && Finishes(s, e, e.entry))
  }

  /** While a client is open, its key leads to its entry until something disposes of the key. */
  lemma StepStranded(s: State, e: Event, c: nat, n: nat)
    requires KeysLinked(s) && Joined(s, c, n) && Joined(Step(s, e), c, n) && Step(s, e).clients[c].open
    requires s.clients[c].open
    ensures var key := s.clients[c].key;
      (key in Step(s, e).current && Step(s, e).current[key] == n) <==>
      key in s.current && s.current[key] == n && !Disposes(s, e, key)
  {
    hide Send, SentAll, ClosedAll;
  }

  /** Something disposes of the key of event `k` between it and event `n`. */
  ghost predicate IsDisposed(events: seq<Event>, k: nat, n: nat)
    requires k < |events| && events[k].Attach? && n <= |events|
  {
    exists j :: k < j < n && Disposes(Run(events[..j]), events[j], events[k].key)
  }

  /** The key of event `k` leads to the entry it joined. */
  ghost predicate Leads(events: seq<Event>, k: nat, n: nat)
    requires k < |events| && events[k].Attach? && n <= |events|
  {
    var s := Run(events[..n]);
    events[k].key in s.current && s.current[events[k].key] == EntryOf(events, k)
  }

  /**
   * An open client is in the entry that further clients join, exactly while nothing has
   * disposed of its key: an older stream of the key that ends does, as it names no entry.
   */
  lemma {:induction false} StrandedIff(events: seq<Event>, k: nat, n: nat)
    requires IsFirstAttach(events, k) && k < n <= |events|
    requires forall j :: k < j < n ==> !Ends(events, k, j)
    ensures Leads(events, k, n) <==> !IsDisposed(events, k, n)
    decreases n
  {
    hide Run, Step, EntryOf, Ends, Disposes, KeysLinked, Joined;
    JoinsEntry(events, k);
    if n > k + 1 {
      StrandedIff(events, k, n - 1);
      NextStep(events, n - 1);
      RunKeysLinked(events, n - 1);
      JoinedKey(events, k, n - 1);
      JoinedKey(events, k, n);
      OpenIff(events, k, n - 1);
      OpenIff(events, k, n);
      StepStranded(Run(events[..n - 1]), events[n - 1], events[k].client, EntryOf(events, k));
    }
  }

  lemma JoinedKey(events: seq<Event>, k: nat, n: nat)
    requires IsFirstAttach(events, k) && k < n <= |events|
    ensures Joined(Run(events[..n]), events[k].client, EntryOf(events, k))
    ensures events[k].client in Run(events[..n]).clients
    ensures Run(events[..n]).clients[events[k].client].key == events[k].key
  {
    hide Run, EntryOf;
    JoinedUntil(events, k, n);
  }

  /** The entry a key leads to has clients, and all of them are open. */
  ghost predicate Watched(s: State) {
    forall key :: key in s.current && s.current[key] < |s.entries| ==>
      AllOpen(s, s.entries[s.current[key]].clients)
  }

  predicate AllOpen(s: State, members: set<nat>) {
    members != {} && forall c :: c in members ==> c in s.clients && s.clients[c].open
  }

  lemma StepWatched(s: State, e: Event)
    requires KeysLinked(s) && LinksHold(s) && Watched(s)
    ensures Watched(Step(s, e))
  {
    hide Step, Send, KeysLinked, LinksHold;
    var s' := Step(s, e);
    StepNumbers(s, e);
    StepClients(s, e);
    forall key | key in s'.current && s'.current[key] < |s'.entries|
      ensures AllOpen(s', s'.entries[s'.current[key]].clients)
    {
      if e.Attach? && e.client !in s.clients {
        OpenAfterSend();
        AttachWatched(s, e, key);
      } else {
        KeysInRange(s, key);
        StillNonempty(s, e, key);
        forall c | c in s'.entries[s'.current[key]].clients
          ensures c in s'.clients && s'.clients[c].open
        {
          StepMembers(s, e, s'.current[key], c);
          StillOpen(s, e, key, c);
        }
      }
    }
  }

  lemma KeysInRange(s: State, key: string)
    requires KeysLinked(s) && key in s.current
    ensures s.current[key] < |s.entries|
  {
  }

  lemma AttachWatched(s: State, e: Event, key: string)
    requires KeysLinked(s) && Watched(s) && e.Attach? && e.client !in s.clients
    requires key in Step(s, e).current && Step(s, e).current[key] < |Step(s, e).entries|
    ensures AllOpen(Step(s, e), Step(s, e).entries[Step(s, e).current[key]].clients)
  {
    OpenAfterSend();
    hide Send;
  }

  lemma StillNonempty(s: State, e: Event, key: string)
    requires KeysLinked(s) && Watched(s) && !(e.Attach? && e.client !in s.clients)
    requires key in s.current && key in Step(s, e).current && s.current[key] == Step(s, e).current[key]
    requires s.current[key] < |Step(s, e).entries|
    ensures Step(s, e).entries[s.current[key]].clients != {}
  {
    hide Send, SentAll, ClosedAll;
  }

  lemma StillOpen(s: State, e: Event, key: string, c: nat)
    requires KeysLinked(s) && LinksHold(s) && Watched(s)
    requires key in s.current && key in Step(s, e).current && s.current[key] == Step(s, e).current[key]
    requires s.current[key] < |Step(s, e).entries|
    requires c in s.entries[s.current[key]].clients && c in Step(s, e).entries[s.current[key]].clients
    ensures ClientAfter(s, e, c).open
  {
    OpenAfterSend();
    hide Send, SentAll, ClosedAll;
  }

  lemma {:induction false} RunWatched(events: seq<Event>, n: nat)
    requires n <= |events|
    ensures Watched(Run(events[..n]))
    decreases n
  {
    if n > 0 {
      hide Step, KeysLinked, Watched, LinksHold;
      NextStep(events, n - 1);
      RunKeysLinked(events, n - 1);
      RunLinksHold(events, n - 1);
      RunWatched(events, n - 1);
      StepWatched(Run(events[..n - 1]), events[n - 1]);
    } else {
      assert events[..0] == [];
    }
  }

  /** The client of event `k` watches the key: it is open, and nothing disposed of its key. */
  ghost predicate IsWatching(events: seq<Event>, k: nat, n: nat, key: string)
    requires n <= |events|
  {
    && k < n && IsFirstAttach(events, k) && events[k].key == key
    && (forall j :: k < j < n ==> !Ends(events, k, j))
    && !IsDisposed(events, k, n)
  }

  lemma FirstAttachOf(events: seq<Event>, n: nat, c: nat) returns (k: nat)
    requires n <= |events| && c in Run(events[..n]).clients
    ensures k < n && IsFirstAttach(events, k) && events[k].client == c
  {
    hide Run;
    KnownIff(events, n, c);
    k := 0;
    while !(events[k].Attach? && events[k].client == c)
      invariant k < n && forall j :: 0 <= j < k ==> !(events[j].Attach? && events[j].client == c)
      decreases n - k
    {
      k := k + 1;
    }
  }

  /** A key is streamed exactly while a client watches it, and then it leads to that client's entry. */
  lemma StreamedIff(events: seq<Event>, n: nat, key: string)
    requires n <= |events|
    ensures key in Run(events[..n]).current <==> exists k :: IsWatching(events, k, n, key)
    ensures forall k :: IsWatching(events, k, n, key) ==> Leads(events, k, n)
  {
    hide Run, EntryOf, Ends, IsDisposed, Leads;
    forall k | IsWatching(events, k, n, key)
      ensures Leads(events, k, n) && key in Run(events[..n]).current
    {
      StrandedIff(events, k, n);
      LeadsThere(events, k, n);
    }
    if key in Run(events[..n]).current {
      var k := WatcherOf(events, n, key);
      assert IsWatching(events, k, n, key);
    }
  }

  lemma LeadsThere(events: seq<Event>, k: nat, n: nat)
    requires k < |events| && events[k].Attach? && n <= |events|
    ensures Leads(events, k, n) <==>
      events[k].key in Run(events[..n]).current && Run(events[..n]).current[events[k].key] == EntryOf(events, k)
  {
  }

  lemma WatcherOf(events: seq<Event>, n: nat, key: string) returns (k: nat)
    requires n <= |events| && key in Run(events[..n]).current
    ensures IsWatching(events, k, n, key)
  {
    hide Run, EntryOf, Ends, IsDisposed, Leads;
    var s := Run(events[..n]);
    RunKeysLinked(events, n);
    RunLinksHold(events, n);
    RunWatched(events, n);
    var members := s.entries[s.current[key]].clients;
    var c :| c in members;
    k := FirstAttachOf(events, n, c);
    JoinedKey(events, k, n);
    OpenIff(events, k, n);
    LeadsThere(events, k, n);
    StrandedIff(events, k, n);
  }

  /** Two viewers of one key, the first of which left before the second came. */
  function Reused(key: string): seq<Event> {
    [Attach(0, key, 0), Detach(0), Attach(1, key, 0), AbortedStreamEnds(0), Attach(2, key, 0)]
  }

  /** The end of the first viewer's stream takes the key away, so a third viewer opens another stream. */
  lemma StrandedIsReachable(key: string)
    ensures IsFirstAttach(Reused(key), 2) && IsFirstAttach(Reused(key), 4)
    ensures forall j :: 2 < j < 5 ==> !Ends(Reused(key), 2, j)
    ensures EntryOf(Reused(key), 2) == 1 && EntryOf(Reused(key), 4) == 2
  {
    var events := Reused(key);
    assert events[..0] == [];
    NextStep(events, 0);
    NextStep(events, 1);
    NextStep(events, 2);
    NextStep(events, 3);
    hide Run;
    RunOfNone();
    assert Run(events[..1]) == Step(INITIAL, Attach(0, key, 0));
    assert Run(events[..2]) == Step(Run(events[..1]), Detach(0));
    assert key !in Run(events[..2]).current && |Run(events[..2]).entries| == 1;
  }
}
