/**
 * Splitting the manager's event stream into events, as it arrives in chunks.
 *
 * An event ends at a blank line, that is at two line feeds in a row. Text after the last
 * blank line stays in the buffer until more arrives.
 */
module EventSplitter {
  import opened Texts
  import opened Wrappers

  // ----- One left-to-right split -----

  predicate DelimiterAt(s: string, i: nat) {
    i + 1 < |s| && s[i] == '\n' && s[i + 1] == '\n'
  }

  /** The first blank line of `s`, or the length of `s`. */
  function FirstDelimiter(s: string): (i: nat)
    ensures i <= |s|
    ensures i < |s| ==> DelimiterAt(s, i)
    ensures forall k: nat :: k < i ==> !DelimiterAt(s, k)
    decreases |s|
  {
    if s == [] then 0
    else if DelimiterAt(s, 0) then 0
    else
      var i := FirstDelimiter(s[1..]);
      assert i < |s[1..]| ==> DelimiterAt(s[1..], i);
      assert forall k: nat :: 0 < k < i + 1 ==> (DelimiterAt(s, k) <==> DelimiterAt(s[1..], k - 1));
      i + 1
  }

  /** The pieces of `s` between blank lines; the last one is what follows the last blank line. */
  function Split(s: string): (pieces: seq<string>)
    ensures pieces != []
    decreases |s|
  {
    var i := FirstDelimiter(s);
    if i == |s| then [s] else [s[..i]] + Split(s[i + 2..])
  }

  function Join(pieces: seq<string>): string
    requires pieces != []
  {
    if |pieces| == 1 then pieces[0] else pieces[0] + "\n\n" + Join(pieces[1..])
  }

  /** Every piece ends at the first blank line after its start, and nothing is left out. */
  ghost predicate IsSplit(s: string, pieces: seq<string>) {
    && pieces != []
    && s == Join(pieces)
    && FirstDelimiter(pieces[|pieces| - 1]) == |pieces[|pieces| - 1]|
    && forall i :: 0 <= i < |pieces| - 1 ==> FirstDelimiter(pieces[i] + "\n\n") == |pieces[i]|
  }

  function Init(xs: seq<string>): seq<string>
    requires xs != []
  {
    xs[..|xs| - 1]
  }

  function Last(xs: seq<string>): string
    requires xs != []
  {
    xs[|xs| - 1]
  }

  lemma FirstDelimiterIs(s: string, i: nat)
    requires i <= |s| && (i < |s| ==> DelimiterAt(s, i)) && forall k: nat :: k < i ==> !DelimiterAt(s, k)
    ensures FirstDelimiter(s) == i
  {
  }

  /** Text behind the first blank line does not move it. */
  lemma FirstDelimiterPrefix(s: string, t: string)
    requires FirstDelimiter(s) < |s|
    ensures FirstDelimiter(s + t) == FirstDelimiter(s)
  {
    var i := FirstDelimiter(s);
    assert DelimiterAt(s, i) && DelimiterAt(s + t, i);
    forall k: nat | k < i
      ensures !DelimiterAt(s + t, k)
    {
      assert !DelimiterAt(s, k);
    }
    FirstDelimiterIs(s + t, i);
  }

  lemma {:induction false} SplitIsSplit(s: string)
    ensures IsSplit(s, Split(s))
    decreases |s|
  {
    var i := FirstDelimiter(s);
    if i < |s| {
      assert DelimiterAt(s, i);
      var rest := Split(s[i + 2..]);
      SplitIsSplit(s[i + 2..]);
      assert s == s[..i] + "\n\n" + s[i + 2..];
      var head := s[..i] + "\n\n";
      forall k: nat | k < i
        ensures !DelimiterAt(head, k)
      {
        assert head[k] == s[k] && head[k + 1] == s[k + 1];
        assert !DelimiterAt(s, k);
      }
      assert DelimiterAt(head, i);
      FirstDelimiterIs(head, i);
      var pieces := Split(s);
      assert pieces == [s[..i]] + rest && pieces[1..] == rest;
      forall k | 0 <= k < |pieces| - 1
        ensures FirstDelimiter(pieces[k] + "\n\n") == |pieces[k]|
      {
        if k > 0 { assert pieces[k] == rest[k - 1]; }
      }
    }
  }

  /** The split is the only way to cut a text at its blank lines from left to right. */
  lemma {:induction false} SplitUnique(s: string, pieces: seq<string>)
    requires IsSplit(s, pieces)
    ensures pieces == Split(s)
    decreases |pieces|
  {
    if |pieces| == 1 {
      assert s == pieces[0];
    } else {
      var first, rest := pieces[0], pieces[1..];
      var tail := Join(rest);
      assert s == (first + "\n\n") + tail;
      FirstDelimiterPrefix(first + "\n\n", tail);
      assert s[..|first|] == first && s[|first| + 2..] == tail;
      assert rest[|rest| - 1] == pieces[|pieces| - 1];
      assert forall i :: 0 <= i < |rest| - 1 ==> rest[i] == pieces[i + 1];
      SplitUnique(tail, rest);
    }
  }

  // ----- Chunks -----

  lemma SplitAtDelimiter(s: string, i: nat)
    requires FirstDelimiter(s) == i < |s|
    ensures i + 2 <= |s| && Split(s) == [s[..i]] + Split(s[i + 2..])
  {
    hide FirstDelimiter;
  }

  lemma NoDelimiter(s: string)
    requires FirstDelimiter(s) == |s|
    ensures Split(s) == [s] && Init(Split(s)) == [] && Last(Split(s)) == s
  {
    hide FirstDelimiter;
  }

  lemma ConsEnds(first: string, rest: seq<string>, more: seq<string>)
    requires rest != []
    ensures Init([first] + rest) + more == [first] + (Init(rest) + more) && Last([first] + rest) == Last(rest)
  {
    assert Init([first] + rest) == [first] + Init(rest);
  }

  lemma SplitBoth(s: string, t: string, i: nat)
    requires FirstDelimiter(s) == i < |s|
    ensures i + 2 <= |s| && Split(s) == [s[..i]] + Split(s[i + 2..])
    ensures Split(s + t) == [s[..i]] + Split(s[i + 2..] + t)
  {
    SplitAtDelimiter(s, i);
    FirstDelimiterPrefix(s, t);
    SplitAtDelimiter(s + t, i);
    hide FirstDelimiter, Split;
    assert (s + t)[..i] == s[..i] && (s + t)[i + 2..] == s[i + 2..] + t;
  }

  /** Splitting what arrives later together with the buffer continues the split of the whole. */
  lemma {:induction false} SplitAppend(s: string, t: string)
    ensures Split(s + t) == Init(Split(s)) + Split(Last(Split(s)) + t)
    decreases |s|
  {
    hide *;
    var i := FirstDelimiter(s);
    if i == |s| {
      NoDelimiter(s);
    } else {
      SplitBoth(s, t, i);
      var rest := s[i + 2..];
      SplitAppend(rest, t);
      ConsEnds(s[..i], Split(rest), Split(Last(Split(rest)) + t));
    }
  }

  // ----- Events -----

  /** The first line of an event that carries data. */
  function DataLine(event: string): Option<string>
    decreases |event|
  {
    var end := LineEnd(event);
    if "data: " <= event[..end] then Some(event[..end])
    else if end == |event| then None
    else DataLine(event[end + 1..])
  }

  function LineEnd(s: string): (n: nat)
    ensures n <= |s| && (n < |s| ==> s[n] == '\n')
  {
    if s == [] || s[0] == '\n' then 0 else 1 + LineEnd(s[1..])
  }

  /** From `i` to `j` there is one whole line of `event`. */
  ghost predicate IsLine(event: string, i: int, j: int) {
    && 0 <= i <= j <= |event|
    && (i == 0 || event[i - 1] == '\n') && (j == |event| || event[j] == '\n')
    && forall k :: i <= k < j ==> event[k] != '\n'
  }

  /** From `i` to `j` there is a line that carries data. */
  ghost predicate IsData(event: string, i: int, j: int) {
    IsLine(event, i, j) && "data: " <= event[i..j]
  }

  /** It is the first one and reads `line`. */
  ghost predicate IsFirstData(event: string, i: int, j: int, line: string) {
    IsData(event, i, j) && line == event[i..j] && forall k, l :: IsData(event, k, l) ==> i <= k
  }

  lemma FirstLine(event: string)
    ensures IsLine(event, 0, LineEnd(event)) && event[0..LineEnd(event)] == event[..LineEnd(event)]
    ensures forall i, j :: IsLine(event, i, j) ==> (i == 0 && j == LineEnd(event)) || i > LineEnd(event)
  {
  }

  /** The other lines of an event are those of what follows its first line. */
  lemma LinesBehind(event: string, end: nat, i: int, j: int)
    requires end < |event| && event[end] == '\n' && end < i
    ensures IsData(event, i, j) <==> IsData(event[end + 1..], i - end - 1, j - end - 1)
    ensures IsData(event, i, j) ==> event[i..j] == event[end + 1..][i - end - 1..j - end - 1]
  {
    var tail := event[end + 1..];
    assert i <= j <= |event| ==> event[i..j] == tail[i - end - 1..j - end - 1];
    assert forall k :: i <= k < |event| ==> event[k] == tail[k - end - 1];
    if IsLine(tail, i - end - 1, j - end - 1) {
      assert forall k :: i <= k < j ==> event[k] == tail[k - end - 1];
    }
    if IsLine(event, i, j) {
      assert forall k :: i - end - 1 <= k < j - end - 1 ==> tail[k] == event[k + end + 1];
    }
  }

  /** The first line of what follows is the first one of the event when the lines in front carry none. */
  lemma FirstDataBehind(event: string, end: nat, i: int, j: int, line: string)
    requires end < |event| && event[end] == '\n'
    requires forall k, l :: IsData(event, k, l) ==> k > end
    requires IsFirstData(event[end + 1..], i, j, line)
    ensures IsFirstData(event, i + end + 1, j + end + 1, line)
  {
    hide IsData;
    NonNegative(event[end + 1..]);
    LinesBehind(event, end, i + end + 1, j + end + 1);
    forall k, l | IsData(event, k, l)
      ensures i + end + 1 <= k
    {
      LinesBehind(event, end, k, l);
      assert IsData(event[end + 1..], k - end - 1, l - end - 1);
    }
  }

  lemma NonNegative(s: string)
    ensures forall k, l :: IsData(s, k, l) ==> k >= 0
  {
  }

  /** Either the first line carries data, or no line up to its end does. */
  lemma FirstLineApart(event: string)
    ensures var end := LineEnd(event);
      if "data: " <= event[..end] then IsFirstData(event, 0, end, event[..end])
      else forall k, l :: IsData(event, k, l) ==> end < k <= |event|
  {
    FirstLine(event);
    hide LineEnd;
  }

  lemma NoneBehind(event: string, end: nat, tail: string)
    requires end < |event| && event[end] == '\n' && tail == event[end + 1..]
    requires forall k, l :: IsData(event, k, l) ==> k > end
    requires forall i, j :: !IsData(tail, i, j)
    ensures forall i, j :: !IsData(event, i, j)
  {
    hide IsData;
    forall i, j
      ensures !IsData(event, i, j)
    {
      if end < i { LinesBehind(event, end, i, j); }
    }
  }

  lemma {:induction false} DataLineHolds(event: string)
    ensures DataLine(event) == None ==> forall i, j :: !IsData(event, i, j)
    ensures DataLine(event).Some? ==> exists i, j :: IsFirstData(event, i, j, DataLine(event).value)
    decreases |event|
  {
    hide IsFirstData, IsData, LineEnd;
    var end := LineEnd(event);
    FirstLineApart(event);
    if "data: " <= event[..end] {
      assert IsFirstData(event, 0, end, event[..end]);
    } else if end < |event| {
      DataLineHolds(event[end + 1..]);
      if DataLine(event).Some? {
        var line := DataLine(event).value;
        var i, j :| IsFirstData(event[end + 1..], i, j, line);
        FirstDataBehind(event, end, i, j, line);
      } else {
        NoneBehind(event, end, event[end + 1..]);
      }
    }
  }

  lemma FirstDataUnique(event: string, i: int, j: int, line: string, k: int, l: int, other: string)
    requires IsFirstData(event, i, j, line) && IsFirstData(event, k, l, other)
    ensures line == other
  {
  }

  lemma FirstDataIsData(event: string, i: int, j: int, line: string)
    requires IsFirstData(event, i, j, line)
    ensures IsData(event, i, j)
  {
  }

  /** The data line of an event is the first of its lines that begins with `data: `; without one it has none. */
  lemma DataLineIff(event: string, line: string)
    ensures DataLine(event) == Some(line) <==> exists i, j :: IsFirstData(event, i, j, line)
    ensures DataLine(event) == None <==> forall i, j :: !IsData(event, i, j)
  {
    hide IsFirstData, IsData, DataLine;
    DataLineHolds(event);
    if DataLine(event).Some? {
      var i, j :| IsFirstData(event, i, j, DataLine(event).value);
      FirstDataIsData(event, i, j, DataLine(event).value);
      if k, l :| IsFirstData(event, k, l, line) {
        FirstDataUnique(event, i, j, DataLine(event).value, k, l, line);
      }
    } else if k, l :| IsFirstData(event, k, l, line) {
      FirstDataIsData(event, k, l, line);
    }
  }

  /** The messages of a series of events; `parse` turns a data line into a message or drops it. */
  function Messages(events: seq<string>, parse: string -> Option<string>): seq<string> {
    if events == [] then []
    else Messages(events[..|events| - 1], parse) + MessageOf(events[|events| - 1], parse)
  }

  function MessageOf(event: string, parse: string -> Option<string>): seq<string> {
    match DataLine(event)
    case None => []
    case Some(line) => match parse(line) case None => [] case Some(m) => [m]
  }

  /** An event gives at most one message, that of its data line. */
  lemma MessagesOfEvent(event: string, parse: string -> Option<string>)
    ensures (forall i, j :: !IsData(event, i, j)) ==> Messages([event], parse) == []
    ensures forall i, j, line :: IsFirstData(event, i, j, line) ==>
      Messages([event], parse) == match parse(line) case None => [] case Some(m) => [m]
  {
    hide IsFirstData, IsData, DataLine;
    assert [event][..0] == [] && Messages([], parse) == [];
    DataLineIff(event, "");
    forall i, j, line | IsFirstData(event, i, j, line)
      ensures DataLine(event) == Some(line)
    {
      DataLineIff(event, line);
    }
  }

  lemma {:induction false} MessagesAppend(first: seq<string>, second: seq<string>, parse: string -> Option<string>)
    ensures Messages(first + second, parse) == Messages(first, parse) + Messages(second, parse)
  {
    if second == [] {
      assert first + second == first;
    } else {
      var init := second[..|second| - 1];
      assert (first + second)[..|first + second| - 1] == first + init;
      MessagesAppend(first, init, parse);
    }
  }

  /** The messages of the events, in order, without those `parse` drops. */
  method BroadcastEvents(events: seq<string>, parse: string -> Option<string>) returns (broadcast: seq<string>)
    ensures broadcast == Messages(events, parse)
  {
    broadcast := [];
    var k := 0;
    while k < |events|
      invariant 0 <= k <= |events|
      invariant broadcast == Messages(events[..k], parse)
    {
      assert events[..k + 1][..k] == events[..k];
      var dataLine := DataLine(events[k]);
      if dataLine.Some? {
        var message := parse(dataLine.value);
        if message.Some? {
          broadcast := broadcast + [message.value];
        }
      }
      k := k + 1;
    }
    assert events[..k] == events;
  }

  lemma NextChunk(before: string, buffer: string, chunk: string)
    requires buffer == Last(Split(before))
    ensures Init(Split(before + chunk)) == Init(Split(before)) + Init(Split(buffer + chunk))
    ensures Last(Split(before + chunk)) == Last(Split(buffer + chunk))
  {
    SplitAppend(before, chunk);
  }

  /**
   * Reads the stream chunk by chunk. However the text is cut into chunks, the broadcast
   * messages and the buffer left over are those of one split of the whole text.
   */
  method StreamManagerLogs(chunks: seq<string>, parse: string -> Option<string>)
      returns (broadcast: seq<string>, buffer: string)
    ensures buffer == Last(Split(Concat(chunks)))
    ensures broadcast == Messages(Init(Split(Concat(chunks))), parse)
  {
    broadcast, buffer := [], "";
    var n := 0;
    while n < |chunks|
      invariant 0 <= n <= |chunks|
      invariant buffer == Last(Split(Concat(chunks[..n])))
      invariant broadcast == Messages(Init(Split(Concat(chunks[..n]))), parse)
    {
      hide Split, Messages, Concat;
      ghost var before := Concat(chunks[..n]);
      NextChunk(before, buffer, chunks[n]);
      assert chunks[..n + 1] == chunks[..n] + [chunks[n]];
      ConcatAppend(chunks[..n], chunks[n]);
      buffer := buffer + chunks[n];
      var events := Split(buffer);
      buffer := Last(events);
      events := Init(events);
      MessagesAppend(Init(Split(before)), events, parse);
      var messages := BroadcastEvents(events, parse);
      broadcast := broadcast + messages;
      n := n + 1;
    }
    assert chunks[..n] == chunks;
  }
}
