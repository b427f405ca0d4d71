/**
 * Prefix and suffix strips with glob patterns: `${v#p}`, `${v##p}`, `${v%p}` and `${v%%p}`.
 * `*` stands for any text and `?` for any one character; every other character,
 * `[` included, stands for itself.
 */
module GlobStrip {
  import opened Texts
  import opened Wrappers

  // ----- What a pattern denotes -----

  /** The texts one pattern character stands for. */
  predicate Denotes(p: char, piece: string) {
    if p == '*' then true
    else if p == '?' then |piece| == 1
    else piece == [p]
  }

  /** `text` falls into one piece per pattern character, in order. */
  ghost predicate IsSegmented(pattern: string, text: string, pieces: seq<string>) {
    && |pieces| == |pattern| && text == Concat(pieces)
    && forall i :: 0 <= i < |pattern| ==> Denotes(pattern[i], pieces[i])
  }

  ghost predicate InLanguage(pattern: string, text: string) {
    exists pieces :: IsSegmented(pattern, text, pieces)
  }

  // ----- The matcher -----

  /** Matches the whole of `text`, as the anchored regular expression built from the pattern does. */
  predicate Matches(pattern: string, text: string)
    decreases |pattern| + |text|
  {
    if pattern == [] then text == []
    else if pattern[0] == '*' then
      Matches(pattern[1..], text) || (text != [] && Matches(pattern, text[1..]))
    else
      text != [] && (pattern[0] == '?' || pattern[0] == text[0]) && Matches(pattern[1..], text[1..])
  }

  lemma SegmentedCons(pattern: string, text: string, piece: string, rest: seq<string>)
    requires pattern != [] && Denotes(pattern[0], piece) && |piece| <= |text| && piece == text[..|piece|]
    requires IsSegmented(pattern[1..], text[|piece|..], rest)
    ensures IsSegmented(pattern, text, [piece] + rest)
  {
    var pieces := [piece] + rest;
    assert pieces[1..] == rest && text == text[..|piece|] + text[|piece|..];
    forall i | 0 <= i < |pattern|
      ensures Denotes(pattern[i], pieces[i])
    {
      if i > 0 { assert pattern[i] == pattern[1..][i - 1]; }
    }
  }

  lemma SegmentedSplit(pattern: string, text: string, pieces: seq<string>)
    requires pattern != [] && IsSegmented(pattern, text, pieces)
    ensures Denotes(pattern[0], pieces[0]) && |pieces[0]| <= |text| && pieces[0] == text[..|pieces[0]|]
    ensures IsSegmented(pattern[1..], text[|pieces[0]|..], pieces[1..])
  {
    assert text == pieces[0] + Concat(pieces[1..]);
  }

  lemma {:induction false} MatchesSegments(pattern: string, text: string)
    requires Matches(pattern, text)
    ensures InLanguage(pattern, text)
    decreases |pattern| + |text|
  {
    if pattern == [] {
      assert IsSegmented(pattern, text, []);
    } else if pattern[0] == '*' && !Matches(pattern[1..], text) {
      MatchesSegments(pattern, text[1..]);
      var pieces :| IsSegmented(pattern, text[1..], pieces);
      SegmentedSplit(pattern, text[1..], pieces);
      var piece := [text[0]] + pieces[0];
      assert text[|piece|..] == text[1..][|pieces[0]|..];
      SegmentedCons(pattern, text, piece, pieces[1..]);
    } else {
      var piece := if pattern[0] == '*' then [] else [text[0]];
      assert text[|piece|..] == if pattern[0] == '*' then text else text[1..];
      MatchesSegments(pattern[1..], text[|piece|..]);
      var rest :| IsSegmented(pattern[1..], text[|piece|..], rest);
      SegmentedCons(pattern, text, piece, rest);
    }
  }

  lemma {:induction false} SegmentsMatch(pattern: string, text: string, pieces: seq<string>)
    requires IsSegmented(pattern, text, pieces)
    ensures Matches(pattern, text)
    decreases |pattern| + |text|
  {
    if pattern != [] {
      SegmentedSplit(pattern, text, pieces);
      var piece := pieces[0];
      if pattern[0] == '*' && piece != [] {
        SegmentedCons(pattern, text[1..], piece[1..], pieces[1..]);
        SegmentsMatch(pattern, text[1..], [piece[1..]] + pieces[1..]);
      } else {
        SegmentsMatch(pattern[1..], text[|piece|..], pieces[1..]);
      }
    }
  }

  /** The matcher accepts exactly the texts the pattern denotes. */
  lemma MatchesIffInLanguage(pattern: string, text: string)
    ensures Matches(pattern, text) <==> InLanguage(pattern, text)
  {
    if Matches(pattern, text) {
      MatchesSegments(pattern, text);
    }
    forall pieces | IsSegmented(pattern, text, pieces)
      ensures Matches(pattern, text)
    {
      SegmentsMatch(pattern, text, pieces);
    }
  }

  // ----- Strips -----

  /** The first or last `length` characters of `value`. */
  function Span(value: string, isPrefix: bool, length: nat): string
    requires length <= |value|
  {
    if isPrefix then value[..length] else value[|value| - length..]
  }

  /** What is left of `value` without that span. */
  function Remainder(value: string, isPrefix: bool, length: nat): string
    requires length <= |value|
  {
    if isPrefix then value[length..] else value[..|value| - length]
  }

  ghost predicate IsShortest(value: string, pattern: string, isPrefix: bool, length: nat) {
    && length <= |value| && InLanguage(pattern, Span(value, isPrefix, length))
    && forall k: nat :: k < length ==> !InLanguage(pattern, Span(value, isPrefix, k))
  }

  ghost predicate IsLongest(value: string, pattern: string, isPrefix: bool, length: nat) {
    && length <= |value| && InLanguage(pattern, Span(value, isPrefix, length))
    && forall k: nat :: length < k <= |value| ==> !InLanguage(pattern, Span(value, isPrefix, k))
  }

  /** `result` is `value` without its shortest or longest matching end, or None when no end matches. */
  ghost predicate IsStrip(value: string, pattern: string, isPrefix: bool, longest: bool, result: Option<string>) {
    match result
    case None => forall k: nat :: k <= |value| ==> !InLanguage(pattern, Span(value, isPrefix, k))
    case Some(rest) =>
      exists length: nat :: length <= |value| && rest == Remainder(value, isPrefix, length)
        && (if longest then IsLongest(value, pattern, isPrefix, length)
            else IsShortest(value, pattern, isPrefix, length))
  }

  lemma StripUnique(value: string, pattern: string, isPrefix: bool, longest: bool,
                    r: Option<string>, r': Option<string>)
    requires IsStrip(value, pattern, isPrefix, longest, r) && IsStrip(value, pattern, isPrefix, longest, r')
    ensures r == r'
  {
    hide InLanguage, Span, Remainder;
    if r.Some? && r'.Some? {
      var n: nat :| n <= |value| && r.value == Remainder(value, isPrefix, n)
        && (if longest then IsLongest(value, pattern, isPrefix, n) else IsShortest(value, pattern, isPrefix, n));
      var m: nat :| m <= |value| && r'.value == Remainder(value, isPrefix, m)
        && (if longest then IsLongest(value, pattern, isPrefix, m) else IsShortest(value, pattern, isPrefix, m));
      assert n == m;
    }
  }

  /** Tries the spans in order of length, from the short or the long end. */
  method StripByGlob(value: string, pattern: string, isPrefix: bool, longest: bool) returns (result: Option<string>)
    ensures IsStrip(value, pattern, isPrefix, longest, result)
  {
    hide InLanguage, Matches;
    var lengths: seq<nat> := [];
    var length := 0;
    while length <= |value|
      invariant 0 <= length <= |value| + 1 && |lengths| == length
      invariant forall i :: 0 <= i < length ==> lengths[i] == i
    {
      lengths := lengths + [length];
      length := length + 1;
    }
    if longest {
      lengths := seq(|lengths|, i requires 0 <= i < |lengths| => lengths[|lengths| - 1 - i]);
    }
    assert forall i :: 0 <= i <= |value| ==> lengths[i] == if longest then |value| - i else i;
    var i := 0;
    while i < |lengths|
      invariant 0 <= i <= |lengths|
      invariant forall k :: 0 <= k < i ==> !InLanguage(pattern, Span(value, isPrefix, lengths[k]))
    {
      var candidate := Span(value, isPrefix, lengths[i]);
      MatchesIffInLanguage(pattern, candidate);
      if Matches(pattern, candidate) {
        FirstFound(value, pattern, isPrefix, longest, lengths, i);
        return Some(Remainder(value, isPrefix, lengths[i]));
      }
      i := i + 1;
    }
    NoneFound(value, pattern, isPrefix, longest, lengths);
    return None;
  }

  ghost predicate InOrder(value: string, longest: bool, lengths: seq<nat>) {
    |lengths| == |value| + 1 && forall i :: 0 <= i <= |value| ==> lengths[i] == if longest then |value| - i else i
  }

  lemma FirstFound(value: string, pattern: string, isPrefix: bool, longest: bool, lengths: seq<nat>, i: nat)
    requires InOrder(value, longest, lengths) && i < |lengths|
    requires forall k :: 0 <= k < i ==> !InLanguage(pattern, Span(value, isPrefix, lengths[k]))
    requires InLanguage(pattern, Span(value, isPrefix, lengths[i]))
    ensures IsStrip(value, pattern, isPrefix, longest, Some(Remainder(value, isPrefix, lengths[i])))
  {
    hide InLanguage;
    var length := lengths[i];
    forall k: nat | k <= |value| && if longest then length < k else k < length
      ensures !InLanguage(pattern, Span(value, isPrefix, k))
    {
      assert lengths[if longest then |value| - k else k] == k;
    }
  }

  lemma NoneFound(value: string, pattern: string, isPrefix: bool, longest: bool, lengths: seq<nat>)
    requires InOrder(value, longest, lengths)
    requires forall k :: 0 <= k < |lengths| ==> !InLanguage(pattern, Span(value, isPrefix, lengths[k]))
    ensures IsStrip(value, pattern, isPrefix, longest, None)
  {
    hide InLanguage;
    forall k: nat | k <= |value|
      ensures !InLanguage(pattern, Span(value, isPrefix, k))
    {
      assert lengths[if longest then |value| - k else k] == k;
    }
  }

  // ----- Suffix strips mirror prefix strips -----

  function Reverse<T>(s: seq<T>): (r: seq<T>)
    ensures |r| == |s| && forall i :: 0 <= i < |s| ==> r[i] == s[|s| - 1 - i]
  {
    seq(|s|, i requires 0 <= i < |s| => s[|s| - 1 - i])
  }

  lemma ReverseConcat(s: string, t: string)
    ensures Reverse(s + t) == Reverse(t) + Reverse(s)
  {
  }

  function ReversePieces(pieces: seq<string>): (r: seq<string>)
    ensures |r| == |pieces| && forall i :: 0 <= i < |pieces| ==> r[i] == Reverse(pieces[|pieces| - 1 - i])
  {
    seq(|pieces|, i requires 0 <= i < |pieces| => Reverse(pieces[|pieces| - 1 - i]))
  }

  lemma {:induction false} ReversePiecesConcat(pieces: seq<string>)
    ensures Concat(ReversePieces(pieces)) == Reverse(Concat(pieces))
  {
    if pieces != [] {
      assert ReversePieces(pieces) == ReversePieces(pieces[1..]) + [Reverse(pieces[0])];
      ConcatAppend(ReversePieces(pieces[1..]), Reverse(pieces[0]));
      ReversePiecesConcat(pieces[1..]);
      ReverseConcat(pieces[0], Concat(pieces[1..]));
    }
  }

  /** A pattern matches a text when the reversed pattern matches the reversed text. */
  lemma ReversedLanguage(pattern: string, text: string)
    requires InLanguage(pattern, text)
    ensures InLanguage(Reverse(pattern), Reverse(text))
  {
    var pieces :| IsSegmented(pattern, text, pieces);
    ReversePiecesConcat(pieces);
    var r := ReversePieces(pieces);
    forall i | 0 <= i < |pattern|
      ensures Denotes(Reverse(pattern)[i], r[i])
    {
      assert Denotes(pattern[|pattern| - 1 - i], pieces[|pattern| - 1 - i]);
    }
    assert IsSegmented(Reverse(pattern), Reverse(text), r);
  }

  lemma ReverseTwice<T>(s: seq<T>)
    ensures Reverse(Reverse(s)) == s
  {
  }

  lemma ReversedLanguageIff(pattern: string, text: string)
    ensures InLanguage(pattern, text) <==> InLanguage(Reverse(pattern), Reverse(text))
  {
    if InLanguage(pattern, text) {
      ReversedLanguage(pattern, text);
    }
    if InLanguage(Reverse(pattern), Reverse(text)) {
      ReversedLanguage(Reverse(pattern), Reverse(text));
      ReverseTwice(pattern);
      ReverseTwice(text);
    }
  }

  lemma ReversedSpans(value: string, pattern: string)
    ensures forall k: nat :: k <= |value| ==>
      (InLanguage(pattern, Span(value, false, k)) <==> InLanguage(Reverse(pattern), Span(Reverse(value), true, k)))
    ensures forall k: nat :: k <= |value| ==>
      Reverse(Remainder(value, false, k)) == Remainder(Reverse(value), true, k)
  {
    forall k: nat | k <= |value|
      ensures InLanguage(pattern, Span(value, false, k)) <==>
        InLanguage(Reverse(pattern), Span(Reverse(value), true, k))
    {
      assert Reverse(Span(value, false, k)) == Span(Reverse(value), true, k);
      ReversedLanguageIff(pattern, Span(value, false, k));
    }
  }

  function MapReverse(r: Option<string>): Option<string> {
    match r
    case None => None
    case Some(s) => Some(Reverse(s))
  }

  lemma MirroredStrip(value: string, pattern: string, longest: bool, result: Option<string>)
    requires IsStrip(value, pattern, false, longest, result)
    ensures IsStrip(Reverse(value), Reverse(pattern), true, longest, MapReverse(result))
  {
    ReversedSpans(value, pattern);
    hide InLanguage, Reverse;
    if result.Some? {
      var n: nat :| n <= |value| && result.value == Remainder(value, false, n)
        && (if longest then IsLongest(value, pattern, false, n) else IsShortest(value, pattern, false, n));
      assert Reverse(result.value) == Remainder(Reverse(value), true, n);
      if longest {
        assert IsLongest(Reverse(value), Reverse(pattern), true, n);
      } else {
        assert IsShortest(Reverse(value), Reverse(pattern), true, n);
      }
    }
  }

  /** Stripping a suffix is stripping a prefix of the reversed value with the reversed pattern. */
  lemma SuffixStripMirrorsPrefixStrip(value: string, pattern: string, longest: bool,
                                      result: Option<string>, mirrored: Option<string>)
    requires IsStrip(value, pattern, false, longest, result)
    requires IsStrip(Reverse(value), Reverse(pattern), true, longest, mirrored)
    ensures mirrored == MapReverse(result)
  {
    MirroredStrip(value, pattern, longest, result);
    StripUnique(Reverse(value), Reverse(pattern), true, longest, mirrored, MapReverse(result));
  }

  // ----- The strip as a function -----

  function StripFrom(value: string, pattern: string, isPrefix: bool, longest: bool, tried: nat): Option<string>
    requires tried <= |value| + 1
    decreases |value| + 1 - tried
  {
    if tried > |value| then None
    else
      var length := if longest then |value| - tried else tried;
      if Matches(pattern, Span(value, isPrefix, length)) then Some(Remainder(value, isPrefix, length))
      else StripFrom(value, pattern, isPrefix, longest, tried + 1)
  }

  function Strip(value: string, pattern: string, isPrefix: bool, longest: bool): Option<string> {
    StripFrom(value, pattern, isPrefix, longest, 0)
  }

  lemma {:induction false} StripFromIsStrip(value: string, pattern: string, isPrefix: bool, longest: bool,
                                            tried: nat, lengths: seq<nat>)
    requires tried <= |value| + 1 && InOrder(value, longest, lengths)
    requires forall k :: 0 <= k < tried ==> !InLanguage(pattern, Span(value, isPrefix, lengths[k]))
    ensures IsStrip(value, pattern, isPrefix, longest, StripFrom(value, pattern, isPrefix, longest, tried))
    decreases |value| + 1 - tried
  {
    hide InLanguage, Matches, IsStrip;
    if tried > |value| {
      NoneFound(value, pattern, isPrefix, longest, lengths);
    } else {
      MatchesIffInLanguage(pattern, Span(value, isPrefix, lengths[tried]));
      if Matches(pattern, Span(value, isPrefix, lengths[tried])) {
        FirstFound(value, pattern, isPrefix, longest, lengths, tried);
      } else {
        StripFromIsStrip(value, pattern, isPrefix, longest, tried + 1, lengths);
      }
    }
  }

  /** The function yields the strip and nothing else does. */
  lemma StripIsStrip(value: string, pattern: string, isPrefix: bool, longest: bool)
    ensures forall r :: IsStrip(value, pattern, isPrefix, longest, r) <==> r == Strip(value, pattern, isPrefix, longest)
  {
    var lengths: seq<nat> := seq(|value| + 1, i requires 0 <= i <= |value| => if longest then |value| - i else i);
    StripFromIsStrip(value, pattern, isPrefix, longest, 0, lengths);
    forall r | IsStrip(value, pattern, isPrefix, longest, r)
      ensures r == Strip(value, pattern, isPrefix, longest)
    {
      StripUnique(value, pattern, isPrefix, longest, r, Strip(value, pattern, isPrefix, longest));
    }
  }
}
