/**
 * What the parts of a parameter expansion mean: how a template falls into references, which
 * characters a substring keeps, and which occurrences a replacement replaces.
 */
module ParameterOperations {
  import opened Wrappers
  import opened GlobStrip
  import opened ParameterExpansion
  import opened Texts

  // ----- References -----

  predicate IsNameChar(c: char) {
    IsNameStart(c) || '0' <= c <= '9'
  }

  /** Names are made of letters, digits and the underscore, and do not start with a digit. */
  lemma NameCodes(c: char)
    ensures IsNameStart(c) <==> var code := c as int; 65 <= code <= 90 || code == 95 || 97 <= code <= 122
    ensures IsNameChar(c) <==> IsNameStart(c) || 48 <= c as int <= 57
  {
  }

  predicate IsName(s: string) {
    s != [] && IsNameStart(s[0]) && NameLength(s) == |s|
  }

  /** The ways to write a token; an operation starts where the name ends. */
  predicate Writes(token: Token, text: string) {
    match token
    case Literal(c) => text == [c]
    case Plain(name) => IsName(name) && (text == "$" + name || text == "${" + name + "}")
    case Operation(name, op) =>
      IsName(name) && op != "" && !IsNameChar(op[0]) && '}' !in op && text == "${" + name + op + "}"
  }

  ghost predicate StartsReference(s: string) {
    exists token: Token, n: nat :: n <= |s| && !token.Literal? && Writes(token, s[..n])
  }

  /** A piece ends its token: a bare name goes on as long as name characters follow. */
  predicate EndsToken(token: Token, piece: string, rest: string) {
    token.Plain? && piece == "$" + token.name && rest != [] ==> !IsNameChar(rest[0])
  }

  /**
   * `pieces` cut the template from left to right into written tokens. A character is literal
   * only where no reference starts.
   */
  ghost predicate IsParse(s: string, tokens: seq<Token>, pieces: seq<string>)
    decreases |tokens|
  {
    if tokens == [] then pieces == [] && s == []
    else
      && pieces != [] && pieces[0] <= s && Writes(tokens[0], pieces[0])
      && (tokens[0].Literal? ==> !StartsReference(s))
      && EndsToken(tokens[0], pieces[0], s[|pieces[0]|..])
      && IsParse(s[|pieces[0]|..], tokens[1..], pieces[1..])
  }

  lemma {:induction false} NameIsMaximal(s: string)
    ensures NameLength(s[..NameLength(s)]) == NameLength(s)
    ensures NameLength(s) < |s| ==> !IsNameChar(s[NameLength(s)])
  {
    if NameLength(s) > 0 {
      NameIsMaximal(s[1..]);
      assert s[..NameLength(s)][1..] == s[1..][..NameLength(s[1..])];
    }
  }

  lemma {:induction false} NameLengthIs(s: string, k: nat)
    requires k <= |s| && NameLength(s[..k]) == k && (k < |s| ==> !IsNameChar(s[k]))
    ensures NameLength(s) == k
  {
    if k > 0 {
      assert s[..k][1..] == s[1..][..k - 1];
      NameLengthIs(s[1..], k - 1);
    }
  }

  lemma IndexOfFirst(s: string, c: char, i: nat)
    requires i < |s| && s[i] == c && c !in s[..i]
    ensures IndexOf(s, c) == i
  {
    assert forall k :: 0 <= k < i ==> s[..i][k] == s[k];
  }

  /** A reference is written at the start of the text, and its name ends where name characters end. */
  lemma ReferenceIsWritten(s: string)
    requires Reference(s).Some?
    ensures var (token, n) := Reference(s).value;
      !token.Literal? && Writes(token, s[..n]) && EndsToken(token, s[..n], s[n..])
  {
    hide NameLength, IndexOf;
    var (token, n) := Reference(s).value;
    if IsNameStart(s[1]) {
      NameIsMaximal(s[1..]);
      assert token.name == s[1..][..NameLength(s[1..])];
      assert s[..n] == "$" + token.name;
      FullName(s[1..]);
    } else {
      var body := s[2..];
      var k := NameLength(body);
      FullName(body);
      NameIsMaximal(body);
      var op := body[k..k + IndexOf(body[k..], '}')];
      ClosedOperation(body, k, op);
      hide Reference, IsName;
      BracedText(s, body[..k], op);
    }
  }

  lemma ClosedOperation(body: string, k: nat, op: string)
    requires k <= |body| && (k < |body| ==> !IsNameChar(body[k]))
    requires IndexOf(body[k..], '}') < |body| - k && op == body[k..k + IndexOf(body[k..], '}')]
    ensures '}' !in op && (op != "" ==> !IsNameChar(op[0]))
    ensures body[k + |op|] == '}'
  {
    hide IndexOf;
    assert forall i :: 0 <= i < |op| ==> op[i] == body[k..][i];
  }

  lemma BracedText(s: string, name: string, op: string)
    requires |s| >= |name| + |op| + 3 && s[0] == '$' && s[1] == '{'
    requires s[2..][..|name|] == name && s[2..][|name|..|name| + |op|] == op && s[2..][|name| + |op|] == '}'
    ensures s[..|name| + |op| + 3] == "${" + name + op + "}"
    ensures op == "" ==> s[..|name| + |op| + 3] == "${" + name + "}"
    ensures s[..|name| + |op| + 3][1] == '{'
  {
  }

  lemma FullName(s: string)
    requires s != [] && IsNameStart(s[0])
    ensures IsName(s[..NameLength(s)])
  {
    NameIsMaximal(s);
  }

  lemma BareReference(s: string, name: string)
    requires IsName(name) && |name| < |s| && s[..|name| + 1] == "$" + name
    requires |name| + 1 < |s| ==> !IsNameChar(s[|name| + 1])
    ensures Reference(s) == Some((Plain(name), |name| + 1))
  {
    var k := |name|;
    assert s[0] == s[..k + 1][0] && s[1] == s[..k + 1][1];
    assert s[1..][..k] == s[..k + 1][1..] == name;
    NameLengthIs(s[1..], k);
    assert s[1..1 + k] == name;
  }

  lemma BracedParts(s: string, name: string, op: string)
    requires "${" + name + op + "}" <= s
    ensures |s| >= |name| + |op| + 3 && s[0] == '$' && s[1] == '{'
    ensures s[2..][..|name|] == name && s[2..][|name|..][..|op|] == op && s[2..][|name|..][|op|] == '}'
  {
    var text, k := "${" + name + op + "}", |name|;
    assert forall i :: 0 <= i < |text| ==> s[i] == text[i];
    assert s[2..][..k] == text[2..2 + k] == name;
    assert s[2..][k..][..|op|] == text[2 + k..2 + k + |op|] == op;
    assert s[2..][k..][|op|] == s[|text| - 1] == text[|text| - 1] == '}';
  }

  lemma BracedReference(s: string, name: string, op: string)
    requires IsName(name) && '}' !in op && (op != "" ==> !IsNameChar(op[0]))
    requires "${" + name + op + "}" <= s
    ensures Reference(s) == Some((if op == "" then Plain(name) else Operation(name, op), |name| + |op| + 3))
  {
    BracedParts(s, name, op);
    var body, k := s[2..], |name|;
    assert body[k] == body[k..][0] && (op != "" ==> body[k..][0] == op[0]);
    assert s[2] == body[..k][0] && IsNameStart(s[2]);
    NameLengthIs(body, k);
    IndexOfFirst(body[k..], '}', |op|);
    hide NameLength, IndexOf, IsName, IsNameChar;
    assert body[k..k + |op|] == body[k..][..|op|] == op;
    assert IsNameStart(s[2]);
  }

  /** What is written at the start of a text as a reference is recognised as it stands. */
  lemma WrittenIsReference(s: string, token: Token, n: nat)
    requires n <= |s| && !token.Literal? && Writes(token, s[..n]) && EndsToken(token, s[..n], s[n..])
    ensures Reference(s) == Some((token, n))
  {
    hide Reference, IsName, NameLength;
    if token.Plain? && s[..n] == "$" + token.name {
      if n < |s| { assert s[n..][0] == s[n]; }
      BareReference(s, token.name);
    } else {
      var op := if token.Plain? then "" else token.op;
      assert s[..n] == "${" + token.name + op + "}";
      BracedReference(s, token.name, op);
    }
  }

  /** References are recognised exactly where one is written. */
  lemma ReferenceIff(s: string)
    ensures Reference(s).Some? <==> StartsReference(s)
  {
    if Reference(s).Some? { ReferenceIsWritten(s); }
    if StartsReference(s) {
      var token: Token, n: nat :| n <= |s| && !token.Literal? && Writes(token, s[..n]);
      if token.Plain? && s[..n] == "$" + token.name {
        assert s[0] == s[..n][0] && s[1] == s[..n][1];
      } else {
        WrittenIsReference(s, token, n);
      }
    }
  }

  function TokenLength(s: string): (n: nat)
    requires s != []
    ensures 0 < n <= |s|
  {
    if Reference(s).Some? then Reference(s).value.1 else 1
  }

  /** The tokens of a template are its parse: they cover it and miss no reference. */
  lemma {:induction false} TokensAreParse(s: string) returns (pieces: seq<string>)
    ensures IsParse(s, Tokens(s), pieces) && Concat(pieces) == s
    decreases |s|
  {
    if s == [] {
      pieces := [];
    } else {
      hide IsParse, Tokens, TokenLength;
      var n := TokenLength(s);
      var rest := TokensAreParse(s[n..]);
      pieces := [s[..n]] + rest;
      assert pieces[1..] == rest && s[..n] + s[n..] == s;
      ParseCons(s, n, rest);
    }
  }

  lemma ParseCons(s: string, n: nat, rest: seq<string>)
    requires s != [] && n == TokenLength(s)
    requires IsParse(s[n..], Tokens(s[n..]), rest)
    ensures IsParse(s, Tokens(s), [s[..n]] + rest)
  {
    ReferenceIff(s);
    if Reference(s).Some? { ReferenceIsWritten(s); }
    var pieces := [s[..n]] + rest;
    var token := if Reference(s).Some? then Reference(s).value.0 else Literal(s[0]);
    assert Tokens(s) == [token] + Tokens(s[n..]);
    hide Reference, Tokens, StartsReference;
    assert Tokens(s)[1..] == Tokens(s[n..]) && pieces[1..] == rest;
    assert Writes(token, pieces[0]) && EndsToken(token, pieces[0], s[n..]);
  }

  /** A template has no other parse. */
  lemma {:induction false} ParseUnique(s: string, tokens: seq<Token>, pieces: seq<string>)
    requires IsParse(s, tokens, pieces)
    ensures tokens == Tokens(s)
    decreases |tokens|
  {
    if tokens != [] {
      hide Reference, StartsReference, EndsToken, Writes;
      FirstToken(s, tokens, pieces);
      ParseUnique(s[|pieces[0]|..], tokens[1..], pieces[1..]);
      TokensStep(s);
      assert tokens == [tokens[0]] + tokens[1..];
    }
  }

  /** The first token of a parse is the reference at the start, or else the first character. */
  lemma FirstToken(s: string, tokens: seq<Token>, pieces: seq<string>)
    requires IsParse(s, tokens, pieces) && tokens != []
    ensures s != [] && pieces != [] && TokenLength(s) == |pieces[0]|
    ensures tokens[0] == if Reference(s).Some? then Reference(s).value.0 else Literal(s[0])
  {
    hide Reference, StartsReference;
    assert s[..|pieces[0]|] == pieces[0];
    WrittenNotEmpty(tokens[0], pieces[0]);
    ReferenceIff(s);
    if !tokens[0].Literal? { WrittenIsReference(s, tokens[0], |pieces[0]|); }
  }

  lemma WrittenNotEmpty(token: Token, text: string)
    requires Writes(token, text)
    ensures text != [] && (token.Literal? ==> token == Literal(text[0]) && |text| == 1)
  {
  }

  lemma TokensStep(s: string)
    requires s != []
    ensures Tokens(s) ==
      [if Reference(s).Some? then Reference(s).value.0 else Literal(s[0])] + Tokens(s[TokenLength(s)..])
  {
  }

  // ----- Substrings -----

  function Max(a: int, b: int): int {
    if a >= b then a else b
  }

  /**
   * The leading characters and the rest from the same offset make up the value, for negative
   * numbers too, which count from the end; a length limits the rest the way it limits a value.
   */
  lemma SubstringLaws(value: string, n: int, length: int)
    ensures BashPrefix(value, n) + BashRange(value, n, None) == value
    ensures |BashPrefix(value, n)| == if n >= 0 then |value| - Max(|value| - n, 0) else Max(|value| + n, 0)
    ensures BashRange(value, n, Some(length)) == BashPrefix(BashRange(value, n, None), length)
  {
  }

  // ----- Replacements -----

  function JoinWith(pieces: seq<string>, separator: string): string
    requires pieces != []
  {
    if |pieces| == 1 then pieces[0] else pieces[0] + separator + JoinWith(pieces[1..], separator)
  }

  /** No occurrence of `pattern` in `s` starts before `end`. */
  ghost predicate NoneBefore(s: string, pattern: string, end: nat) {
    forall k: nat :: k < end ==> !OccursAt(s, pattern, k)
  }

  /** `pieces` are what is left between the occurrences found from left to right, none overlapping. */
  ghost predicate IsCut(s: string, pattern: string, pieces: seq<string>)
    requires pattern != []
    decreases |pieces|
  {
    && pieces != []
    && if |pieces| == 1 then pieces[0] == s && NoneBefore(s, pattern, |s|)
       else
         var n := |pieces[0]|;
         && OccursAt(s, pattern, n) && s[..n] == pieces[0] && NoneBefore(s, pattern, n)
         && IsCut(s[n + |pattern|..], pattern, pieces[1..])
  }

  lemma NoneBeforeCons(s: string, pattern: string, end: nat)
    requires s != [] && !OccursAt(s, pattern, 0) && NoneBefore(s[1..], pattern, end)
    ensures NoneBefore(s, pattern, end + 1)
  {
    forall k: nat | k < end + 1
      ensures !OccursAt(s, pattern, k)
    {
      if k > 0 { OccursBehind(s, pattern, k); }
    }
  }

  lemma OccursBehind(s: string, pattern: string, k: nat)
    requires s != [] && k > 0
    ensures OccursAt(s, pattern, k) <==> OccursAt(s[1..], pattern, k - 1)
  {
    if k + |pattern| <= |s| { assert s[k..k + |pattern|] == s[1..][k - 1..k - 1 + |pattern|]; }
  }

  /** The pieces with a character put in front of the first one. */
  function Prepend(c: char, pieces: seq<string>): (r: seq<string>)
    requires pieces != []
    ensures r != []
  {
    [[c] + pieces[0]] + pieces[1..]
  }

  lemma CutCons(s: string, pattern: string, rest: seq<string>)
    requires s != [] && pattern != [] && !OccursAt(s, pattern, 0) && IsCut(s[1..], pattern, rest)
    ensures IsCut(s, pattern, Prepend(s[0], rest))
  {
    var pieces := Prepend(s[0], rest);
    var n := |rest[0]|;
    assert s == [s[0]] + s[1..];
    if |rest| == 1 {
      NoneBeforeCons(s, pattern, |s| - 1);
    } else {
      NoneBeforeCons(s, pattern, n);
      OccursBehind(s, pattern, n + 1);
      assert s[..n + 1] == [s[0]] + s[1..][..n];
      assert s[n + 1 + |pattern|..] == s[1..][n + |pattern|..] && pieces[1..] == rest[1..];
    }
  }

  lemma JoinCons(c: char, rest: seq<string>, separator: string)
    requires rest != []
    ensures JoinWith(Prepend(c, rest), separator) == [c] + JoinWith(rest, separator)
  {
    if |rest| > 1 { assert Prepend(c, rest)[1..] == rest[1..]; }
  }

  lemma CutAtStart(s: string, pattern: string, rest: seq<string>, replacement: string)
    requires pattern != [] && OccursAt(s, pattern, 0) && IsCut(s[|pattern|..], pattern, rest)
    ensures IsCut(s, pattern, [[]] + rest)
    ensures JoinWith([[]] + rest, replacement) == replacement + JoinWith(rest, replacement)
    ensures s == pattern + s[|pattern|..]
  {
    CutIsNotEmpty(s[|pattern|..], pattern, rest);
    EmptyFirst(rest, replacement);
    hide JoinWith;
    assert ([[]] + rest)[1..] == rest;
    CutBehindEmpty(s, pattern, [[]] + rest);
  }

  lemma EmptyFirst(rest: seq<string>, separator: string)
    requires rest != []
    ensures JoinWith([[]] + rest, separator) == separator + JoinWith(rest, separator)
  {
    assert ([[]] + rest)[1..] == rest;
  }

  lemma CutBehindEmpty(s: string, pattern: string, pieces: seq<string>)
    requires pattern != [] && OccursAt(s, pattern, 0) && |pieces| > 1 && pieces[0] == []
    requires IsCut(s[|pattern|..], pattern, pieces[1..])
    ensures IsCut(s, pattern, pieces)
  {
    assert s[0 + |pattern|..] == s[|pattern|..];
  }

  lemma ReplaceAllCons(s: string, pattern: string, replacement: string)
    requires pattern != [] && s != []
    ensures ReplaceAll(s, pattern, replacement) ==
      if OccursAt(s, pattern, 0) then replacement + ReplaceAll(s[|pattern|..], pattern, replacement)
      else [s[0]] + ReplaceAll(s[1..], pattern, replacement)
    ensures s == [s[0]] + s[1..]
  {
  }

  /** Replacing all occurrences puts the replacement where the occurrences were, and nowhere else. */
  lemma {:induction false} ReplaceAllJoins(s: string, pattern: string, replacement: string)
      returns (pieces: seq<string>)
    requires pattern != []
    ensures IsCut(s, pattern, pieces)
    ensures JoinWith(pieces, pattern) == s && JoinWith(pieces, replacement) == ReplaceAll(s, pattern, replacement)
    decreases |s|
  {
    if s == [] {
      pieces := [[]];
    } else {
      ReplaceAllCons(s, pattern, replacement);
      hide IsCut, JoinWith, ReplaceAll, Prepend;
      if OccursAt(s, pattern, 0) {
        var rest := ReplaceAllJoins(s[|pattern|..], pattern, replacement);
        pieces := [[]] + rest;
        CutAtStart(s, pattern, rest, pattern);
        CutAtStart(s, pattern, rest, replacement);
      } else {
        var rest := ReplaceAllJoins(s[1..], pattern, replacement);
        CutIsNotEmpty(s[1..], pattern, rest);
        pieces := Prepend(s[0], rest);
        CutCons(s, pattern, rest);
        JoinCons(s[0], rest, pattern);
        JoinCons(s[0], rest, replacement);
      }
    }
  }

  lemma CutIsNotEmpty(s: string, pattern: string, pieces: seq<string>)
    requires pattern != [] && IsCut(s, pattern, pieces)
    ensures pieces != []
  {
  }

  /** `before + s` with the replacement in place of what `pattern` takes up at `i` in `s`. */
  function Splice(before: string, s: string, pattern: string, replacement: string, i: nat): string
    requires i + |pattern| <= |s|
  {
    var front, back := before + s[..i], s[i + |pattern|..];
    front + ReplacementText(replacement, pattern, front, back) + back
  }

  lemma SpliceCons(before: string, s: string, pattern: string, replacement: string, k: nat)
    requires s != [] && k + 1 + |pattern| <= |s|
    ensures Splice(before + [s[0]], s[1..], pattern, replacement, k) == Splice(before, s, pattern, replacement, k + 1)
  {
    hide ReplacementText;
    assert before + [s[0]] + s[1..][..k] == before + s[..k + 1];
    assert s[1..][k + |pattern|..] == s[k + 1 + |pattern|..];
  }

  lemma ReplaceFirstHere(before: string, s: string, pattern: string, replacement: string)
    ensures OccursAt(s, pattern, 0) ==>
      |pattern| <= |s| && ReplaceFirst(before, s, pattern, replacement) == Splice(before, s, pattern, replacement, 0)
    ensures !OccursAt(s, pattern, 0) && s == [] ==> ReplaceFirst(before, s, pattern, replacement) == before
    ensures !OccursAt(s, pattern, 0) && s != [] ==>
      ReplaceFirst(before, s, pattern, replacement) == ReplaceFirst(before + [s[0]], s[1..], pattern, replacement)
  {
    hide ReplacementText;
    assert before + s[..0] == before;
  }

  /** A single replacement replaces the first occurrence; without one the value stays. */
  lemma {:induction false} ReplaceFirstAt(before: string, s: string, pattern: string, replacement: string)
      returns (i: nat)
    requires pattern != []
    ensures i <= |s| && NoneBefore(s, pattern, i)
    ensures i < |s| ==> OccursAt(s, pattern, i)
    ensures ReplaceFirst(before, s, pattern, replacement) ==
      if i == |s| then before + s else Splice(before, s, pattern, replacement, i)
    decreases |s|
  {
    ReplaceFirstHere(before, s, pattern, replacement);
    hide ReplaceFirst, Splice;
    if s == [] || OccursAt(s, pattern, 0) {
      i := 0;
    } else {
      var k := ReplaceFirstAt(before + [s[0]], s[1..], pattern, replacement);
      i := k + 1;
      NoneBeforeCons(s, pattern, k);
      OccursBehind(s, pattern, i);
      if i < |s| {
        SpliceCons(before, s, pattern, replacement, k);
      } else {
        assert before + [s[0]] + s[1..] == before + s;
      }
    }
  }

  /** Without a dollar sign the replacement text is put in as it is. */
  lemma {:induction false} PlainReplacementText(replacement: string, found: string, before: string, after: string)
    requires '$' !in replacement
    ensures ReplacementText(replacement, found, before, after) == replacement
  {
    if replacement != [] { PlainReplacementText(replacement[1..], found, before, after); }
  }

  lemma {:induction false} TextBehindPlain(front: string, rest: string, found: string, before: string, after: string)
    requires '$' !in front
    ensures ReplacementText(front + rest, found, before, after) == front + ReplacementText(rest, found, before, after)
  {
    if front == [] {
      assert front + rest == rest;
    } else {
      assert (front + rest)[1..] == front[1..] + rest && front[0] in front;
      TextBehindPlain(front[1..], rest, found, before, after);
    }
  }

  /** The four pairs a dollar sign begins are replaced; before anything else it stands for itself. */
  lemma ReplacementReferences(front: string, back: string, found: string, before: string, after: string)
    requires '$' !in front
    ensures var text := ReplacementText(back, found, before, after);
      && ReplacementText(front + ("$$" + back), found, before, after) == front + ("$" + text)
      && ReplacementText(front + ("$&" + back), found, before, after) == front + (found + text)
      && ReplacementText(front + ("$`" + back), found, before, after) == front + (before + text)
      && ReplacementText(front + ("$'" + back), found, before, after) == front + (after + text)
      && (back == "" || back[0] !in {'$', '&', '`', '\''} ==>
           ReplacementText(front + ("$" + back), found, before, after) == front + ("$" + text))
  {
    TextBehindPlain(front, "$$" + back, found, before, after);
    TextBehindPlain(front, "$&" + back, found, before, after);
    TextBehindPlain(front, "$`" + back, found, before, after);
    TextBehindPlain(front, "$'" + back, found, before, after);
    TextBehindPlain(front, "$" + back, found, before, after);
    assert ("$$" + back)[2..] == back && ("$&" + back)[2..] == back && ("$`" + back)[2..] == back;
    assert ("$'" + back)[2..] == back && ("$" + back)[1..] == back;
  }
}
