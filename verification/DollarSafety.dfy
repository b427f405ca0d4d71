/**
 * Which operations can take the dollar sign off a value that is not resolved yet. Every other
 * operation keeps a dollar sign that is in its value, or is unresolvable.
 */
module DollarSafety {
  import opened Wrappers
  import opened GlobStrip
  import opened ParameterExpansion

  // ----- The condition, on the text of the operation -----

  /** Literals without a dollar sign; for the shortest prefix, stars may follow them. */
  predicate IsSafePrefix(pattern: string, longest: bool) {
    if pattern == [] then true
    else if pattern[0] == '*' then !longest && forall c | c in pattern :: c == '*'
    else pattern[0] !in ['$', '?'] && IsSafePrefix(pattern[1..], longest)
  }

  predicate IsSafeStrip(pattern: string, isPrefix: bool, longest: bool) {
    IsSafePrefix(if isPrefix then pattern else Reverse(pattern), longest)
  }

  /** The pattern has no dollar sign, or replacing it puts one in. */
  predicate IsSafeReplacement(r: Replacement) {
    '$' !in r.pattern || '$' in if r.isAll then r.text else ReplacementText(r.text, r.pattern, [], [])
  }

  predicate IsDollarSafe(op: string) {
    if Fallback(op).Some? then true
    else
      match ParseSubstring(op)
      case Some(substring) => substring == Range(0, None)
      case None =>
        match ParseAnchored(op)
        case Some(a) => IsSafeStrip(a.pattern, a.isPrefix, a.longest)
        case None => ParseReplacement(op).Some? ==> IsSafeReplacement(ParseReplacement(op).value)
  }

  // ----- Strips -----

  predicate Kept(result: Option<string>) {
    result.Some? ==> '$' in result.value
  }

  ghost predicate StripKeeps(pattern: string, isPrefix: bool, longest: bool) {
    forall v: string :: '$' in v ==> Kept(Strip(v, pattern, isPrefix, longest))
  }

  /** What a safe pattern matches has no dollar sign, or has a shorter match in front. */
  lemma {:induction false} SafeMatch(pattern: string, longest: bool, text: string) returns (k: nat)
    requires IsSafePrefix(pattern, longest) && Matches(pattern, text) && '$' in text
    ensures !longest && k < |text| && Matches(pattern, text[..k])
  {
    if pattern[0] == '*' {
      k := 0;
      StarsMatchNothing(pattern);
      assert text[..0] == [];
    } else {
      assert text == [text[0]] + text[1..];
      var n := SafeMatch(pattern[1..], longest, text[1..]);
      k := n + 1;
      assert text[..k][1..] == text[1..][..n];
    }
  }

  lemma {:induction false} StarsMatchNothing(pattern: string)
    requires forall c | c in pattern :: c == '*'
    ensures Matches(pattern, [])
  {
    if pattern != [] {
      assert pattern[0] in pattern && forall c | c in pattern[1..] :: c in pattern;
      StarsMatchNothing(pattern[1..]);
    }
  }

  lemma SafePrefixKeeps(pattern: string, longest: bool)
    requires IsSafePrefix(pattern, longest)
    ensures StripKeeps(pattern, true, longest)
  {
    forall v: string | '$' in v
      ensures Kept(Strip(v, pattern, true, longest))
    {
      StripIsStrip(v, pattern, true, longest);
      var result := Strip(v, pattern, true, longest);
      assert IsStrip(v, pattern, true, longest, result);
      hide Strip, InLanguage, Matches, IsSafePrefix;
      if result.Some? {
        var n: nat :| n <= |v| && result.value == Remainder(v, true, n)
          && (if longest then IsLongest(v, pattern, true, n) else IsShortest(v, pattern, true, n));
        MatchesIffInLanguage(pattern, v[..n]);
        assert v == v[..n] + result.value;
        if '$' in v[..n] {
          var k := SafeMatch(pattern, longest, v[..n]);
          assert v[..n][..k] == Span(v, true, k);
          MatchesIffInLanguage(pattern, v[..k]);
        }
      }
    }
  }

  /** A match with a dollar sign for every wildcard. */
  function Filled(pattern: string): (text: string) {
    seq(|pattern|, i requires 0 <= i < |pattern| => if pattern[i] in ['*', '?'] then '$' else pattern[i])
  }

  lemma {:induction false} FilledMatches(pattern: string)
    ensures Matches(pattern, Filled(pattern))
    ensures !IsSafePrefix(pattern, true) ==> '$' in Filled(pattern)
  {
    if pattern == [] {
      assert Filled(pattern) == [];
    } else {
      FilledMatches(pattern[1..]);
      var text := Filled(pattern);
      assert text == [text[0]] + Filled(pattern[1..]) && text[1..] == Filled(pattern[1..]);
      if pattern[0] == '*' { assert Matches(pattern, text[1..]); }
    }
  }

  /** The shortest text with a dollar sign for every question mark. */
  function Minimal(pattern: string): string {
    if pattern == [] then []
    else if pattern[0] == '*' then Minimal(pattern[1..])
    else [if pattern[0] == '?' then '$' else pattern[0]] + Minimal(pattern[1..])
  }

  lemma {:induction false} MinimalMatches(pattern: string)
    ensures Matches(pattern, Minimal(pattern))
    ensures '$' in pattern || '?' in pattern ==> '$' in Minimal(pattern)
    ensures '$' !in pattern && '?' !in pattern ==> '$' !in Minimal(pattern)
    ensures (exists c | c in pattern :: c != '*') ==> Minimal(pattern) != []
  {
    if pattern != [] {
      MinimalMatches(pattern[1..]);
      assert pattern == [pattern[0]] + pattern[1..];
    }
  }

  lemma {:induction false} NothingShorter(pattern: string, text: string)
    requires Matches(pattern, text)
    ensures |text| >= |Minimal(pattern)|
    ensures '?' !in pattern && |text| == |Minimal(pattern)| ==> text == Minimal(pattern)
    decreases |pattern| + |text|
  {
    if pattern != [] {
      assert pattern == [pattern[0]] + pattern[1..];
      if pattern[0] != '*' || Matches(pattern[1..], text) {
        NothingShorter(pattern[1..], if pattern[0] == '*' then text else text[1..]);
        if pattern[0] != '*' { assert text == [text[0]] + text[1..]; }
      } else {
        NothingShorter(pattern, text[1..]);
      }
    }
  }

  /** A match with a dollar sign for the first star and nothing for the others. */
  function OneStar(pattern: string): string {
    if pattern == [] then []
    else if pattern[0] == '*' then ['$'] + Minimal(pattern[1..])
    else [pattern[0]] + OneStar(pattern[1..])
  }

  lemma {:induction false} OneStarIsShortest(pattern: string)
    requires !IsSafePrefix(pattern, false) && '$' !in pattern && '?' !in pattern
    ensures Matches(pattern, OneStar(pattern)) && '$' in OneStar(pattern)
    ensures forall k: nat :: k < |OneStar(pattern)| ==> !Matches(pattern, OneStar(pattern)[..k])
  {
    var text, rest := OneStar(pattern), pattern[1..];
    assert pattern == [pattern[0]] + rest && text[0] in text;
    assert text == [text[0]] + text[1..];
    if pattern[0] == '*' {
      StarIsShortest(pattern);
    } else {
      OneStarIsShortest(rest);
      assert text[1..] == OneStar(rest);
      forall k: nat | k < |text|
        ensures !Matches(pattern, text[..k])
      {
        if k > 0 { assert text[..k][1..] == OneStar(rest)[..k - 1]; }
      }
    }
  }

  lemma StarIsShortest(pattern: string)
    requires pattern != [] && pattern[0] == '*' && (exists c | c in pattern :: c != '*')
    requires '$' !in pattern && '?' !in pattern
    ensures Matches(pattern, ['$'] + Minimal(pattern[1..]))
    ensures forall k: nat :: k < |Minimal(pattern[1..])| + 1 ==> !Matches(pattern, (['$'] + Minimal(pattern[1..]))[..k])
  {
    var minimal := Minimal(pattern[1..]);
    var text := ['$'] + minimal;
    assert pattern == ['*'] + pattern[1..];
    MinimalMatches(pattern[1..]);
    assert text[1..] == minimal && Minimal(pattern) == minimal;
    assert Matches(pattern, minimal);
    forall k: nat | k < |text|
      ensures !Matches(pattern, text[..k])
    {
      if k > 0 { assert text[..k][0] == '$' && text[..k][0] in text[..k]; }
      if Matches(pattern, text[..k]) { NothingShorter(pattern, text[..k]); }
    }
  }

  /** A text an unsafe pattern takes off as a whole, dollar sign and all. */
  lemma UnsafeText(pattern: string, longest: bool) returns (text: string)
    requires !IsSafePrefix(pattern, longest)
    ensures '$' in text && Matches(pattern, text)
    ensures !longest ==> forall k: nat :: k < |text| ==> !Matches(pattern, text[..k])
  {
    if longest {
      text := Filled(pattern);
      FilledMatches(pattern);
    } else if '$' in pattern || '?' in pattern {
      text := Minimal(pattern);
      MinimalMatches(pattern);
      forall k: nat | k < |text|
        ensures !Matches(pattern, text[..k])
      {
        if Matches(pattern, text[..k]) { NothingShorter(pattern, text[..k]); }
      }
    } else {
      text := OneStar(pattern);
      OneStarIsShortest(pattern);
    }
  }

  lemma UnsafePrefixLoses(pattern: string, longest: bool)
    requires !IsSafePrefix(pattern, longest)
    ensures !StripKeeps(pattern, true, longest)
  {
    var text := UnsafeText(pattern, longest);
    var n := |text|;
    hide Matches, InLanguage, IsSafePrefix, Strip;
    assert text[..n] == text;
    MatchesIffInLanguage(pattern, text);
    forall k: nat | k < n
      ensures !longest ==> !InLanguage(pattern, Span(text, true, k))
    {
      MatchesIffInLanguage(pattern, text[..k]);
    }
    assert if longest then IsLongest(text, pattern, true, n) else IsShortest(text, pattern, true, n);
    assert IsStrip(text, pattern, true, longest, Some([])) by { assert Remainder(text, true, n) == []; }
    StripIsStrip(text, pattern, true, longest);
    assert Strip(text, pattern, true, longest) == Some([]);
  }

  lemma MirroredResult(v: string, pattern: string, longest: bool)
    ensures Strip(Reverse(v), Reverse(pattern), true, longest) == MapReverse(Strip(v, pattern, false, longest))
  {
    hide Strip, Reverse, IsStrip;
    StripIsStrip(v, pattern, false, longest);
    StripIsStrip(Reverse(v), Reverse(pattern), true, longest);
    SuffixStripMirrorsPrefixStrip(v, pattern, longest, Strip(v, pattern, false, longest),
      Strip(Reverse(v), Reverse(pattern), true, longest));
  }

  /** A value and its reversal keep a dollar sign together. */
  lemma MirroredAt(v: string, pattern: string, longest: bool)
    ensures Kept(Strip(v, pattern, false, longest)) <==> Kept(Strip(Reverse(v), Reverse(pattern), true, longest))
    ensures '$' in v <==> '$' in Reverse(v)
  {
    hide Strip, Reverse;
    MirroredResult(v, pattern, longest);
    ReverseDollar(v);
    var result := Strip(v, pattern, false, longest);
    if result.Some? { ReverseDollar(result.value); }
  }

  lemma MirroredKeeps(pattern: string, longest: bool)
    ensures StripKeeps(pattern, false, longest) <==> StripKeeps(Reverse(pattern), true, longest)
  {
    hide Strip, Reverse, Kept;
    if StripKeeps(Reverse(pattern), true, longest) {
      forall v: string | '$' in v
        ensures Kept(Strip(v, pattern, false, longest))
      {
        MirroredAt(v, pattern, longest);
      }
    }
    if StripKeeps(pattern, false, longest) {
      forall v: string | '$' in v
        ensures Kept(Strip(v, Reverse(pattern), true, longest))
      {
        ReverseDollar(v);
        MirroredAt(Reverse(v), pattern, longest);
      }
    }
  }

  lemma ReverseDollar(v: string)
    ensures '$' in v <==> '$' in Reverse(v)
    ensures Reverse(Reverse(v)) == v
  {
    if '$' in v {
      var i :| 0 <= i < |v| && v[i] == '$';
      assert Reverse(v)[|v| - 1 - i] == '$';
    }
    if '$' in Reverse(v) {
      var i :| 0 <= i < |v| && Reverse(v)[i] == '$';
      assert v[|v| - 1 - i] == '$';
    }
  }

  lemma StripKeepsIff(pattern: string, isPrefix: bool, longest: bool)
    ensures StripKeeps(pattern, isPrefix, longest) <==> IsSafeStrip(pattern, isPrefix, longest)
  {
    hide StripKeeps, IsSafePrefix;
    if !isPrefix { MirroredKeeps(pattern, longest); }
    var p := if isPrefix then pattern else Reverse(pattern);
    if IsSafePrefix(p, longest) { SafePrefixKeeps(p, longest); } else { UnsafePrefixLoses(p, longest); }
  }

  // ----- Substrings -----

  function Cut(value: string, substring: Substring): string {
    match substring
    case LeadingChars(keep) => BashPrefix(value, keep)
    case Range(offset, length) => BashRange(value, offset, length)
  }

  /** Every substring but the whole value loses a dollar sign of some value. */
  lemma SubstringKeepsIff(substring: Substring)
    ensures (forall v: string :: '$' in v ==> '$' in Cut(v, substring)) <==> substring == Range(0, None)
  {
    var v := LostText(substring);
    if substring != Range(0, None) {
      assert v[|v| - 1] == '$' || v[0] == '$';
      assert '$' in v && '$' !in Cut(v, substring);
    }
  }

  function Letters(n: nat): (s: string)
    ensures |s| == n && '$' !in s
  {
    seq(n, i => 'a')
  }

  /** A value whose dollar sign the substring leaves out. */
  function LostText(substring: Substring): string {
    match substring
    case LeadingChars(keep) => if keep < 0 then "$" else Letters(keep) + "$"
    case Range(offset, length) =>
      if offset < 0 then "$" + Letters(-offset)
      else if offset > 0 || length.None? || length.value < 0 then "$"
      else Letters(length.value) + "$"
  }

  // ----- Replacements -----

  lemma {:induction false} ReplacedHasDollar(s: string, pattern: string, replacement: string)
    requires pattern != [] && '$' in s && '$' in replacement
    ensures '$' in ReplaceAll(s, pattern, replacement)
    decreases |s|
  {
    if !OccursAt(s, pattern, 0) {
      assert s == [s[0]] + s[1..];
      if s[0] != '$' { ReplacedHasDollar(s[1..], pattern, replacement); }
    }
  }

  /** A dollar sign that comes from the replacement itself is there in every place. */
  lemma {:induction false} TextHasDollar(replacement: string, found: string, before: string, after: string)
    requires '$' in ReplacementText(replacement, found, [], [])
    ensures '$' in ReplacementText(replacement, found, before, after)
  {
    if |replacement| >= 2 && replacement[0] == '$' && replacement[1] in ['$', '&', '`', '\''] {
      var rest := replacement[2..];
      if '$' in ReplacementText(rest, found, [], []) { TextHasDollar(rest, found, before, after); }
    } else {
      var rest := replacement[1..];
      if '$' in ReplacementText(rest, found, [], []) { TextHasDollar(rest, found, before, after); }
    }
  }

  lemma {:induction false} FirstReplacedHasDollar(before: string, s: string, pattern: string, replacement: string)
    requires pattern != [] && '$' in before + s && '$' in ReplacementText(replacement, pattern, [], [])
    ensures '$' in ReplaceFirst(before, s, pattern, replacement)
    decreases |s|
  {
    if OccursAt(s, pattern, 0) {
      TextHasDollar(replacement, pattern, before, s[|pattern|..]);
    } else if s != [] {
      assert before + [s[0]] + s[1..] == before + s;
      FirstReplacedHasDollar(before + [s[0]], s[1..], pattern, replacement);
    }
  }

  ghost predicate ReplacementKeeps(op: string) {
    forall v: string :: '$' in v ==> Kept(ApplyReplacement(op, v))
  }

  lemma PatternReplaced(pattern: string, replacement: string)
    requires pattern != []
    ensures ReplaceAll(pattern, pattern, replacement) == replacement
    ensures ReplaceFirst([], pattern, pattern, replacement) == ReplacementText(replacement, pattern, [], [])
  {
    assert OccursAt(pattern, pattern, 0) && pattern[|pattern|..] == [];
    assert ReplaceAll([], pattern, replacement) == [] && replacement + [] == replacement;
  }

  lemma ReplacementKeepsIff(op: string)
    ensures ReplacementKeeps(op) <==> ParseReplacement(op).Some? ==> IsSafeReplacement(ParseReplacement(op).value)
  {
    hide ParseReplacement;
    if ParseReplacement(op).Some? {
      var r := ParseReplacement(op).value;
      if IsSafeReplacement(r) {
        forall v: string | '$' in v
          ensures Kept(ApplyReplacement(op, v))
        {
          ReplacedKeeps(v, r);
        }
      } else {
        PatternReplaced(r.pattern, r.text);
        assert !Kept(ApplyReplacement(op, r.pattern));
      }
    }
  }

  lemma ReplacedKeeps(v: string, r: Replacement)
    requires r.pattern != [] && '$' in v && IsSafeReplacement(r)
    ensures '$' in if r.isAll then ReplaceAll(v, r.pattern, r.text) else ReplaceFirst([], v, r.pattern, r.text)
  {
    assert [] + v == v;
    if '$' !in r.pattern {
      if r.isAll {
        ReplaceAllKeepsDollar(v, r.pattern, r.text);
      } else {
        ReplaceFirstKeepsDollar([], v, r.pattern, r.text);
      }
    } else if r.isAll {
      ReplacedHasDollar(v, r.pattern, r.text);
    } else {
      FirstReplacedHasDollar([], v, r.pattern, r.text);
    }
  }

  // ----- All operations -----

  /** An operation keeps a dollar sign of every value exactly when its text is one of the safe forms. */
  lemma KeepsDollarIff(op: string)
    ensures KeepsDollar(op) <==> IsDollarSafe(op)
  {
    if Fallback(op).None? {
      match ParseSubstring(op) {
        case Some(substring) =>
          SubstringKeepsIff(substring);
          forall v: string
            ensures ApplyOperation(op, Some(v)) == Some(Cut(v, substring))
          {
          }
        case None =>
          hide ParseSubstring;
          match ParseAnchored(op) {
            case Some(a) =>
              StripKeepsIff(a.pattern, a.isPrefix, a.longest);
              hide Strip, IsSafeStrip;
              forall v: string
                ensures ApplyOperation(op, Some(v)) == Strip(v, a.pattern, a.isPrefix, a.longest)
              {
              }
            case None =>
              ReplacementKeepsIff(op);
              hide ApplyReplacement, IsSafeReplacement, ParseReplacement;
              forall v: string
                ensures ApplyOperation(op, Some(v)) == ApplyReplacement(op, v)
              {
              }
          }
      }
    }
  }

  /** Steadiness can be read off the templates. */
  lemma IsSteadyIff(vars: Vars)
    ensures IsSteady(vars) <==>
      forall name, t :: name in vars && t in Tokens(vars[name]) && t.Operation? ==> IsDollarSafe(t.op)
  {
    forall op
      ensures KeepsDollar(op) <==> IsDollarSafe(op)
    {
      KeepsDollarIff(op);
    }
    hide KeepsDollar, IsDollarSafe, Tokens;
  }
}
