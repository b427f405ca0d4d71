/**
 * Variable references in package build files: `$name`, `${name}` and `${name…}`
 * with an operation, and the passes that resolve variables referring to others.
 */
module ParameterExpansion {
  import opened Wrappers
  import opened GlobStrip

  type Vars = map<string, string>

  const MAX_EXPANSION_PASSES: nat := 5

  // ----- References in a template -----

  /** A template is a sequence of literal characters and variable references. */
  datatype Token =
    | Literal(c: char)
    | Plain(name: string)
    | Operation(name: string, op: string)

  predicate IsNameStart(c: char) {
    'A' <= c <= 'Z' || 'a' <= c <= 'z' || c == '_'
  }

  function NameLength(s: string): (n: nat)
    ensures n <= |s|
  {
    if s != [] && (IsNameStart(s[0]) || '0' <= s[0] <= '9') then 1 + NameLength(s[1..]) else 0
  }

  function IndexOf(s: string, c: char): (i: nat)
    ensures i <= |s| && (i < |s| ==> s[i] == c) && forall k :: 0 <= k < i ==> s[k] != c
  {
    if s == [] || s[0] == c then 0 else 1 + IndexOf(s[1..], c)
  }

  /** The reference at the start of `s`, with the number of characters it takes. */
  function Reference(s: string): (r: Option<(Token, nat)>)
    ensures r.Some? ==> 0 < r.value.1 <= |s|
  {
    if |s| >= 2 && s[0] == '$' && IsNameStart(s[1]) then
      var n := NameLength(s[1..]);
      Some((Plain(s[1..1 + n]), 1 + n))
    else if |s| >= 3 && s[0] == '$' && s[1] == '{' && IsNameStart(s[2]) then
      var body := s[2..];
      var n := NameLength(body);
      var close := IndexOf(body[n..], '}');
      if close == |body| - n then None
      else
        var op := body[n..n + close];
        Some((if op == "" then Plain(body[..n]) else Operation(body[..n], op), 2 + n + close + 1))
    else None
  }

  function Tokens(s: string): seq<Token> {
    if s == [] then []
    else
      match Reference(s)
      case Some((token, n)) => [token] + Tokens(s[n..])
      case None => [Literal(s[0])] + Tokens(s[1..])
  }

  // ----- Operations on a value -----

  predicate HasLineBreak(s: string) {
    '\n' in s || '\r' in s || '\U{2028}' in s || '\U{2029}' in s
  }

  predicate AllDigits(s: string) {
    forall i :: 0 <= i < |s| ==> '0' <= s[i] <= '9'
  }

  predicate IsInteger(s: string) {
    var digits := if s != [] && s[0] == '-' then s[1..] else s;
    digits != [] && AllDigits(digits)
  }

  function ParseNat(s: string): nat
    requires AllDigits(s)
  {
    if s == [] then 0
    else
      10 * ParseNat(s[..|s| - 1]) + (s[|s| - 1] as int - '0' as int)
  }

  function ParseInteger(s: string): int
    requires IsInteger(s)
  {
    if s[0] == '-' then 0 - ParseNat(s[1..]) else ParseNat(s)
  }

  function Clamp(x: int, low: int, high: int): int {
    if x < low then low else if x > high then high else x
  }

  function BashPrefix(value: string, keep: int): string {
    value[..if keep < 0 then Clamp(|value| + keep, 0, |value|) else Clamp(keep, 0, |value|)]
  }

  function BashRange(value: string, offset: int, length: Option<int>): string {
    var total := |value|;
    var start := if offset < 0 then Clamp(total + offset, 0, total) else Clamp(offset, 0, total);
    match length
    case None => value[start..]
    case Some(n) => value[start..if n < 0 then Clamp(total + n, start, total) else Clamp(start + n, start, total)]
  }

  datatype Substring = LeadingChars(keep: int) | Range(offset: int, length: Option<int>)

  /** `:N`, `:N:M` and `::N`, with optional minus signs. */
  function ParseSubstring(op: string): Option<Substring> {
    if op == [] || op[0] != ':' then None
    else
      var leading := |op| >= 2 && op[1] == ':';
      var body := if leading then op[2..] else op[1..];
      var colon := IndexOf(body, ':');
      if !IsInteger(body[..colon]) then None
      else if colon == |body| then
        Some(if leading then LeadingChars(ParseInteger(body)) else Range(ParseInteger(body), None))
      else if !IsInteger(body[colon + 1..]) then None
      else if leading then Some(LeadingChars(ParseInteger(body[..colon])))
      else Some(Range(ParseInteger(body[..colon]), Some(ParseInteger(body[colon + 1..]))))
  }

  datatype Anchored = Anchored(pattern: string, isPrefix: bool, longest: bool)

  /** `#`, `##`, `%` or `%%` followed by a pattern. */
  function ParseAnchored(op: string): Option<Anchored> {
    if |op| < 2 || op[0] !in ['#', '%'] || HasLineBreak(op) then None
    else if |op| >= 3 && op[1] == op[0] then Some(Anchored(op[2..], op[0] == '#', true))
    else Some(Anchored(op[1..], op[0] == '#', false))
  }

  predicate OccursAt(s: string, pattern: string, i: nat) {
    i + |pattern| <= |s| && s[i..i + |pattern|] == pattern
  }

  function ReplaceAll(s: string, pattern: string, replacement: string): string
    requires pattern != []
    decreases |s|
  {
    if s == [] then []
    else if OccursAt(s, pattern, 0) then replacement + ReplaceAll(s[|pattern|..], pattern, replacement)
    else [s[0]] + ReplaceAll(s[1..], pattern, replacement)
  }

  /** A dollar sign in the replacement of a single occurrence can stand for a part of the replaced text. */
  function ReplacementText(replacement: string, found: string, before: string, after: string): string {
    if replacement == [] then []
    else if |replacement| >= 2 && replacement[0] == '$' && replacement[1] in ['$', '&', '`', '\''] then
      (match replacement[1]
       case '$' => "$"
       case '&' => found
       case '`' => before
       case _ => after) + ReplacementText(replacement[2..], found, before, after)
    else [replacement[0]] + ReplacementText(replacement[1..], found, before, after)
  }

  function ReplaceFirst(before: string, s: string, pattern: string, replacement: string): string
    decreases |s|
  {
    if OccursAt(s, pattern, 0) then
      before + ReplacementText(replacement, pattern, before, s[|pattern|..]) + s[|pattern|..]
    else if s == [] then before
    else ReplaceFirst(before + [s[0]], s[1..], pattern, replacement)
  }

  datatype Replacement = Replacement(pattern: string, text: string, isAll: bool)

  /** `/pattern/text` and `//pattern/text`, for patterns without glob characters. */
  function ParseReplacement(op: string): (r: Option<Replacement>)
    ensures r.Some? ==> r.value.pattern != []
  {
    if |op| < 2 || op[0] != '/' || HasLineBreak(op) then None
    else
      var isAll := op[1] == '/';
      var body := if isAll then op[2..] else op[1..];
      var separator := IndexOf(body, '/');
      var pattern := body[..separator];
      if pattern == [] || exists c | c in pattern :: c in ['*', '?', '[', ']'] then None
      else Some(Replacement(pattern, if separator == |body| then [] else body[separator + 1..], isAll))
  }

  function ApplyReplacement(op: string, value: string): Option<string> {
    match ParseReplacement(op)
    case None => None
    case Some(r) =>
      Some(if r.isAll then ReplaceAll(value, r.pattern, r.text) else ReplaceFirst([], value, r.pattern, r.text))
  }

  /** The text after `:=`, `:-` or `-`, which stands in for an unset variable. */
  function Fallback(op: string): Option<string> {
    if ":=" <= op || ":-" <= op then Some(op[2..])
    else if "-" <= op then Some(op[1..])
    else None
  }

  /** The result of an operation, or None when the reference cannot be resolved. */
  function ApplyOperation(op: string, value: Option<string>): Option<string> {
    match Fallback(op)
    case Some(fallback) => Some(match value case Some(v) => v case None => fallback)
    case None =>
      match value
      case None => None
      case Some(v) =>
        match ParseSubstring(op)
        case Some(LeadingChars(keep)) => Some(BashPrefix(v, keep))
        case Some(Range(offset, length)) => Some(BashRange(v, offset, length))
        case None =>
          match ParseAnchored(op)
          case Some(a) => Strip(v, a.pattern, a.isPrefix, a.longest)
          case None => ApplyReplacement(op, v)
  }

  // ----- Substitution -----

  function MakepkgDefault(name: string): Option<string> {
    if name == "CARCH" then Some("x86_64") else None
  }

  function Lookup(vars: Vars, name: string): Option<string> {
    if name in vars then Some(vars[name]) else MakepkgDefault(name)
  }

  function TokenText(token: Token, vars: Vars): Option<string> {
    match token
    case Literal(c) => Some([c])
    case Plain(name) => Lookup(vars, name)
    case Operation(name, op) => ApplyOperation(op, Lookup(vars, name))
  }

  function Append(first: Option<string>, second: Option<string>): Option<string> {
    if first.Some? && second.Some? then Some(first.value + second.value) else None
  }

  function Expand(tokens: seq<Token>, vars: Vars): Option<string> {
    if tokens == [] then Some("")
    else Append(TokenText(tokens[0], vars), Expand(tokens[1..], vars))
  }

  /** A substituted text counts only when nothing unresolved is left in it. */
  function Complete(text: Option<string>): Option<string> {
    if text.Some? && '\0' !in text.value && '$' !in text.value then text else None
  }

  function SubstituteVars(template: string, vars: Vars): Option<string> {
    Complete(Expand(Tokens(template), vars))
  }

  // ----- Resolving variables in place -----

  function Visit(vars: Vars, name: string): (r: Vars)
    requires name in vars
    ensures r.Keys == vars.Keys
  {
    match SubstituteVars(vars[name], vars)
    case Some(resolved) => vars[name := resolved]
    case None => vars
  }

  /** One pass visits the variables in map order, each with the values the earlier ones got. */
  function Pass(vars: Vars, order: seq<string>): (r: Vars)
    requires forall name :: name in order ==> name in vars
    ensures r.Keys == vars.Keys
  {
    if order == [] then vars else Pass(Visit(vars, order[0]), order[1..])
  }

  function Passes(vars: Vars, order: seq<string>, n: nat): (r: Vars)
    requires forall name :: name in order ==> name in vars
    ensures r.Keys == vars.Keys
  {
    if n == 0 then vars else Pass(Passes(vars, order, n - 1), order)
  }

  // ----- Recursive evaluation, the specification -----

  predicate IsDefined(vars: Vars, name: string) {
    name in vars || MakepkgDefault(name).Some?
  }

  /** The value of a variable when references may be followed `depth` levels deep. */
  function Value(vars: Vars, name: string, depth: nat): Option<string>
    decreases depth, 0
  {
    if name !in vars then Complete(MakepkgDefault(name))
    else if '$' !in vars[name] then Some(vars[name])
    else if depth == 0 then None
    else Complete(Evaluate(vars, Tokens(vars[name]), depth - 1))
  }

  function TokenValue(vars: Vars, token: Token, depth: nat): Option<string>
    decreases depth, 1
  {
    match token
    case Literal(c) => Some([c])
    case Plain(name) => Value(vars, name, depth)
    case Operation(name, op) =>
      if !IsDefined(vars, name) then ApplyOperation(op, None)
      else
        var value := Value(vars, name, depth);
        if value.Some? then ApplyOperation(op, value) else None
  }

  function Evaluate(vars: Vars, tokens: seq<Token>, depth: nat): Option<string>
    decreases depth, 2 + |tokens|
  {
    if tokens == [] then Some("")
    else Append(TokenValue(vars, tokens[0], depth), Evaluate(vars, tokens[1..], depth))
  }

  /** An operation that never hides a dollar sign of the value it is applied to. */
  ghost predicate KeepsDollar(op: string) {
    forall v: string :: '$' in v ==>
      match ApplyOperation(op, Some(v)) case Some(r) => '$' in r case None => true
  }

  ghost predicate IsSteadyTemplate(tokens: seq<Token>) {
    forall t :: t in tokens && t.Operation? ==> KeepsDollar(t.op)
  }

  /** No variable uses an operation that could delete a reference before it is resolved. */
  ghost predicate IsSteady(vars: Vars) {
    forall name :: name in vars ==> IsSteadyTemplate(Tokens(vars[name]))
  }

  // ----- Facts about single values -----

  lemma {:induction false} PlainTextExpands(s: string, vars: Vars)
    requires '$' !in s
    ensures Expand(Tokens(s), vars) == Some(s)
  {
    if s != [] {
      assert s[0] in s && Reference(s).None?;
      PlainTextExpands(s[1..], vars);
      assert Tokens(s) == [Literal(s[0])] + Tokens(s[1..]);
      assert [s[0]] + s[1..] == s;
    }
  }

  lemma ValueIsPlain(vars: Vars, name: string, depth: nat)
    ensures Value(vars, name, depth).Some? ==> '$' !in Value(vars, name, depth).value
  {
  }

  /** Following references deeper never changes a value. */
  lemma {:induction false} ValueMonotone(vars: Vars, name: string, d: nat, d': nat)
    requires d <= d' && Value(vars, name, d).Some?
    ensures Value(vars, name, d') == Value(vars, name, d)
    decreases d, 0
  {
    if name in vars && '$' in vars[name] {
      EvaluateMonotone(vars, Tokens(vars[name]), d - 1, d' - 1);
    }
  }

  lemma {:induction false} EvaluateMonotone(vars: Vars, tokens: seq<Token>, d: nat, d': nat)
    requires d <= d' && Evaluate(vars, tokens, d).Some?
    ensures Evaluate(vars, tokens, d') == Evaluate(vars, tokens, d)
    decreases d, 2 + |tokens|
  {
    if tokens != [] {
      TokenValueMonotone(vars, tokens[0], d, d');
      EvaluateMonotone(vars, tokens[1..], d, d');
    }
  }

  lemma {:induction false} TokenValueMonotone(vars: Vars, token: Token, d: nat, d': nat)
    requires d <= d' && TokenValue(vars, token, d).Some?
    ensures TokenValue(vars, token, d') == TokenValue(vars, token, d)
    decreases d, 1
  {
    match token {
      case Literal(_) =>
      case Plain(name) => ValueMonotone(vars, name, d, d');
      case Operation(name, _) =>
        if IsDefined(vars, name) { ValueMonotone(vars, name, d, d'); }
    }
  }

  // ----- In-place passes against recursive evaluation -----

  /** Every variable with a value at this depth has it. */
  ghost predicate HasValues(vars: Vars, cur: Vars, depth: nat) {
    cur.Keys == vars.Keys &&
    forall name :: name in vars && Value(vars, name, depth).Some? ==> cur[name] == Value(vars, name, depth).value
  }

  /** A variable has its original template or its value. */
  ghost predicate IsOriginalOrValue(vars: Vars, cur: Vars, name: string)
    requires cur.Keys == vars.Keys && name in vars
  {
    cur[name] == vars[name] || exists d: nat :: Value(vars, name, d) == Some(cur[name])
  }

  ghost predicate IsSound(vars: Vars, cur: Vars) {
    cur.Keys == vars.Keys && forall name :: name in vars ==> IsOriginalOrValue(vars, cur, name)
  }

  lemma LookupOfValue(vars: Vars, cur: Vars, depth: nat, name: string)
    requires HasValues(vars, cur, depth) && Value(vars, name, depth).Some?
    ensures Lookup(cur, name) == Value(vars, name, depth)
  {
  }

  /** What recursive evaluation gives, substitution of the current values gives too. */
  lemma {:induction false} EvaluateThenExpand(vars: Vars, cur: Vars, tokens: seq<Token>, depth: nat)
    requires HasValues(vars, cur, depth) && Evaluate(vars, tokens, depth).Some?
    ensures Expand(tokens, cur) == Evaluate(vars, tokens, depth)
  {
    if tokens != [] {
      EvaluateThenExpand(vars, cur, tokens[1..], depth);
      match tokens[0] {
        case Literal(_) =>
        case Plain(name) => LookupOfValue(vars, cur, depth, name);
        case Operation(name, _) =>
          if IsDefined(vars, name) { LookupOfValue(vars, cur, depth, name); }
      }
    }
  }

  /** A current value without a dollar sign is the recursive value. */
  lemma PlainLookup(vars: Vars, cur: Vars, name: string) returns (d: nat)
    requires IsSound(vars, cur) && Lookup(cur, name).Some? && '$' !in Lookup(cur, name).value
    ensures Value(vars, name, d) == Lookup(cur, name)
  {
    d := 0;
    if name in vars && cur[name] != vars[name] {
      assert IsOriginalOrValue(vars, cur, name);
      d :| Value(vars, name, d) == Some(cur[name]);
    }
  }

  /** The recursive value of one token, for a result without a dollar sign. */
  lemma TokenEvaluates(vars: Vars, cur: Vars, token: Token) returns (d: nat)
    requires IsSound(vars, cur) && (token.Operation? ==> KeepsDollar(token.op))
    requires TokenText(token, cur).Some? && '$' !in TokenText(token, cur).value
    ensures TokenValue(vars, token, d) == TokenText(token, cur)
  {
    d := 0;
    match token {
      case Literal(_) =>
      case Plain(name) => d := PlainLookup(vars, cur, name);
      case Operation(name, op) =>
        if IsDefined(vars, name) {
          assert Lookup(cur, name).Some?;
          d := PlainLookup(vars, cur, name);
        }
    }
  }

  /** What substitution of the current values completes, recursive evaluation completes too. */
  lemma {:induction false} ExpandThenEvaluate(vars: Vars, cur: Vars, tokens: seq<Token>) returns (d: nat)
    requires IsSound(vars, cur) && IsSteadyTemplate(tokens)
    requires Expand(tokens, cur).Some? && '$' !in Expand(tokens, cur).value
    ensures Evaluate(vars, tokens, d) == Expand(tokens, cur)
  {
    d := 0;
    if tokens != [] {
      var first, rest := TokenText(tokens[0], cur).value, Expand(tokens[1..], cur).value;
      assert forall c :: c in first || c in rest ==> c in first + rest;
      assert tokens[0] in tokens && forall t :: t in tokens[1..] ==> t in tokens;
      var d0 := TokenEvaluates(vars, cur, tokens[0]);
      var d1 := ExpandThenEvaluate(vars, cur, tokens[1..]);
      d := if d0 < d1 then d1 else d0;
      TokenValueMonotone(vars, tokens[0], d0, d);
      EvaluateMonotone(vars, tokens[1..], d1, d);
    }
  }

  /** A visit changes only a variable that still refers to others. */
  lemma VisitOfPlain(cur: Vars, name: string)
    requires name in cur && '$' !in cur[name]
    ensures Visit(cur, name) == cur
  {
    PlainTextExpands(cur[name], cur);
  }

  /** A visit keeps every variable at its template or its value. */
  lemma VisitSound(vars: Vars, cur: Vars, name: string)
    requires IsSteady(vars) && IsSound(vars, cur) && name in vars
    ensures IsSound(vars, Visit(cur, name))
  {
    var next := Visit(cur, name);
    if '$' !in cur[name] {
      VisitOfPlain(cur, name);
    } else if SubstituteVars(cur[name], cur).Some? {
      if cur[name] != vars[name] {
        var d: nat :| Value(vars, name, d) == Some(cur[name]);
        ValueIsPlain(vars, name, d);
      }
      var d := ExpandThenEvaluate(vars, cur, Tokens(vars[name]));
      assert Value(vars, name, d + 1) == Some(next[name]);
      forall other | other in vars
        ensures IsOriginalOrValue(vars, next, other)
      {
        assert IsOriginalOrValue(vars, cur, other);
      }
    }
  }

  /** A visit gives the visited variable its value one level deeper, and takes none away. */
  lemma VisitProgress(vars: Vars, cur: Vars, name: string, depth: nat)
    requires IsSteady(vars) && IsSound(vars, cur) && HasValues(vars, cur, depth) && name in vars
    ensures HasValues(vars, Visit(cur, name), depth)
    ensures Value(vars, name, depth + 1).Some? ==> Visit(cur, name)[name] == Value(vars, name, depth + 1).value
    ensures forall other :: other in vars && Value(vars, other, depth + 1) == Some(cur[other]) ==>
      Visit(cur, name)[other] == cur[other]
  {
    assert IsOriginalOrValue(vars, cur, name);
    if '$' !in cur[name] {
      VisitOfPlain(cur, name);
      if cur[name] != vars[name] && Value(vars, name, depth + 1).Some? {
        var d: nat :| Value(vars, name, d) == Some(cur[name]);
        SameValue(vars, name, d, depth + 1);
      }
    } else {
      if cur[name] != vars[name] {
        var d: nat :| Value(vars, name, d) == Some(cur[name]);
        ValueIsPlain(vars, name, d);
      }
      if Value(vars, name, depth + 1).Some? {
        EvaluateThenExpand(vars, cur, Tokens(vars[name]), depth);
      }
      ValueIsPlain(vars, name, depth);
      ValueIsPlain(vars, name, depth + 1);
    }
  }

  lemma TemplatesAreSound(vars: Vars)
    ensures HasValues(vars, vars, 0) && IsSound(vars, vars)
  {
  }

  lemma SameValue(vars: Vars, name: string, d: nat, d': nat)
    requires Value(vars, name, d).Some? && Value(vars, name, d').Some?
    ensures Value(vars, name, d) == Value(vars, name, d')
  {
    if d <= d' { ValueMonotone(vars, name, d, d'); } else { ValueMonotone(vars, name, d', d); }
  }

  lemma {:induction false} PassProgress(vars: Vars, cur: Vars, order: seq<string>, depth: nat)
    requires IsSteady(vars) && IsSound(vars, cur) && HasValues(vars, cur, depth)
    requires forall name :: name in order ==> name in vars
    ensures IsSound(vars, Pass(cur, order)) && HasValues(vars, Pass(cur, order), depth)
    ensures forall name :: name in vars && Value(vars, name, depth + 1).Some? ==>
      (name in order || cur[name] == Value(vars, name, depth + 1).value) ==>
      Pass(cur, order)[name] == Value(vars, name, depth + 1).value
  {
    if order != [] {
      VisitSound(vars, cur, order[0]);
      VisitProgress(vars, cur, order[0], depth);
      assert forall name :: name in order ==> name == order[0] || name in order[1..];
      PassProgress(vars, Visit(cur, order[0]), order[1..], depth);
    }
  }

  /**
   * After `n` passes, whatever the map order, every variable of reference depth at most
   * `n` has its recursive value, and every other one its template or its recursive value.
   */
  lemma {:induction false} PassesEvaluate(vars: Vars, order: seq<string>, n: nat)
    requires IsSteady(vars) && forall name :: name in order <==> name in vars
    ensures HasValues(vars, Passes(vars, order, n), n) && IsSound(vars, Passes(vars, order, n))
  {
    hide IsSteady, Pass, Value, IsOriginalOrValue;
    if n == 0 {
      TemplatesAreSound(vars);
    } else {
      PassesEvaluate(vars, order, n - 1);
      PassProgress(vars, Passes(vars, order, n - 1), order, n - 1);
    }
  }

  // ----- Variables without a value -----

  /** Each member refers to another member, or plainly to a variable that does not exist. */
  ghost predicate IsStuck(vars: Vars, names: set<string>) {
    forall name :: name in names ==> name in vars && exists t :: t in Tokens(vars[name]) && Blocks(vars, names, t)
  }

  ghost predicate Blocks(vars: Vars, names: set<string>, t: Token) {
    && !t.Literal?
    && (t.name in names || (!IsDefined(vars, t.name) && (t.Plain? || Fallback(t.op).None?)))
  }

  lemma {:induction false} TokensOfPlainText(s: string)
    requires '$' !in s
    ensures forall t :: t in Tokens(s) ==> t.Literal?
  {
    if s != [] {
      assert s[0] in s;
      TokensOfPlainText(s[1..]);
    }
  }

  lemma {:induction false} StuckEvaluate(vars: Vars, names: set<string>, tokens: seq<Token>, t: Token, d: nat)
    requires IsStuck(vars, names) && t in tokens && Blocks(vars, names, t)
    ensures Evaluate(vars, tokens, d).None?
    decreases d, 2 + |tokens|
  {
    if tokens[0] == t {
      if t.name in names {
        assert IsDefined(vars, t.name);
        StuckValue(vars, names, t.name, d);
      }
      assert TokenValue(vars, t, d).None?;
    } else {
      StuckEvaluate(vars, names, tokens[1..], t, d);
    }
  }

  lemma {:induction false} StuckValue(vars: Vars, names: set<string>, name: string, d: nat)
    requires IsStuck(vars, names) && name in names
    ensures Value(vars, name, d).None?
    decreases d, 0
  {
    var t :| t in Tokens(vars[name]) && Blocks(vars, names, t);
    if '$' !in vars[name] { TokensOfPlainText(vars[name]); }
    hide Tokens, Evaluate, TokenValue, IsStuck;
    if d > 0 {
      StuckEvaluate(vars, names, Tokens(vars[name]), t, d - 1);
    }
  }

  /** Cyclic references and references to variables that do not exist are left as they are. */
  lemma StuckStaysUntouched(vars: Vars, order: seq<string>, n: nat, names: set<string>)
    requires IsSteady(vars) && (forall name :: name in order <==> name in vars)
    requires IsStuck(vars, names)
    ensures forall name :: name in names ==> Passes(vars, order, n)[name] == vars[name]
  {
    PassesEvaluate(vars, order, n);
    forall name | name in names
      ensures Passes(vars, order, n)[name] == vars[name]
    {
      assert IsOriginalOrValue(vars, Passes(vars, order, n), name);
      forall d: nat
        ensures Value(vars, name, d).None?
      {
        StuckValue(vars, names, name, d);
      }
    }
  }

  // ----- Each value changes at most once -----

  /** A variable that differs from its original template is finished. */
  ghost predicate ChangedIsPlain(vars: Vars, cur: Vars) {
    cur.Keys == vars.Keys && forall name :: name in vars && cur[name] != vars[name] ==> '$' !in cur[name]
  }

  ghost predicate KeepsFinished(cur: Vars, next: Vars) {
    cur.Keys == next.Keys && forall name :: name in cur && '$' !in cur[name] ==> next[name] == cur[name]
  }

  lemma VisitKeepsFinished(vars: Vars, cur: Vars, name: string)
    requires ChangedIsPlain(vars, cur) && name in cur
    ensures ChangedIsPlain(vars, Visit(cur, name)) && KeepsFinished(cur, Visit(cur, name))
  {
    if '$' !in cur[name] { VisitOfPlain(cur, name); }
  }

  lemma {:induction false} PassKeepsFinished(vars: Vars, cur: Vars, order: seq<string>)
    requires ChangedIsPlain(vars, cur) && forall name :: name in order ==> name in cur
    ensures ChangedIsPlain(vars, Pass(cur, order)) && KeepsFinished(cur, Pass(cur, order))
  {
    if order != [] {
      VisitKeepsFinished(vars, cur, order[0]);
      PassKeepsFinished(vars, Visit(cur, order[0]), order[1..]);
    }
  }

  /** With any operations, a value that differs from its template after some passes is final. */
  lemma {:induction false} ChangesAtMostOnce(vars: Vars, order: seq<string>, m: nat, n: nat)
    requires m <= n && forall name :: name in order ==> name in vars
    ensures ChangedIsPlain(vars, Passes(vars, order, n))
    ensures KeepsFinished(Passes(vars, order, m), Passes(vars, order, n))
    decreases n
  {
    if n > 0 {
      ChangesAtMostOnce(vars, order, if m < n then m else n - 1, n - 1);
      PassKeepsFinished(vars, Passes(vars, order, n - 1), order);
    }
  }

  // ----- Stopping early -----

  /** No substitution can change any variable. */
  ghost predicate IsFixpoint(cur: Vars) {
    forall name :: name in cur ==> SubstituteVars(cur[name], cur) in {None, Some(cur[name])}
  }

  lemma {:induction false} UnchangedPass(vars: Vars, cur: Vars, order: seq<string>)
    requires ChangedIsPlain(vars, cur) && (forall name :: name in order ==> name in cur)
    requires Pass(cur, order) == cur
    ensures forall name :: name in order ==> Visit(cur, name) == cur
  {
    if order != [] {
      var next := Visit(cur, order[0]);
      VisitKeepsFinished(vars, cur, order[0]);
      PassKeepsFinished(vars, next, order[1..]);
      assert next == cur;
      UnchangedPass(vars, cur, order[1..]);
      assert forall name :: name in order ==> name == order[0] || name in order[1..];
    }
  }

  /** A pass that changes nothing has reached a fixpoint, where further passes change nothing either. */
  lemma UnchangedPassIsFixpoint(vars: Vars, cur: Vars, order: seq<string>)
    requires ChangedIsPlain(vars, cur) && forall name :: name in order <==> name in cur
    requires Pass(cur, order) == cur
    ensures IsFixpoint(cur)
  {
    UnchangedPass(vars, cur, order);
    forall name | name in cur
      ensures SubstituteVars(cur[name], cur) in {None, Some(cur[name])}
    {
      assert Visit(cur, name) == cur;
      if SubstituteVars(cur[name], cur).Some? {
        assert cur[name := SubstituteVars(cur[name], cur).value][name] == cur[name];
      }
    }
  }

  lemma {:induction false} PassesStay(vars: Vars, order: seq<string>, m: nat, n: nat)
    requires m <= n && forall name :: name in order ==> name in vars
    requires Passes(vars, order, m + 1) == Passes(vars, order, m)
    ensures Passes(vars, order, n) == Passes(vars, order, m)
    decreases n
  {
    if n > m {
      PassesStay(vars, order, m, n - 1);
    }
  }

  lemma VisitCases(cur: Vars, name: string)
    requires name in cur
    ensures var resolved := SubstituteVars(cur[name], cur);
      && (Visit(cur, name) ==
          if resolved.Some? && resolved.value != cur[name] then cur[name := resolved.value] else cur)
      && (resolved.Some? && resolved.value != cur[name] ==> '$' in cur[name] && '$' !in resolved.value)
  {
    if '$' !in cur[name] { PlainTextExpands(cur[name], cur); }
    var resolved := SubstituteVars(cur[name], cur);
    if resolved.Some? && resolved.value == cur[name] {
      assert cur[name := resolved.value] == cur;
    }
  }

  lemma PassFrom(cur: Vars, order: seq<string>, k: nat)
    requires k < |order| && forall name :: name in order ==> name in cur
    ensures (forall name :: name in order[k..] || name in order[k + 1..] ==> name in cur)
    ensures Pass(cur, order[k..]) == Pass(Visit(cur, order[k]), order[k + 1..])
  {
    assert order[k..][0] == order[k] && order[k..][1..] == order[k + 1..];
  }

  /** One pass over the map, changing it in place. */
  method RunPass(vars: Vars, order: seq<string>) returns (expanded: Vars, changed: bool)
    requires forall name :: name in order ==> name in vars
    ensures expanded == Pass(vars, order)
    ensures changed <==> expanded != vars
  {
    hide SubstituteVars, Pass;
    expanded := vars;
    changed := false;
    var k := 0;
    assert order[0..] == order;
    while k < |order|
      invariant 0 <= k <= |order| && expanded.Keys == vars.Keys
      invariant forall name :: name in order[k..] ==> name in order
      invariant Pass(vars, order) == Pass(expanded, order[k..])
      invariant !changed ==> expanded == vars
      invariant changed ==> exists x :: x in vars && '$' in vars[x] && '$' !in expanded[x]
      invariant forall x :: x in vars && expanded[x] != vars[x] ==> '$' !in expanded[x]
    {
      var name := order[k];
      PassFrom(expanded, order, k);
      VisitCases(expanded, name);
      var resolved := SubstituteVars(expanded[name], expanded);
      if resolved.Some? && resolved.value != expanded[name] {
        expanded := expanded[name := resolved.value];
        changed := true;
      }
      k := k + 1;
    }
    assert order[k..] == [];
    NoVisits(expanded);
  }

  lemma NoVisits(cur: Vars)
    ensures Pass(cur, []) == cur
  {
  }

  /**
   * Resolves the variables in place, in at most five passes over the map in its iteration
   * order; `settled` says whether the last pass changed nothing.
   */
  method ExpandVarReferences(vars: Vars, order: seq<string>) returns (expanded: Vars, settled: bool)
    requires forall name :: name in order <==> name in vars
    ensures expanded == Passes(vars, order, MAX_EXPANSION_PASSES)
    ensures settled <==> Passes(vars, order, MAX_EXPANSION_PASSES) == Passes(vars, order, MAX_EXPANSION_PASSES - 1)
    ensures settled ==> IsFixpoint(expanded)
    ensures IsSteady(vars) ==> HasValues(vars, expanded, MAX_EXPANSION_PASSES) && IsSound(vars, expanded)
  {
    hide HasValues, IsSound, IsSteady, SubstituteVars, IsFixpoint, ChangedIsPlain, Pass;
    expanded := vars;
    settled := false;
    var pass := 0;
    while pass < MAX_EXPANSION_PASSES
      invariant 0 <= pass <= MAX_EXPANSION_PASSES
      invariant expanded == Passes(vars, order, pass) && !settled
      invariant pass > 0 ==> Passes(vars, order, pass) != Passes(vars, order, pass - 1)
    {
      var changed;
      expanded, changed := RunPass(expanded, order);
      pass := pass + 1;
      if !changed {
        ChangesAtMostOnce(vars, order, pass, pass);
        UnchangedPassIsFixpoint(vars, expanded, order);
        PassesStay(vars, order, pass - 1, MAX_EXPANSION_PASSES);
        PassesStay(vars, order, pass - 1, MAX_EXPANSION_PASSES - 1);
        settled := true;
        break;
      }
    }
    if IsSteady(vars) {
      PassesEvaluate(vars, order, MAX_EXPANSION_PASSES);
    }
  }

  // ----- Which operations are safe, and what goes wrong with the others -----

  lemma FallbackKeepsDollar(op: string)
    requires Fallback(op).Some?
    ensures KeepsDollar(op)
  {
  }

  lemma {:induction false} ReplaceAllKeepsDollar(s: string, pattern: string, replacement: string)
    requires pattern != [] && '$' !in pattern && '$' in s
    ensures '$' in ReplaceAll(s, pattern, replacement)
    decreases |s|
  {
    if OccursAt(s, pattern, 0) {
      assert s == pattern + s[|pattern|..];
      ReplaceAllKeepsDollar(s[|pattern|..], pattern, replacement);
    } else if s[0] == '$' {
      assert ReplaceAll(s, pattern, replacement)[0] == '$';
    } else {
      ReplaceAllKeepsDollar(s[1..], pattern, replacement);
    }
  }

  lemma {:induction false} ReplaceFirstKeepsDollar(before: string, s: string, pattern: string, replacement: string)
    requires pattern != [] && '$' !in pattern && '$' in before + s
    ensures '$' in ReplaceFirst(before, s, pattern, replacement)
    decreases |s|
  {
    if OccursAt(s, pattern, 0) {
      assert s == pattern + s[|pattern|..];
    } else if s != [] {
      assert before + [s[0]] + s[1..] == before + s;
      ReplaceFirstKeepsDollar(before + [s[0]], s[1..], pattern, replacement);
    }
  }

  /** Replacing a pattern without a dollar sign never hides an unresolved reference. */
  lemma ReplacementKeepsDollar(op: string)
    requires "/" <= op && (ParseReplacement(op).Some? ==> '$' !in ParseReplacement(op).value.pattern)
    ensures KeepsDollar(op)
  {
    hide ParseReplacement;
    forall v: string | '$' in v
      ensures match ApplyOperation(op, Some(v)) case Some(r) => '$' in r case None => true
    {
      assert ApplyOperation(op, Some(v)) == ApplyReplacement(op, v);
      if ParseReplacement(op).Some? {
        var r := ParseReplacement(op).value;
        assert [] + v == v;
        if r.isAll {
          ReplaceAllKeepsDollar(v, r.pattern, r.text);
        } else {
          ReplaceFirstKeepsDollar([], v, r.pattern, r.text);
        }
      }
    }
  }

  /** For steady templates, the map order matters only to variables of depth beyond the number of passes. */
  lemma OrderDoesNotMatter(vars: Vars, order: seq<string>, order': seq<string>, n: nat, name: string)
    requires IsSteady(vars) && name in vars
    requires (forall x :: x in order <==> x in vars) && (forall x :: x in order' <==> x in vars)
    requires Value(vars, name, n).Some? || forall d: nat :: Value(vars, name, d).None?
    ensures Passes(vars, order, n)[name] == Passes(vars, order', n)[name]
  {
    hide IsSteady, Evaluate, Pass;
    PassesEvaluate(vars, order, n);
    PassesEvaluate(vars, order', n);
    if Value(vars, name, n).Some? {
      assert Passes(vars, order, n)[name] == Value(vars, name, n).value;
      assert Passes(vars, order', n)[name] == Value(vars, name, n).value;
    } else {
      WithoutValueUntouched(vars, Passes(vars, order, n), name);
      WithoutValueUntouched(vars, Passes(vars, order', n), name);
    }
  }

  lemma WithoutValueUntouched(vars: Vars, cur: Vars, name: string)
    requires IsSound(vars, cur) && name in vars && forall d: nat :: Value(vars, name, d).None?
    ensures cur[name] == vars[name]
  {
    assert IsOriginalOrValue(vars, cur, name);
  }

  lemma SingleReference(template: string, token: Token, vars: Vars)
    requires Reference(template) == Some((token, |template|))
    ensures SubstituteVars(template, vars) == Complete(TokenText(token, vars))
  {
    assert template[|template|..] == [] && Tokens([]) == [];
    assert template != [] && Tokens(template) == [token];
    assert [token][1..] == [] && Expand([], vars) == Some("");
    assert Expand([token], vars) == Append(TokenText(token, vars), Some(""));
    var text := TokenText(token, vars);
    if text.Some? { assert text.value + "" == text.value; }
  }

  lemma StripOneCharacter(vars: Vars)
    requires "b" in vars && vars["b"] != ""
    ensures SubstituteVars("${b#?}", vars) == Complete(Some(vars["b"][1..]))
  {
    var template, body, v := "${b#?}", "b#?}", vars["b"];
    assert template[2..] == body;
    assert body[1..] == "#?}" && NameLength(body[1..]) == 0 && NameLength(body) == 1;
    assert "#?}"[1..] == "?}" && "?}"[1..] == "}";
    assert IndexOf("}", '}') == 0 && IndexOf("?}", '}') == 1 && IndexOf("#?}", '}') == 2;
    assert body[..1] == "b" && body[1..3] == "#?";
    SingleReference(template, Operation("b", "#?"), vars);
    OneCharacterStrip(v);
  }

  lemma OneCharacterStrip(v: string)
    requires v != ""
    ensures ApplyOperation("#?", Some(v)) == Some(v[1..])
  {
    assert "#?"[1..] == "?" && ParseAnchored("#?") == Some(Anchored("?", true, false));
    assert ApplyOperation("#?", Some(v)) == Strip(v, "?", true, false);
    assert "?"[1..] == "";
    assert Span(v, true, 1)[1..] == "";
    assert !Matches("?", Span(v, true, 0)) && Matches("?", Span(v, true, 1));
    assert StripFrom(v, "?", true, false, 0) == StripFrom(v, "?", true, false, 1) == Some(v[1..]);
  }

  lemma BareReference(vars: Vars)
    requires "c" in vars
    ensures SubstituteVars("$c", vars) == Complete(Some(vars["c"]))
  {
    var template := "$c";
    assert template[1..] == "c" && "c"[1..] == "" && NameLength("") == 0 && NameLength("c") == 1;
    assert template[1..2] == "c";
    SingleReference(template, Plain("c"), vars);
  }

  /**
   * Without steadiness the result depends on the map order: a strip can take the dollar
   * sign off a reference that is not resolved yet, and its value is then never looked up.
   */
  lemma StripsDependOnOrder()
    ensures exists vars: Vars, order, order', name :: OrdersDisagree(vars, order, order', name)
  {
    var vars: Vars := map["a" := "${b#?}", "b" := "$c", "c" := "xy"];
    hide Passes;
    StripBeforeResolving(vars);
    StripAfterResolving(vars);
    Covers(vars, "a", "b", "c");
    Covers(vars, "b", "a", "c");
    assert OrdersDisagree(vars, ["a", "b", "c"], ["b", "a", "c"], "a");
  }

  lemma Covers(vars: Vars, x: string, y: string, z: string)
    requires vars.Keys == {x, y, z}
    ensures forall n :: n in [x, y, z] <==> n in vars
  {
  }

  /** The variable ends up differently under the two map orders. */
  ghost predicate OrdersDisagree(vars: Vars, order: seq<string>, order': seq<string>, name: string) {
    && (forall x :: x in order <==> x in vars) && (forall x :: x in order' <==> x in vars)
    && name in vars
    && Passes(vars, order, MAX_EXPANSION_PASSES)[name] != Passes(vars, order', MAX_EXPANSION_PASSES)[name]
  }

  lemma StripBeforeResolving(vars: Vars)
    requires vars == map["a" := "${b#?}", "b" := "$c", "c" := "xy"]
    ensures Passes(vars, ["a", "b", "c"], MAX_EXPANSION_PASSES)["a"] == "c"
  {
    hide SubstituteVars;
    var order := ["a", "b", "c"];
    StripOneCharacter(vars);
    assert vars["b"][1..] == "c";
    assert Visit(vars, "a")["a"] == "c";
    assert order[1..] == ["b", "c"];
    FinishedInFirstPass(vars, order, Visit(vars, "a"), "a");
  }

  lemma StripAfterResolving(vars: Vars)
    requires vars == map["a" := "${b#?}", "b" := "$c", "c" := "xy"]
    ensures Passes(vars, ["b", "a", "c"], MAX_EXPANSION_PASSES)["a"] == "y"
  {
    hide SubstituteVars;
    var order := ["b", "a", "c"];
    BareReference(vars);
    var second := Visit(vars, "b");
    assert second["b"] == "xy" && second["a"] == "${b#?}";
    VisitKeepsFinished(vars, vars, "b");
    StripOneCharacter(second);
    assert second["b"][1..] == "y";
    var third := Visit(second, "a");
    assert third["a"] == "y";
    VisitKeepsFinished(vars, second, "a");
    assert order[1..] == ["a", "c"] && order[1..][1..] == ["c"];
    assert Pass(vars, order) == Pass(second, ["a", "c"]) == Pass(third, ["c"]);
    PassKeepsFinished(vars, third, ["c"]);
    FinishedStays(vars, order, "a");
  }

  lemma FinishedStays(vars: Vars, order: seq<string>, name: string)
    requires (forall x :: x in order ==> x in vars) && name in vars && '$' !in Pass(vars, order)[name]
    ensures Passes(vars, order, MAX_EXPANSION_PASSES)[name] == Pass(vars, order)[name]
  {
    assert Passes(vars, order, 1) == Pass(Passes(vars, order, 0), order);
    ChangesAtMostOnce(vars, order, 1, MAX_EXPANSION_PASSES);
  }

  lemma FinishedInFirstPass(vars: Vars, order: seq<string>, cur: Vars, name: string)
    requires order != [] && (forall x :: x in order ==> x in vars) && name in vars
    requires cur == Visit(vars, order[0]) && '$' !in cur[name]
    ensures Passes(vars, order, MAX_EXPANSION_PASSES)[name] == cur[name]
  {
    hide SubstituteVars;
    VisitKeepsFinished(vars, vars, order[0]);
    PassKeepsFinished(vars, cur, order[1..]);
    FinishedStays(vars, order, name);
  }
}
