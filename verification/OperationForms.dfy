/**
 * What an operation does, said on its text: which forms there are, which end a strip works on and
 * by which length, which numbers a substring takes, and what a template is replaced by.
 */
module OperationForms {
  import opened Wrappers
  import opened Texts
  import opened GlobStrip
  import opened ParameterExpansion

  ghost predicate IsOneLine(s: string) {
    forall c :: c in s ==> c !in {'\n', '\r', '\U{2028}', '\U{2029}'}
  }

  // ----- Defaults -----

  lemma DefaultForm(word: string, value: Option<string>)
    ensures var result := Some(if value.Some? then value.value else word);
      && ApplyOperation(":=" + word, value) == result
      && ApplyOperation(":-" + word, value) == result
      && ApplyOperation("-" + word, value) == result
  {
    assert (":=" + word)[2..] == word && (":-" + word)[2..] == word && ("-" + word)[1..] == word;
    assert ("-" + word)[0] == '-' && (":-" + word)[1] == '-';
    assert "-" <= "-" + word && ":-" <= ":-" + word && ":=" <= ":=" + word;
  }

  /** Of a variable that is not known only the forms with a default make anything. */
  lemma UnsetForm(op: string)
    ensures ApplyOperation(op, None).Some? <==> ":=" <= op || ":-" <= op || "-" <= op
  {
  }

  // ----- Strips -----

  lemma StripApplies(op: string, v: string, a: Anchored)
    requires op != [] && op[0] in ['#', '%'] && ParseAnchored(op) == Some(a)
    ensures forall r :: ApplyOperation(op, Some(v)) == r <==> IsStrip(v, a.pattern, a.isPrefix, a.longest, r)
  {
    assert Fallback(op).None? && ParseSubstring(op).None?;
    hide ParseAnchored, Fallback, ParseSubstring;
    StripIsStrip(v, a.pattern, a.isPrefix, a.longest);
  }

  /** Doubled, the operator takes off the longest prefix or suffix. */
  lemma LongestStripForms(p: string, v: string, r: Option<string>)
    requires p != [] && IsOneLine(p)
    ensures ApplyOperation("##" + p, Some(v)) == r <==> IsStrip(v, p, true, true, r)
    ensures ApplyOperation("%%" + p, Some(v)) == r <==> IsStrip(v, p, false, true, r)
  {
    assert ("##" + p)[2..] == p && ("%%" + p)[2..] == p;
    StripApplies("##" + p, v, Anchored(p, true, true));
    StripApplies("%%" + p, v, Anchored(p, false, true));
  }

  /** Once, it takes off the shortest; a pattern that starts with the operator would double it. */
  lemma ShortestStripForms(p: string, v: string, r: Option<string>)
    requires p != [] && IsOneLine(p)
    ensures p[0] != '#' || |p| == 1 ==> (ApplyOperation("#" + p, Some(v)) == r <==> IsStrip(v, p, true, false, r))
    ensures p[0] != '%' || |p| == 1 ==> (ApplyOperation("%" + p, Some(v)) == r <==> IsStrip(v, p, false, false, r))
  {
    assert ("#" + p)[1..] == p && ("%" + p)[1..] == p;
    if p[0] != '#' || |p| == 1 { StripApplies("#" + p, v, Anchored(p, true, false)); }
    if p[0] != '%' || |p| == 1 { StripApplies("%" + p, v, Anchored(p, false, false)); }
  }

  // ----- Substrings -----

  function Decimal(n: nat): (s: string)
    ensures s != [] && AllDigits(s)
  {
    var digit := '0' + (n % 10) as char;
    if n < 10 then [digit] else Decimal(n / 10) + [digit]
  }

  lemma ParseNatAppend(s: string, d: char)
    requires AllDigits(s) && '0' <= d <= '9'
    ensures AllDigits(s + [d]) && ParseNat(s + [d]) == 10 * ParseNat(s) + (d as int - '0' as int)
  {
    assert (s + [d])[..|s|] == s;
  }

  /** Numbers are read in decimal. */
  lemma {:induction false} ParseNatOfDecimal(n: nat)
    ensures ParseNat(Decimal(n)) == n
  {
    var digit := '0' + (n % 10) as char;
    if n < 10 {
      ParseNatAppend([], digit);
      assert [] + [digit] == [digit];
    } else {
      ParseNatOfDecimal(n / 10);
      ParseNatAppend(Decimal(n / 10), digit);
    }
  }

  lemma {:induction false} ParseNatOfZero(s: string)
    requires AllDigits(s)
    ensures AllDigits("0" + s) && ParseNat("0" + s) == ParseNat(s)
  {
    if s == [] {
      ParseNatAppend([], '0');
      assert [] + ['0'] == "0" + s;
    } else {
      var front, last := s[..|s| - 1], s[|s| - 1];
      ParseNatOfZero(front);
      ParseNatAppend("0" + front, last);
      assert "0" + s == "0" + front + [last];
    }
  }

  /** The texts of a number: an optional minus sign and digits, with any leading zeros. */
  predicate Denotes(text: string, n: int)
    decreases |text|
  {
    if text != [] && text[0] == '-' then text[1..] != [] && DenotesNat(text[1..], -n) else DenotesNat(text, n)
  }

  predicate DenotesNat(digits: string, n: int) {
    && n >= 0
    && (digits == Decimal(n) || (|digits| > 1 && digits[0] == '0' && DenotesNat(digits[1..], n)))
  }

  lemma {:induction false} DenotedNat(digits: string, n: int)
    requires DenotesNat(digits, n)
    ensures digits != [] && AllDigits(digits) && ParseNat(digits) == n
  {
    if digits == Decimal(n) {
      ParseNatOfDecimal(n);
    } else {
      DenotedNat(digits[1..], n);
      ParseNatOfZero(digits[1..]);
      assert digits == "0" + digits[1..];
    }
  }

  lemma DenotedInteger(text: string, n: int)
    requires Denotes(text, n)
    ensures text != [] && IsInteger(text) && ParseInteger(text) == n && ':' !in text
  {
    var digits := if text[0] == '-' then text[1..] else text;
    DenotedNat(digits, if text[0] == '-' then -n else n);
    assert forall i :: 0 <= i < |digits| ==> digits[i] != ':';
    if text[0] == '-' { assert text == ['-'] + digits; }
  }

  lemma ColonAt(a: string, rest: string)
    requires ':' !in a
    ensures IndexOf(a, ':') == |a|
    ensures IndexOf(a + ":" + rest, ':') == |a|
    ensures (a + ":" + rest)[..|a|] == a && (a + ":" + rest)[|a| + 1..] == rest
  {
    var s := a + ":" + rest;
    assert s[|a|] == ':';
    assert forall i :: 0 <= i < |a| ==> s[i] == a[i] && a[i] in a;
  }

  lemma SubstringApplies(op: string, v: string, substring: Substring)
    requires op != [] && op[0] == ':' && (|op| > 1 ==> op[1] !in ['-', '=']) && ParseSubstring(op) == Some(substring)
    ensures ApplyOperation(op, Some(v)) == Some(
      match substring
      case LeadingChars(keep) => BashPrefix(v, keep)
      case Range(offset, length) => BashRange(v, offset, length))
  {
    hide ParseSubstring;
  }

  lemma ParsedBody(op: string, leading: bool, body: string, colon: nat)
    requires |op| > 1 && op[0] == ':' && leading == (op[1] == ':') && body == op[if leading then 2 else 1..]
    requires IndexOf(body, ':') == colon && IsInteger(body[..colon])
    requires colon < |body| ==> IsInteger(body[colon + 1..])
    ensures ParseSubstring(op) == Some(
      if leading then LeadingChars(ParseInteger(body[..colon]))
      else Range(ParseInteger(body[..colon]),
                 if colon == |body| then None else Some(ParseInteger(body[colon + 1..]))))
  {
    hide IsInteger, ParseInteger, IndexOf;
    if colon == |body| { assert body[..colon] == body; }
  }

  lemma ColonsOf(leading: bool, body: string)
    requires body != [] && body[0] != ':'
    ensures var op := (if leading then "::" else ":") + body;
      |op| > 1 && op[0] == ':' && leading == (op[1] == ':') && body == op[if leading then 2 else 1..]
  {
  }

  lemma ParsedOne(op: string, leading: bool, a: string, n: int)
    requires Denotes(a, n) && op == (if leading then "::" else ":") + a
    ensures ParseSubstring(op) == Some(if leading then LeadingChars(n) else Range(n, None))
  {
    hide Denotes, IsInteger, ParseInteger, IndexOf, ParseSubstring;
    DenotedInteger(a, n);
    ColonAt(a, a);
    assert a[0] in a && a[..|a|] == a;
    ColonsOf(leading, a);
    ParsedBody(op, leading, a, |a|);
  }

  lemma ParsedTwo(op: string, leading: bool, a: string, n: int, b: string, m: int)
    requires Denotes(a, n) && Denotes(b, m) && op == (if leading then "::" else ":") + (a + ":" + b)
    ensures ParseSubstring(op) == Some(if leading then LeadingChars(n) else Range(n, Some(m)))
  {
    hide Denotes, IsInteger, ParseInteger, IndexOf, ParseSubstring;
    DenotedInteger(a, n);
    DenotedInteger(b, m);
    ColonAt(a, b);
    assert a[0] in a && (a + ":" + b)[0] == a[0];
    ColonsOf(leading, a + ":" + b);
    ParsedBody(op, leading, a + ":" + b, |a|);
  }

  lemma NumberStart(a: string, n: int)
    requires Denotes(a, n)
    ensures a != [] && (a[0] == '-' || '0' <= a[0] <= '9')
  {
    DenotedInteger(a, n);
  }

  /** `:a` starts at an offset, `:a:b` also limits the length; a minus sign would make a default of it. */
  lemma RangeForms(a: string, n: nat, b: string, m: int, v: string)
    requires Denotes(a, n) && a[0] != '-' && Denotes(b, m)
    ensures ApplyOperation(":" + a, Some(v)) == Some(BashRange(v, n, None))
    ensures ApplyOperation(":" + a + ":" + b, Some(v)) == Some(BashRange(v, n, Some(m)))
  {
    hide Denotes, IsInteger, ParseInteger, ApplyOperation, ParseSubstring;
    NumberStart(a, n);
    assert ":" + a + ":" + b == ":" + (a + ":" + b);
    ParsedOne(":" + a, false, a, n);
    SubstringApplies(":" + a, v, Range(n, None));
    ParsedTwo(":" + a + ":" + b, false, a, n, b, m);
    SubstringApplies(":" + a + ":" + b, v, Range(n, Some(m)));
  }

  /** `::a` keeps leading characters, or leaves out the last ones; a second number plays no part. */
  lemma LeadingForms(a: string, n: int, b: string, m: int, v: string)
    requires Denotes(a, n) && Denotes(b, m)
    ensures ApplyOperation("::" + a, Some(v)) == Some(BashPrefix(v, n))
    ensures ApplyOperation("::" + a + ":" + b, Some(v)) == Some(BashPrefix(v, n))
  {
    hide Denotes, ApplyOperation, ParseSubstring;
    assert "::" + a + ":" + b == "::" + (a + ":" + b);
    ParsedOne("::" + a, true, a, n);
    SubstringApplies("::" + a, v, LeadingChars(n));
    ParsedTwo("::" + a + ":" + b, true, a, n, b, m);
    SubstringApplies("::" + a + ":" + b, v, LeadingChars(n));
  }

  // ----- Replacements -----

  /** A pattern that is replaced literally. */
  ghost predicate IsLiteral(p: string) {
    p != [] && IsOneLine(p) && forall c :: c in p ==> c !in {'/', '*', '?', '[', ']'}
  }

  lemma SlashAt(p: string, text: string)
    requires '/' !in p
    ensures IndexOf(p, '/') == |p|
    ensures IndexOf(p + "/" + text, '/') == |p|
    ensures (p + "/" + text)[..|p|] == p && (p + "/" + text)[|p| + 1..] == text
  {
    var s := p + "/" + text;
    assert s[|p|] == '/';
    assert forall i :: 0 <= i < |p| ==> s[i] == p[i] && p[i] in p;
  }

  lemma ReplacementApplies(op: string, v: string, r: Replacement)
    requires op != [] && op[0] == '/' && ParseReplacement(op) == Some(r)
    ensures ApplyOperation(op, Some(v)) ==
      Some(if r.isAll then ReplaceAll(v, r.pattern, r.text) else ReplaceFirst([], v, r.pattern, r.text))
  {
    assert Fallback(op).None? && ParseSubstring(op).None? && ParseAnchored(op).None?;
    hide ParseReplacement, Fallback, ParseSubstring, ParseAnchored;
  }

  lemma ParsedReplacement(op: string, body: string, p: string, text: string, isAll: bool)
    requires op == (if isAll then "//" else "/") + body && HasLineBreak(op) == false
    requires IsLiteral(p) && (body == p + "/" + text || (body == p && text == []))
    ensures op[0] == '/' && ParseReplacement(op) == Some(Replacement(p, text, isAll))
  {
    SlashAt(p, text);
    assert p[0] in p && body[0] == p[0];
    assert (op[1] == '/') == isAll;
    assert op[if isAll then 2 else 1..] == body;
    assert p[..|p|] == p;
    hide HasLineBreak, IndexOf;
    assert !exists c | c in p :: c in ['*', '?', '[', ']'];
  }

  lemma OneLineJoined(slashes: string, p: string, text: string)
    requires IsOneLine(p) && IsOneLine(text) && slashes in ["/", "//"]
    ensures !HasLineBreak(slashes + (p + "/" + text)) && !HasLineBreak(slashes + p)
  {
    assert !HasLineBreak(p) && !HasLineBreak(text) && !HasLineBreak(slashes) && !HasLineBreak("/");
  }

  lemma ReplacementParsed(p: string, text: string, isAll: bool)
    requires IsLiteral(p) && IsOneLine(text)
    ensures var slashes := if isAll then "//" else "/";
      && (slashes + p)[0] == '/' && (slashes + (p + "/" + text))[0] == '/'
      && ParseReplacement(slashes + (p + "/" + text)) == Some(Replacement(p, text, isAll))
      && ParseReplacement(slashes + p) == Some(Replacement(p, [], isAll))
  {
    var slashes := if isAll then "//" else "/";
    OneLineJoined(slashes, p, text);
    hide HasLineBreak, ParseReplacement, IsLiteral;
    ParsedReplacement(slashes + (p + "/" + text), p + "/" + text, p, text, isAll);
    ParsedReplacement(slashes + p, p, p, [], isAll);
  }

  /** A slash replaces the first occurrence, two replace all of them; without a text they are deleted. */
  lemma ReplacementForms(p: string, text: string, v: string)
    requires IsLiteral(p) && IsOneLine(text)
    ensures ApplyOperation("/" + p + "/" + text, Some(v)) == Some(ReplaceFirst([], v, p, text))
    ensures ApplyOperation("/" + p, Some(v)) == Some(ReplaceFirst([], v, p, []))
    ensures ApplyOperation("//" + p + "/" + text, Some(v)) == Some(ReplaceAll(v, p, text))
    ensures ApplyOperation("//" + p, Some(v)) == Some(ReplaceAll(v, p, []))
  {
    hide ApplyOperation, ParseReplacement, ReplaceAll, ReplaceFirst, IsLiteral;
    assert "/" + p + "/" + text == "/" + (p + "/" + text) && "//" + p + "/" + text == "//" + (p + "/" + text);
    ReplacementParsed(p, text, false);
    ReplacementParsed(p, text, true);
    ReplacementApplies("/" + (p + "/" + text), v, Replacement(p, text, false));
    ReplacementApplies("/" + p, v, Replacement(p, [], false));
    ReplacementApplies("//" + (p + "/" + text), v, Replacement(p, text, true));
    ReplacementApplies("//" + p, v, Replacement(p, [], true));
  }

  // ----- Nothing else -----

  /** Digits with an optional minus sign. */
  ghost predicate IsNumber(text: string) {
    exists n: int :: Denotes(text, n)
  }

  lemma DecimalAppend(n: nat, digit: char)
    requires n > 0 && '0' <= digit <= '9'
    ensures Decimal(10 * n + (digit as int - '0' as int)) == Decimal(n) + [digit]
  {
    var m := 10 * n + (digit as int - '0' as int);
    assert m / 10 == n && '0' + (m % 10) as char == digit;
  }

  lemma OneDigit(digit: char)
    requires '0' <= digit <= '9'
    ensures Decimal(digit as int - '0' as int) == [digit] && ParseNat([digit]) == digit as int - '0' as int
  {
    ParseNatAppend([], digit);
    hide ParseNat;
    var value := digit as int - '0' as int;
    assert value / 10 == 0 && value % 10 == value;
    assert [] + [digit] == [digit];
  }

  lemma {:induction false} DigitsDenote(s: string)
    requires s != [] && AllDigits(s)
    ensures DenotesNat(s, ParseNat(s))
    ensures s[0] != '0' ==> s == Decimal(ParseNat(s))
  {
    if |s| == 1 {
      assert s == [s[0]];
      OneDigit(s[0]);
    } else if s[0] == '0' {
      ParseNatOfZero(s[1..]);
      assert s == "0" + s[1..];
      DigitsDenote(s[1..]);
    } else {
      var front, last := s[..|s| - 1], s[|s| - 1];
      DigitsDenote(front);
      FirstDigit(front);
      hide Decimal, DenotesNat;
      assert s == front + [last];
      ParseNatAppend(front, last);
      DecimalAppend(ParseNat(front), last);
      DecimalDenotes(ParseNat(s));
    }
  }

  lemma DecimalDenotes(n: nat)
    ensures DenotesNat(Decimal(n), n)
  {
  }

  lemma FirstDigit(s: string)
    requires s != [] && AllDigits(s) && s[0] != '0' && s == Decimal(ParseNat(s))
    ensures ParseNat(s) > 0
  {
  }

  lemma IntegerDenotes(s: string)
    requires IsInteger(s)
    ensures IsNumber(s)
  {
    if s[0] == '-' {
      DigitsDenote(s[1..]);
      assert Denotes(s, 0 - ParseNat(s[1..]));
    } else {
      DigitsDenote(s);
      assert Denotes(s, ParseNat(s));
    }
  }

  /** The forms with numbers: one or two of them behind one or two colons. */
  ghost predicate IsSubstringForm(op: string) {
    exists a, b :: IsNumber(a) && IsNumber(b) && IsNumbers(op, a, b)
  }

  predicate IsNumbers(op: string, a: string, b: string) {
    || op == ":" + a || op == "::" + a
    || op == ":" + (a + ":" + b) || op == "::" + (a + ":" + b)
  }

  ghost predicate IsStripForm(op: string) {
    |op| > 1 && op[0] in {'#', '%'} && IsOneLine(op)
  }

  ghost predicate IsReplacementForm(op: string) {
    exists p, text :: IsLiteral(p) && IsOneLine(text) && Replaces(op, p, text)
  }

  predicate Replaces(op: string, p: string, text: string) {
    || op == "/" + p || op == "//" + p
    || op == "/" + (p + "/" + text) || op == "//" + (p + "/" + text)
  }

  lemma SubstringIsForm(op: string)
    requires ParseSubstring(op).Some?
    ensures IsSubstringForm(op)
  {
    hide ParseInteger, IsInteger, IsNumber, IndexOf;
    var leading := |op| >= 2 && op[1] == ':';
    var colons := if leading then "::" else ":";
    var body := if leading then op[2..] else op[1..];
    var colon := IndexOf(body, ':');
    assert op == colons + body;
    IntegerDenotes(body[..colon]);
    CutAt(body, ':');
    if colon == |body| {
      assert IsNumbers(op, body, body);
    } else {
      IntegerDenotes(body[colon + 1..]);
      assert IsNumbers(op, body[..colon], body[colon + 1..]);
    }
  }

  lemma CutAt(body: string, c: char)
    ensures var n := IndexOf(body, c);
      && c !in body[..n]
      && (n == |body| ==> body[..n] == body)
      && (n < |body| ==> body == body[..n] + [c] + body[n + 1..])
  {
    var n := IndexOf(body, c);
    assert forall i :: 0 <= i < n ==> body[..n][i] == body[i];
  }

  lemma OneLineBehind(front: string, body: string)
    requires IsOneLine(front + body)
    ensures IsOneLine(body)
  {
    forall c | c in body
      ensures c !in {'\n', '\r', '\U{2028}', '\U{2029}'}
    {
      assert c in front + body;
    }
  }

  lemma OneLineIff(s: string)
    ensures IsOneLine(s) <==> !HasLineBreak(s)
  {
  }

  lemma LiteralPattern(body: string, n: nat)
    requires IsOneLine(body) && n <= |body| && '/' !in body[..n] && body[..n] != []
    requires !exists c | c in body[..n] :: c in ['*', '?', '[', ']']
    ensures IsLiteral(body[..n]) && (n < |body| ==> IsOneLine(body[n + 1..]))
  {
    assert forall c :: c in body[..n] ==> c in body;
    if n < |body| {
      assert body == body[..n + 1] + body[n + 1..];
      OneLineBehind(body[..n + 1], body[n + 1..]);
    }
  }

  lemma ReplacementIsForm(op: string)
    requires ParseReplacement(op).Some?
    ensures IsReplacementForm(op)
  {
    hide HasLineBreak, IndexOf, IsOneLine, IsLiteral;
    var isAll := op[1] == '/';
    var slashes := if isAll then "//" else "/";
    var body := if isAll then op[2..] else op[1..];
    var n := IndexOf(body, '/');
    assert op == slashes + body;
    OneLineIff(op);
    OneLineBehind(slashes, body);
    CutAt(body, '/');
    LiteralPattern(body, n);
    if n == |body| {
      EmptyIsOneLine();
      assert Replaces(op, body[..n], []);
    } else {
      assert Replaces(op, body[..n], body[n + 1..]);
    }
  }

  lemma EmptyIsOneLine()
    ensures IsOneLine([])
  {
  }

  /** What is in none of these forms cannot be resolved. */
  lemma NoOtherForm(op: string, value: Option<string>)
    requires ApplyOperation(op, value).Some?
    ensures ":=" <= op || ":-" <= op || "-" <= op || IsSubstringForm(op) || IsStripForm(op) || IsReplacementForm(op)
  {
    if Fallback(op).None? {
      hide Strip;
      if ParseSubstring(op).Some? {
        SubstringIsForm(op);
      } else if ParseAnchored(op).None? {
        ReplacementIsForm(op);
      }
    }
  }

  // ----- Templates -----

  /** What stands for a token: a known value, `x86_64` for an unknown `CARCH`, or what the operation makes of it. */
  ghost predicate StandsFor(vars: Vars, token: Token, text: string) {
    match token
    case Literal(c) => text == [c]
    case Plain(name) => (name in vars && text == vars[name]) || (name == "CARCH" && name !in vars && text == "x86_64")
    case Operation(name, op) =>
      var value := if name in vars then Some(vars[name]) else if name == "CARCH" then Some("x86_64") else None;
      ApplyOperation(op, value) == Some(text)
  }

  ghost predicate AllStandFor(vars: Vars, tokens: seq<Token>, texts: seq<string>) {
    |texts| == |tokens| && forall i :: 0 <= i < |tokens| ==> StandsFor(vars, tokens[i], texts[i])
  }

  lemma TokenTextIff(vars: Vars, token: Token, text: string)
    ensures TokenText(token, vars) == Some(text) <==> StandsFor(vars, token, text)
  {
    hide ApplyOperation;
  }

  lemma {:induction false} ExpandJoins(vars: Vars, tokens: seq<Token>) returns (texts: seq<string>)
    requires Expand(tokens, vars).Some?
    ensures AllStandFor(vars, tokens, texts) && Expand(tokens, vars) == Some(Concat(texts))
  {
    if tokens == [] {
      texts := [];
    } else {
      hide StandsFor, TokenText;
      var rest := ExpandJoins(vars, tokens[1..]);
      var first := TokenText(tokens[0], vars).value;
      TokenTextIff(vars, tokens[0], first);
      texts := [first] + rest;
      assert texts[1..] == rest;
      forall i | 0 <= i < |tokens|
        ensures StandsFor(vars, tokens[i], texts[i])
      {
        if i > 0 { assert StandsFor(vars, tokens[1..][i - 1], rest[i - 1]); }
      }
    }
  }

  lemma {:induction false} JoinedExpands(vars: Vars, tokens: seq<Token>, texts: seq<string>)
    requires AllStandFor(vars, tokens, texts)
    ensures Expand(tokens, vars) == Some(Concat(texts))
  {
    if tokens != [] {
      TokenTextIff(vars, tokens[0], texts[0]);
      hide StandsFor, TokenText;
      forall i | 0 <= i < |tokens| - 1
        ensures StandsFor(vars, tokens[1..][i], texts[1..][i])
      {
        assert StandsFor(vars, tokens[i + 1], texts[i + 1]);
      }
      JoinedExpands(vars, tokens[1..], texts[1..]);
    }
  }

  /** A template gives what stands for its tokens, joined, if that has nothing unresolved in it. */
  lemma SubstituteVarsIff(template: string, vars: Vars, result: string)
    ensures SubstituteVars(template, vars) == Some(result) <==>
      && '$' !in result && '\0' !in result
      && exists texts :: AllStandFor(vars, Tokens(template), texts) && result == Concat(texts)
  {
    var tokens := Tokens(template);
    hide Tokens, AllStandFor;
    if Expand(tokens, vars).Some? {
      var texts := ExpandJoins(vars, tokens);
    }
    if texts :| AllStandFor(vars, tokens, texts) && result == Concat(texts) {
      JoinedExpands(vars, tokens, texts);
    }
  }
}
