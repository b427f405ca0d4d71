/**
 * When the map order matters to the passes over variable references: exactly for a variable
 * that has a value, but one deeper than the number of passes.
 */
module ExpansionOrder {
  import opened Wrappers
  import opened GlobStrip
  import opened ParameterExpansion

  /** The iteration order of a map with these variables. */
  ghost predicate IsMapOrder(vars: Vars, order: seq<string>) {
    && (forall name :: name in order <==> name in vars)
    && forall i, j :: 0 <= i < j < |order| ==> order[i] != order[j]
  }

  /** `x` has no value at any depth at which `y` has none. */
  ghost predicate IsDeeper(vars: Vars, x: string, y: string) {
    forall d: nat :: Value(vars, x, d).Some? ==> Value(vars, y, d).Some?
  }

  ghost predicate DeepFirst(vars: Vars, order: seq<string>) {
    forall i, j :: 0 <= i < j < |order| ==> IsDeeper(vars, order[i], order[j])
  }

  ghost predicate ShallowFirst(vars: Vars, order: seq<string>) {
    forall i, j :: 0 <= i < j < |order| ==> IsDeeper(vars, order[j], order[i])
  }

  // ----- Both orders exist -----

  lemma DeeperTotal(vars: Vars, x: string, y: string)
    ensures IsDeeper(vars, x, y) || IsDeeper(vars, y, x)
  {
    if !IsDeeper(vars, x, y) {
      var d: nat :| Value(vars, x, d).Some? && Value(vars, y, d).None?;
      forall e: nat | Value(vars, y, e).Some?
        ensures Value(vars, x, e).Some?
      {
        if e <= d { ValueMonotone(vars, y, e, d); } else { ValueMonotone(vars, x, d, e); }
      }
    }
  }

  lemma DeeperTransitive(vars: Vars, x: string, y: string, z: string)
    requires IsDeeper(vars, x, y) && IsDeeper(vars, y, z)
    ensures IsDeeper(vars, x, z)
  {
  }

  lemma {:induction false} Insert(vars: Vars, x: string, order: seq<string>) returns (longer: seq<string>)
    requires DeepFirst(vars, order) && x !in order
    requires forall i, j :: 0 <= i < j < |order| ==> order[i] != order[j]
    ensures DeepFirst(vars, longer) && forall name :: name in longer <==> name == x || name in order
    ensures forall i, j :: 0 <= i < j < |longer| ==> longer[i] != longer[j]
  {
    hide IsDeeper;
    if order == [] || IsDeeper(vars, x, order[0]) {
      longer := [x] + order;
      forall i | 0 < i < |order|
        ensures IsDeeper(vars, x, order[i])
      {
        DeeperTransitive(vars, x, order[0], order[i]);
      }
    } else {
      var rest := Insert(vars, x, order[1..]);
      longer := [order[0]] + rest;
      DeeperTotal(vars, x, order[0]);
      assert order == [order[0]] + order[1..];
      forall i | 0 <= i < |rest|
        ensures IsDeeper(vars, order[0], rest[i]) && rest[i] != order[0]
      {
        assert rest[i] in rest;
        if rest[i] != x {
          var k :| 0 <= k < |order[1..]| && order[1..][k] == rest[i];
          assert order[k + 1] == rest[i];
        }
      }
    }
  }

  lemma {:induction false} DeepFirstExists(vars: Vars, names: set<string>) returns (order: seq<string>)
    ensures DeepFirst(vars, order) && forall name :: name in order <==> name in names
    ensures forall i, j :: 0 <= i < j < |order| ==> order[i] != order[j]
    decreases names
  {
    if names == {} {
      order := [];
    } else {
      var x :| x in names;
      var rest := DeepFirstExists(vars, names - {x});
      order := Insert(vars, x, rest);
    }
  }

  lemma ReversedOrder(vars: Vars, order: seq<string>)
    requires IsMapOrder(vars, order) && DeepFirst(vars, order)
    ensures IsMapOrder(vars, Reverse(order)) && ShallowFirst(vars, Reverse(order))
  {
    var reversed := Reverse(order);
    hide IsDeeper;
    forall name
      ensures name in reversed <==> name in order
    {
      if name in order {
        var i :| 0 <= i < |order| && order[i] == name;
        assert reversed[|order| - 1 - i] == name;
      }
    }
  }

  // ----- Deep variables first: one level for each pass -----

  /** Every variable has its template or its value at this depth. */
  ghost predicate IsSoundAt(vars: Vars, cur: Vars, depth: nat) {
    cur.Keys == vars.Keys &&
    forall name :: name in vars ==> cur[name] == vars[name] || Value(vars, name, depth) == Some(cur[name])
  }

  lemma SoundAtIsSound(vars: Vars, cur: Vars, depth: nat)
    requires IsSoundAt(vars, cur, depth)
    ensures IsSound(vars, cur)
  {
    forall name | name in vars
      ensures IsOriginalOrValue(vars, cur, name)
    {
      assert cur[name] == vars[name] || Value(vars, name, depth) == Some(cur[name]);
    }
  }

  lemma SoundDeeper(vars: Vars, cur: Vars, depth: nat)
    requires IsSoundAt(vars, cur, depth)
    ensures IsSoundAt(vars, cur, depth + 1)
  {
    forall name | name in vars
      ensures cur[name] == vars[name] || Value(vars, name, depth + 1) == Some(cur[name])
    {
      if cur[name] != vars[name] { ValueMonotone(vars, name, depth, depth + 1); }
    }
  }

  lemma TokenEvaluatesAt(vars: Vars, cur: Vars, token: Token, depth: nat)
    requires IsSoundAt(vars, cur, depth) && (token.Operation? ==> KeepsDollar(token.op))
    requires TokenText(token, cur).Some? && '$' !in TokenText(token, cur).value
    ensures TokenValue(vars, token, depth) == TokenText(token, cur)
  {
    if !token.Literal? && IsDefined(vars, token.name) {
      assert Lookup(cur, token.name).Some?;
      assert '$' !in Lookup(cur, token.name).value;
      assert Value(vars, token.name, depth) == Lookup(cur, token.name);
    }
  }

  /** A substitution that completes gives the recursive value at the depth of the values used. */
  lemma {:induction false} ExpandEvaluatesAt(vars: Vars, cur: Vars, tokens: seq<Token>, depth: nat)
    requires IsSoundAt(vars, cur, depth) && IsSteadyTemplate(tokens)
    requires Expand(tokens, cur).Some? && '$' !in Expand(tokens, cur).value
    ensures Evaluate(vars, tokens, depth) == Expand(tokens, cur)
  {
    if tokens != [] {
      var first, rest := TokenText(tokens[0], cur).value, Expand(tokens[1..], cur).value;
      assert forall c :: c in first || c in rest ==> c in first + rest;
      assert tokens[0] in tokens && forall t :: t in tokens[1..] ==> t in tokens;
      TokenEvaluatesAt(vars, cur, tokens[0], depth);
      ExpandEvaluatesAt(vars, cur, tokens[1..], depth);
    }
  }

  /** A visit gains at most one level. */
  lemma TooDeepStays(vars: Vars, cur: Vars, name: string, depth: nat)
    requires IsSteady(vars) && IsSoundAt(vars, cur, depth) && name in vars && Value(vars, name, depth + 1).None?
    ensures Visit(cur, name) == cur
  {
    if '$' !in cur[name] {
      VisitOfPlain(cur, name);
    } else if SubstituteVars(cur[name], cur).Some? {
      ValueIsPlain(vars, name, depth);
      ExpandEvaluatesAt(vars, cur, Tokens(vars[name]), depth);
      assert false;
    }
  }

  lemma VisitSoundAt(vars: Vars, cur: Vars, name: string, depth: nat)
    requires IsSteady(vars) && IsSoundAt(vars, cur, depth) && name in vars && Value(vars, name, depth).Some?
    ensures IsSoundAt(vars, Visit(cur, name), depth)
  {
    SoundAtIsSound(vars, cur, depth);
    VisitSound(vars, cur, name);
    var next := Visit(cur, name);
    assert IsOriginalOrValue(vars, next, name);
    if next[name] != vars[name] {
      var d: nat :| Value(vars, name, d) == Some(next[name]);
      SameValue(vars, name, d, depth);
    }
  }

  lemma {:induction false} PassSoundAt(vars: Vars, cur: Vars, order: seq<string>, depth: nat)
    requires IsSteady(vars) && IsSoundAt(vars, cur, depth)
    requires forall name :: name in order ==> name in vars && Value(vars, name, depth).Some?
    ensures IsSoundAt(vars, Pass(cur, order), depth)
  {
    hide IsSteady, IsSoundAt, Visit, Value;
    if order != [] {
      assert order[0] in order && forall name :: name in order[1..] ==> name in order;
      SoundKeys(vars, cur, depth);
      VisitSoundAt(vars, cur, order[0], depth);
      PassSoundAt(vars, Visit(cur, order[0]), order[1..], depth);
    }
  }

  lemma SoundKeys(vars: Vars, cur: Vars, depth: nat)
    requires IsSoundAt(vars, cur, depth)
    ensures cur.Keys == vars.Keys
  {
  }

  /** With deep variables first, a pass gains exactly one level. */
  lemma {:induction false} PassDeepFirst(vars: Vars, cur: Vars, order: seq<string>, depth: nat)
    requires IsSteady(vars) && IsSoundAt(vars, cur, depth) && DeepFirst(vars, order)
    requires forall name :: name in order ==> name in vars
    ensures cur.Keys == vars.Keys && IsSoundAt(vars, Pass(cur, order), depth + 1)
  {
    SoundKeys(vars, cur, depth);
    SoundDeeper(vars, cur, depth);
    hide IsSteady, IsSoundAt, Visit, Value;
    if order != [] {
      assert order[0] in order && forall name :: name in order[1..] ==> name in order;
      if Value(vars, order[0], depth + 1).None? {
        TooDeepStays(vars, cur, order[0], depth);
        PassDeepFirst(vars, cur, order[1..], depth);
      } else {
        forall name | name in order
          ensures Value(vars, name, depth + 1).Some?
        {
          var i :| 0 <= i < |order| && order[i] == name;
          if i > 0 { assert IsDeeper(vars, order[0], order[i]); }
        }
        PassSoundAt(vars, cur, order, depth + 1);
      }
    }
  }

  lemma TemplatesAreSoundAt(vars: Vars)
    ensures IsSoundAt(vars, vars, 0)
  {
  }

  lemma {:induction false} PassesDeepFirst(vars: Vars, order: seq<string>, n: nat)
    requires IsSteady(vars) && DeepFirst(vars, order) && forall name :: name in order ==> name in vars
    ensures IsSoundAt(vars, Passes(vars, order, n), n)
  {
    hide IsSteady, IsSoundAt, DeepFirst, Pass, Value;
    if n == 0 {
      TemplatesAreSoundAt(vars);
    } else {
      PassesDeepFirst(vars, order, n - 1);
      PassDeepFirst(vars, Passes(vars, order, n - 1), order, n - 1);
    }
  }

  // ----- Shallow variables first: everything in one pass -----

  lemma {:induction false} PassAppend(cur: Vars, order: seq<string>, name: string)
    requires (forall x :: x in order ==> x in cur) && name in cur
    ensures Pass(cur, order + [name]) == Visit(Pass(cur, order), name)
  {
    if order == [] {
      assert order + [name] == [name] && [name][1..] == [];
    } else {
      assert (order + [name])[1..] == order[1..] + [name];
      assert order[0] in order && forall x :: x in order[1..] ==> x in order;
      PassAppend(Visit(cur, order[0]), order[1..], name);
    }
  }

  lemma LeastDepth(vars: Vars, name: string, d: nat) returns (least: nat)
    requires Value(vars, name, d).Some?
    ensures Value(vars, name, least).Some? && (least > 0 ==> Value(vars, name, least - 1).None?)
  {
    if d > 0 && Value(vars, name, d - 1).Some? {
      least := LeastDepth(vars, name, d - 1);
    } else {
      least := d;
    }
  }

  /** The first `k` variables that have a value have it. */
  ghost predicate PrefixDone(vars: Vars, cur: Vars, order: seq<string>, k: nat) {
    && k <= |order| && cur.Keys == vars.Keys
    && forall j, d: nat :: 0 <= j < k && order[j] in vars && Value(vars, order[j], d).Some? ==>
      Value(vars, order[j], d) == Some(cur[order[j]])
  }

  /** Variables of a smaller least depth than the next one come before it. */
  lemma ShallowerDone(vars: Vars, cur: Vars, order: seq<string>, k: nat, d: nat)
    requires IsMapOrder(vars, order) && ShallowFirst(vars, order) && k < |order|
    requires PrefixDone(vars, cur, order, k) && Value(vars, order[k], d).None?
    ensures HasValues(vars, cur, d)
  {
    forall name | name in vars && Value(vars, name, d).Some?
      ensures cur[name] == Value(vars, name, d).value
    {
      assert name in order;
      var j :| 0 <= j < |order| && order[j] == name;
    }
  }

  lemma PrefixVisit(vars: Vars, cur: Vars, order: seq<string>, k: nat)
    requires IsSteady(vars) && IsMapOrder(vars, order) && ShallowFirst(vars, order) && k < |order|
    requires IsSound(vars, cur) && PrefixDone(vars, cur, order, k)
    ensures order[k] in order && PrefixDone(vars, Visit(cur, order[k]), order, k + 1)
  {
    var name := order[k];
    assert name in order;
    var next := Visit(cur, name);
    hide Visit, IsSteady, ShallowFirst;
    forall d: nat | Value(vars, name, d).Some?
      ensures Value(vars, name, d) == Some(next[name])
    {
      VisitReaches(vars, cur, order, k, d);
    }
    assert forall j :: 0 <= j < k ==> order[j] != name;
    VisitElsewhere(cur, name);
  }

  lemma VisitElsewhere(cur: Vars, name: string)
    requires name in cur
    ensures forall other :: other in cur && other != name ==> Visit(cur, name)[other] == cur[other]
  {
  }

  lemma VisitReaches(vars: Vars, cur: Vars, order: seq<string>, k: nat, d: nat)
    requires IsSteady(vars) && IsMapOrder(vars, order) && ShallowFirst(vars, order) && k < |order|
    requires IsSound(vars, cur) && PrefixDone(vars, cur, order, k) && Value(vars, order[k], d).Some?
    ensures order[k] in order && Value(vars, order[k], d) == Some(Visit(cur, order[k])[order[k]])
  {
    hide IsSteady, HasValues, Visit, Value;
    var name := order[k];
    assert name in order;
    var least := LeastDepth(vars, name, d);
    SameValue(vars, name, least, d);
    if least == 0 {
      PlainStays(vars, cur, name);
    } else {
      ShallowerDone(vars, cur, order, k, least - 1);
      hide IsSound;
      VisitProgress(vars, cur, name, least - 1);
    }
  }

  lemma PlainStays(vars: Vars, cur: Vars, name: string)
    requires IsSound(vars, cur) && name in vars && Value(vars, name, 0).Some?
    ensures Value(vars, name, 0) == Some(Visit(cur, name)[name])
  {
    assert IsOriginalOrValue(vars, cur, name) && cur[name] == vars[name];
    VisitOfPlain(cur, name);
  }

  lemma NothingDone(vars: Vars, order: seq<string>)
    ensures IsSound(vars, Pass(vars, [])) && PrefixDone(vars, Pass(vars, []), order, 0)
  {
    TemplatesAreSound(vars);
  }

  lemma PrefixNames(vars: Vars, order: seq<string>, k: nat)
    requires IsMapOrder(vars, order) && k <= |order|
    ensures forall name :: name in order[..k] ==> name in vars
    ensures k > 0 ==> order[..k] == order[..k - 1] + [order[k - 1]] && order[k - 1] in vars
  {
    assert forall name :: name in order[..k] ==> name in order;
    if k > 0 { assert order[k - 1] in order; }
  }

  /** With shallow variables first, one pass gives every variable its value. */
  lemma {:induction false} PassShallowFirst(vars: Vars, order: seq<string>, k: nat)
    requires IsSteady(vars) && IsMapOrder(vars, order) && ShallowFirst(vars, order) && k <= |order|
    ensures forall name :: name in order[..k] ==> name in vars
    ensures IsSound(vars, Pass(vars, order[..k])) && PrefixDone(vars, Pass(vars, order[..k]), order, k)
  {
    hide IsSteady, IsSound, PrefixDone, ShallowFirst, Visit, Pass, IsMapOrder;
    PrefixNames(vars, order, k);
    if k == 0 {
      NothingDone(vars, order);
      assert order[..0] == [];
    } else {
      PassShallowFirst(vars, order, k - 1);
      PassAppend(vars, order[..k - 1], order[k - 1]);
      VisitSound(vars, Pass(vars, order[..k - 1]), order[k - 1]);
      PrefixVisit(vars, Pass(vars, order[..k - 1]), order, k - 1);
    }
  }

  lemma PassesShallowFirst(vars: Vars, order: seq<string>, n: nat, name: string, d: nat)
    requires IsSteady(vars) && IsMapOrder(vars, order) && ShallowFirst(vars, order) && n > 0
    requires name in vars && Value(vars, name, d).Some?
    ensures Some(Passes(vars, order, n)[name]) == Value(vars, name, d)
  {
    PassShallowFirst(vars, order, |order|);
    assert order[..|order|] == order;
    var j :| 0 <= j < |order| && order[j] == name;
    OnePass(vars, order);
    hide IsSteady, ShallowFirst, Pass;
    assert Value(vars, order[j], d) == Some(Passes(vars, order, 1)[name]);
    ValueIsPlain(vars, name, d);
    ChangesAtMostOnce(vars, order, 1, n);
  }

  lemma OnePass(vars: Vars, order: seq<string>)
    requires forall name :: name in order ==> name in vars
    ensures Passes(vars, order, 1) == Pass(vars, order)
  {
    assert Passes(vars, order, 0) == vars;
  }

  // ----- The exact condition -----

  /** Two map orders leave the variable with different values. */
  ghost predicate OrderMatters(vars: Vars, n: nat, name: string)
    requires name in vars
  {
    exists order, order' :: IsMapOrder(vars, order) && IsMapOrder(vars, order')
      && Passes(vars, order, n)[name] != Passes(vars, order', n)[name]
  }

  /** A variable that has a value, but none within `n` levels, depends on the map order. */
  lemma DeepVariableDepends(vars: Vars, n: nat, name: string, d: nat)
    requires IsSteady(vars) && name in vars && n > 0
    requires Value(vars, name, n).None? && Value(vars, name, d).Some?
    ensures OrderMatters(vars, n, name)
  {
    var deep := DeepFirstExists(vars, vars.Keys);
    var shallow := Reverse(deep);
    assert IsMapOrder(vars, deep);
    ReversedOrder(vars, deep);
    PassesDeepFirst(vars, deep, n);
    PassesShallowFirst(vars, shallow, n, name, d);
    ValueIsPlain(vars, name, d);
    assert Passes(vars, deep, n)[name] == vars[name];
    assert '$' in vars[name];
    assert Passes(vars, deep, n)[name] != Passes(vars, shallow, n)[name];
  }

  /**
   * For steady templates and at least one pass, the map order matters to a variable exactly
   * when it has a value as deep as there are variables, but none within the passes.
   */
  lemma OrderMattersIff(vars: Vars, n: nat, name: string)
    requires IsSteady(vars) && name in vars && n > 0
    ensures OrderMatters(vars, n, name) <==> Value(vars, name, n).None? && Value(vars, name, |vars|).Some?
  {
    if Value(vars, name, n).None? && Value(vars, name, |vars|).Some? {
      DeepVariableDepends(vars, n, name, |vars|);
    }
    if OrderMatters(vars, n, name) {
      var order, order' :| IsMapOrder(vars, order) && IsMapOrder(vars, order')
        && Passes(vars, order, n)[name] != Passes(vars, order', n)[name];
      hide Passes, Value, IsSteady;
      if Value(vars, name, n).Some? || Value(vars, name, |vars|).None? {
        forall d: nat | Value(vars, name, |vars|).None?
          ensures Value(vars, name, d).None?
        {
          if Value(vars, name, d).Some? { ValuesAreShallow(vars, name, d); }
        }
        OrderDoesNotMatter(vars, order, order', n, name);
      }
    }
  }

  // ----- No value is deeper than there are variables -----

  /** The variables that have a value at a depth. */
  ghost function Level(vars: Vars, depth: nat): set<string> {
    set name | name in vars && Value(vars, name, depth).Some?
  }

  lemma LevelsGrow(vars: Vars, depth: nat)
    ensures Level(vars, depth) <= Level(vars, depth + 1) <= vars.Keys
  {
    forall name | name in Level(vars, depth)
      ensures name in Level(vars, depth + 1)
    {
      ValueMonotone(vars, name, depth, depth + 1);
    }
  }

  lemma SameLevelValues(vars: Vars, depth: nat, name: string)
    requires Level(vars, depth) == Level(vars, depth + 1)
    ensures Value(vars, name, depth + 1) == Value(vars, name, depth)
  {
    if name in vars {
      assert name in Level(vars, depth) <==> name in Level(vars, depth + 1);
      if Value(vars, name, depth).Some? { ValueMonotone(vars, name, depth, depth + 1); }
    }
  }

  lemma {:induction false} SameLevelEvaluates(vars: Vars, tokens: seq<Token>, depth: nat)
    requires Level(vars, depth) == Level(vars, depth + 1)
    ensures Evaluate(vars, tokens, depth + 1) == Evaluate(vars, tokens, depth)
  {
    if tokens != [] {
      SameLevelEvaluates(vars, tokens[1..], depth);
      if !tokens[0].Literal? { SameLevelValues(vars, depth, tokens[0].name); }
    }
  }

  /** Once a level adds no variable, no deeper one does. */
  lemma {:induction false} LevelsStay(vars: Vars, depth: nat, deeper: nat)
    requires Level(vars, depth) == Level(vars, depth + 1) && depth <= deeper
    ensures Level(vars, deeper) == Level(vars, depth)
    decreases deeper
  {
    if deeper > depth + 1 {
      LevelsStay(vars, depth, deeper - 1);
      LevelsStay(vars, depth, deeper - 2);
      forall name | name in vars
        ensures Value(vars, name, deeper).Some? <==> Value(vars, name, deeper - 1).Some?
      {
        SameLevelEvaluates(vars, Tokens(vars[name]), deeper - 2);
      }
    }
  }

  /** Up to a level that adds no variable, each adds at least one. */
  lemma {:induction false} LevelsCount(vars: Vars, depth: nat)
    ensures |Level(vars, depth)| >= depth || exists k: nat :: k < depth && Level(vars, k) == Level(vars, k + 1)
  {
    if depth > 0 {
      LevelsCount(vars, depth - 1);
      LevelsGrow(vars, depth - 1);
      var less, more := Level(vars, depth - 1), Level(vars, depth);
      if |more| <= |less| { FullLevel(less, more); }
    }
  }

  lemma ValuesAreShallow(vars: Vars, name: string, d: nat)
    requires name in vars && Value(vars, name, d).Some?
    ensures Value(vars, name, |vars|).Some?
  {
    var n := |vars|;
    LevelsCount(vars, n);
    if d <= n {
      ValueMonotone(vars, name, d, n);
    } else if k: nat :| k < n && Level(vars, k) == Level(vars, k + 1) {
      LevelsStay(vars, k, n);
      LevelsStay(vars, k, d);
      assert name in Level(vars, d);
    } else {
      LevelsGrow(vars, n);
      FullLevel(Level(vars, n), vars.Keys);
      assert name in Level(vars, n);
    }
  }

  lemma FullLevel<T>(part: set<T>, whole: set<T>)
    requires part <= whole && |part| >= |whole|
    ensures part == whole
  {
    assert whole == part + (whole - part);
  }
}
