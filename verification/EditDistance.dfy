/**
 * Levenshtein distance with two early exits.
 *
 * The specification is stated on edit scripts: sequences of single-character
 * insertions, deletions and substitutions applied one after the other, at any
 * position. The two-row dynamic program is proved to return the length of a
 * shortest script whenever that length is within the bound, and nothing otherwise.
 */
module EditDistance {
  import opened Wrappers

  // ----- Specification: edit scripts -----

  datatype Edit =
    | Insert(at: nat, c: char)
    | Delete(at: nat)
    | Substitute(at: nat, c: char)

  predicate Applicable(e: Edit, s: string) {
    if e.Insert? then e.at <= |s| else e.at < |s|
  }

  function Apply(e: Edit, s: string): string
    requires Applicable(e, s)
  {
    match e
    case Insert(i, c) => s[..i] + [c] + s[i..]
    case Delete(i) => s[..i] + s[i + 1..]
    case Substitute(i, c) => s[..i] + [c] + s[i + 1..]
  }

  predicate Transforms(script: seq<Edit>, s: string, t: string) {
    if script == [] then s == t
    else Applicable(script[0], s) && Transforms(script[1..], Apply(script[0], s), t)
  }

  /** `k` is the length of a shortest script turning `s` into `t`. */
  ghost predicate IsDistance(s: string, t: string, k: nat) {
    && (exists script :: |script| == k && Transforms(script, s, t))
    && (forall script :: Transforms(script, s, t) ==> k <= |script|)
  }

  // ----- The recurrence -----

  function Min(a: nat, b: nat): nat { if a <= b then a else b }

  function Cost(a: char, b: char): nat { if a == b then 0 else 1 }

  function Init(s: string): string
    requires s != []
  {
    s[..|s| - 1]
  }

  function Last(s: string): char
    requires s != []
  {
    s[|s| - 1]
  }

  /** The recurrence behind the table, on the last characters of both strings. */
  function Levenshtein(s: string, t: string): nat
    decreases |s| + |t|
  {
    if s == [] then |t|
    else if t == [] then |s|
    else
      Min(Min(Levenshtein(Init(s), t) + 1, Levenshtein(s, Init(t)) + 1),
          Levenshtein(Init(s), Init(t)) + Cost(Last(s), Last(t)))
  }

  lemma Recurrence(s: string, t: string)
    requires s != [] && t != []
    ensures Levenshtein(s, t) ==
      Min(Min(Levenshtein(Init(s), t) + 1, Levenshtein(s, Init(t)) + 1),
          Levenshtein(Init(s), Init(t)) + Cost(Last(s), Last(t)))
  {
    hide Min, Cost, Init, Last;
  }

  // ----- Upper bound: a script of that length exists -----

  lemma {:induction false} TransformsAppend(first: seq<Edit>, second: seq<Edit>, s: string, m: string, t: string)
    requires Transforms(first, s, m) && Transforms(second, m, t)
    ensures Transforms(first + second, s, t)
  {
    hide Apply, Applicable;
    if first == [] {
      assert first + second == second;
    } else {
      assert (first + second)[1..] == first[1..] + second;
      TransformsAppend(first[1..], second, Apply(first[0], s), m, t);
    }
  }

  /** A script stays valid, and changes the same part, when a character is kept behind the string. */
  lemma {:induction false} TransformsBefore(script: seq<Edit>, s: string, t: string, c: char)
    requires Transforms(script, s, t)
    ensures Transforms(script, s + [c], t + [c])
  {
    if script != [] {
      EditBefore(script[0], s, c);
      hide Apply, Applicable;
      TransformsBefore(script[1..], Apply(script[0], s), t, c);
    }
  }

  lemma EditBefore(e: Edit, s: string, c: char)
    requires Applicable(e, s)
    ensures Applicable(e, s + [c]) && Apply(e, s + [c]) == Apply(e, s) + [c]
  {
  }

  lemma ScriptByDeletion(rest: seq<Edit>, s: string, t: string)
    requires s != [] && Transforms(rest, Init(s), t)
    ensures Transforms([Delete(|s| - 1)] + rest, s, t)
  {
    assert Apply(Delete(|s| - 1), s) == Init(s);
    assert ([Delete(|s| - 1)] + rest)[1..] == rest;
  }

  lemma ScriptByInsertion(first: seq<Edit>, s: string, t: string)
    requires t != [] && Transforms(first, s, Init(t))
    ensures Transforms(first + [Insert(|t| - 1, Last(t))], s, t)
  {
    var insertion := Insert(|t| - 1, Last(t));
    OneEditScript(insertion, Init(t), t);
    hide Transforms;
    TransformsAppend(first, [insertion], s, Init(t), t);
  }

  lemma ScriptBySubstitution(first: seq<Edit>, s: string, t: string)
    requires s != [] && t != [] && Transforms(first, Init(s), Init(t))
    ensures Last(s) == Last(t) ==> Transforms(first, s, t)
    ensures Transforms(first + [Substitute(|t| - 1, Last(t))], s, t)
  {
    hide Transforms, Apply, Applicable;
    TransformsBefore(first, Init(s), Init(t), Last(s));
    var middle := Init(t) + [Last(s)];
    assert Init(s) + [Last(s)] == s && Init(t) + [Last(t)] == t;
    SubstituteLast(Last(s), t);
    TransformsAppend(first, [Substitute(|t| - 1, Last(t))], s, middle, t);
  }

  lemma SubstituteLast(c: char, t: string)
    requires t != []
    ensures Transforms([Substitute(|t| - 1, Last(t))], Init(t) + [c], t)
  {
    hide Transforms;
    var middle := Init(t) + [c];
    assert middle[..|t| - 1] == Init(t) && middle[|t|..] == [] && Init(t) + [Last(t)] + [] == t;
    OneEditScript(Substitute(|t| - 1, Last(t)), middle, t);
  }

  lemma OneEditScript(e: Edit, s: string, t: string)
    requires Applicable(e, s) && Apply(e, s) == t
    ensures Transforms([e], s, t)
  {
    hide Apply, Applicable;
    assert [e][1..] == [];
    assert Transforms([], Apply(e, s), t);
  }

  lemma {:induction false} ShortestScript(s: string, t: string)
    ensures exists script :: |script| == Levenshtein(s, t) && Transforms(script, s, t)
    decreases |s| + |t|
  {
    hide Transforms, Levenshtein, Init;
    LastStep(s, t);
    if s == [] && t == [] {
      EmptyScript(s);
      var script: seq<Edit> := [];
      assert |script| == Levenshtein(s, t) && Transforms(script, s, t);
    } else if s != [] && (t == [] || Levenshtein(s, t) == Levenshtein(Init(s), t) + 1) {
      ShortestScript(Init(s), t);
      var rest :| |rest| == Levenshtein(Init(s), t) && Transforms(rest, Init(s), t);
      ScriptByDeletion(rest, s, t);
      assert |[Delete(|s| - 1)] + rest| == Levenshtein(s, t);
    } else if t != [] && (s == [] || Levenshtein(s, t) == Levenshtein(s, Init(t)) + 1) {
      ShortestScript(s, Init(t));
      var first :| |first| == Levenshtein(s, Init(t)) && Transforms(first, s, Init(t));
      ScriptByInsertion(first, s, t);
      assert |first + [Insert(|t| - 1, Last(t))]| == Levenshtein(s, t);
    } else {
      ShortestScript(Init(s), Init(t));
      var first :| |first| == Levenshtein(Init(s), Init(t)) && Transforms(first, Init(s), Init(t));
      ScriptBySubstitution(first, s, t);
      assert |first + [Substitute(|t| - 1, Last(t))]| == |first| + 1;
    }
  }

  lemma EmptyScript(s: string)
    ensures Transforms([], s, s)
  {
  }

  /** The distance is reached from one of three shorter problems. */
  lemma LastStep(s: string, t: string)
    ensures s != [] ==> |Init(s)| == |s| - 1
    ensures t != [] ==> |Init(t)| == |t| - 1
    ensures s == [] && t == [] ==> Levenshtein(s, t) == 0
    ensures s != [] && t == [] ==> Levenshtein(s, t) == Levenshtein(Init(s), t) + 1
    ensures s == [] && t != [] ==> Levenshtein(s, t) == Levenshtein(s, Init(t)) + 1
    ensures s != [] && t != [] ==>
      || Levenshtein(s, t) == Levenshtein(Init(s), t) + 1
      || Levenshtein(s, t) == Levenshtein(s, Init(t)) + 1
      || Levenshtein(s, t) == Levenshtein(Init(s), Init(t)) + Cost(Last(s), Last(t))
  {
    if s != [] && t != [] {
      hide Levenshtein;
      Recurrence(s, t);
    }
  }

  // ----- Lower bound: no script is shorter -----

  lemma {:induction false} LevenshteinSelf(s: string)
    ensures Levenshtein(s, s) == 0
  {
    if s != [] {
      LevenshteinSelf(Init(s));
    }
  }

  lemma LevenshteinOneMore(s: string, t: string)
    ensures t != [] ==> Levenshtein(s, t) <= Levenshtein(s, Init(t)) + 1
    ensures s != [] ==> Levenshtein(s, t) <= Levenshtein(Init(s), t) + 1
  {
  }

  /** Taking the last character off the source string costs at most one. */
  lemma {:induction false} DropLast(s: string, t: string)
    requires s != []
    ensures Levenshtein(Init(s), t) <= Levenshtein(s, t) + 1
    decreases |t|
  {
    if t != [] {
      DropLast(s, Init(t));
      LevenshteinOneMore(Init(s), t);
    }
  }

  /** Changing the last character of the source string costs at most one. */
  lemma {:induction false} ChangeLast(s: string, s': string, t: string)
    requires s != [] && s' != [] && Init(s) == Init(s')
    ensures Levenshtein(s, t) <= Levenshtein(s', t) + 1
    decreases |t|
  {
    if t != [] {
      ChangeLast(s, s', Init(t));
    }
  }

  /** One edit anywhere in the source changes the distance to any target by at most one. */
  lemma {:induction false} OneEdit(e: Edit, s: string, t: string)
    requires Applicable(e, s)
    ensures Levenshtein(s, t) <= Levenshtein(Apply(e, s), t) + 1
    decreases |s| + |t|
  {
    var s' := Apply(e, s);
    if e.Insert? && e.at == |s| {
      assert Init(s') == s;
      DropLast(s', t);
    } else if e.Delete? && e.at == |s| - 1 {
      assert s' == Init(s);
      LevenshteinOneMore(s, t);
    } else if e.Substitute? && e.at == |s| - 1 {
      assert Init(s') == Init(s);
      ChangeLast(s, s', t);
    } else {
      EditBeforeLast(e, s);
      hide Levenshtein, Apply;
      OneEdit(e, Init(s), t);
      if t == [] {
        ToEmpty(e, s);
      } else {
        OneEdit(e, s, Init(t));
        OneEdit(e, Init(s), Init(t));
        Recurrence(s, t);
        Recurrence(s', t);
      }
    }
  }

  lemma EditBeforeLast(e: Edit, s: string)
    requires s != [] && Applicable(e, s) && if e.Insert? then e.at < |s| else e.at < |s| - 1
    ensures Applicable(e, Init(s)) && Apply(e, s) != []
    ensures Apply(e, Init(s)) == Init(Apply(e, s)) && Last(s) == Last(Apply(e, s))
  {
  }

  lemma ToEmpty(e: Edit, s: string)
    requires Applicable(e, s)
    ensures Levenshtein(s, []) <= Levenshtein(Apply(e, s), []) + 1
  {
  }

  lemma {:induction false} NoShorterScript(script: seq<Edit>, s: string, t: string)
    requires Transforms(script, s, t)
    ensures Levenshtein(s, t) <= |script|
  {
    if script == [] {
      LevenshteinSelf(s);
    } else {
      OneEdit(script[0], s, t);
      NoShorterScript(script[1..], Apply(script[0], s), t);
    }
  }

  /** The recurrence is the length of a shortest edit script, and nothing else is. */
  lemma LevenshteinIsDistance(s: string, t: string)
    ensures forall k :: IsDistance(s, t, k) <==> k == Levenshtein(s, t)
  {
    ShortestScript(s, t);
    forall script | Transforms(script, s, t)
      ensures Levenshtein(s, t) <= |script|
    {
      NoShorterScript(script, s, t);
    }
    assert IsDistance(s, t, Levenshtein(s, t));
  }

  // ----- Why the early exits lose nothing -----

  lemma {:induction false} LengthGap(s: string, t: string)
    ensures Levenshtein(s, t) >= |s| - |t| && Levenshtein(s, t) >= |t| - |s|
    decreases |s| + |t|
  {
    if s != [] && t != [] {
      LengthGap(Init(s), t);
      LengthGap(s, Init(t));
      LengthGap(Init(s), Init(t));
    }
  }

  /** Every cell of the row for `s` exceeds `bound`. */
  ghost predicate RowAbove(s: string, t: string, bound: nat) {
    forall j :: 0 <= j <= |t| ==> Levenshtein(s, t[..j]) > bound
  }

  lemma {:induction false} NextRowAbove(s: string, c: char, t: string, bound: nat, j: nat)
    requires RowAbove(s, t, bound) && j <= |t|
    ensures Levenshtein(s + [c], t[..j]) > bound
  {
    assert Init(s + [c]) == s;
    assert Levenshtein(s, t[..j]) > bound;
    if j == 0 {
      assert Levenshtein(s, t[..0]) == |s|;
    } else {
      assert Init(t[..j]) == t[..j - 1];
      assert Levenshtein(s, t[..j - 1]) > bound;
      NextRowAbove(s, c, t, bound, j - 1);
    }
  }

  /** Row minima never decrease, so a row beyond the bound decides the answer. */
  lemma {:induction false} RowsStayAbove(s: string, i: nat, t: string, bound: nat)
    requires i <= |s| && RowAbove(s[..i], t, bound)
    ensures Levenshtein(s, t) > bound
    decreases |s| - i
  {
    if i == |s| {
      assert s[..i] == s && t[..|t|] == t;
    } else {
      assert s[..i + 1] == s[..i] + [s[i]];
      forall j | 0 <= j <= |t|
        ensures Levenshtein(s[..i + 1], t[..j]) > bound
      {
        NextRowAbove(s[..i], s[i], t, bound, j);
      }
      RowsStayAbove(s, i + 1, t, bound);
    }
  }

  // ----- The two-row dynamic program -----

  /** `row` holds the distances from `s` to the prefixes of `t` it is long enough for. */
  ghost predicate IsRow(row: seq<nat>, s: string, t: string) {
    |row| <= |t| + 1 && forall j :: 0 <= j < |row| ==> row[j] == Levenshtein(s, t[..j])
  }

  lemma CellRecurrence(s: string, i: nat, t: string, j: nat)
    requires 1 <= i <= |s| && 1 <= j <= |t|
    ensures Levenshtein(s[..i], t[..j]) ==
      Min(Min(Levenshtein(s[..i - 1], t[..j]) + 1, Levenshtein(s[..i], t[..j - 1]) + 1),
          Levenshtein(s[..i - 1], t[..j - 1]) + Cost(s[i - 1], t[j - 1]))
  {
    hide Levenshtein, Min, Cost;
    Recurrence(s[..i], t[..j]);
    assert Init(s[..i]) == s[..i - 1] && Init(t[..j]) == t[..j - 1];
  }

  lemma FirstColumn(s: string, t: string)
    ensures Levenshtein(s, t[..0]) == |s|
  {
  }

  /** Computes the row for `s[..i]` from the row for `s[..i - 1]`, with its minimum. */
  method NextRow(previousRow: seq<nat>, s: string, i: nat, t: string) returns (currentRow: seq<nat>, rowMinimum: nat)
    requires 1 <= i <= |s|
    requires |previousRow| == |t| + 1 && IsRow(previousRow, s[..i - 1], t)
    ensures |currentRow| == |t| + 1 && IsRow(currentRow, s[..i], t)
    ensures exists j :: 0 <= j < |currentRow| && rowMinimum == currentRow[j]
    ensures forall j :: 0 <= j < |currentRow| ==> rowMinimum <= currentRow[j]
  {
    hide Levenshtein;
    assert Levenshtein(s[..i], t[..0]) == i by { FirstColumn(s[..i], t); }
    currentRow := [i];
    rowMinimum := i;
    ghost var at := 0;
    var j := 1;
    while j <= |t|
      invariant 1 <= j <= |t| + 1 && |currentRow| == j
      invariant forall k :: 0 <= k < j ==> currentRow[k] == Levenshtein(s[..i], t[..k])
      invariant 0 <= at < j && currentRow[at] == rowMinimum
      invariant forall k :: 0 <= k < j ==> rowMinimum <= currentRow[k]
    {
      var substitutionCost := Cost(s[i - 1], t[j - 1]);
      var value := Min(Min(previousRow[j] + 1, currentRow[j - 1] + 1), previousRow[j - 1] + substitutionCost);
      assert value == Levenshtein(s[..i], t[..j]) by { CellRecurrence(s, i, t, j); }
      currentRow := currentRow + [value];
      at := if value < rowMinimum then j else at;
      rowMinimum := Min(rowMinimum, value);
      j := j + 1;
    }
  }

  /**
   * The length of a shortest edit script, unless the strings are equal or every
   * script is longer than `maxDistance`.
   */
  method BoundedEditDistance(left: string, right: string, maxDistance: nat) returns (distance: Option<nat>)
    ensures distance.Some? <==> left != right && exists k: nat :: k <= maxDistance && IsDistance(left, right, k)
    ensures distance.Some? ==> IsDistance(left, right, distance.value)
  {
    hide IsDistance;
    LevenshteinIsDistance(left, right);
    LengthGap(left, right);
    if left == right { return None; }
    if |left| - |right| > maxDistance || |right| - |left| > maxDistance { return None; }

    var previousRow: seq<nat> := [];
    var index := 0;
    while index <= |right|
      invariant 0 <= index <= |right| + 1 && |previousRow| == index
      invariant IsRow(previousRow, left[..0], right)
    {
      previousRow := previousRow + [index];
      index := index + 1;
    }
    var i := 1;
    while i <= |left|
      invariant 1 <= i <= |left| + 1
      invariant |previousRow| == |right| + 1 && IsRow(previousRow, left[..i - 1], right)
    {
      var currentRow, rowMinimum := NextRow(previousRow, left, i, right);
      if rowMinimum > maxDistance {
        RowsStayAbove(left, i, right, maxDistance);
        return None;
      }
      previousRow := currentRow;
      i := i + 1;
    }
    assert left[..|left|] == left && right[..|right|] == right;
    var value := previousRow[|right|];
    assert IsDistance(left, right, value);
    return if value <= maxDistance then Some(value) else None;
  }
}
