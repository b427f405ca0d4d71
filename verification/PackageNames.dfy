/**
 * Normal forms of package names, and the search for the known name closest to a
 * given one. Names are sequences of ASCII characters.
 */
module PackageNames {
  import opened Wrappers
  import opened EditDistance
  import opened Texts

  const SHORT_NAME_MAX_DISTANCE: nat := 1
  const LONG_NAME_MAX_DISTANCE: nat := 2
  const LONG_NAME_MIN_LENGTH := 8

  const NAME_SUFFIXES := ["-git", "-svn", "-hg", "-bzr", "-bin"]
  const NAME_PREFIXES := ["lib32-", "lib64-"]

  // ----- Normal form -----

  function LowerCaseChar(c: char): char {
    if 'A' <= c <= 'Z' then c - 'A' + 'a' else c
  }

  function LowerCase(s: string): (r: string)
    ensures |r| == |s|
  {
    seq(|s|, i requires 0 <= i < |s| => LowerCaseChar(s[i]))
  }

  predicate StartsWith(s: string, prefix: string) {
    |prefix| <= |s| && s[..|prefix|] == prefix
  }

  predicate EndsWith(s: string, suffix: string) {
    |suffix| <= |s| && s[|s| - |suffix|..] == suffix
  }

  predicate HasVariantPrefix(s: string) {
    exists p | p in NAME_PREFIXES :: StartsWith(s, p)
  }

  predicate HasVariantSuffix(s: string) {
    exists x | x in NAME_SUFFIXES :: EndsWith(s, x)
  }

  /** The lower-cased name without its architecture prefix. */
  function Core(name: string): string {
    var lower := LowerCase(name);
    if HasVariantPrefix(lower) then lower[|NAME_PREFIXES[0]|..] else lower
  }

  /** `lower` is `name` with its ASCII capitals replaced by the letters 32 codes further on. */
  ghost predicate IsLowerCaseOf(name: string, lower: string) {
    && |lower| == |name|
    && forall i :: 0 <= i < |name| ==>
      lower[i] as int == name[i] as int + if 65 <= name[i] as int <= 90 then 32 else 0
  }

  lemma LowerCaseUnique(name: string, lower: string)
    requires IsLowerCaseOf(name, lower)
    ensures LowerCase(name) == lower
  {
    assert 'A' as int == 65 && 'Z' as int == 90 && 'a' as int == 97;
  }

  lemma VariantPrefix(lower: string, core: string)
    ensures HasVariantPrefix(lower) && core == lower[6..] <==> lower == "lib32-" + core || lower == "lib64-" + core
    ensures HasVariantPrefix(lower) <==> "lib32-" <= lower || "lib64-" <= lower
  {
    PrefixFits(lower);
    if lower == "lib32-" + core || lower == "lib64-" + core {
      assert lower[..6] == "lib32-" || lower[..6] == "lib64-";
      assert lower[6..] == core;
    }
  }

  /** One architecture prefix is taken off a name, whatever the case of its letters. */
  lemma CoreIff(name: string, lower: string, core: string)
    requires IsLowerCaseOf(name, lower)
    ensures Core(name) == core <==>
      || lower == "lib32-" + core
      || lower == "lib64-" + core
      || (lower == core && !("lib32-" <= lower) && !("lib64-" <= lower))
  {
    LowerCaseUnique(name, lower);
    VariantPrefix(lower, core);
    hide LowerCase, HasVariantPrefix;
    assert |NAME_PREFIXES[0]| == 6;
  }

  predicate AreSuffixes(parts: seq<string>) {
    forall i :: 0 <= i < |parts| ==> parts[i] in NAME_SUFFIXES
  }

  /** `normal` is what is left of `s` once variant suffixes cannot be taken off any more. */
  ghost predicate IsStripped(s: string, normal: string) {
    !HasVariantSuffix(normal) && exists parts :: AreSuffixes(parts) && s == normal + Concat(parts)
  }

  ghost predicate IsNormalForm(name: string, normal: string) {
    IsStripped(Core(name), normal)
  }

  /** The last two characters tell the variant suffixes apart. */
  lemma SuffixEnding(x: string)
    requires x in NAME_SUFFIXES
    ensures |x| >= 3 && x[0] == '-'
    ensures x == match x[|x| - 2..]
                 case "it" => "-git"
                 case "vn" => "-svn"
                 case "zr" => "-bzr"
                 case "in" => "-bin"
                 case _ => "-hg"
  {
  }

  /** No variant suffix ends another one, so the last suffix of a string is unambiguous. */
  lemma SuffixUnambiguous(s: string, x: string, y: string)
    requires x in NAME_SUFFIXES && y in NAME_SUFFIXES && EndsWith(s, x) && EndsWith(s, y)
    ensures x == y
  {
    SuffixEnding(x);
    SuffixEnding(y);
    assert x[|x| - 2..] == s[|s| - 2..] == y[|y| - 2..];
  }

  /** A string that ends in suffixes loses the last one of them. */
  lemma WithoutLast(s: string, n: string, parts: seq<string>, front: seq<string>, x: string)
    requires parts == front + [x] && s == n + Concat(parts)
    ensures EndsWith(s, x) && |x| <= |s| && s[..|s| - |x|] == n + Concat(front)
  {
    hide Concat, EndsWith;
    ConcatBoth(front, [x]);
    ConcatOne(x);
    EndsWithLast(n, Concat(front), x);
  }

  lemma FrontAreSuffixes(parts: seq<string>)
    requires parts != [] && AreSuffixes(parts)
    ensures parts[|parts| - 1] in NAME_SUFFIXES && AreSuffixes(parts[..|parts| - 1])
    ensures parts == parts[..|parts| - 1] + [parts[|parts| - 1]]
  {
  }

  lemma EndsWithLast(n: string, middle: string, x: string)
    ensures EndsWith(n + (middle + x), x)
    ensures (n + (middle + x))[..|n + (middle + x)| - |x|] == n + middle
  {
  }

  lemma {:induction false} StrippedUnique(s: string, n: string, m: string)
    requires IsStripped(s, n) && IsStripped(s, m)
    ensures n == m
    decreases |s|
  {
    var p :| AreSuffixes(p) && s == n + Concat(p);
    var q :| AreSuffixes(q) && s == m + Concat(q);
    assert Concat([]) == "" && n + "" == n && m + "" == m;
    hide Concat, EndsWith;
    if p != [] {
      FrontAreSuffixes(p);
      WithoutLast(s, n, p, p[..|p| - 1], p[|p| - 1]);
    }
    if q != [] {
      FrontAreSuffixes(q);
      WithoutLast(s, m, q, q[..|q| - 1], q[|q| - 1]);
    }
    if p != [] && q != [] {
      var x := p[|p| - 1];
      SuffixUnambiguous(s, x, q[|q| - 1]);
      SuffixEnding(x);
      StrippedUnique(s[..|s| - |x|], n, m);
    }
  }

  lemma JoinFirst(s: string, suffix: string, parts: seq<string>)
    requires EndsWith(s, suffix)
    ensures |suffix| <= |s| && s + Concat(parts) == s[..|s| - |suffix|] + Concat([suffix] + parts)
  {
    assert ([suffix] + parts)[1..] == parts;
    assert s == s[..|s| - |suffix|] + suffix;
  }

  lemma PrefixFound(name: string, p: nat)
    requires p < |NAME_PREFIXES| && StartsWith(LowerCase(name), NAME_PREFIXES[p])
    ensures Core(name) == LowerCase(name)[|NAME_PREFIXES[p]|..]
  {
    assert NAME_PREFIXES[p] in NAME_PREFIXES;
  }

  lemma PrefixMissing(name: string)
    requires forall p :: 0 <= p < |NAME_PREFIXES| ==> !StartsWith(LowerCase(name), NAME_PREFIXES[p])
    ensures Core(name) == LowerCase(name)
  {
  }

  /** What is left without a suffix is the normal form, the only one. */
  lemma StrippedIsNormal(name: string, normalized: string, parts: seq<string>)
    requires AreSuffixes(parts) && Core(name) == normalized + Concat(parts)
    requires forall k :: 0 <= k < |NAME_SUFFIXES| ==> !EndsWith(normalized, NAME_SUFFIXES[k])
    ensures IsNormalForm(name, normalized)
    ensures forall other :: IsNormalForm(name, other) ==> other == normalized
  {
    hide Core, Concat, EndsWith, AreSuffixes;
    forall other | IsNormalForm(name, other)
      ensures other == normalized
    {
      StrippedUnique(Core(name), other, normalized);
    }
  }

  lemma SuffixJoins(parts: seq<string>, suffix: string)
    requires AreSuffixes(parts) && suffix in NAME_SUFFIXES
    ensures AreSuffixes([suffix] + parts)
  {
  }

  /** Taking off one suffix at a time ends in the normal form, which is unique. */
  method NormalizePackageName(name: string) returns (normalized: string)
    ensures IsNormalForm(name, normalized)
    ensures forall other :: IsNormalForm(name, other) ==> other == normalized
  {
    hide Core, Concat, IsNormalForm, AreSuffixes, EndsWith;
    normalized := LowerCase(name);
    var p := 0;
    while p < |NAME_PREFIXES|
      invariant 0 <= p <= |NAME_PREFIXES| && normalized == LowerCase(name)
      invariant forall i :: 0 <= i < p ==> !StartsWith(LowerCase(name), NAME_PREFIXES[i])
    {
      if StartsWith(normalized, NAME_PREFIXES[p]) {
        PrefixFound(name, p);
        normalized := normalized[|NAME_PREFIXES[p]|..];
        break;
      }
      p := p + 1;
    }
    if p == |NAME_PREFIXES| { PrefixMissing(name); }
    assert normalized == Core(name);
    hide LowerCase, StartsWith;

    ghost var parts: seq<string> := [];
    NoParts(normalized);
    var strippedSuffix := true;
    while strippedSuffix
      invariant AreSuffixes(parts) && Core(name) == normalized + Concat(parts)
      invariant !strippedSuffix ==>
        forall k :: 0 <= k < |NAME_SUFFIXES| ==> !EndsWith(normalized, NAME_SUFFIXES[k])
      decreases |normalized|, strippedSuffix
    {
      strippedSuffix := false;
      var i := 0;
      while i < |NAME_SUFFIXES|
        invariant 0 <= i <= |NAME_SUFFIXES| && !strippedSuffix
        invariant forall k :: 0 <= k < i ==> !EndsWith(normalized, NAME_SUFFIXES[k])
      {
        var suffix := NAME_SUFFIXES[i];
        if EndsWith(normalized, suffix) {
          JoinFirst(normalized, suffix, parts);
          SuffixJoins(parts, suffix);
          normalized := normalized[..|normalized| - |suffix|];
          parts := [suffix] + parts;
          strippedSuffix := true;
          break;
        }
        i := i + 1;
      }
    }
    StrippedIsNormal(name, normalized, parts);
  }

  lemma NoParts(s: string)
    ensures s + Concat([]) == s && AreSuffixes([])
  {
  }

  // ----- Variant suffixes do not change the normal form -----

  lemma {:induction false} LowerCaseConcat(parts: seq<string>)
    requires AreSuffixes(parts)
    ensures LowerCase(Concat(parts)) == Concat(parts)
    ensures parts != [] ==> Concat(parts) != "" && Concat(parts)[0] == '-'
  {
    if parts != [] {
      LowerCaseConcat(parts[1..]);
    }
  }

  lemma LowerCaseAppend(s: string, t: string)
    ensures LowerCase(s + t) == LowerCase(s) + LowerCase(t)
  {
  }

  /** Text that starts with a dash completes a prefix only when exactly the dash is missing. */
  lemma StartsWithAppend(s: string, tail: string, p: string)
    requires tail == "" || tail[0] == '-'
    requires |p| == 6 && '-' !in p[..5] && p[5] == '-'
    requires tail == "" || s != p[..5]
    ensures StartsWith(s + tail, p) <==> StartsWith(s, p)
  {
    var all := s + tail;
    if |s| >= |p| {
      assert all[..|p|] == s[..|p|];
    } else if tail != "" && |all| >= |p| {
      if |s| < 5 {
        assert p[|s|] in p[..5] && all[..|p|][|s|] == '-';
      } else {
        assert all[..|p|][..5] == s;
      }
    }
  }

  /** Appending variant suffixes leaves the prefix alone unless it completes one. */
  lemma CoreAppend(name: string, parts: seq<string>)
    requires AreSuffixes(parts)
    requires parts == [] || LowerCase(name) !in ["lib32", "lib64"]
    ensures Core(name + Concat(parts)) == Core(name) + Concat(parts)
  {
    hide LowerCase, Concat, AreSuffixes;
    if parts == [] {
      NoParts(name);
      NoParts(Core(name));
    } else {
      LowerCaseConcat(parts);
      LowerCaseAppend(name, Concat(parts));
      var lower := LowerCase(name);
      assert "lib32-"[..5] == "lib32" && "lib64-"[..5] == "lib64";
      StartsWithAppend(lower, Concat(parts), "lib32-");
      StartsWithAppend(lower, Concat(parts), "lib64-");
      hide StartsWith;
      PrefixFits(lower);
    }
  }

  lemma PrefixFits(lower: string)
    ensures HasVariantPrefix(lower) <==> StartsWith(lower, "lib32-") || StartsWith(lower, "lib64-")
    ensures HasVariantPrefix(lower) ==> |lower| >= |NAME_PREFIXES[0]|
  {
    assert NAME_PREFIXES[0] == "lib32-" && NAME_PREFIXES[1] == "lib64-";
  }

  lemma SuffixesBoth(first: seq<string>, second: seq<string>)
    requires AreSuffixes(first) && AreSuffixes(second)
    ensures AreSuffixes(first + second)
  {
  }

  lemma StrippedAppend(s: string, n: string, parts: seq<string>)
    requires IsStripped(s, n) && AreSuffixes(parts)
    ensures IsStripped(s + Concat(parts), n)
  {
    hide Concat, AreSuffixes, HasVariantSuffix;
    var p :| AreSuffixes(p) && s == n + Concat(p);
    ConcatBoth(p, parts);
    SuffixesBoth(p, parts);
    assert s + Concat(parts) == n + Concat(p + parts);
  }

  lemma EndsWithTail(s: string, x: string)
    requires |s| >= 2 && |x| >= 2
    ensures EndsWith(s, x) ==> x[|x| - 2..] == s[|s| - 2..]
  {
  }

  lemma BareArchitectureHasNoSuffix(lower: string)
    requires lower == "lib32" || lower == "lib64"
    ensures !HasVariantSuffix(lower)
  {
    assert lower[3..] == "32" || lower[3..] == "64";
    forall x | x in NAME_SUFFIXES
      ensures !EndsWith(lower, x)
    {
      SuffixEnding(x);
      EndsWithTail(lower, x);
    }
  }

  /** A bare `lib32` or `lib64` is its own normal form. */
  lemma BareArchitecture(name: string, n: string)
    requires LowerCase(name) in ["lib32", "lib64"] && IsNormalForm(name, n)
    ensures n == LowerCase(name)
  {
    hide LowerCase, HasVariantSuffix;
    var lower := LowerCase(name);
    BareArchitectureHasNoSuffix(lower);
    assert |lower| == 5;
    assert Core(name) == lower;
    assert lower + Concat([]) == lower && AreSuffixes([]);
    StrippedUnique(lower, n, lower);
  }

  lemma DashCompletesPrefix(lower: string, suffix: string, tail: string)
    requires lower == "lib32" || lower == "lib64"
    requires suffix != "" && suffix[0] == '-'
    ensures HasVariantPrefix(lower + (suffix + tail)) && (lower + (suffix + tail))[6..] == suffix[1..] + tail
  {
    var all := lower + (suffix + tail);
    assert all[..6] == lower + [suffix[0]];
    assert NAME_PREFIXES[0] == "lib32" + ['-'] && NAME_PREFIXES[1] == "lib64" + ['-'];
    assert StartsWith(all, NAME_PREFIXES[0]) || StartsWith(all, NAME_PREFIXES[1]);
  }

  /** When a suffix completes the prefix, the core is what follows its dash. */
  lemma CompletedCore(name: string, parts: seq<string>)
    requires parts != [] && AreSuffixes(parts) && LowerCase(name) in ["lib32", "lib64"]
    ensures Core(name + Concat(parts)) == parts[0][1..] + Concat(parts[1..])
  {
    LowerCaseConcat(parts);
    LowerCaseAppend(name, Concat(parts));
    SuffixEnding(parts[0]);
    hide LowerCase, HasVariantPrefix;
    DashCompletesPrefix(LowerCase(name), parts[0], Concat(parts[1..]));
  }

  /** Without the dash the name is too short for a prefix, with it the prefix is there. */
  lemma PrefixCompleted(name: string, parts: seq<string>)
    requires parts != [] && AreSuffixes(parts) && LowerCase(name) in ["lib32", "lib64"]
    ensures !HasVariantPrefix(LowerCase(name)) && HasVariantPrefix(LowerCase(name + Concat(parts)))
  {
    LowerCaseConcat(parts);
    LowerCaseAppend(name, Concat(parts));
    SuffixEnding(parts[0]);
    PrefixFits(LowerCase(name));
    assert |LowerCase(name)| == 5 && |NAME_PREFIXES[0]| == 6;
    hide LowerCase, HasVariantPrefix;
    DashCompletesPrefix(LowerCase(name), parts[0], Concat(parts[1..]));
  }

  /** When the suffix completes a prefix, the normal form starts with the suffix's own text. */
  lemma CompletedPrefix(name: string, parts: seq<string>, n: string)
    requires parts != [] && AreSuffixes(parts) && LowerCase(name) in ["lib32", "lib64"]
    requires IsNormalForm(name, n)
    ensures !HasVariantPrefix(LowerCase(name)) && HasVariantPrefix(LowerCase(name + Concat(parts)))
    ensures Core(name + Concat(parts)) == parts[0][1..] + Concat(parts[1..])
    ensures !IsNormalForm(name + Concat(parts), n)
  {
    PrefixCompleted(name, parts);
    BareArchitecture(name, n);
    CompletedCore(name, parts);
    SuffixEnding(parts[0]);
    var rest := parts[0][1..] + Concat(parts[1..]);
    assert rest[0] == parts[0][1] != 'l' == n[0];
  }

  /**
   * Variant suffixes leave the normal form alone for every name that is not, in
   * lower case, exactly `lib32` or `lib64`; for those two they change it.
   */
  lemma SuffixesKeepNormalForm(name: string, parts: seq<string>, n: string)
    requires AreSuffixes(parts) && IsNormalForm(name, n)
    ensures IsNormalForm(name + Concat(parts), n) <==> parts == [] || LowerCase(name) !in ["lib32", "lib64"]
  {
    if parts == [] || LowerCase(name) !in ["lib32", "lib64"] {
      CoreAppend(name, parts);
      StrippedAppend(Core(name), n, parts);
    } else {
      CompletedPrefix(name, parts, n);
    }
  }

  // ----- The closest known name -----

  datatype TyposquatMatch = TyposquatMatch(knownName: string, distance: nat)

  function MaxDistance(normalized: string, knownNormalized: string): nat {
    if Min(|normalized|, |knownNormalized|) < LONG_NAME_MIN_LENGTH
    then SHORT_NAME_MAX_DISTANCE
    else LONG_NAME_MAX_DISTANCE
  }

  /** `known` resembles `name` at edit distance `d`, within the bound for the lengths of their normal forms. */
  ghost predicate Resembles(name: string, known: string, d: nat) {
    exists n, k ::
      && IsNormalForm(name, n) && IsNormalForm(known, k)
      && k != n && k != []
      && d <= MaxDistance(n, k) && IsDistance(n, k, d)
  }

  lemma ResemblesFor(name: string, known: string, n: string, k: string)
    requires IsNormalForm(name, n) && IsNormalForm(known, k)
    ensures forall d: nat :: Resembles(name, known, d) <==>
      k != n && k != [] && d <= MaxDistance(n, k) && IsDistance(n, k, d)
  {
    forall d: nat | Resembles(name, known, d)
      ensures k != n && k != [] && d <= MaxDistance(n, k) && IsDistance(n, k, d)
    {
      var n', k' :|
        && IsNormalForm(name, n') && IsNormalForm(known, k')
        && k' != n' && k' != []
        && d <= MaxDistance(n', k') && IsDistance(n', k', d);
      StrippedUnique(Core(name), n, n');
      StrippedUnique(Core(known), k, k');
    }
  }

  /** Names whose normal forms both have eight characters or more may differ by two edits, others by one. */
  lemma ResemblesIff(name: string, known: string, n: string, k: string, d: nat)
    requires IsNormalForm(name, n) && IsNormalForm(known, k)
    ensures Resembles(name, known, d) <==>
      n != k && k != "" && IsDistance(n, k, d) && (d <= 1 || (d == 2 && |n| >= 8 && |k| >= 8))
  {
    ResemblesFor(name, known, n, k);
    hide Resembles, IsDistance, IsNormalForm;
  }

  /** `best` is the first name of `names` resembling `name` at the least distance any of them has. */
  ghost predicate IsClosest(name: string, names: seq<string>, best: Option<TyposquatMatch>) {
    match best
    case None => forall i, d: nat :: 0 <= i < |names| ==> !Resembles(name, names[i], d)
    case Some(m) => exists at :: IsClosestAt(name, names, m, at)
  }

  ghost predicate IsClosestAt(name: string, names: seq<string>, m: TyposquatMatch, at: int) {
    && 0 <= at < |names| && names[at] == m.knownName && Resembles(name, names[at], m.distance)
    && (forall i, d: nat :: 0 <= i < |names| && Resembles(name, names[i], d) ==> m.distance <= d)
    && (forall i, d: nat :: 0 <= i < at && Resembles(name, names[i], d) ==> m.distance < d)
  }

  /** `distance` is the only distance at which `known` resembles `name`, if there is one. */
  ghost predicate ResemblesOnlyAt(name: string, known: string, distance: Option<nat>) {
    forall d: nat :: Resembles(name, known, d) <==> distance == Some(d)
  }

  lemma ClosestOfNone(name: string)
    ensures IsClosest(name, [], None)
  {
  }

  /** A further name replaces the best one exactly when it is strictly closer. */
  lemma ClosestExtend(name: string, names: seq<string>, best: Option<TyposquatMatch>, known: string,
                      distance: Option<nat>)
    requires IsClosest(name, names, best) && ResemblesOnlyAt(name, known, distance)
    ensures
      if distance.Some? && (best.None? || best.value.distance > distance.value)
      then IsClosest(name, names + [known], Some(TyposquatMatch(known, distance.value)))
      else IsClosest(name, names + [known], best)
  {
    hide Resembles;
    var all := names + [known];
    assert forall i :: 0 <= i < |names| ==> all[i] == names[i];
    if distance.Some? && (best.None? || best.value.distance > distance.value) {
      assert IsClosestAt(name, all, TyposquatMatch(known, distance.value), |names|);
    } else if best.Some? {
      var at :| IsClosestAt(name, names, best.value, at);
      assert IsClosestAt(name, all, best.value, at);
    }
  }

  /** Searches the known names in their iteration order. */
  method ClosestKnownName(pkgName: string, knownNames: seq<string>) returns (best: Option<TyposquatMatch>)
    ensures IsClosest(pkgName, knownNames, best)
  {
    hide IsClosest, Resembles, IsNormalForm, IsDistance;
    var normalized := NormalizePackageName(pkgName);
    best := None;
    ClosestOfNone(pkgName);
    var i := 0;
    while i < |knownNames|
      invariant 0 <= i <= |knownNames|
      invariant IsClosest(pkgName, knownNames[..i], best)
    {
      var knownName := knownNames[i];
      var knownNormalized := NormalizePackageName(knownName);
      ResemblesFor(pkgName, knownName, normalized, knownNormalized);
      assert knownNames[..i + 1] == knownNames[..i] + [knownName];
      if knownNormalized == normalized || |knownNormalized| == 0 {
        ClosestExtend(pkgName, knownNames[..i], best, knownName, None);
      } else {
        var maxDistance := MaxDistance(normalized, knownNormalized);
        var distance := BoundedEditDistance(normalized, knownNormalized, maxDistance);
        LevenshteinIsDistance(normalized, knownNormalized);
        ClosestExtend(pkgName, knownNames[..i], best, knownName, distance);
        if distance.Some? && (best.None? || best.value.distance > distance.value) {
          best := Some(TyposquatMatch(knownName, distance.value));
        }
      }
      i := i + 1;
    }
    assert knownNames[..i] == knownNames;
  }
}
