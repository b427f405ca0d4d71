/**
 * The scan of a `.SRCINFO` for dependencies that are missing locally, with the
 * depth-first walk through the AUR dependencies of the missing ones.
 *
 * Presence and the AUR are fixed functions of the package name during one scan.
 * The AUR is a finite map, possibly with cycles.
 */
module DependencyScan {
  import opened Wrappers

  // ----- Dependency names -----

  predicate IsSpace(c: char) {
    c == ' ' || '\t' <= c <= '\r' || c == '\U{A0}' || c == '\U{FEFF}' || c == '\U{1680}'
    || '\U{2000}' <= c <= '\U{200A}'
    || c == '\U{2028}' || c == '\U{2029}' || c == '\U{202F}' || c == '\U{205F}' || c == '\U{3000}'
  }

  function TrimStart(s: string): string {
    if s != [] && IsSpace(s[0]) then TrimStart(s[1..]) else s
  }

  function TrimEnd(s: string): string {
    if s != [] && IsSpace(s[|s| - 1]) then TrimEnd(s[..|s| - 1]) else s
  }

  function UpToFirst(s: string, stops: set<char>): string {
    if s == [] || s[0] in stops then [] else [s[0]] + UpToFirst(s[1..], stops)
  }

  /** `name: description` and `name>=1.2` both name `name`. */
  function CleanDepName(raw: string): string {
    TrimEnd(TrimStart(UpToFirst(UpToFirst(raw, {':'}), {'<', '>', '='})))
  }

  predicate IsDepNameChar(c: char) {
    'a' <= c <= 'z' || 'A' <= c <= 'Z' || '0' <= c <= '9' || c in {'@', '.', '_', '+', '-'}
  }

  predicate IsDepName(s: string) {
    s != [] && forall c | c in s :: IsDepNameChar(c)
  }

  ghost predicate AreSpaces(s: string) {
    forall c :: c in s ==> IsSpace(c)
  }

  /** A name between spaces, up to the end of the entry, a description or a version constraint. */
  ghost predicate IsCut(entry: string, before: string, name: string, after: string, rest: string) {
    && entry == before + name + after + rest && AreSpaces(before) && AreSpaces(after)
    && (rest == [] || rest[0] in {':', '<', '>', '='})
  }

  ghost predicate Names(entry: string, name: string) {
    IsDepName(name) && exists before, after, rest :: IsCut(entry, before, name, after, rest)
  }

  lemma {:induction false} UpToFirstIs(s: string, stops: set<char>)
    ensures UpToFirst(s, stops) <= s && forall c :: c in UpToFirst(s, stops) ==> c !in stops
    ensures |UpToFirst(s, stops)| < |s| ==> s[|UpToFirst(s, stops)|] in stops
  {
    if s != [] && s[0] !in stops {
      UpToFirstIs(s[1..], stops);
      assert s == [s[0]] + s[1..];
    }
  }

  lemma {:induction false} UpToFirstBehind(s: string, rest: string, stops: set<char>)
    requires forall c :: c in s ==> c !in stops
    ensures UpToFirst(s + rest, stops) == s + UpToFirst(rest, stops)
  {
    if s == [] {
      assert s + rest == rest;
    } else {
      assert (s + rest)[1..] == s[1..] + rest && s == [s[0]] + s[1..];
      UpToFirstBehind(s[1..], rest, stops);
    }
  }

  lemma {:induction false} TrimStartIs(s: string) returns (before: string)
    ensures s == before + TrimStart(s) && AreSpaces(before)
  {
    if s != [] && IsSpace(s[0]) {
      var rest := TrimStartIs(s[1..]);
      before := [s[0]] + rest;
    } else {
      before := [];
    }
  }

  lemma {:induction false} TrimEndIs(s: string) returns (after: string)
    ensures s == TrimEnd(s) + after && AreSpaces(after)
  {
    if s != [] && IsSpace(s[|s| - 1]) {
      var rest := TrimEndIs(s[..|s| - 1]);
      after := rest + [s[|s| - 1]];
    } else {
      after := [];
    }
  }

  lemma {:induction false} TrimStartOf(before: string, s: string)
    requires AreSpaces(before) && s != [] && !IsSpace(s[0])
    ensures TrimStart(before + s) == s
  {
    if before == [] {
      assert before + s == s;
    } else {
      assert (before + s)[1..] == before[1..] + s && before[0] in before;
      assert forall c :: c in before[1..] ==> c in before;
      TrimStartOf(before[1..], s);
    }
  }

  lemma {:induction false} TrimEndOf(s: string, after: string)
    requires AreSpaces(after) && s != [] && !IsSpace(s[|s| - 1])
    ensures TrimEnd(s + after) == s
  {
    if after == [] {
      assert s + after == s;
    } else {
      var n := |after| - 1;
      assert (s + after)[..|s| + n] == s + after[..n] && after[n] in after;
      assert forall c :: c in after[..n] ==> c in after;
      TrimEndOf(s, after[..n]);
    }
  }

  /** The text of an entry up to its end, a description or a version constraint. */
  lemma HeadOf(entry: string) returns (rest: string)
    ensures entry == UpToFirst(UpToFirst(entry, {':'}), {'<', '>', '='}) + rest
    ensures rest == [] || rest[0] in {':', '<', '>', '='}
  {
    var line := UpToFirst(entry, {':'});
    var head := UpToFirst(line, {'<', '>', '='});
    UpToFirstIs(entry, {':'});
    UpToFirstIs(line, {'<', '>', '='});
    hide UpToFirst;
    rest := entry[|head|..];
    assert entry[..|line|] == line && line[..|head|] == head;
    if |head| < |line| { assert rest[0] == line[|head|]; }
  }

  lemma HeadIs(head: string, rest: string)
    requires forall c :: c in head ==> c !in {':', '<', '>', '='}
    requires rest == [] || rest[0] in {':', '<', '>', '='}
    ensures UpToFirst(UpToFirst(head + rest, {':'}), {'<', '>', '='}) == head
  {
    UpToFirstBehind(head, rest, {':'});
    UpToFirstBehind(head, UpToFirst(rest, {':'}), {'<', '>', '='});
  }

  lemma CleanedIsNamed(entry: string)
    requires IsDepName(CleanDepName(entry))
    ensures Names(entry, CleanDepName(entry))
  {
    hide UpToFirst, TrimStart, TrimEnd;
    var rest := HeadOf(entry);
    var head := UpToFirst(UpToFirst(entry, {':'}), {'<', '>', '='});
    var before := TrimStartIs(head);
    var after := TrimEndIs(TrimStart(head));
    var name := CleanDepName(entry);
    assert head == before + name + after by { assert before + (name + after) == before + name + after; }
    assert IsCut(entry, before, name, after, rest);
  }

  lemma HasNoStops(before: string, name: string, after: string)
    requires AreSpaces(before) && AreSpaces(after) && IsDepName(name)
    ensures forall c :: c in before + name + after ==> c !in {':', '<', '>', '='}
    ensures !IsSpace(name[0]) && !IsSpace(name[|name| - 1])
  {
    assert name[0] in name && name[|name| - 1] in name;
    forall c | c in before + name + after
      ensures c !in {':', '<', '>', '='}
    {
      assert c in before || c in name || c in after;
    }
  }

  lemma NamedIsCleaned(before: string, name: string, after: string, rest: string)
    requires AreSpaces(before) && AreSpaces(after) && IsDepName(name)
    requires rest == [] || rest[0] in {':', '<', '>', '='}
    ensures CleanDepName(before + name + after + rest) == name
  {
    HasNoStops(before, name, after);
    hide UpToFirst, TrimStart, TrimEnd, IsDepName, AreSpaces, IsSpace;
    HeadIs(before + name + after, rest);
    assert before + name + after == before + (name + after);
    NotEmpty(name);
    assert (name + after)[0] == name[0];
    TrimStartOf(before, name + after);
    TrimEndOf(name, after);
  }

  lemma NotEmpty(name: string)
    requires IsDepName(name)
    ensures name != []
  {
  }

  /** A cleaned entry that is a name is the one the entry names, and every named one is found. */
  lemma CleanDepNameIff(entry: string, name: string)
    ensures CleanDepName(entry) == name && IsDepName(name) <==> Names(entry, name)
  {
    hide CleanDepName, IsDepName, AreSpaces;
    if IsDepName(CleanDepName(entry)) { CleanedIsNamed(entry); }
    if Names(entry, name) {
      var before, after, rest :| IsCut(entry, before, name, after, rest);
      NamedIsCleaned(before, name, after, rest);
    }
  }

  /** An entry names at most one package. */
  lemma NamesOne(entry: string, name: string, other: string)
    requires Names(entry, name) && Names(entry, other)
    ensures name == other
  {
    CleanDepNameIff(entry, name);
    CleanDepNameIff(entry, other);
  }

  /** The characters of a name by their codes: digits, letters and `+`, `-`, `.`, `@`, `_`. */
  lemma NameCharacters(c: char)
    ensures IsDepNameChar(c) <==>
      var code := c as int;
      48 <= code <= 57 || 65 <= code <= 90 || 97 <= code <= 122 || code in {43, 45, 46, 64, 95}
  {
  }

  /** The characters around a name by their codes: the white space and line ends of ECMAScript. */
  lemma SpaceCharacters(c: char)
    ensures IsSpace(c) <==>
      var code := c as int;
      || 9 <= code <= 13 || 0x2000 <= code <= 0x200A
      || code in {0x20, 0xA0, 0x1680, 0x2028, 0x2029, 0x202F, 0x205F, 0x3000, 0xFEFF}
  {
  }

  // ----- The dependency graph -----

  /** What one scan looks things up in: the AUR's dependency lists and the packages present locally. */
  datatype World = World(aur: map<string, seq<string>>, present: string -> bool)

  ghost predicate DependsOn(w: World, name: string, dep: string) {
    name in w.aur && exists entry :: entry in w.aur[name] && Names(entry, dep)
  }

  /** `path` goes from dependent to dependency through missing packages only. */
  ghost predicate IsMissingPath(w: World, path: seq<string>) {
    && path != []
    && (forall i :: 0 <= i < |path| ==> !w.present(path[i]))
    && (forall i :: 0 < i < |path| ==> DependsOn(w, path[i - 1], path[i]))
  }

  ghost predicate IsSimple(path: seq<string>) {
    forall i, j :: 0 <= i < j < |path| ==> path[i] != path[j]
  }

  // ----- Findings -----

  /** A finding names the missing dependency; a transitive one carries the chain leading to it. */
  datatype Finding = Finding(dep: string, chain: seq<string>, line: nat)

  datatype DirectDep = DirectDep(name: string, line: nat)

  ghost predicate Reported(fs: seq<Finding>, name: string) {
    exists i :: 0 <= i < |fs| && fs[i].dep == name
  }

  /** A name that needs no further report; `skipped` are the direct dependencies the source provides itself. */
  ghost predicate Settled(w: World, fs: seq<Finding>, skipped: set<string>, name: string) {
    w.present(name) || Reported(fs, name) || name in skipped
  }

  /** Every valid dependency of `name` is settled. */
  ghost predicate Closed(w: World, fs: seq<Finding>, skipped: set<string>, name: string) {
    forall dep :: DependsOn(w, name, dep) ==> Settled(w, fs, skipped, dep)
  }

  ghost predicate NoDuplicates(fs: seq<Finding>) {
    forall i, j :: 0 <= i < j < |fs| ==> fs[i].dep != fs[j].dep
  }

  /** Each finding's chain and its dependency form a simple path of missing packages. */
  ghost predicate ChainsHold(w: World, fs: seq<Finding>) {
    forall f :: f in fs ==> IsMissingPath(w, f.chain + [f.dep]) && IsSimple(f.chain + [f.dep])
  }

  /**
   * Holds throughout a scan: the visited names are settled, and the reported ones are
   * visited, except for the names in `open`, which are about to be visited again.
   */
  ghost predicate Consistent(w: World, checked: set<string>, fs: seq<Finding>, skipped: set<string>,
                             open: set<string>)
  {
    && NoDuplicates(fs)
    && ChainsHold(w, fs)
    && (forall name :: Reported(fs, name) ==> name in checked || name in open)
    && (forall name :: name in checked ==> Settled(w, fs, skipped, name))
  }

  /** The findings from index `from` on are closed, belong to `line`, and were reached through `path`. */
  ghost predicate ReportedBelow(w: World, fs: seq<Finding>, skipped: set<string>, from: nat,
                                path: seq<string>, line: nat)
  {
    from <= |fs| && forall i :: from <= i < |fs| ==>
      Closed(w, fs, skipped, fs[i].dep) && fs[i].line == line && path <= fs[i].chain
  }

  /** Apart from `path`, the findings from index `from` on and their chains name nothing already `known`. */
  ghost predicate NewBelow(fs: seq<Finding>, from: nat, path: seq<string>, known: set<string>) {
    forall i, n :: from <= i < |fs| && n in fs[i].chain + [fs[i].dep] ==> n in path || n !in known
  }

  /** The valid names among the first `n` entries of a dependency list are settled. */
  ghost predicate SettledUpTo(w: World, fs: seq<Finding>, skipped: set<string>, deps: seq<string>, n: nat) {
    n <= |deps| && forall k :: 0 <= k < n && IsDepName(CleanDepName(deps[k])) ==>
      Settled(w, fs, skipped, CleanDepName(deps[k]))
  }

  // ----- How the steps of the walk keep these -----

  lemma MarkReported(w: World, checked: set<string>, fs: seq<Finding>, skipped: set<string>, name: string)
    requires Consistent(w, checked, fs, skipped, {name}) && Reported(fs, name)
    ensures Consistent(w, checked + {name}, fs, skipped, {})
  {
  }

  lemma MarkSettled(w: World, checked: set<string>, fs: seq<Finding>, skipped: set<string>, name: string)
    requires Consistent(w, checked, fs, skipped, {}) && Settled(w, fs, skipped, name)
    ensures Consistent(w, checked + {name}, fs, skipped, {})
  {
  }

  lemma SettledMonotone(w: World, fs: seq<Finding>, fs': seq<Finding>, skipped: set<string>, skipped': set<string>)
    requires fs <= fs' && skipped <= skipped'
    ensures forall name :: Settled(w, fs, skipped, name) ==> Settled(w, fs', skipped', name)
    ensures forall name :: Closed(w, fs, skipped, name) ==> Closed(w, fs', skipped', name)
  {
    forall name | Settled(w, fs, skipped, name)
      ensures Settled(w, fs', skipped', name)
    {
      if Reported(fs, name) {
        var i :| 0 <= i < |fs| && fs[i].dep == name;
        assert fs'[i].dep == name;
      }
    }
  }

  lemma SimpleExtend(path: seq<string>, name: string)
    requires IsSimple(path) && name !in path
    ensures IsSimple(path + [name])
  {
  }

  lemma MissingPathExtend(w: World, path: seq<string>, dep: string)
    requires IsMissingPath(w, path) && DependsOn(w, path[|path| - 1], dep) && !w.present(dep)
    ensures IsMissingPath(w, path + [dep])
  {
  }

  /** A missing dependency that was not visited yet is reported once, at the end of a simple path. */
  lemma ReportMissing(w: World, checked: set<string>, fs: seq<Finding>, skipped: set<string>, f: Finding)
    requires Consistent(w, checked, fs, skipped, {}) && f.dep !in checked
    requires IsMissingPath(w, f.chain + [f.dep]) && IsSimple(f.chain + [f.dep])
    ensures Consistent(w, checked, fs + [f], skipped, {f.dep}) && Reported(fs + [f], f.dep)
  {
    var fs' := fs + [f];
    SettledMonotone(w, fs, fs', skipped, skipped);
    assert fs'[|fs|] == f;
    forall name | Reported(fs', name) && name != f.dep
      ensures name in checked
    {
      var i :| 0 <= i < |fs'| && fs'[i].dep == name;
      assert fs[i].dep == name && Reported(fs, name);
    }
    forall i | 0 <= i < |fs|
      ensures fs[i].dep != f.dep
    {
      assert Reported(fs, fs[i].dep);
    }
  }

  /** What was settled or reported before a nested walk stays so after it. */
  lemma AfterNestedWalk(w: World, fs: seq<Finding>, fs': seq<Finding>, skipped: set<string>,
                        from: nat, path: seq<string>, line: nat, f: Finding, deps: seq<string>, n: nat)
    requires ReportedBelow(w, fs, skipped, from, path, line) && SettledUpTo(w, fs, skipped, deps, n)
    requires f.chain == path && f.line == line && fs + [f] <= fs'
    requires Closed(w, fs', skipped, f.dep) && ReportedBelow(w, fs', skipped, |fs| + 1, path + [f.dep], line)
    requires n < |deps| && CleanDepName(deps[n]) == f.dep
    ensures ReportedBelow(w, fs', skipped, from, path, line) && SettledUpTo(w, fs', skipped, deps, n + 1)
  {
    SettledMonotone(w, fs, fs', skipped, skipped);
    assert fs'[|fs|] == f;
    forall i | from <= i < |fs'|
      ensures Closed(w, fs', skipped, fs'[i].dep) && fs'[i].line == line && path <= fs'[i].chain
    {
      if i < |fs| {
        assert fs'[i] == fs[i];
      } else if i > |fs| {
        assert path + [f.dep] <= fs'[i].chain;
        assert path <= path + [f.dep];
      }
    }
    assert Settled(w, fs', skipped, f.dep);
  }

  lemma AllSettledCloses(w: World, fs: seq<Finding>, skipped: set<string>, name: string)
    requires name in w.aur ==> SettledUpTo(w, fs, skipped, w.aur[name], |w.aur[name]|)
    ensures Closed(w, fs, skipped, name)
  {
    forall dep | DependsOn(w, name, dep)
      ensures Settled(w, fs, skipped, dep)
    {
      var k: nat :| k < |w.aur[name]| && Names(w.aur[name][k], dep);
      CleanDepNameIff(w.aur[name][k], dep);
      hide CleanDepName, Names, Settled;
    }
  }

  // ----- What a whole scan reports -----

  ghost predicate AllClosed(w: World, fs: seq<Finding>, skipped: set<string>) {
    forall name :: Reported(fs, name) ==> Closed(w, fs, skipped, name)
  }

  /** One of the first `n` lines lists the name. */
  ghost predicate IsListed(entries: seq<Option<DirectDep>>, n: nat, name: string)
    requires n <= |entries|
  {
    exists k :: 0 <= k < n && entries[k].Some? && entries[k].value.name == name
  }

  /**
   * A path of missing packages from the dependency on line `i` to `name`. The source does not
   * provide the listed one itself, and a further name on the path may be self-provided as long
   * as no earlier line lists it.
   */
  ghost predicate LeadsFrom(w: World, entries: seq<Option<DirectDep>>, selfProvided: set<string>,
                            i: nat, path: seq<string>, name: string)
  {
    && i < |entries| && entries[i].Some?
    && IsMissingPath(w, path) && path[0] == entries[i].value.name && path[|path| - 1] == name
    && path[0] !in selfProvided
    && forall n :: n in path ==> !(n in selfProvided && IsListed(entries, i, n))
  }

  /** The names a scan that follows the AUR reports. */
  ghost predicate IsReachable(w: World, entries: seq<Option<DirectDep>>, selfProvided: set<string>, name: string) {
    exists i: nat, path :: LeadsFrom(w, entries, selfProvided, i, path, name)
  }

  /** The finding's chain leads to it from a line before line `n`, which is the finding's line. */
  ghost predicate IsRooted(w: World, entries: seq<Option<DirectDep>>, selfProvided: set<string>, n: nat, f: Finding) {
    exists i: nat :: && LeadsFrom(w, entries, selfProvided, i, f.chain + [f.dep], f.dep)
                     && i < n && entries[i].value.line == f.line
  }

  ghost predicate AllRooted(w: World, entries: seq<Option<DirectDep>>, selfProvided: set<string>, n: nat,
                            fs: seq<Finding>)
  {
    forall f :: f in fs ==> IsRooted(w, entries, selfProvided, n, f)
  }

  /** Every listed dependency among the first `n` lines is settled. */
  ghost predicate DirectSettled(w: World, fs: seq<Finding>, skipped: set<string>,
                                entries: seq<Option<DirectDep>>, n: nat)
  {
    n <= |entries| && forall i :: 0 <= i < n && entries[i].Some? ==> Settled(w, fs, skipped, entries[i].value.name)
  }

  /** Only listed dependencies that the source provides itself are passed over. */
  ghost predicate SkippedOnly(entries: seq<Option<DirectDep>>, n: nat, selfProvided: set<string>, skipped: set<string>)
    requires n <= |entries|
  {
    forall name :: name in skipped ==> name in selfProvided && IsListed(entries, n, name)
  }

  /** Everything that one of the first `n` lines leads to is reported. */
  ghost predicate LinesReported(w: World, entries: seq<Option<DirectDep>>, selfProvided: set<string>, n: nat,
                                fs: seq<Finding>)
  {
    forall i: nat, path, name :: i < n && LeadsFrom(w, entries, selfProvided, i, path, name) ==> Reported(fs, name)
  }

  /** The names on the first `n` lines were visited. */
  ghost predicate ListedChecked(entries: seq<Option<DirectDep>>, n: nat, checked: set<string>)
    requires n <= |entries|
  {
    forall name :: IsListed(entries, n, name) ==> name in checked
  }

  lemma {:induction false} PathIsReported(w: World, fs: seq<Finding>, skipped: set<string>, path: seq<string>)
    requires AllClosed(w, fs, skipped) && IsMissingPath(w, path)
    requires Settled(w, fs, skipped, path[0]) && forall n :: n in path ==> n !in skipped
    ensures Reported(fs, path[|path| - 1])
  {
    if |path| > 1 {
      assert DependsOn(w, path[0], path[1]);
      assert path[0] in path && Reported(fs, path[0]);
      var rest := path[1..];
      assert rest[0] == path[1] && forall n :: n in rest ==> n in path;
      PathIsReported(w, fs, skipped, rest);
    } else {
      assert path[0] in path;
    }
  }

  lemma ListedNext(entries: seq<Option<DirectDep>>, i: nat)
    requires i < |entries|
    ensures forall name :: IsListed(entries, i + 1, name) <==>
      IsListed(entries, i, name) || (entries[i].Some? && entries[i].value.name == name)
  {
    forall name
      ensures IsListed(entries, i + 1, name) <==>
        IsListed(entries, i, name) || (entries[i].Some? && entries[i].value.name == name)
    {
      if IsListed(entries, i, name) {
        var k :| 0 <= k < i && entries[k].Some? && entries[k].value.name == name;
        assert k < i + 1;
      }
    }
  }

  /** Once a line is settled and the reports are closed, everything the line leads to is reported. */
  lemma ReachableIsReported(w: World, fs: seq<Finding>, skipped: set<string>, entries: seq<Option<DirectDep>>,
                            selfProvided: set<string>, i: nat, path: seq<string>, name: string)
    requires LeadsFrom(w, entries, selfProvided, i, path, name)
    requires AllClosed(w, fs, skipped) && Settled(w, fs, skipped, path[0])
    requires SkippedOnly(entries, i + 1, selfProvided, skipped)
    ensures Reported(fs, name)
  {
    ListedNext(entries, i);
    PathIsReported(w, fs, skipped, path);
  }

  /** A scan reports nothing else: each reported name is led to by its own chain. */
  lemma ReportedIsReachable(w: World, fs: seq<Finding>, entries: seq<Option<DirectDep>>, selfProvided: set<string>,
                            n: nat, name: string)
    requires AllRooted(w, entries, selfProvided, n, fs) && Reported(fs, name)
    ensures IsReachable(w, entries, selfProvided, name)
  {
    var i :| 0 <= i < |fs| && fs[i].dep == name;
    assert fs[i] in fs && IsRooted(w, entries, selfProvided, n, fs[i]);
  }

  /** Exactly what the listed dependencies lead to is reported. */
  ghost predicate IsExactScan(w: World, entries: seq<Option<DirectDep>>, selfProvided: set<string>, fs: seq<Finding>) {
    forall name :: Reported(fs, name) <==> IsReachable(w, entries, selfProvided, name)
  }

  /**
   * Line `i` leads through missing packages to a missing package that the source provides and
   * no earlier line lists, with none in between that it provides.
   */
  ghost predicate LeadsToOwn(w: World, entries: seq<Option<DirectDep>>, selfProvided: set<string>,
                             i: nat, path: seq<string>)
  {
    && i < |entries| && entries[i].Some? && IsMissingPath(w, path)
    && |path| > 1 && path[0] == entries[i].value.name
    && (forall k :: 0 <= k < |path| - 1 ==> path[k] !in selfProvided)
    && path[|path| - 1] in selfProvided && !IsListed(entries, i, path[|path| - 1])
  }

  /** A scan reports a package the source provides itself exactly when a line leads to one first. */
  lemma OwnIsReportedIff(w: World, entries: seq<Option<DirectDep>>, selfProvided: set<string>, fs: seq<Finding>)
    requires IsExactScan(w, entries, selfProvided, fs)
    ensures (exists name :: name in selfProvided && Reported(fs, name))
      <==> exists i: nat, path :: LeadsToOwn(w, entries, selfProvided, i, path)
  {
    if name :| name in selfProvided && Reported(fs, name) {
      var i: nat, path :| LeadsFrom(w, entries, selfProvided, i, path, name);
      var n := FirstOwn(selfProvided, path, 0);
      var front := path[..n + 1];
      assert front[|front| - 1] == path[n] && path[n] in path;
      assert LeadsToOwn(w, entries, selfProvided, i, front);
    }
    if i: nat, path :| LeadsToOwn(w, entries, selfProvided, i, path) {
      var name := path[|path| - 1];
      assert LeadsFrom(w, entries, selfProvided, i, path, name);
    }
  }

  lemma FirstOwn(selfProvided: set<string>, path: seq<string>, from: nat) returns (n: nat)
    requires from < |path| && path[|path| - 1] in selfProvided
    requires forall k :: 0 <= k < from ==> path[k] !in selfProvided
    ensures n < |path| && path[n] in selfProvided && forall k :: 0 <= k < n ==> path[k] !in selfProvided
    decreases |path| - from
  {
    if path[from] in selfProvided { n := from; } else { n := FirstOwn(selfProvided, path, from + 1); }
  }

  /** Every scan reports something the source provides itself. */
  ghost predicate ReportsOwn(w: World, entries: seq<Option<DirectDep>>, selfProvided: set<string>) {
    forall fs :: IsExactScan(w, entries, selfProvided, fs) ==> exists name :: name in selfProvided && Reported(fs, name)
  }

  /** The walk does not look at what the source provides, so it can report such a package. */
  lemma OwnPackageReported()
    ensures exists w, entries, selfProvided :: ReportsOwn(w, entries, selfProvided)
  {
    var w := World(map["a" := ["b"], "b" := ["c"]], (name: string) => false);
    var entries, selfProvided := [Some(DirectDep("a", 1))], {"b"};
    BareEntry("b");
    assert w.aur["a"][0] == "b" && DependsOn(w, "a", "b");
    hide Names, DependsOn;
    assert LeadsToOwn(w, entries, selfProvided, 0, ["a", "b"]);
    hide *;
    OwnIsReported(w, entries, selfProvided, 0, ["a", "b"]);
  }

  lemma BareEntry(name: string)
    requires IsDepName(name)
    ensures Names(name, name)
  {
    assert IsCut(name, [], name, [], []);
  }

  lemma OwnIsReported(w: World, entries: seq<Option<DirectDep>>, selfProvided: set<string>, i: nat, path: seq<string>)
    requires LeadsToOwn(w, entries, selfProvided, i, path)
    ensures ReportsOwn(w, entries, selfProvided)
  {
    forall fs | IsExactScan(w, entries, selfProvided, fs)
      ensures exists name :: name in selfProvided && Reported(fs, name)
    {
      OwnIsReportedIff(w, entries, selfProvided, fs);
    }
  }

  // ----- How the lines of the file keep these -----

  lemma AfterRootWalk(w: World, before: seq<Finding>, fs: seq<Finding>, skipped: set<string>, root: Finding)
    requires AllClosed(w, before, skipped) && before + [root] <= fs
    requires Closed(w, fs, skipped, root.dep) && ReportedBelow(w, fs, skipped, |before| + 1, [root.dep], root.line)
    ensures AllClosed(w, fs, skipped)
  {
    SettledMonotone(w, before, fs, skipped, skipped);
    assert fs[|before|] == root;
    forall name | Reported(fs, name)
      ensures Closed(w, fs, skipped, name)
    {
      var i :| 0 <= i < |fs| && fs[i].dep == name;
      if i < |before| {
        assert before[i].dep == name && Reported(before, name);
      }
    }
  }

  /** What a walk from line `i` adds is led to from there: it meets no name of an earlier line. */
  lemma RootedAfterWalk(w: World, entries: seq<Option<DirectDep>>, selfProvided: set<string>, i: nat,
                        before: seq<Finding>, fs: seq<Finding>, skipped: set<string>, known: set<string>, root: Finding)
    requires AllRooted(w, entries, selfProvided, i + 1, before) && before + [root] <= fs && ChainsHold(w, fs)
    requires IsRooted(w, entries, selfProvided, i + 1, root)
    requires i < |entries| && entries[i] == Some(DirectDep(root.dep, root.line)) && root.dep !in selfProvided
    requires ListedChecked(entries, i, known)
    requires ReportedBelow(w, fs, skipped, |before| + 1, [root.dep], root.line)
    requires NewBelow(fs, |before| + 1, [root.dep], known)
    ensures AllRooted(w, entries, selfProvided, i + 1, fs)
  {
    forall f | f in fs
      ensures IsRooted(w, entries, selfProvided, i + 1, f)
    {
      var k :| 0 <= k < |fs| && fs[k] == f;
      if k < |before| {
        assert before[k] == f;
      } else if k == |before| {
        assert f == root;
      } else {
        assert [root.dep][0] == root.dep && f.chain[0] == root.dep;
        assert LeadsFrom(w, entries, selfProvided, i, f.chain + [f.dep], f.dep);
      }
    }
  }

  lemma RootedLater(w: World, entries: seq<Option<DirectDep>>, selfProvided: set<string>, n: nat, fs: seq<Finding>)
    requires AllRooted(w, entries, selfProvided, n, fs)
    ensures AllRooted(w, entries, selfProvided, n + 1, fs)
  {
    forall f | f in fs
      ensures IsRooted(w, entries, selfProvided, n + 1, f)
    {
      assert IsRooted(w, entries, selfProvided, n, f);
    }
  }

  /** Names new to a nested walk are new to the walk around it. */
  lemma NewAfterNested(fs: seq<Finding>, fs': seq<Finding>, from: nat, path: seq<string>, known: set<string>,
                       checked: set<string>, f: Finding)
    requires NewBelow(fs, from, path, known) && known <= checked && from <= |fs|
    requires f.chain == path && f.dep !in checked && fs + [f] <= fs'
    requires NewBelow(fs', |fs| + 1, path + [f.dep], checked)
    ensures NewBelow(fs', from, path, known)
  {
    forall i, n | from <= i < |fs'| && n in fs'[i].chain + [fs'[i].dep]
      ensures n in path || n !in known
    {
      if i < |fs| { assert fs'[i] == fs[i]; } else if i == |fs| { assert fs'[i] == f; }
    }
  }

  lemma NextLine(w: World, fs: seq<Finding>, fs': seq<Finding>, skipped: set<string>, skipped': set<string>,
                 entries: seq<Option<DirectDep>>, n: nat)
    requires DirectSettled(w, fs, skipped, entries, n) && n < |entries| && fs <= fs' && skipped <= skipped'
    requires entries[n].Some? ==> Settled(w, fs', skipped', entries[n].value.name)
    ensures DirectSettled(w, fs', skipped', entries, n + 1)
  {
    SettledMonotone(w, fs, fs', skipped, skipped');
  }

  lemma SkipMore(w: World, checked: set<string>, fs: seq<Finding>, skipped: set<string>, name: string)
    requires Consistent(w, checked, fs, skipped, {})
    ensures Consistent(w, checked + {name}, fs, skipped + {name}, {})
    ensures AllClosed(w, fs, skipped) ==> AllClosed(w, fs, skipped + {name})
    ensures Settled(w, fs, skipped + {name}, name)
  {
    SettledMonotone(w, fs, fs, skipped, skipped + {name});
  }

  lemma VisitedIsSettled(w: World, checked: set<string>, fs: seq<Finding>, skipped: set<string>, name: string)
    requires Consistent(w, checked, fs, skipped, {})
    ensures name in checked || w.present(name) || Reported(fs, name) ==> Settled(w, fs, skipped, name)
  {
  }

  lemma RootPath(w: World, name: string)
    requires !w.present(name)
    ensures IsMissingPath(w, [] + [name]) && IsSimple([] + [name])
  {
  }

  lemma ReopenRoot(w: World, checked: set<string>, fs: seq<Finding>, skipped: set<string>, name: string)
    requires Consistent(w, checked + {name}, fs, skipped, {})
    ensures Consistent(w, (checked + {name}) - {name}, fs, skipped, {name})
  {
  }

  lemma StillReported(fs: seq<Finding>, fs': seq<Finding>, name: string)
    requires fs <= fs' && Reported(fs, name)
    ensures Reported(fs', name)
  {
    var i :| 0 <= i < |fs| && fs[i].dep == name;
    assert fs'[i].dep == name;
  }

  lemma RootedRoot(w: World, entries: seq<Option<DirectDep>>, selfProvided: set<string>, fs: seq<Finding>, i: nat,
                   f: Finding)
    requires i < |entries| && entries[i] == Some(DirectDep(f.dep, f.line)) && f.chain == []
    requires f.dep !in selfProvided && !w.present(f.dep)
    ensures IsRooted(w, entries, selfProvided, i + 1, f)
    ensures AllRooted(w, entries, selfProvided, i + 1, fs) ==> AllRooted(w, entries, selfProvided, i + 1, fs + [f])
  {
    assert LeadsFrom(w, entries, selfProvided, i, f.chain + [f.dep], f.dep);
  }

  lemma ChainsOfConsistent(w: World, checked: set<string>, fs: seq<Finding>, skipped: set<string>)
    requires Consistent(w, checked, fs, skipped, {})
    ensures ChainsHold(w, fs)
  {
  }

  /** After a line, everything it leads to is reported, as is what the lines before it lead to. */
  lemma LineReported(w: World, fs: seq<Finding>, fs': seq<Finding>, skipped: set<string>,
                     entries: seq<Option<DirectDep>>, selfProvided: set<string>, n: nat)
    requires LinesReported(w, entries, selfProvided, n, fs) && fs <= fs'
    requires AllClosed(w, fs', skipped) && DirectSettled(w, fs', skipped, entries, n + 1)
    requires SkippedOnly(entries, n + 1, selfProvided, skipped)
    ensures LinesReported(w, entries, selfProvided, n + 1, fs')
  {
    forall i: nat, path, name | i < n + 1 && LeadsFrom(w, entries, selfProvided, i, path, name)
      ensures Reported(fs', name)
    {
      if i < n {
        StillReported(fs, fs', name);
      } else {
        ReachableIsReported(w, fs', skipped, entries, selfProvided, n, path, name);
      }
    }
  }

  /** Without the AUR, a missing dependency is reported when it is listed and not self-provided. */
  lemma DirectReported(w: World, entries: seq<Option<DirectDep>>, selfProvided: set<string>, fs: seq<Finding>,
                       skipped: set<string>, name: string)
    requires AllRooted(w, entries, selfProvided, |entries|, fs) && DirectSettled(w, fs, skipped, entries, |entries|)
    requires SkippedOnly(entries, |entries|, selfProvided, skipped) && forall f :: f in fs ==> f.chain == []
    ensures Reported(fs, name) <==> IsListed(entries, |entries|, name) && !w.present(name) && name !in selfProvided
  {
    if Reported(fs, name) {
      var k :| 0 <= k < |fs| && fs[k].dep == name;
      assert fs[k] in fs && IsRooted(w, entries, selfProvided, |entries|, fs[k]);
      assert (fs[k].chain + [name])[0] == name;
    }
  }

  lemma EmptyScan(w: World, entries: seq<Option<DirectDep>>, selfProvided: set<string>)
    ensures Consistent(w, {}, [], {}, {}) && AllRooted(w, entries, selfProvided, 0, []) && AllClosed(w, [], {})
    ensures DirectSettled(w, [], {}, entries, 0) && SkippedOnly(entries, 0, selfProvided, {})
    ensures LinesReported(w, entries, selfProvided, 0, []) && ListedChecked(entries, 0, {})
  {
  }

  lemma NothingSettledYet(w: World, fs: seq<Finding>, skipped: set<string>, deps: seq<string>)
    ensures SettledUpTo(w, fs, skipped, deps, 0)
  {
  }

  lemma DependsOnEntry(w: World, name: string, i: nat)
    requires name in w.aur && i < |w.aur[name]| && IsDepName(CleanDepName(w.aur[name][i]))
    ensures DependsOn(w, name, CleanDepName(w.aur[name][i]))
  {
    CleanDepNameIff(w.aur[name][i], CleanDepName(w.aur[name][i]));
  }

  lemma SettledNext(w: World, checked: set<string>, fs: seq<Finding>, skipped: set<string>, deps: seq<string>, n: nat)
    requires Consistent(w, checked, fs, skipped, {}) && SettledUpTo(w, fs, skipped, deps, n) && n < |deps|
    requires var dep := CleanDepName(deps[n]); !IsDepName(dep) || dep in checked || w.present(dep)
    ensures SettledUpTo(w, fs, skipped, deps, n + 1)
    ensures w.present(CleanDepName(deps[n])) ==> Settled(w, fs, skipped, CleanDepName(deps[n]))
  {
  }

  // ----- The scan -----

  class Scanner {
    const world: World
    const selfProvided: set<string>

    var checkedDeps: set<string>
    var findings: seq<Finding>
    /** Direct dependencies passed over because the scanned source provides them. */
    ghost var skipped: set<string>

    constructor (world: World, selfProvided: set<string>)
      ensures this.world == world && this.selfProvided == selfProvided
      ensures checkedDeps == {} && findings == [] && skipped == {}
    {
      this.world, this.selfProvided := world, selfProvided;
      checkedDeps, findings, skipped := {}, [], {};
    }

    /**
     * Visits `name`, reached through `chain`. Afterwards every dependency of `name` and of
     * the names this call reports is settled.
     */
    method Walk(name: string, chain: seq<string>, line: nat)
      requires Consistent(world, checkedDeps, findings, skipped, {name})
      requires Reported(findings, name) && name !in checkedDeps
      requires IsMissingPath(world, chain + [name]) && IsSimple(chain + [name])
      requires forall n :: n in chain ==> n in checkedDeps
      modifies this`checkedDeps, this`findings
      ensures Consistent(world, checkedDeps, findings, skipped, {})
      ensures old(checkedDeps) + {name} <= checkedDeps && old(findings) <= findings
      ensures Closed(world, findings, skipped, name)
      ensures ReportedBelow(world, findings, skipped, |old(findings)|, chain + [name], line)
      ensures NewBelow(findings, |old(findings)|, chain + [name], old(checkedDeps))
      decreases world.aur.Keys - checkedDeps
    {
      hide IsDepName, CleanDepName, Reported, Settled, Closed, Consistent, SettledUpTo;
      hide IsMissingPath, IsSimple, DependsOn;
      if name in checkedDeps { return; }
      MarkReported(world, checkedDeps, findings, skipped, name);
      checkedDeps := checkedDeps + {name};
      if name !in world.aur {
        AllSettledCloses(world, findings, skipped, name);
        return;
      }
      var path := chain + [name];
      var deps := world.aur[name];
      var i := 0;
      NothingSettledYet(world, findings, skipped, deps);
      while i < |deps|
        invariant 0 <= i <= |deps|
        invariant Consistent(world, checkedDeps, findings, skipped, {})
        invariant old(checkedDeps) + {name} <= checkedDeps && old(findings) <= findings
        invariant SettledUpTo(world, findings, skipped, deps, i)
        invariant ReportedBelow(world, findings, skipped, |old(findings)|, path, line)
        invariant NewBelow(findings, |old(findings)|, path, old(checkedDeps))
      {
        var dep := CleanDepName(deps[i]);
        if !IsDepName(dep) || dep in checkedDeps {
          SettledNext(world, checkedDeps, findings, skipped, deps, i);
        } else if world.present(dep) {
          SettledNext(world, checkedDeps, findings, skipped, deps, i);
          MarkSettled(world, checkedDeps, findings, skipped, dep);
          checkedDeps := checkedDeps + {dep};
        } else {
          ghost var before, known := findings, checkedDeps;
          ghost var f := Finding(dep, path, line);
          DependsOnEntry(world, name, i);
          MissingPathExtend(world, path, dep);
          SimpleExtend(path, dep);
          ReportMissing(world, checkedDeps, findings, skipped, f);
          findings := findings + [Finding(dep, path, line)];
          Walk(dep, path, line);
          AfterNestedWalk(world, before, findings, skipped, |old(findings)|, path, line, f, deps, i);
          NewAfterNested(before, findings, |old(findings)|, path, old(checkedDeps), known, f);
        }
        i := i + 1;
      }
      AllSettledCloses(world, findings, skipped, name);
    }

    /**
     * Scans the dependency lines of a `.SRCINFO`; an entry is None for a line that names no
     * dependency. Without an AUR lookup only the listed dependencies are reported.
     */
    method ScanDependencies(entries: seq<Option<DirectDep>>, fetchAur: bool)
      requires checkedDeps == {} && findings == [] && skipped == {}
      modifies this
      ensures NoDuplicates(findings) && ChainsHold(world, findings)
      ensures AllRooted(world, entries, selfProvided, |entries|, findings)
      ensures fetchAur ==> IsExactScan(world, entries, selfProvided, findings)
      ensures !fetchAur ==> forall f :: f in findings ==> f.chain == []
      ensures !fetchAur ==> forall name :: Reported(findings, name) <==>
        IsListed(entries, |entries|, name) && !world.present(name) && name !in selfProvided
    {
      ScanLines(entries, fetchAur);
      forall name
        ensures Reported(findings, name) ==> IsReachable(world, entries, selfProvided, name)
        ensures !fetchAur ==> (Reported(findings, name) <==>
          IsListed(entries, |entries|, name) && !world.present(name) && name !in selfProvided)
      {
        if Reported(findings, name) { ReportedIsReachable(world, findings, entries, selfProvided, |entries|, name); }
        if !fetchAur { DirectReported(world, entries, selfProvided, findings, skipped, name); }
      }
    }

    method ScanLines(entries: seq<Option<DirectDep>>, fetchAur: bool)
      requires checkedDeps == {} && findings == [] && skipped == {}
      modifies this
      ensures Consistent(world, checkedDeps, findings, skipped, {})
      ensures AllRooted(world, entries, selfProvided, |entries|, findings)
      ensures DirectSettled(world, findings, skipped, entries, |entries|)
      ensures SkippedOnly(entries, |entries|, selfProvided, skipped)
      ensures fetchAur ==> AllClosed(world, findings, skipped)
      ensures fetchAur ==> LinesReported(world, entries, selfProvided, |entries|, findings)
      ensures !fetchAur ==> forall f :: f in findings ==> f.chain == []
    {
      EmptyScan(world, entries, selfProvided);
      hide Reported, Settled, Closed, AllClosed, Consistent, DirectSettled, AllRooted, IsRooted;
      hide IsMissingPath, IsSimple;
      hide LinesReported, LeadsFrom, IsListed, NewBelow, ReportedBelow;
      var i := 0;
      while i < |entries|
        invariant 0 <= i <= |entries|
        invariant Consistent(world, checkedDeps, findings, skipped, {})
        invariant AllRooted(world, entries, selfProvided, i, findings)
        invariant DirectSettled(world, findings, skipped, entries, i)
        invariant SkippedOnly(entries, i, selfProvided, skipped)
        invariant ListedChecked(entries, i, checkedDeps)
        invariant fetchAur ==> AllClosed(world, findings, skipped)
        invariant fetchAur ==> LinesReported(world, entries, selfProvided, i, findings)
        invariant !fetchAur ==> forall f :: f in findings ==> f.chain == []
      {
        var entry := entries[i];
        ghost var before, skippedBefore := findings, skipped;
        ListedNext(entries, i);
        RootedLater(world, entries, selfProvided, i, findings);
        if entry.Some? {
          var depName, line := entry.value.name, entry.value.line;
          VisitedIsSettled(world, checkedDeps, findings, skipped, depName);
          if depName !in checkedDeps {
            ghost var visited := checkedDeps;
            checkedDeps := checkedDeps + {depName};
            if depName in selfProvided {
              SkipMore(world, visited, findings, skipped, depName);
              skipped := skipped + {depName};
            } else if world.present(depName) {
              MarkSettled(world, visited, findings, skipped, depName);
            } else {
              ghost var root := Finding(depName, [], line);
              RootPath(world, depName);
              RootedRoot(world, entries, selfProvided, findings, i, root);
              ReportMissing(world, visited, findings, skipped, root);
              findings := findings + [Finding(depName, [], line)];
              MarkReported(world, visited, findings, skipped, depName);
              if fetchAur {
                ReopenRoot(world, checkedDeps, findings, skipped, depName);
                checkedDeps := checkedDeps - {depName};
                assert [] + [depName] == [depName];
                Walk(depName, [], line);
                StillReported(before + [root], findings, depName);
                AfterRootWalk(world, before, findings, skipped, root);
                ChainsOfConsistent(world, checkedDeps, findings, skipped);
                RootedAfterWalk(world, entries, selfProvided, i, before, findings, skipped, visited, root);
              }
              VisitedIsSettled(world, checkedDeps, findings, skipped, depName);
            }
          }
        }
        NextLine(world, before, findings, skippedBefore, skipped, entries, i);
        if fetchAur { LineReported(world, before, findings, skipped, entries, selfProvided, i); }
        i := i + 1;
      }
    }
  }
}
