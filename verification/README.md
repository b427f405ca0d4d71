# Verified model of the Chaotic-AUR backend

This project models the algorithms and the concurrent state of the Chaotic-AUR backend in Dafny
and proves what they promise. Three groups of code are modelled.

**Diff scanning.** The search for the known package name closest to a given one
(`EditDistance`, `PackageNames`), the walk over missing dependencies (`DependencyScan`), the
expansion of shell parameters in package build files (`GlobStrip`, `ParameterExpansion`,
`ParameterOperations`, `OperationForms`, `DollarSafety`, `ExpansionOrder`, `PosixExpansion`), the cache
for AUR responses (`ResponseCache`, `CacheRuns`) and the batching of AUR info requests (`InfoBatcher`,
`InfoRuns`).

**Builds and deployments.** The queue of builds that wait for their deployment, the coalescing
refresh of versions and the chain of bump checks (`DeploymentCoordination`, `DeploymentRuns`,
`BuilderDatabase`), and the two definitions of a failure streak (`FailureStreak`).

**Streams and stores.** The event stream of the build manager, split into events
(`EventSplitter`) and kept in a replay buffer (`ReplayBuffer`, `ReplayRuns`), the fan-out of job and
package logs (`LogFanout`, `LogRuns`), and the bounded store of pipelines (`PipelineStore`,
`PipelineRuns`, `GitlabPipelines`).

`Wrappers`, `Texts` and `SortedIds` hold what several modules need. `dafny verify dfyconfig.toml` checks
everything.

## How the model reads the code

Algorithms are methods with loops, proved against specifications that do not mention them: edit
scripts for the distance, the language of a glob for the strips, paths through missing packages
for the dependency walk, a recursive evaluation for the variable passes.

Objects that are shared between asynchronous calls are classes. Each of their methods is one
stretch of code between two `await`s, and is proved to take the object from one abstract state
to the next (`Abstract() == Step(old(Abstract()), …)`) and to keep `Valid()`, which is what the
theorems about runs promise of every state. A run is any finite sequence of such
steps: nothing is assumed about when calls arrive, which call an answer belongs to or how long
it takes. The theorems about runs hold for all of them. States also carry observations that the
code does not have, such as a log of what happened; no step depends on them. The modules named
`…Runs` say what the states of a run are in terms of its events: what was queued, stored, sent or
served is traced back to the event that brought it, and each event to what becomes of it.

Where the code differs from its documentation or from a standard, the model follows the code:

- `${v:-x}`, `${v:=x}` and `${v-x}` use `x` only for a variable that is not known; a known empty
  value stays. Section 2.6.2 of the POSIX.1-2017 Shell Command Language has the colon forms
  replace empty values too. `DefaultAgreesIff` says that nothing else differs.
- A strip whose pattern matches nothing makes the reference unresolvable instead of leaving the
  value as it is, which `StripAgreesIff` states as the exact difference from section 2.6.2. `[`
  in a pattern is an ordinary character (unlike section 2.13).
- Of the event stream format in section 9.2.6 of the WHATWG HTML standard, only `\n\n` ends an
  event.
- `${v/p/r}` gives `$$`, `$&`, `` $` `` and `$'` in `r` the meaning they have in JavaScript.
- Some operations can take the `$` off a reference before it is resolved. `KeepsDollarIff` says
  which, from the text of the operation alone. With such an operation the result of the passes can
  depend on the map order; `StripsDependOnOrder` gives the variables. Without one, the order
  matters exactly to a variable whose references are more than five levels deep but end somewhere
  (`OrderMattersIff`).
- The walk over missing dependencies does not look at what the scanned source provides itself, so
  it can report such a package. `OwnIsReportedIff` says when, `OwnPackageReported` gives an input.
- A package can be held back by its failures and yet not be on the list of unresolved failures,
  when an older build that resolved something has a larger id. `HeldBackIsListed` has the exact
  condition and `HeldBackNotListed` an input.
- A name that is exactly `lib32` or `lib64` changes its normal form with every variant suffix,
  because the dash of the suffix completes the architecture prefix.
- A refresh request that arrives between the last test of the refresh loop and the callback that
  clears the refresh in flight is not followed by an update of its own.
  `RefreshIsNewerIffBeforeExit` says that this is the only exception, and `GapIsReachable` that
  it can happen.
- The end of an aborted log stream, or of an older poll, disposes of its key even if the key leads to a
  newer entry by then. `StrandedIff` says when a viewer is cut off from later ones in this way,
  `StrandedIsReachable` gives a run. What each viewer reads is not affected (`ReadsTheLog`).

## Model

| member | source | states |
|---|---|---|
| EditDistance.BoundedEditDistance | backend/src/diff-scan/typosquat.ts:109-129 | returns a number exactly when the strings differ and some shortest script of insertions, deletions and substitutions is within the bound, and the number is the length of such a script; so neither early exit loses an answer |
| EditDistance.NextRow | backend/src/diff-scan/typosquat.ts:115-126 | from the distances of one prefix to all prefixes of the other string, computes those of the next prefix, and their minimum |
| EditDistance.LevenshteinIsDistance | backend/src/diff-scan/typosquat.ts:108-121 | the recurrence is the length of a shortest edit script, and no other number is |
| EditDistance.ShortestScript | backend/src/diff-scan/typosquat.ts:115-121 | a script of the length the recurrence gives exists |
| EditDistance.NoShorterScript | backend/src/diff-scan/typosquat.ts:115-121 | no script with edits at arbitrary positions in arbitrary order is shorter |
| EditDistance.OneEdit | backend/src/diff-scan/typosquat.ts:119-121 | a single edit anywhere changes the distance to any target by at most one |
| EditDistance.LengthGap | backend/src/diff-scan/typosquat.ts:111 | the distance is at least the difference of the lengths |
| EditDistance.RowsStayAbove | backend/src/diff-scan/typosquat.ts:122-124 | once a whole row is above the bound, the distance is too |
| PackageNames.NormalizePackageName | backend/src/diff-scan/typosquat.ts:86-106 | terminates with the lower-cased name without its architecture prefix and without any trailing variant suffixes; the result is the only such name |
| PackageNames.StrippedUnique | backend/src/diff-scan/typosquat.ts:94-104 | the order in which suffixes are tried does not matter |
| PackageNames.SuffixesKeepNormalForm | backend/src/diff-scan/typosquat.ts:13-106 | appending variant suffixes keeps the normal form if and only if none is appended or the lower-cased name is neither `lib32` nor `lib64` |
| PackageNames.CompletedPrefix | backend/src/diff-scan/typosquat.ts:86-93 | for those two names, which have no architecture prefix, appending suffixes completes one; the core is then the text of the first suffix and what follows, and the normal form changes |
| PackageNames.CoreIff | backend/src/diff-scan/typosquat.ts:86-93 | what suffixes are taken off is the name behind `lib32-` or `lib64-` in any case of letters, or the whole lower-cased name if it starts with neither |
| PackageNames.ClosestKnownName | backend/src/diff-scan/typosquat.ts:64-84 | returns nothing exactly when no known name is within its own bound for the lengths of the normal forms, else the first known name at the least edit distance, with that distance |
| PackageNames.ResemblesIff | backend/src/diff-scan/typosquat.ts:69-77 | two names resemble each other if and only if their normal forms differ, the known one is not empty, and they are one edit apart, or two if both have at least eight characters |
| PackageNames.ClosestExtend | backend/src/diff-scan/typosquat.ts:79-81 | a further candidate replaces the best one exactly when it is strictly closer |
| DependencyScan.Scanner.ScanDependencies | backend/src/diff-scan/srcinfo-dependency.ts:138-193 | with an AUR lookup, a name is reported if and only if some line leads to it: by a path of missing packages from the line's dependency, which is not self-provided, on which no self-provided name is listed on an earlier line; without one, if and only if it is listed, missing and not self-provided; no name is reported twice, and every chain is a simple path that leads from the finding's line |
| DependencyScan.Scanner.ScanLines | backend/src/diff-scan/srcinfo-dependency.ts:145-190 | over all lines with their shared visited set, every valid dependency of every reported name is present, reported or a self-provided listed one, and everything a line leads to is reported |
| DependencyScan.Scanner.Walk | backend/src/diff-scan/srcinfo-dependency.ts:210-231 | terminates on cyclic graphs; what it adds is closed under the dependencies their entries name, and each addition continues the chain it was given through names not visited before |
| DependencyScan.CleanDepNameIff | backend/src/diff-scan/srcinfo-dependency.ts:10-33 | the cleaned entry is a valid name if and only if the entry is that name between white space, followed by nothing or by something that starts with `:`, `<`, `>` or `=` |
| DependencyScan.NamesOne | backend/src/diff-scan/srcinfo-dependency.ts:29-33 | an entry names at most one package |
| DependencyScan.NameCharacters | backend/src/diff-scan/srcinfo-dependency.ts:10 | the characters of a valid name, by their codes |
| DependencyScan.PathIsReported | backend/src/diff-scan/srcinfo-dependency.ts:201-235 | closed reports contain the end of every missing path that starts in a settled name |
| DependencyScan.ReachableIsReported | backend/src/diff-scan/srcinfo-dependency.ts:145-190 | once the reports are closed and a line's dependency is settled, everything the line leads to is reported |
| DependencyScan.ReportedIsReachable | backend/src/diff-scan/srcinfo-dependency.ts:164-187 | each reported name is led to from a line by its own chain |
| DependencyScan.RootedAfterWalk | backend/src/diff-scan/srcinfo-dependency.ts:160-189 | what a walk from a line adds is led to from that line, past no self-provided name of an earlier one |
| DependencyScan.OwnIsReportedIff | backend/src/diff-scan/srcinfo-dependency.ts:152-231 | a self-provided package is reported if and only if some line leads through packages not provided to one that no earlier line lists |
| DependencyScan.OwnPackageReported | backend/src/diff-scan/srcinfo-dependency.ts:210-231 | there is an input for which every exact scan reports a self-provided package |
| DependencyScan.ReportMissing | backend/src/diff-scan/srcinfo-dependency.ts:222-229 | reporting an unvisited name keeps reports unique and their chains simple |
| DependencyScan.AfterNestedWalk | backend/src/diff-scan/srcinfo-dependency.ts:228-229 | what was settled before a nested walk stays settled after it |
| DependencyScan.AfterRootWalk | backend/src/diff-scan/srcinfo-dependency.ts:160-189 | deleting a root from the visited set and walking it again keeps all reports closed |
| GlobStrip.StripByGlob | backend/src/diff-scan/pkgbuild.ts:313-337 | removes exactly the shortest or longest prefix or suffix in the language of the pattern, and fails exactly when there is none |
| GlobStrip.MatchesIffInLanguage | backend/src/diff-scan/pkgbuild.ts:313-319 | the matcher accepts exactly the texts that fall into one piece per pattern character |
| GlobStrip.StripUnique | backend/src/diff-scan/pkgbuild.ts:313-337 | a value has at most one such strip |
| GlobStrip.StripIsStrip | backend/src/diff-scan/pkgbuild.ts:324-336 | the function used by the expansion yields that strip and nothing else |
| GlobStrip.ReversedLanguageIff | backend/src/diff-scan/pkgbuild.ts:313-319 | a pattern matches a text exactly when the reversed pattern matches the reversed text |
| GlobStrip.SuffixStripMirrorsPrefixStrip | backend/src/diff-scan/pkgbuild.ts:330-334 | stripping a suffix is stripping a prefix of the reversed value with the reversed pattern |
| ParameterExpansion.ExpandVarReferences | backend/src/diff-scan/pkgbuild.ts:219-233 | at most five passes in place; the end counts as settled if and only if the fifth pass equals the fourth, and then it is a fixpoint; for templates whose operations hide no `$`, every variable of reference depth up to five has its recursive value and every other one its template or its recursive value |
| ParameterExpansion.RunPass | backend/src/diff-scan/pkgbuild.ts:223-229 | one pass changes the map as visiting its variables one after the other does, and reports a change if and only if the map differs |
| ParameterExpansion.PassesEvaluate | backend/src/diff-scan/pkgbuild.ts:219-260 | after n passes, in any map order, every variable of reference depth up to n has its recursive value |
| ParameterExpansion.EvaluateThenExpand | backend/src/diff-scan/pkgbuild.ts:247-260 | what recursive evaluation gives, substitution of current values gives too |
| ParameterExpansion.ExpandThenEvaluate | backend/src/diff-scan/pkgbuild.ts:247-260 | what substitution of current values completes, recursive evaluation completes too, with the same value |
| ParameterExpansion.StuckStaysUntouched | backend/src/diff-scan/pkgbuild.ts:247-260 | variables on or leading to a cycle, or plainly referring to an unknown variable, keep their templates |
| ParameterExpansion.ChangesAtMostOnce | backend/src/diff-scan/pkgbuild.ts:223-228 | with any operations, a variable that differs from its template is finished and never changes again |
| ParameterExpansion.UnchangedPassIsFixpoint | backend/src/diff-scan/pkgbuild.ts:230 | a pass without a change means that no substitution can change any variable |
| ParameterExpansion.OrderDoesNotMatter | backend/src/diff-scan/pkgbuild.ts:219-233 | the map order matters to no variable whose depth is within the passes or that has no value |
| ParameterExpansion.StripsDependOnOrder | backend/src/diff-scan/pkgbuild.ts:223-289 | with a strip over an unresolved value, two map orders give different results |
| ParameterExpansion.FallbackKeepsDollar | backend/src/diff-scan/pkgbuild.ts:263-267 | default values hide no unresolved reference |
| ParameterExpansion.ReplacementKeepsDollar | backend/src/diff-scan/pkgbuild.ts:292-303 | replacing a pattern without `$` hides no unresolved reference |
| DollarSafety.KeepsDollarIff | backend/src/diff-scan/pkgbuild.ts:262-306 | an operation keeps the `$` of every value if and only if it is a default, the substring of everything, a strip of literals without `$` (for the shortest also stars at the far side), a replacement of a pattern without `$` or by a text with one, or not resolvable at all |
| DollarSafety.StripKeepsIff | backend/src/diff-scan/pkgbuild.ts:313-337 | the condition for strips, on the pattern and the kind of strip |
| DollarSafety.SubstringKeepsIff | backend/src/diff-scan/pkgbuild.ts:339-353 | every substring but the whole value loses the `$` of some value |
| DollarSafety.ReplacementKeepsIff | backend/src/diff-scan/pkgbuild.ts:292-303 | the condition for replacements, on the pattern and the text |
| DollarSafety.IsSteadyIff | backend/src/diff-scan/pkgbuild.ts:219-306 | whether no operation hides a `$` can be read off the templates |
| ExpansionOrder.OrderMattersIff | backend/src/diff-scan/pkgbuild.ts:219-233 | for such templates and at least one pass, two map orders leave a variable different if and only if it has a value as deep as there are variables, but none within the passes |
| ExpansionOrder.PassShallowFirst | backend/src/diff-scan/pkgbuild.ts:223-229 | with shallow variables first, one pass gives every variable its value |
| ExpansionOrder.PassesDeepFirst | backend/src/diff-scan/pkgbuild.ts:221-231 | with deep variables first, each pass gains one level and no more |
| ExpansionOrder.ValuesAreShallow | backend/src/diff-scan/pkgbuild.ts:247-260 | no value is deeper than there are variables |
| PosixExpansion.DefaultAgreesIff | backend/src/diff-scan/pkgbuild.ts:263-267 | the forms with a default give what section 2.6.2 of POSIX.1-2017 does, unless a colon form has an empty value and a default that is not empty |
| PosixExpansion.StripAgreesIff | backend/src/diff-scan/pkgbuild.ts:286-289 | without brackets and backslashes, a strip gives what section 2.6.2 does if and only if an end of the value matches |
| ParameterOperations.TokensAreParse | backend/src/diff-scan/pkgbuild.ts:42 | the tokens of a template are a parse: written pieces that cover it from left to right, bare names as long as they go, and a literal character only where no reference is written |
| ParameterOperations.ParseUnique | backend/src/diff-scan/pkgbuild.ts:42 | a template has no other parse |
| ParameterOperations.ReferenceIff | backend/src/diff-scan/pkgbuild.ts:42 | a reference is recognised at a place if and only if one is written there |
| ParameterOperations.ReferenceIsWritten | backend/src/diff-scan/pkgbuild.ts:42 | a reference is a `$` or a braced form of a whole name, its operation ending at the first brace |
| ParameterOperations.SubstringLaws | backend/src/diff-scan/pkgbuild.ts:339-353 | leading characters and the rest from the same offset make up the value, counted from the end for negative numbers; the number kept; and a length limits the rest as it limits a value |
| ParameterOperations.ReplaceAllJoins | backend/src/diff-scan/pkgbuild.ts:302 | the value falls into pieces between the leftmost occurrences, and the result joins the same pieces with the replacement |
| ParameterOperations.ReplaceFirstAt | backend/src/diff-scan/pkgbuild.ts:302 | only the first occurrence is replaced, and without one the value stays |
| ParameterOperations.PlainReplacementText | backend/src/diff-scan/pkgbuild.ts:302 | a replacement without `$` is put in as it is |
| ParameterOperations.ReplacementReferences | backend/src/diff-scan/pkgbuild.ts:302 | in the text for a first occurrence, `$$`, `$&`, `` $` `` and `$'` stand for a `$`, the occurrence, what is in front and what is behind; any other `$` stands for itself |
| ParameterOperations.NameCodes | backend/src/diff-scan/pkgbuild.ts:42 | the characters of a variable name, by their codes |
| OperationForms.DefaultForm | backend/src/diff-scan/pkgbuild.ts:263-267 | `:=w`, `:-w` and `-w` give the value, or `w` to an unknown variable, for every text `w` |
| OperationForms.UnsetForm | backend/src/diff-scan/pkgbuild.ts:263-268 | nothing but these forms resolves for an unknown variable |
| OperationForms.LongestStripForms | backend/src/diff-scan/pkgbuild.ts:286-289 | `##p` removes exactly the longest prefix that `p` matches, `%%p` the longest suffix, for every pattern of one line |
| OperationForms.ShortestStripForms | backend/src/diff-scan/pkgbuild.ts:286-289 | `#p` removes exactly the shortest prefix, `%p` the shortest suffix, unless `p` doubles the operator |
| OperationForms.ParseNatOfDecimal | backend/src/diff-scan/pkgbuild.ts:277 | numbers are read in decimal: reading what is written gives the number back |
| OperationForms.RangeForms | backend/src/diff-scan/pkgbuild.ts:274-279 | `:a` starts at the number `a` denotes, and `:a:b` limits the length by the number `b` denotes |
| OperationForms.LeadingForms | backend/src/diff-scan/pkgbuild.ts:274-279 | `::a` keeps as many characters as `a` denotes, whatever follows a further colon |
| OperationForms.ReplacementForms | backend/src/diff-scan/pkgbuild.ts:293-302 | `/p/t` and `/p` replace the first occurrence of `p` by `t` or by nothing, `//p/t` and `//p` all of them |
| OperationForms.NoOtherForm | backend/src/diff-scan/pkgbuild.ts:262-306 | an operation that resolves has one of these forms |
| OperationForms.SubstituteVarsIff | backend/src/diff-scan/pkgbuild.ts:247-260 | a template gives a text if and only if that is what its references stand for, joined with its literal characters, and nothing unresolved is left in it |
| DeploymentCoordination.UpdatesNeverOverlap | backend/src/builder/builder-database.service.ts:362-413 | in every run at most one update of versions runs at a time |
| DeploymentCoordination.RefreshIsNewerIffBeforeExit | backend/src/builder/builder-database.service.ts:362-413 | once a request's refresh succeeded, an update ran entirely after the request if and only if the request came before the loop's last test |
| DeploymentCoordination.BumpsWaitForRefresh | backend/src/builder/builder-database.service.ts:303-322 | in every run a bump check starts only after the request its build was taken with was answered: by an update that began after it and succeeded, by a rejection, or past the last test |
| DeploymentCoordination.SettledIsAnswered | backend/src/builder/builder-database.service.ts:370-375 | a request is answered in this sense by the time its refresh settles |
| DeploymentCoordination.GapIsReachable | backend/src/builder/builder-database.service.ts:370-412 | there is a run in which a bump check starts although no update began after its request |
| DeploymentCoordination.EachBuildInOnePlace | backend/src/builder/builder-database.service.ts:252-398 | in every run each queued build is pending, taken or expired and only one of them, pending ones are in queue order, and a taken one waits or is in the chain exactly once |
| DeploymentCoordination.TakenBuildsMatch | backend/src/builder/builder-database.service.ts:377-398 | in every reachable state an announcement takes a pending build if and only if repository and package base match and it was queued less than five minutes ago |
| DeploymentCoordination.TakenWasDeployed | backend/src/builder/builder-database.service.ts:252-398 | in every run each taken build was queued by an event with the repository and package base of the announcement that took it, less than five minutes before it |
| DeploymentCoordination.ExpiredWasOld | backend/src/builder/builder-database.service.ts:377-398 | in every run each expired build was dropped by an announcement at least five minutes after it was queued |
| DeploymentCoordination.FatesPartition | backend/src/builder/builder-database.service.ts:377-398 | an announcement splits the queue into taken, expired and remaining builds |
| DeploymentCoordination.BumpsRunInOrder | backend/src/builder/builder-database.service.ts:320-406 | in every run bump checks start in the order they were appended, one at a time, each at most once, also after a failure |
| DeploymentRuns.QueuedCount | backend/src/builder/builder-database.service.ts:243-258 | in every run the number of queued builds is the number of successful ones |
| DeploymentRuns.SuccessIsQueued | backend/src/builder/builder-database.service.ts:243-258 | each successful build is put at the end of the queue with its own repository, package base and time, whatever the queue holds |
| DeploymentRuns.BuildFate | backend/src/builder/builder-database.service.ts:243-398 | a queued build is pending until the first later announcement that matches it or comes five minutes or more after it; that one drops it if it is too old and takes it otherwise, for good |
| DeploymentRuns.ChainKeepsQueueOrder | backend/src/builder/builder-database.service.ts:303-322 | builds taken by one announcement are checked in the order they were queued |
| DeploymentRuns.RequestIsLogged | backend/src/builder/builder-database.service.ts:362-375 | every removal and announcement is a request; with every refresh settled an update starts at once, otherwise the request joins one not settled |
| DeploymentRuns.RestartsIffRequested | backend/src/builder/builder-database.service.ts:408-413 | after a successful update the loop runs again if and only if there was a request since that update began, and exits otherwise |
| DeploymentRuns.EveryTakenBuildCanStart | backend/src/builder/builder-database.service.ts:303-413 | every run can be continued so that each build taken so far has its bump check started; no order of events loses one or blocks the others |
| BuilderDatabase.Service.LogBuild | backend/src/builder/builder-database.service.ts:252-258 | queues a successful build at the end |
| BuilderDatabase.Service.TakeDeployedBuilds | backend/src/builder/builder-database.service.ts:377-398 | one pass over the queue returns the deployed builds in order, drops expired ones and keeps the rest in order |
| BuilderDatabase.Service.RequestChaoticVersionsUpdate | backend/src/builder/builder-database.service.ts:362-375 | joins the refresh in flight and schedules another round, or starts a refresh |
| BuilderDatabase.Service.RunDeferredDeploymentChecks | backend/src/builder/builder-database.service.ts:303-318 | takes the deployed builds and requests a refresh for them in one step |
| BuilderDatabase.Service.RemovalCompleted | backend/src/builder/builder-database.service.ts:148-154 | a removal requests a refresh |
| BuilderDatabase.Service.UpdateSettled | backend/src/builder/builder-database.service.ts:411 | an update ends, well or badly |
| BuilderDatabase.Service.RefreshChaoticVersionsContinues | backend/src/builder/builder-database.service.ts:408-413 | after an update the loop runs again if one was scheduled, else exits; a rejection leaves it |
| BuilderDatabase.Service.RefreshSettled | backend/src/builder/builder-database.service.ts:370-372 | the callback that clears the refresh in flight, as a step of its own |
| BuilderDatabase.Service.DeploymentChecksResume | backend/src/builder/builder-database.service.ts:314-322 | after its refresh, well or badly, an announcement appends its builds to the bump chain |
| BuilderDatabase.Service.BumpCheckStart | backend/src/builder/builder-database.service.ts:400-406 | the next check of the chain starts when the one before has ended |
| BuilderDatabase.Service.BumpCheckEnd | backend/src/builder/builder-database.service.ts:400-406 | a check ends and the chain goes on, whether or not it failed |
| FailureStreak.ShouldBuildDecision | backend/src/builder/unresolved-failures.ts:65-77 | counts exactly the failures in front, and holds a package back exactly when there are five or more and the newest build is not known to be a day old |
| FailureStreak.GetShouldBuild | backend/src/builder/builder.service.ts:687-709 | although only 20 builds are read, the decision is the one for the whole streak as the list of unresolved failures counts it, and the count is that one cut off at 20 |
| FailureStreak.NewestAgeIff | backend/src/builder/builder.service.ts:701-704 | the age looked at is that of the newest verdict build of the window, if there is one |
| FailureStreak.StreakIsLeadingRun | backend/src/builder/builder.service.ts:620-636 | the failures with ids above the last resolving build are as many as lead the verdict builds in descending order of ids, and no other number is |
| FailureStreak.RunIsStreak | backend/src/builder/builder.service.ts:620-636 | a verdict build is in the streak exactly when it is in front of the first success |
| FailureStreak.ListedIffStreak | backend/src/builder/builder.service.ts:637-661 | a package is listed if and only if its streak is not empty; its row then has the latest build of the streak, its size, and the earliest time in it |
| FailureStreak.StreakIff | backend/src/builder/builder.service.ts:620-636 | the streak is exactly the failed, timed out and software-failed builds of the package in the window whose ids are above those of all builds that succeeded, were there already or were skipped |
| FailureStreak.RowIs | backend/src/builder/builder.service.ts:637-661 | a row shows the newest verdict build, which is the newest of the streak, with the status and time of that build; there is none exactly when the newest verdict build is no failure |
| FailureStreak.RecentRun | backend/src/builder/builder.service.ts:696-698 | the limit on the list cuts the streak off at 20 |
| FailureStreak.NarrowerWindow | backend/src/builder/builder.service.ts:611-636 | the streak of a shorter window is the part of the longer window's streak that lies in it, if and only if no resolving build that only the longer window has is above a failure of the shorter one's streak |
| FailureStreak.HeldBackIsListed | backend/src/builder/unresolved-failures.ts:12-18 | a package whose streak of 30 days holds it back is listed by the query over 90 days if and only if no resolving build older than 30 days is above all failures of the 90; with at least that count if none is above a failure of the streak, as when builds are created in the order of their ids |
| FailureStreak.ChronologicalIsInOrder | backend/src/builder/builder.service.ts:611-636 | builds created in the order of their ids are in order in this sense |
| FailureStreak.HeldBackNotListed | backend/src/builder/builder.service.ts:611-661 | builds of which one is out of order, with which a package is held back but not listed |
| FailureStreak.VerdictsArePartitioned | shared-lib/src/lib/types/build.ts:41-53 | verdicts are the disjoint union of failures and successes |
| EventSplitter.StreamManagerLogs | backend/src/builder/build-api.controller.ts:216-237 | however the text is cut into chunks, the messages broadcast and the buffer left over are those of one split of the whole text |
| EventSplitter.BroadcastEvents | backend/src/builder/build-api.controller.ts:228-235 | each event with a data line is broadcast in order, except those that cannot be parsed |
| EventSplitter.DataLineIff | backend/src/builder/build-api.controller.ts:229 | the data line of an event is the first of its lines that begins with `data: `, and there is none exactly when no line does |
| EventSplitter.MessagesOfEvent | backend/src/builder/build-api.controller.ts:228-235 | an event gives the message parsed from its data line, if it has one that can be parsed, and nothing else |
| EventSplitter.SplitAppend | backend/src/builder/build-api.controller.ts:223-226 | splitting the kept rest with later text continues the split of the whole |
| EventSplitter.SplitIsSplit | backend/src/builder/build-api.controller.ts:225-226 | the split leaves nothing out and ends every event at the first blank line after its start |
| EventSplitter.SplitUnique | backend/src/builder/build-api.controller.ts:225-226 | there is no other way to cut a text so |
| ReplayBuffer.RunHolds | backend/src/builder/build-api.controller.ts:168-201 | in every run, across upstream restarts, the buffer is the last 500 frames with consecutive ids and every viewer got consecutive frames, up to the newest one while attached |
| ReplayBuffer.ResumeIsComplete | backend/src/builder/build-api.controller.ts:173-179 | an attached viewer resuming from any r got exactly all frames after r if and only if r (or 0, if less) was at most 500 behind and not ahead when it connected, or r was ahead and no frame has come since |
| ReplayBuffer.ReplayOfFrames | backend/src/builder/build-api.controller.ts:175-179 | the replay of consecutive frames is the part of them after the resume id |
| ReplayRuns.HistoryIs | backend/src/builder/build-api.controller.ts:192-201 | the messages broadcast are exactly those that arrive between a first connection and the end of the upstream it started, in order |
| ReplayRuns.LiveIff | backend/src/builder/build-api.controller.ts:181-246 | the upstream runs if and only if a viewer has connected for the first time since it last ended |
| ReplayRuns.ViewerOfEvent | backend/src/builder/build-api.controller.ts:168-179 | a viewer is remembered with what its own connection asked for and the number of messages before it |
| ReplayRuns.AttachedIff | backend/src/builder/build-api.controller.ts:173-190 | a viewer is attached if and only if it connected and since then neither it disconnected nor the upstream ended |
| ReplayRuns.ResumeFromEvent | backend/src/builder/build-api.controller.ts:173-179 | a viewer whose connection asked to resume after r has got exactly the messages after r of all broadcast if and only if r (or 0, if less) was at most 500 behind and not ahead when it connected, or r was ahead and no message has come since |
| ReplayRuns.NewViewerFromEvent | backend/src/builder/build-api.controller.ts:173-179 | a viewer that asked for nothing in particular has got the last 500 messages before it and all since |
| ReplayRuns.LeftGetsNothing | backend/src/builder/build-api.controller.ts:185-200 | a viewer that left gets nothing more |
| ReplayRuns.AbortStays | backend/src/builder/build-api.controller.ts:181-190 | an upstream that lost its last viewer stays aborted until it ends, even if others come |
| ReplayRuns.AbortedWasLeft | backend/src/builder/build-api.controller.ts:185-190 | an upstream is aborted only after it lost its last viewer |
| ReplayBuffer.ManagerLogs.AddManagerLogClient | backend/src/builder/build-api.controller.ts:173-183 | replays the wanted frames of the buffer in order, attaches the viewer and starts the upstream if it is not running |
| ReplayBuffer.ManagerLogs.RemoveManagerLogClient | backend/src/builder/build-api.controller.ts:185-190 | detaches a viewer; the last one to leave aborts the upstream |
| ReplayBuffer.ManagerLogs.BroadcastManagerLogFrame | backend/src/builder/build-api.controller.ts:192-201 | numbers a frame, buffers it, drops the oldest beyond 500 and sends it to every viewer |
| ReplayBuffer.ManagerLogs.StreamEnded | backend/src/builder/build-api.controller.ts:241-246 | completes and forgets all viewers; buffer and numbers stay |
| LogFanout.RunHolds | backend/src/gitlab/gitlab-job-trace.service.ts:87-151 | under any order of attaching, detaching, overlapping and out-of-order fetches of prefixes of one log, every client received a slice of it from its resume offset, without gap or duplicate |
| LogFanout.SendHolds | backend/src/gitlab/gitlab-job-trace.service.ts:110-122 | sending a client what follows its offset continues its slice |
| LogFanout.FetchCatchesUp | backend/src/builder/package-logs.controller.ts:117-118 | after text arrived, every open client of the entry has it all |
| LogFanout.ReconnectContinues | backend/src/gitlab/gitlab-job-trace.service.ts:67-85 | a client resuming at the last offset of another one continues its text seamlessly |
| LogRuns.JoinsEntry | backend/src/gitlab/gitlab-job-trace.service.ts:67-99 | a client joins the entry its key leads to and gets the buffered text behind its offset at once, or opens an empty entry |
| LogRuns.BufferIs | backend/src/gitlab/gitlab-job-trace.service.ts:133 | an entry buffers the text fetched for it last, and none before |
| LogRuns.TerminalIff | backend/src/gitlab/gitlab-job-trace.service.ts:131-132 | a job is over if and only if the status fetched last says so |
| LogRuns.OpenIff | backend/src/builder/package-logs.controller.ts:76-131 | a client is open until it detaches, a fetch of its entry fails, or a text arrives when its job is over, and no event of another entry closes it |
| LogRuns.ReceivesIs | backend/src/gitlab/gitlab-job-trace.service.ts:110-137 | an open client gets of each text fetched for its entry what lies behind its last chunk, and nothing at any other event |
| LogRuns.ReachIs | backend/src/gitlab/gitlab-job-trace.service.ts:87-137 | every client has read to the end of the longest text buffered when it came or fetched while it was open |
| LogRuns.ReadsTheLog | backend/src/gitlab/gitlab-job-trace.service.ts:67-137 | for texts that are prefixes of one log, a client has received the log from its resume offset to that end |
| LogRuns.StrandedIff | backend/src/builder/package-logs.controller.ts:76-137 | while a client is open, later clients of its key join its entry if and only if no stream of the key has failed, finished or been aborted since it came |
| LogRuns.StreamedIff | backend/src/gitlab/gitlab-job-trace.service.ts:87-151 | a key leads to an entry if and only if an open client watches it whose key nothing has disposed of, and then to the entry of that client |
| LogRuns.StrandedIsReachable | backend/src/builder/package-logs.controller.ts:126-137 | there is a run in which the end of an old stream takes the key from a newer viewer, so that the next one opens another stream |
| LogFanout.LogStreams.SendChunk | backend/src/builder/package-logs.controller.ts:85-92 | sends one client what follows its offset, if anything does |
| LogFanout.LogStreams.Attach | backend/src/builder/package-logs.controller.ts:64-74 | joins the entry of the key and gets its text from the resume offset, or opens an entry |
| LogFanout.LogStreams.Detach | backend/src/gitlab/gitlab-job-trace.service.ts:101-108 | leaves the entry the key leads to now and disposes of it when it is empty |
| LogFanout.LogStreams.TextArrived | backend/src/gitlab/gitlab-job-trace.service.ts:133-146 | sends the new text to every client of the entry one after the other, closes them when the job is over, and keeps the invariant if the text is a prefix of the log |
| LogFanout.LogStreams.SendToAll | backend/src/builder/package-logs.controller.ts:118 | sends a text to each member of a client set once, closing it with the last text |
| LogFanout.LogStreams.StatusArrived | backend/src/gitlab/gitlab-job-trace.service.ts:131-132 | notes whether the job is over |
| LogFanout.LogStreams.FetchFailed | backend/src/gitlab/gitlab-job-trace.service.ts:147-150 | closes every client of the entry and disposes of its key |
| LogFanout.LogStreams.StreamUnwinds | backend/src/builder/package-logs.controller.ts:126-131 | an aborted stream closes nobody and disposes of whatever its key leads to |
| ResponseCache.RunHolds | backend/src/diff-scan/aur-response-cache.ts:18-71 | in every run there are at most 500 entries in the order of last use, at most one request per URL is out, no answer overwrites an entry, and nothing is served past its lifetime or for another URL |
| ResponseCache.LookupServesOrAwaits | backend/src/diff-scan/aur-response-cache.ts:22-51 | a lookup serves the living response that is stored, moves it to the end and sends no request; otherwise it serves nothing, deletes no entry but a stale one of the URL, and exactly one request for the URL is out, new unless there was one |
| ResponseCache.ArrivalStores | backend/src/diff-scan/aur-response-cache.ts:53-70 | a body of at most 2 MiB is stored last with its outcome and time, for five minutes or, after a failure, one, at the cost of the oldest entry if there were 500; a larger one changes nothing |
| ResponseCache.EvictsLeastRecentlyUsed | backend/src/diff-scan/aur-response-cache.ts:61-68 | what an arrival evicts is the one entry used longest ago, and only from a full cache |
| ResponseCache.OneRequestPerUrl | backend/src/diff-scan/aur-response-cache.ts:26-33 | two requests not cleaned up are for different URLs |
| CacheRuns.RequestIs | backend/src/diff-scan/aur-response-cache.ts:22-34 | each request was sent by a lookup of its URL; it is answered by the first arrival or failure for it and over with the clean-up after that |
| CacheRuns.StoredIsArrival | backend/src/diff-scan/aur-response-cache.ts:53-70 | in every run each stored response is one that arrived for a request for its URL, with its body, outcome and time, and the cache was not cleared since |
| CacheRuns.ServedIsArrival | backend/src/diff-scan/aur-response-cache.ts:22-70 | in every run each response served is one that arrived for that URL, with its body, outcome and time, less than five minutes before, or one minute after a failure |
| CacheRuns.EntriesKept | backend/src/diff-scan/aur-response-cache.ts:22-38 | a failure, a clean-up and an answer that no request waits for change no entry, and clearing forgets them all |
| ResponseCache.AurResponseCache.ReuseIfFresh | backend/src/diff-scan/aur-response-cache.ts:40-51 | returns a living response and moves its entry to the end, deletes a stale one |
| ResponseCache.AurResponseCache.Lookup | backend/src/diff-scan/aur-response-cache.ts:22-34 | serves from the cache, joins the request in flight or sends one |
| ResponseCache.AurResponseCache.CacheResponse | backend/src/diff-scan/aur-response-cache.ts:53-70 | stores an answer that is not too large and evicts what exceeds the bound |
| ResponseCache.AurResponseCache.EvictOldest | backend/src/diff-scan/aur-response-cache.ts:63-67 | leaves the last 500 entries in their order |
| ResponseCache.AurResponseCache.RequestFailed | backend/src/diff-scan/aur-response-cache.ts:29-31 | a failed request stores nothing |
| ResponseCache.AurResponseCache.RequestFinished | backend/src/diff-scan/aur-response-cache.ts:29-31 | answered or failed, a request leaves the requests in flight |
| ResponseCache.AurResponseCache.Clear | backend/src/diff-scan/aur-response-cache.ts:36-38 | forgets all entries and no request |
| PipelineStore.RunHolds | backend/src/gitlab/gitlab-pipeline.service.ts:97-152 | after any run of webhooks the store holds exactly the 40 largest ids among those of the last seed and all received since, late updates to evicted ids included, each with its latest status |
| PipelineStore.TopOfTop | backend/src/gitlab/gitlab-pipeline.service.ts:146-152 | cutting back after each arrival leaves what one cut of everything would leave |
| PipelineStore.CutBackIsTop | backend/src/gitlab/gitlab-pipeline.service.ts:146-152 | the eviction keeps the 40 largest ids and changes no pipeline it keeps |
| PipelineRuns.StoreIs | backend/src/gitlab/gitlab-pipeline.service.ts:74-152 | after any run the store has the 40 largest ids of the last listing and the webhooks since, and each of them the record its own listing and webhooks give it, whatever was cut off in between |
| PipelineRuns.RunAgrees | backend/src/gitlab/gitlab-pipeline.service.ts:128-152 | cutting back after each webhook leaves the same pipelines as a store that is never cut back, for the ids it has |
| PipelineRuns.HookAgrees | backend/src/gitlab/gitlab-pipeline.service.ts:128-152 | a pipeline that was cut off never comes back before the next seed, so what was lost of it does not matter |
| PipelineRuns.UnboundedIs | backend/src/gitlab/gitlab-pipeline.service.ts:128-144 | a record has the status and creation time received last, and the project and update time it was listed with or else those its first webhook stands in with |
| PipelineRuns.SeedingIs | backend/src/gitlab/gitlab-pipeline.service.ts:74-76 | seeding keeps the first 40 pipelines of the listing that were not skipped, in its order |
| GitlabPipelines.Service.HandlePipelineWebhook | backend/src/gitlab/gitlab-pipeline.service.ts:128-152 | merges a webhook into the stored pipeline and evicts beyond 40 |
| GitlabPipelines.Service.RemoveAll | backend/src/gitlab/gitlab-pipeline.service.ts:148-151 | deletes the given ids and no other |
| GitlabPipelines.Service.SeedPipelines | backend/src/gitlab/gitlab-pipeline.service.ts:74-108 | replaces everything by the first 40 pipelines of the listing that were not skipped |
| GitlabPipelines.Service.GetLastPipelines | backend/src/gitlab/gitlab-pipeline.service.ts:61-67 | lists every stored pipeline that was not skipped exactly once, in strictly descending order of ids |
| InfoBatcher.RunHolds | backend/src/diff-scan/aur-scan.service.ts:351-386 | in every run the open batch has fewer than 50 requests and is not empty exactly while one timer is armed, the batches cut the requests into pieces in the order made, and each is resolved once its batch is answered |
| InfoBatcher.EachRequestInOneBatch | backend/src/diff-scan/aur-scan.service.ts:351-386 | a request waits unresolved in the open batch, or is in exactly one place of one batch sent off and is then resolved exactly once by its answer, whether that is good, bad or an exception |
| InfoBatcher.WaitsAtMostAWindow | backend/src/diff-scan/aur-scan.service.ts:354-358 | for every waiting request a timer is armed that is due within 50 ms after the request was made |
| InfoBatcher.LastResultWins | backend/src/diff-scan/aur-scan.service.ts:379-381 | a request gets the last result with its name, and nothing exactly when there is none |
| InfoRuns.ValueIff | backend/src/diff-scan/aur-scan.service.ts:379-384 | a request gets a result if and only if the response is good and that is the last result with its name; a bad response or an exception gives nothing |
| InfoRuns.RequestOfEvent | backend/src/diff-scan/aur-scan.service.ts:351-353 | each request is recorded with its own name, in the order and at the time it was made |
| InfoRuns.SentIff | backend/src/diff-scan/aur-scan.service.ts:351-369 | a batch is sent off if and only if its timer fires or the fiftieth request joins it, and it is exactly what was open then |
| InfoRuns.AnsweredIff | backend/src/diff-scan/aur-scan.service.ts:371-385 | a batch has an answer if and only if that is the first that came for it after it was sent off |
| InfoRuns.WaitingIsAnswered | backend/src/diff-scan/aur-scan.service.ts:357-385 | a waiting request is resolved once its timer has fired and its batch has any answer at all |
| InfoBatcher.AurScanService.FetchInfo | backend/src/diff-scan/aur-scan.service.ts:351-360 | adds a request and flushes a full batch or arms the timer |
| InfoBatcher.AurScanService.FlushInfoBatch | backend/src/diff-scan/aur-scan.service.ts:362-369 | swaps the batch for an empty one, clears the timer and sends off what there is |
| InfoBatcher.AurScanService.TimerFires | backend/src/diff-scan/aur-scan.service.ts:357 | a timer that fires flushes the open batch |
| InfoBatcher.AurScanService.CallSettles | backend/src/diff-scan/aur-scan.service.ts:371-385 | resolves every request of the batch, one after the other, from the indexed results or with nothing |
| InfoBatcher.AurScanService.IndexByName | backend/src/diff-scan/aur-scan.service.ts:380 | indexes the results by name, later ones replacing earlier ones |

## Left out

- HTTP, git, database, message broker, GitLab and AUR calls: their outcomes are parameters of the steps, in any order, or functions fixed for one scan.
- The `RegExp` and `TextDecoder` engines: globs, references and operations are matched directly, and decoded text is a sequence of characters.
- UTF-16 surrogate pairs and lower-casing beyond ASCII; package names are ASCII.
- Recognising a `.SRCINFO` file, reading its lines and the texts of the findings: a scan is given the dependency each line names, and the names the source provides.
- The AUR dependency graph of one scan is finite; a repository answering for ever new names would not let the walk end.
- Reading variables and sources out of a package build file; numbers in substring operations beyond 2^53.
- DeploymentCoordination.BumpsWaitForRefresh: announcements waiting for one refresh may resume in any order, although the code resumes them in the order they came.
- Notifications, retries and metrics around a logged build (backend/src/builder/builder-database.service.ts:330-355).
- LogFanout.FetchCatchesUp: does not say that a completed client got the whole log, which is false when an older poll finishes last; `LogRuns.ReachIs` has how far it got.
- LogFanout.LogStreams.TextArrived: clients and entries are values in maps, so the sharing of one client object between a subscriber and an entry is not part of the model.
- The JSON form of manager log messages is the parameter `parse`; abort signals and reconnection delays of the upstream are not modelled.
- ResponseCache.AurResponseCache.Lookup: the content type and the status code of a cached response are represented by whether it was successful.
- PipelineStore.RunHolds: statuses of commits (`statusMap`, `handleExternalStatus`) and the fields of a pipeline besides id, project, status and times are not modelled.
- FailureStreak.ListedIffStreak: joins with packages and silenced failures and the limit of 500 rows are not modelled; ids are positive, as generated by the database.
- FailureStreak.HeldBackIsListed: is about a package base with a single package, since the list has one row per package.
- InfoBatcher.WaitsAtMostAWindow: does not say that the event loop fires a due timer at once.
- Build class scoring, deferred merges, request spacing, controllers, guards, schemas, entities, migrations and the frontend.
