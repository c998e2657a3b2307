# Verified models of the build, release and documentation scripts

The repository keeps a handful of real algorithms in its `scripts/` directory: a gate
scheduler, a type-path analysis, a publication protocol, a rename codemod, and several graph
and text algorithms. This project models them in Dafny 4.11 and proves what they are for.

| part of the project | models | main results |
|---|---|---|
| `GateGraph`, `GateRuns`, `GateOrder`, `GateSchedules`, `GateRunner` | `run-gates.ts` | the cycle finder decides acyclicity; no reachable state stalls; a run is over after at most 2n steps; gates start, and are observed, after their predecessors; results do not depend on worker count or settle order, and have a closed form |
| `TypePaths`, `TypePathProofs`, `TypePathEnding`, `TypePathLoops`, `TypePathMeets`, `TypePathLookup`, `PathSyntax`, `Reexports` | `gen-config-catalog.ts` | `lookupPath` is a sound must/may analysis exactly without the constructs it misreads, and exact where no declaration is met twice; it ends on every graph where indexing is levelled, and never on aliases that lead to one another past an index; path parsing and writing are inverse; re-export search finds exactly what is reachable |
| `PublishSteps`, `PublishSafety`, `PublishConvergence`, `PublishReports`, `Publication`, `ShellWords` | `publish-npm-baseline.ts` | release safety under crashes, reruns and concurrent publishers; resumption after a crash at any command; the exact conditions of success, and what a failed run reports and leaves; printed commands read back in a shell |
| `RescopeTokens`, `RescopePasses`, `RescopeScalars`, `RescopeLine`, `RescopeLaws`, `RescopeFile`, `RescopeFileLaws`, `RescopeEffects`, `RescopeTable`, `ExactEdits` | `rescope-vendor.ts` | what a run writes, forwards and in reverse; `--reverse` undoes the rewrite of a file; the rewrite is idempotent exactly without shared quotes; an exact edit is applied once only, its reverse is pending exactly when it has landed, and restores the text exactly when the new form stands only where it was put |
| `PackageGraph`, `PackageOrder` | `package-graph.ts` | success exactly on known, acyclic dependencies; the output is the permutation by longest-chain depth, then group and name, whatever the input order |
| `ProjectFaces`, `ProjectIsolation` | `project-reference-faces.ts` | no violation is reported exactly when every reachable reference keeps within its config's face, in spite of pruning |
| `Destinations`, `MarkdownSplice` | `project-doc-site.ts` | what a found destination range delimits; splicing backwards is one left-to-right merge |
| `ArtifactDigest` | `client-build-environment.ts` | the hashed stream can be read back; an accepted record pins the artifacts |
| `JsDoc`, `JsDocLaws` | `jsdoc.ts` | the block machine computes the comment's blocks, loses no word, and lays them out line by line |

`Wrappers`, `Text`, `Words`, `Sorting` and `Digraph` hold the notions the parts share.

Code that changes state step by step in the scripts (the scheduling loop, the cycle search, the
shared `seen` sets, the registry publication, the work-list traversal, the scanners, the splice
loop, the JSDoc flush steps) is written as methods, with classes for shared mutable state, and
each method is proved against a function or predicate about which the lemmas are proved.

`dafny verify dfyconfig.toml` checks everything.

## Where the code and its description differ

These statements, made in comments of the scripts or natural to expect, are false of the code.
The code is modelled as it is; each item says what is proved in their place.

- *"Anything it cannot see through resolves 'unknown', never 'missing'"*
  (`gen-config-catalog.ts:309-316`). `lookupPath` passes through `keyof` and `unique` as through
  `readonly` (380); passes over members that are not property signatures, and looks for a
  property by the text of its name, so that it misses the quoted `'x-y'` (337-343, against the
  unquoted keys of 384, 439 and 462); walks the first of several declarations that TypeScript
  merges (133-139); and takes a name for a utility type or for what a search of the files finds,
  although it is namespace-qualified, bound by an inner scope such as a type parameter, declared
  or imported by the file itself, or exported under that name from elsewhere (256-278, 389-400).
  `TypePathProofs.MisreadIsUnsound` gives a wrong definite answer for each of these eight
  constructs. `SoundExactlyWithoutMisreads` shows that the analysis is sound on all type graphs
  built with a set of them exactly when the set is empty.
- *Recursive types bail rather than loop* (`gen-config-catalog.ts:319-326`). The guard's key
  contains the path length and an indexed access lengthens the path, so a declaration such as
  `type A = A["x"]` is never recognised as seen. `TypePathEnding.LevelledWalkEnds` is a condition
  under which every lookup ends, recursion through members included, and
  `TypePathLoops.LoopNeverEnds` one under which none does; neither is necessary, since what a
  lookup meets depends on the names on its path.
- *A release's `latest` moves last* (`publish-npm-baseline.ts:649-651`). A bundle whose own
  dist-tag is `latest` moves it when the entry package is published. That is never too early
  exactly when the entry package is not in the bundle or is its last package:
  `PublishSafety.LatestIsNeverEarlyIffCautious`. The pack command writes a `dev-` tag
  (`publish-npm-baseline.ts:523`), but loading a manifest accepts any tag
  (`publish-npm-baseline.ts:380`).
- *The rewrite is idempotent* (`rescope-vendor.ts:9-16`). Two tokens of one name that share a
  quote, as in `'cordis'cordis'`, are rewritten one a run. `RescopeFileLaws.TextIdempotentIff`:
  idempotent exactly on the files without such a line.
- *`--reverse` undoes an exact edit* (`rescope-vendor.ts:2-3`). `ExactEdits.ReverseRestores`: it
  does exactly when the new form stands only where it was put; otherwise it may misplace the old
  form although both directions classify the edit as landed (`ReverseCanMisplace`).
- *An applied edit is not applied again* (`rescope-vendor.ts:589-593`). For insertions and
  replacements it never is; a deletion may leave its source form again around the cut, and
  `ExactEdits.DeletionRecursIff` says exactly when.

## Model

| member | source | states |
|---|---|---|
| GateGraph.CycleSearch.Visit | scripts/run-gates.ts:749-766 | one visit of the depth-first search: an answer is a genuine closed walk; with none, the gate is complete, the completion order only grew and still lists every gate after its predecessors, and the active path is restored |
| GateGraph.FindDependencyCycle | scripts/run-gates.ts:743-773 | no answer exactly when `needs` and `after` together are acyclic, and then completion order is topological; an answer is a walk along edges from an id back to itself |
| GateGraph.ValidateGateGraph | scripts/run-gates.ts:718-741 | accepts exactly the non-empty, duplicate-free, closed and acyclic gate lists; each error names a real defect and an earlier kind of defect is reported first |
| Digraph.NoStuckSet | scripts/run-gates.ts:797-836 | in an acyclic graph no non-empty set of nodes has an edge from each member back into the set: the reason gates cannot wait for one another forever |
| GateRuns.ReachableInv | scripts/run-gates.ts:793-836 | every state of every run: at most `maxActive` gates run; a gate is started at most once and only when its predecessors allow; results, observations and states agree; every skip has a need that did not pass |
| GateOrder.StartedAfterPredecessors | scripts/run-gates.ts:845-852 | in every state of every run, each started gate has all its `needs` gates answered with a pass and all its `after` gates answered |
| GateOrder.ObservedInOrder | scripts/run-gates.ts:797-836 | among the observed results, each executed gate comes after its `needs` gates, passed, and after its `after` gates |
| GateOrder.StartsFirst | scripts/run-gates.ts:800-803 | the gate that starts is the first of the list that is unanswered, not started, and has its predecessors answered |
| GateOrder.SkipsFirst | scripts/run-gates.ts:811-825 | the gate that is skipped is the first of the list with a need that did not pass, and its reason lists exactly those needs, in their order |
| GateOrder.WaitsAndSkipsLast | scripts/run-gates.ts:799-830 | a run waits only with a full pool or nothing to start, and skips only with nothing running and nothing to start |
| GateRuns.NoStall | scripts/run-gates.ts:808-812 | with nothing running and nothing ready, no gate is blocked exactly when none is pending: the "stalled" error is unreachable |
| GateRuns.Progress | scripts/run-gates.ts:797-836 | a run that is not over can take another step |
| GateRuns.StepDecreases | scripts/run-gates.ts:797-836 | every step decreases twice the pending gates plus the running gates |
| GateRuns.RunsAreShort | scripts/run-gates.ts:797-836 | a run of n gates takes at most 2n steps, whatever settles when |
| GateSchedules.Confluence | scripts/run-gates.ts:799-805 | from any state, executing any ready gate first leads to the same results as the sequential reference |
| GateSchedules.FinishedRunMatchesReference | scripts/run-gates.ts:783-843 | every finished run, with any number of workers and any settle order, holds exactly the results of a one-gate-at-a-time run |
| GateSchedules.ScheduleIndependence | scripts/run-gates.ts:783-843 | two finished runs of the same gates with different worker counts and settle orders have the same statuses and the same skip reasons |
| GateSchedules.StatusInClosedForm | scripts/run-gates.ts:808-835 | a gate is skipped exactly when some proper `needs` ancestor's own outcome is not a pass, else it has its own outcome; `after` edges never enter |
| GateSchedules.ExitCodeInClosedForm | scripts/run-gates.ts:106-108 | the exit code is 0 exactly when every blocking gate passes and none of its `needs` ancestors fails |
| GateRunner.StartReady | scripts/run-gates.ts:798-806 | filling the pool is a sequence of start steps; afterwards the pool is full or nothing is ready, and progress was made exactly when a gate started |
| GateRunner.Schedule | scripts/run-gates.ts:793-836 | the loop refines the steps: whatever promise wins each race, it ends with the results of the sequential reference; the observer saw every result, no gate twice, and each executed gate after its `needs` and `after` gates |
| GateRunner.InListOrder | scripts/run-gates.ts:838-842 | one result a gate, in list order |
| GateRunner.RunGates | scripts/run-gates.ts:783-843 | fails exactly on an invalid graph or concurrency, the graph first; else every gate has the reference's answer, in list order, and the exit code has its closed form |
| TypePathLookup.LookupPath | scripts/gen-config-catalog.ts:317-403 | the recursion over the shared mutable `seen` computes the specified walk; in every world without misread constructs `found` puts the path in Must and `missing` puts it outside May, and where no declaration is met twice with paths of one length the answer is found exactly when the path is in Must and missing exactly when it is outside May |
| TypePathLookup.LookupDecl | scripts/gen-config-catalog.ts:318-361 | a declaration: the guard by position and path length, then the members, the bases, or the aliased type |
| TypePathLookup.LookupType | scripts/gen-config-catalog.ts:362-402 | a type node, every branch of the source in its order, with the same visits left in `seen` |
| TypePathLookup.LookupBases | scripts/gen-config-catalog.ts:348-359 | every base is looked up left to right with one `seen`; a base that is no identifier counts as unknown |
| TypePathProofs.WalkIsSound | scripts/gen-config-catalog.ts:317-403 | on all recursive, multi-file type graphs without misread constructs: found implies Must, missing implies not May, and the answer is exact unless a declaration was met twice at one path length |
| TypePathMeets.BailsIffMetTwice | scripts/gen-config-catalog.ts:322-326 | a completed lookup bails out exactly when, among the questions its types lead to, one declaration is met at two positions with paths of one length |
| TypePathMeets.ExactUnlessMetTwice | scripts/gen-config-catalog.ts:317-403 | where no declaration is met twice so, and no construct is misread, found means in Must, missing means outside May, and conversely |
| TypePathMeets.ExactWithoutNames | scripts/gen-config-catalog.ts:362-402 | on types whose names cannot be resolved the answer is always exact |
| TypePathProofs.MisreadIsUnsound | scripts/gen-config-catalog.ts:337-402 | for each misread construct, a type on which the walk's definite answer is wrong |
| TypePathProofs.UtilitiesPass | scripts/gen-config-catalog.ts:307-397 | each of the four utilities passes a member on to its argument, each of the two array names an element |
| TypePathProofs.SoundExactlyWithoutMisreads | scripts/gen-config-catalog.ts:317-403 | the analysis is sound on all type graphs built with a set of these constructs exactly when the set is empty |
| TypePathEnding.IndexFreeWalkEnds | scripts/gen-config-catalog.ts:317-403 | without indexed access the lookup ends on every graph and never needs a longer path than the given one |
| TypePathEnding.LevelledWalkEnds | scripts/gen-config-catalog.ts:381-387 | with a bound on how much longer indexed accesses can make the path, where property and array hops give a step back, the lookup ends within the path's length plus that bound |
| TypePathEnding.CompletedWalkIsLimitFree | scripts/gen-config-catalog.ts:317-403 | a lookup that ends within one limit has the same answer and visits under every larger limit |
| TypePathLoops.LoopNeverEnds | scripts/gen-config-catalog.ts:322-387 | aliases that lead to one another past at least one indexed access a turn, without a hop, exceed every limit on every path, wherever in their bodies and whatever stands beside |
| TypePathLoops.LoopHasNoLevel | scripts/gen-config-catalog.ts:381-387 | such aliases have no bound, so the two conditions exclude each other |
| TypePathLoops.SelfIndexingNeverEnds | scripts/gen-config-catalog.ts:322-326 | `type A = A["x"]` exceeds every limit |
| TypePathLoops.MemberIndexingEnds | scripts/gen-config-catalog.ts:340-384 | on `interface A { x: A["x"] }` every lookup ends within its path's length |
| PathSyntax.ParsePath | scripts/gen-config-catalog.ts:232-245 | the parsed steps are each dotted segment's member followed by one array hop for each trailing `[]` |
| PathSyntax.SegmentIsMemberThenHops | scripts/gen-config-catalog.ts:234-242 | a segment is one member, whose name does not end in `[]`, followed by as many array hops as `[]` were cut off |
| PathSyntax.HopsAreBrackets | scripts/gen-config-catalog.ts:236-240 | a segment has array hops exactly when its last two characters are an opening and a closing bracket |
| PathSyntax.RenderUndoesParse | scripts/gen-config-catalog.ts:232-245 | writing the parsed steps gives the text back, for every string |
| PathSyntax.ParseUndoesRender | scripts/gen-config-catalog.ts:232-245 | parsing written steps gives them back exactly when they start with a member and no member's name holds a dot or ends in `[]` |
| Reexports.ExportSearch.Find | scripts/gen-config-catalog.ts:256-278 | one search with a shared `seen`: an answer or an unreadable file is reached along re-exports; nothing found means everything newly seen is exhausted |
| Reexports.FirstListed | scripts/gen-config-catalog.ts:268-272 | a list re-exports a name exactly when an element exports it, and the first such element decides the other name |
| Reexports.HopIsReexport | scripts/gen-config-catalog.ts:263-274 | a hop is an export declaration with a relative target: everything keeps its name, a list passes on what it exports, a namespace nothing |
| Reexports.FindExportedTypeDecl | scripts/gen-config-catalog.ts:248-278 | nothing is found exactly when no chain of re-exports and renames, cycles included, leads to a declaration or into an unreadable file; what is found, or thrown, stands at the end of such a chain; the file's own declaration wins, and else the first export declaration that leads to one without coming back |
| PublishSafety.ReleaseSafety | scripts/publish-npm-baseline.ts:630-653 | in every interleaving of starts, crashes, reruns, concurrent publishers and outside use: once any run has passed its `latest` step, every package of its bundle exists with the recorded integrity, then and ever after |
| PublishSafety.MoverIsComplete | scripts/publish-npm-baseline.ts:630-651 | in every interleaving, whichever run moves `latest` with a cautious bundle moves it to that bundle's version, when all of the bundle's packages exist with their integrity, and they exist ever after |
| PublishSafety.LatestNamesCompleteRelease | scripts/publish-npm-baseline.ts:649-651 | with cautious bundles and nobody else moving it, `latest` is where it was, or a publisher moved it last, to its own bundle's version, and every package of that very bundle exists |
| PublishSafety.LatestIsNeverEarlyIffCautious | scripts/publish-npm-baseline.ts:649-651 | a bundle never moves `latest` before it is complete exactly when its own tag is not `latest`, or the entry package is not in it or comes last |
| PublishConvergence.PublishConverges | scripts/publish-npm-baseline.ts:625-653 | a lone run without conflicting integrity and with the entry package available publishes, tags and verifies everything, and changes nothing else |
| PublishConvergence.RerunAfterCrash | scripts/publish-npm-baseline.ts:625-653 | a crash after any number of commands and a rerun end in the registry of an undisturbed run |
| PublishConvergence.RerunWritesNothing | scripts/publish-npm-baseline.ts:755-764 | a further run succeeds without a publish or a dist-tag write |
| PublishConvergence.PublishSucceedsIff | scripts/publish-npm-baseline.ts:625-654 | a lone run succeeds exactly when no published version conflicts and the entry package is available |
| PublishConvergence.VerifySucceedsIff | scripts/publish-npm-baseline.ts:656-698 | verification writes nothing and succeeds exactly on a finished release |
| PublishReports.StopsAtFirstConflict | scripts/publish-npm-baseline.ts:630-650 | a lone run stops at the first package published with another integrity and reports it, or its missing digest; everything before it is published and tagged and nothing else has changed |
| PublishReports.FailsWithoutEntry | scripts/publish-npm-baseline.ts:651 | without conflicts but without the entry package, the run fails at its last step with the whole bundle published |
| PublishReports.ComplainsAboutFirst | scripts/publish-npm-baseline.ts:662-678 | verification names the first package that is missing, has no digest, another integrity or a wrong tag |
| PublishReports.ComplainsAboutLatest | scripts/publish-npm-baseline.ts:686-692 | when every package verifies, a wrong `latest` is reported |
| Publication.RegistryPublication.Publish | scripts/publish-npm-baseline.ts:625-654 | the publishing loop leaves the registry, the write count and the error of the step machine run to its end |
| Publication.RegistryPublication.PublishPackage | scripts/publish-npm-baseline.ts:630-650 | one turn: a missing version is published, a different integrity is an error, and the bundle's tag is ensured |
| Publication.RegistryPublication.UploadIfMissing | scripts/publish-npm-baseline.ts:631-648 | the first half of a turn is the machine's view and upload steps |
| Publication.RegistryPublication.EnsureDistTag | scripts/publish-npm-baseline.ts:755-764 | a tag is written only when it does not name the version yet |
| Publication.RegistryPublication.Verify | scripts/publish-npm-baseline.ts:656-698 | verification gives the machine's verdict and leaves the registry alone |
| ShellWords.PrintedCommandReadsBack | scripts/publish-npm-baseline.ts:994-1003 | a POSIX shell (sections 2.2.2, 2.2.3 and 2.3 of the Shell Command Language) reads the printed command as exactly its words, if and only if none holds a NUL |
| ShellWords.PrintedPlainIff | scripts/publish-npm-baseline.ts:998-1003 | a word is printed unquoted exactly when it is not empty and holds only letters, digits and _ . / : @ = + - |
| RescopeTokens.TokenEndMatchesPattern | scripts/rescope-vendor.ts:530 | the scanner matches exactly what the token pattern matches: equal quotes around the name and an optional subpath without quotes and white space |
| RescopeTokens.ReplaceIsPass | scripts/rescope-vendor.ts:543 | leftmost, non-overlapping replacement is one pass over the text between quotes, in which each match consumes both its quotes |
| RescopePasses.PassesRoundTrip | scripts/rescope-vendor.ts:520-547 | the reverse patterns restore every segment list that holds no target token, whatever quotes are shared |
| RescopePasses.PassesIdempotentIff | scripts/rescope-vendor.ts:539-547 | a second set of passes changes nothing exactly when no two tokens of one pattern share a quote |
| RescopeScalars.ReplaceInHead | scripts/rescope-vendor.ts:531 | a `name:` scalar lies wholly before its line's first quote |
| RescopeScalars.ReplacedScalar | scripts/rescope-vendor.ts:531 | a replaced scalar is a scalar of the new name, and replacing it back restores the line |
| RescopeScalars.ScalarsRoundTrip | scripts/rescope-vendor.ts:539-547 | the reverse patterns restore every scalar line that held no target name |
| RescopeLine.RewriteSplits | scripts/rescope-vendor.ts:531 | a line with inner terminators is rewritten piece by piece, as the pattern's multi-line anchors require |
| RescopeLaws.LineRoundTrip | scripts/rescope-vendor.ts:539-547 | rewriting back restores every line with no target token and no target scalar, across all patterns, subpaths, shared quotes and inner terminators |
| RescopeLaws.LineIdempotentIff | scripts/rescope-vendor.ts:539-547 | a second rewrite leaves a line alone exactly when no two tokens of one name share a quote |
| RescopeFile.PatternsForHas | scripts/rescope-vendor.ts:520-537 | a file's patterns are exactly the renames it is not exempt from: forwards from upstream to scoped name, in reverse from scoped to upstream |
| RescopeFile.LongestFirst | scripts/rescope-vendor.ts:520-537 | a file's longer names are replaced before shorter ones, in either direction |
| RescopeFile.DirectionsFlip | scripts/rescope-vendor.ts:520-537 | the two directions' patterns of a file are each other's flips, with the same exemptions |
| RescopeFile.PatternsAreCompatible | scripts/rescope-vendor.ts:520-537 | an unambiguous table gives patterns no rewrite confuses, in both directions and for every file |
| RescopeFile.RewriteOne | scripts/rescope-vendor.ts:539-547 | the loop over all patterns, skipping exempt ones, is the line rewrite with the applied patterns |
| RescopeFile.RewriteNext | scripts/rescope-vendor.ts:565-576 | one line: a fence line is kept and turns the fence state, an ineligible line is kept, any other is rewritten |
| RescopeFile.Rewrite | scripts/rescope-vendor.ts:560-578 | the file with exactly its eligible lines rewritten, and the number of lines that changed |
| RescopeFileLaws.LinesOfRewritten | scripts/rescope-vendor.ts:565-577 | rewriting neither splits nor joins lines |
| RescopeFileLaws.EligibleStays | scripts/rescope-vendor.ts:566-572 | rewriting opens and closes no Markdown fence, so the same lines are eligible afterwards |
| RescopeFileLaws.ReverseUndoesRewrite | scripts/rescope-vendor.ts:520-578 | either direction undoes the other on every file whose eligible lines hold none of the names it writes, for every unambiguous table and all per-file skips |
| RescopeFileLaws.TextIdempotentIff | scripts/rescope-vendor.ts:560-578 | a second run leaves a file alone exactly when no eligible line has two tokens of one name sharing a quote |
| RescopeFileLaws.NoneChangedIffSame | scripts/rescope-vendor.ts:573-574 | the count of changed lines is zero exactly when the text is unchanged |
| RescopeEffects.LineChangesIff | scripts/rescope-vendor.ts:539-547 | a line changes exactly when it holds a source name as a delimited token or as a `name:` scalar |
| RescopeEffects.NothingLeftIff | scripts/rescope-vendor.ts:539-547 | a run leaves no source name on a line exactly when no two tokens of one name share a quote |
| RescopeEffects.QuotedNameIsRenamed | scripts/rescope-vendor.ts:530-543 | between equal quotes a source name becomes its target; quotes, subpath and surroundings stay |
| RescopeEffects.ScalarMatchesPattern | scripts/rescope-vendor.ts:531 | a line is a scalar exactly when it is white space, perhaps a dash and white space, `name:`, blanks, the name, blanks, and nothing or a comment |
| RescopeEffects.ScalarIsRenamed | scripts/rescope-vendor.ts:544 | a scalar's name becomes its target; what stands before and behind it stays |
| RescopeEffects.FenceIsTicks | scripts/rescope-vendor.ts:567 | a fence line is three backticks after nothing but white space |
| RescopeEffects.LinesOfFile | scripts/rescope-vendor.ts:561-577 | outside Markdown every line is rewritten; in Markdown fence lines stay, the others are rewritten under docs/ and elsewhere only after an odd number of fence lines |
| RescopeEffects.FileResidueIff | scripts/rescope-vendor.ts:560-578 | a run leaves no source name on any eligible line of a file exactly without shared quotes |
| RescopeTable.RenamesAreUnambiguous | scripts/rescope-vendor.ts:49-59 | the nine names and their scoped forms are unambiguous, so all these laws hold of the actual table |
| RescopeTable.TableLaws | scripts/rescope-vendor.ts:49-59 | for the actual nine names, both directions, all skips and every file: the round trip on files with nothing renamed yet, and idempotence exactly without shared quotes |
| RescopeTable.FrameworkNames | scripts/rescope-vendor.ts:50-52 | the three framework packages and their scoped names |
| RescopeTable.LoaderNames | scripts/rescope-vendor.ts:53-55 | three of the plugins and their scoped names |
| RescopeTable.RunnerNames | scripts/rescope-vendor.ts:56-58 | the other three plugins and their scoped names |
| RescopeTable.TableRenames | scripts/rescope-vendor.ts:520-547 | for each of the nine names a file is not exempt from, a run turns the quoted upstream name into the quoted scoped name, and a reverse run turns it back |
| RescopeTable.TableResidue | scripts/rescope-vendor.ts:560-578 | a run over the actual table leaves none of the names it rewrites exactly without shared quotes |
| RescopeTable.SharedLineChangesTwice | scripts/rescope-vendor.ts:13-14 | on a line such as 'cordis'cordis' a second run does change something |
| ExactEdits.CutBackIffClean | scripts/rescope-vendor.ts:667 | splitting joined pieces gives them back exactly when no piece, followed by the separator, holds it earlier |
| ExactEdits.StateByOccurrences | scripts/rescope-vendor.ts:609-622 | pending exactly when the source form occurs as often as expected and, unless the edit deletes, the target form does not; applied exactly when the target form occurs as often as expected and, unless the edit inserts, the source form does not; occurrences are counted by cutting the text into pieces |
| ExactEdits.AppliedOnceOnly | scripts/rescope-vendor.ts:609-622 | applying a pending insertion or replacement leaves its target form at least as often as expected, never leaves it pending, and leaves it applied exactly when nothing extra appeared |
| ExactEdits.DeletionRecursIff | scripts/rescope-vendor.ts:616-619 | a deletion of one site leaves its source form exactly as often as the window around the cut holds it: the target form with up to one character less than the source form's length of the text on either side; so it is pending again exactly when that window holds it once |
| ExactEdits.AppliedIffReversePending | scripts/rescope-vendor.ts:609-650 | an edit of different forms is classified applied exactly when its reverse is classified pending |
| ExactEdits.ReverseRestores | scripts/rescope-vendor.ts:663-669 | the reverse edit restores the text exactly when no piece between the sites, followed by the new form, holds that form earlier and the last piece does not hold it |
| ExactEdits.DeletionCanRecur | scripts/rescope-vendor.ts:616-619 | a deletion that is pending twice |
| ExactEdits.ReverseCanMisplace | scripts/rescope-vendor.ts:663-669 | a landed replacement whose reverse gives another text |
| PackageGraph.TopoSort | scripts/package-graph.ts:59-75 | succeeds exactly when every dependency is known and the graph is acyclic; every package then follows its dependencies in the specified layered order, which for distinct names is a permutation of the input; a failure lists exactly the packages that no number of rounds places |
| PackageGraph.PlacedIffNoLongChain | scripts/package-graph.ts:64-72 | a package is placed within k rounds exactly when no dependency chain from it has more than k names |
| PackageGraph.DepthIsLongestChain | scripts/package-graph.ts:63-73 | the round that places a package is the length of its longest dependency chain |
| PackageGraph.OrderIgnoresInputOrder | scripts/package-graph.ts:59-83 | two inputs with the same packages have the same order |
| PackageGraph.OrderIsPermutation | scripts/package-graph.ts:59-75 | packages with distinct names are each ordered exactly once |
| PackageOrder.OrderWithinDepth | scripts/package-graph.ts:77-83 | in the sorted list depths never fall; within one depth listed groups come in the caller's order, then the others in collation order, each group by name |
| PackageOrder.EntriesAreLast | scripts/package-graph.ts:60 | of several packages of one name the last counts |
| PackageGraph.PlacedAllIsAcyclic | scripts/package-graph.ts:59-75 | a complete order witnesses acyclicity |
| ProjectFaces.InnermostSplitRoot | scripts/project-reference-faces.ts:65-121 | of nested split projects, the innermost one containing the target is chosen |
| ProjectFaces.ProjectFaceExact | scripts/project-reference-faces.ts:88-103 | a config has a face exactly when some config along its `extends` chain names one, and then it is the first such; a chain that turns back on itself or leaves the configs gives none |
| ProjectFaces.VisitReferences | scripts/project-reference-faces.ts:40-59 | one config's conforming targets are scheduled, and each mismatch is reported as often as the config makes the reference |
| ProjectFaces.CollectViolations | scripts/project-reference-faces.ts:30-63 | reports exactly the mismatches reachable over conforming references, each as often as it is made, in order; nothing exactly when every reference of every reachable config conforms |
| ProjectIsolation.OwnFaces | scripts/project-reference-faces.ts:94-97 | the leaf configs and the two base configs carry their own face |
| ProjectIsolation.LetThroughIffConforms | scripts/project-reference-faces.ts:42-57 | a reference is let through exactly when it stays out of split projects, or names, in the innermost one, the leaf of the referring config's face |
| ProjectIsolation.ConformingKeepsFace | scripts/project-reference-faces.ts:50-51 | a conforming reference into a split project goes to a config of the same face |
| ProjectIsolation.ReachedFromAggregates | scripts/project-reference-faces.ts:30-60 | the configs reached are the existing ones among the two root leaf configs and whatever a reached config refers to |
| ProjectIsolation.CollectProjectReferenceFaceViolations | scripts/project-reference-faces.ts:30-71 | the whole check, split projects gathered from the workspace directories: clean exactly when no reachable config refers across the faces; a violation names the innermost split project and the referring face |
| Destinations.SkipWhitespace | scripts/project-doc-site.ts:75-79 | the first position that is not white space |
| Destinations.LabelEnd | scripts/project-doc-site.ts:81-97 | the one position closing the first bracket under backslash escapes, or that there is none |
| Destinations.LabelEndIsUnique | scripts/project-doc-site.ts:81-97 | a label is closed at one position only |
| Destinations.AngleEnd | scripts/project-doc-site.ts:119-125 | the first unescaped closing angle bracket, or that there is none |
| Destinations.PlainEnd | scripts/project-doc-site.ts:127-141 | where a bare destination ends: unescaped parentheses before it are balanced whenever a parenthesis or white space ends it |
| Destinations.PlainEndIsUnique | scripts/project-doc-site.ts:127-141 | a bare destination ends at one position only |
| Destinations.DestinationRange | scripts/project-doc-site.ts:99-142 | exactly the one range that delimits an angle-bracketed or a balanced bare destination after the label and its separator, or exactly the error for what is missing |
| Destinations.DestinationFrom | scripts/project-doc-site.ts:119-141 | the one destination beginning at a position, or that its angle bracket is never closed |
| MarkdownSplice.ApplyReplacements | scripts/project-doc-site.ts:282-286 | splicing in descending start order equals one left-to-right merge of kept text and new values, for all disjoint in-range replacements with distinct starts |
| MarkdownSplice.OutsideSurvives | scripts/project-doc-site.ts:282-286 | every character outside the ranges survives at its shifted position |
| MarkdownSplice.ValuesStand | scripts/project-doc-site.ts:282-286 | every new value stands where its range was, moved by what the replacements before it add |
| MarkdownSplice.MergedLength | scripts/project-doc-site.ts:282-286 | the result is exactly as long as kept text and new values together |
| ArtifactDigest.ClientArtifactDigest | scripts/client-build-environment.ts:247-263 | an empty build is an error; else the count and the hash of the length-framed paths and contents fed to the hasher in turn |
| ArtifactDigest.NextFile | scripts/client-build-environment.ts:255-261 | a file adds its path's length, a colon and the path, then its content's length, a colon and the content |
| ArtifactDigest.DecimalNotation | scripts/client-build-environment.ts:257-259 | lengths are written in decimal notation without leading zeros |
| ArtifactDigest.FramedReadsBack | scripts/client-build-environment.ts:254-261 | the hashed stream can be read back into its listing |
| ArtifactDigest.FramedIsInjective | scripts/client-build-environment.ts:254-261 | two listings with the same stream are equal |
| ArtifactDigest.AcceptedRecordPinsArtifacts | scripts/client-build-environment.ts:237-242 | unless their streams collide, a record is accepted exactly for the artifacts it was made from |
| JsDoc.DocBlocks.FlushPara | scripts/jsdoc.ts:50-59 | flushing empties paragraph, list and item, adds exactly the pending block, and keeps that a paragraph and a list are never both pending |
| JsDoc.DocBlocks.StartItem | scripts/jsdoc.ts:67-74 | a bullet puts a pending paragraph above its list and starts a new item |
| JsDoc.DocBlocks.Take | scripts/jsdoc.ts:66-77 | one line of prose keeps the blocks that the state and the lines to come amount to |
| JsDoc.ParseJsDoc | scripts/jsdoc.ts:32-82 | the description is the blocks of the lines before the first block tag, cut at blank lines and list starts, with links unwrapped and the ends trimmed; the mode is that of the last valid mode tag, and whether there was a mode tag |
| JsDoc.DocKeepsWords | scripts/jsdoc.ts:45-79 | before links are unwrapped, the words of the description are the words of the lines before the first block tag, in order |
| JsDoc.DescriptionKeepsWords | scripts/jsdoc.ts:45-82 | without an opening brace in those lines, the finished description has exactly their words, in order |
| JsDoc.LinkGivesWay | scripts/jsdoc.ts:80 | a link gives way to its text, whatever stands around it |
| JsDocLaws.LinkTextMatchesPattern | scripts/jsdoc.ts:80 | where a link's text begins and ends, as the pattern with its greedy white space has it |
| JsDocLaws.LineKinds | scripts/jsdoc.ts:60-67 | a tag line begins with an at sign after white space, a mode tag with `@mode` and no word character behind it (by character codes), a bullet is a dash at the very start and white space behind it, and a blank line is all white space: each exactly so |
| JsDocLaws.BlankIsAllSpace | scripts/jsdoc.ts:66 | a blank line has nothing but white space |
| JsDocLaws.ModeTable | scripts/jsdoc.ts:62-63 | a line's mode is the one it names behind `@mode`, for each of the five modes |
| JsDocLaws.LastModeIsLast | scripts/jsdoc.ts:63 | the comment's mode is that of its last line with a valid one |
| JsDocLaws.BlankSeparates | scripts/jsdoc.ts:66 | a blank line separates blocks |
| JsDocLaws.ParagraphIsBlock | scripts/jsdoc.ts:67-77 | plain lines up to a blank line or a bullet make one paragraph |
| JsDocLaws.ListIsBlock | scripts/jsdoc.ts:67-76 | bullets with their plain lines, up to a blank line, make one list with one line for each item |
| JsDocLaws.FlatIsNormal | scripts/jsdoc.ts:45 | run-together lines keep their words on one line, with single blanks between them |
| JsDocLaws.BlockLines | scripts/jsdoc.ts:50-54 | a paragraph is one line, a list one line for each item |
| JsDocLaws.BlocksAreSpaced | scripts/jsdoc.ts:80 | between two blocks stands one empty line |

## Left out

- Child processes, git, npm, tar, the file system and console output: the executor is a function from gates to outcomes, the registry a map of versions and tags, configs and files are maps.
- run-gates: an executor that rejects instead of answering, durations, captured output, the gate lists of each mode and the parsing of environment values.
- gen-config-catalog: the TypeScript parser and the resolution of names: what the code resolves a name to, and what the language binds it to where that differs, are parts of a world. A type argument is opaque where its parameter is used.
- TypePathEnding.LevelledWalkEnds: a sufficient condition; the exact one depends on which names a path meets and which visits the guard cuts short.
- TypePathLookup.LookupPath: the `limit` stands for the engine's stack; a lookup that exceeds every limit is one that does not return.
- publish-npm-baseline: packing, staging, the interactive confirmation and the ping and identity commands that precede the first registry change; a tarball replaced between its check and its upload; a registry that assigns `latest` to a first upload by itself.
- PublishSafety.LatestNamesCompleteRelease: `latest` moved by somebody else is excluded by a premise, because nothing in the script can prevent it.
- ShellWords: the pattern `\w` and the shell's rules are modelled on characters; other shells are not.
- rescope-vendor: reading and writing files, the list of excluded files, the summary counts, the post-conditions and the two phases of `main` (exact edits first, then the rewrite of every file); the per-file skips are a parameter, and the table of exact edits is not modelled, only what one edit does.
- RescopeLine.RewriteSplits: the scalar pattern's leading `\s*` may begin its match on an earlier, blank piece of the same line; as that part of the match is put back unchanged, the model starts the match on the piece that holds the key.
- package-graph: reading manifests; the collation is any strict total order on strings.
- project-reference-faces: path resolution and the wording of diagnostics; a path is a list of names and a violation a record, sorted by any given comparison.
- project-doc-site: the Markdown parser, routing and link targets; destination scanning and splicing start from node texts and ranges.
- ArtifactDigest.ClientArtifactDigest: the hash is any function from byte streams; the listing is taken as sorted by the caller, and encoding paths as bytes is left out.
- JsDoc.ParseJsDoc: cutting the comment into lines and stripping their decoration; `@param` and `@returns` parsing.
- ExactEdits.DeletionRecursIff: an edit that is expected once, as every edit of the table is; for more sites `DeletionAppliedOnce` says that a deletion leaving no source form is not pending again.
- ExactEdits.ReverseRestores: an edit one of whose forms is empty, which the table does not have.
- Generated catalogs, notices, workspace checks and other scripts: finite tables or single-branch checks that would only add easy members.
