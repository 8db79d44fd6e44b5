# Binder IDL toolchain: a model with proofs

This project models the host tools that version Android interface definitions (AIDL) for Linux, and
the wire code that those versions promise to keep compatible. It proves what the tools are for:

* **Versions.** Interfaces import each other and are frozen one at a time. However they are edited
  and frozen, the frozen versions never form a cycle; the order of freezing is a topological order
  exactly when every import was frozen before its importer. The dependency resolver then finds, for
  every interface, the newest version reachable. The library list exists exactly when nothing but
  the current imports could be circular and is not.
* **Releases on disk.** Whatever sequence of edits, updates and freezes runs, and whichever of them
  abort, numbered directories never change, always pass their hash check, and older ones stay
  compatible with newer ones. The on-disk life refines the version store.
* **Surfaces.** Source text is stripped of comments, cut into declarations, put into canonical
  spacing, dumped as text and read back. Each stage undoes the other or keeps the meaning. Two
  surfaces are compared; the verdict (none, major, breaking) is characterised exactly by an extension
  relation, composes along chains of releases, and means something: a verdict that is not breaking
  implies that old and new parcelables and interfaces understand each other on the wire, parcelables
  inside parcelables, lists, unions and arguments included, whichever of their types grew. Each side
  then holds what its own release can know of a value (`NestedParcels.Convert`).

`dafny verify dfyconfig.toml` checks everything.

## How it is built

| module | what it holds |
|---|---|
| `Basics`, `Text`, `Sorting`, `SortedNames`, `OrderedDict`, `Digraph` | options, searching and numerals, sorting, string order, insertion-ordered dictionaries, walks and cycles |
| `TopologicalSort`, `VersionStore`, `TargetNames`, `ImportRecords`, `DependencyResolver`, `LibraryList`, `InterfaceLoader` | the sort, runs of edits and freezes, names of targets, records as they are read back, the resolver, the library list, which definition is loaded |
| `ReleaseCycle` | update and freeze on disk, refining `VersionStore` |
| `CommentStripper`, `StatementSplitter`, `Normalizer`, `NormalForm`, `Spacing`, `EnumBody`, `EnumText`, `Headers`, `HeaderLayout`, `DeclarationParser`, `SourceDump`, `TypePaths`, `SourceTexts` | from source text to declared types, on trees and on texts |
| `SurfaceModel`, `MemberNames`, `SurfaceDump` | declared types, the names of their members, their dump and its reader |
| `SurfaceDiff`, `DiffReport`, `SurfaceReport`, `DiffLaws`, `DiffAlgebra`, `MemberEdits`, `EnumVerdict` | the diff, what it reports and decides, how verdicts add up, what single edits come to |
| `Parcel`, `WireFormat`, `NestedParcels`, `Transactions`, `WireCompatibility` | size-headed records, structured values between two releases, calls, and what a verdict means for them |

Loops and objects of the program are methods and classes, each proved equal to a recursive
specification function; the theorems are about those functions.

Hypotheses the code needs are stated where they are needed, and where possible shown to be exact:

* an interface name must not contain `-v`: records are text, split at the first one. The resolver is proved
  over the records as they are read; that this is over what was frozen iff no import that counts has the
  separator in its name is `DependencyResolver.SeparatorsBreakResolution`, and
  `DependencyResolver.DashedNameFails` is an instance;
* a pin must not contain `-v`: the library list is keyed by text (`LibraryList.TextsTellTargetsApart`;
  `LibraryList.PinReadsAsAnother` is an instance of the contrary);
* every import has been frozen once before its importer is frozen (`VersionStore.DisciplineIsClosure`
  and `VersionStore.FreezeOrderIsTopological` are equivalences; `VersionStore.UnfrozenImportDangles` says
  what happens otherwise, `VersionStore.UndisciplinedFreezeDangles` is an instance);
* no two ordered members of a type share a name, where the verdict is read in terms of lines
  (`DiffAlgebra.ExtendsIsPrefix`, `DiffAlgebra.ClassificationInLines` and the wire theorems assume it,
  `DiffAlgebra.HomonymsHideChanges` shows, for every type in which two do, a change the diff misses);
* no cycle of current imports can be reached from an interface whose next version is resolved
  (`DependencyResolver.NextRecursionEnds` is an equivalence);
* a record fits a 32-bit size (`WireFormat.RecordRoundTrip` is an equivalence).

The naming of members is a parameter of the diff, so its laws hold for every naming; the one the tool
uses is `SurfaceModel.MemberName`.

### Where code and documentation differ

* A freeze records the latest frozen version of each import even when the definition pins another;
  the recorded target is the pinned one only when the pin is the latest version
  (`LibraryList.FreezeIgnoresPins`; host/aidl_api.py:118-126).
* An update that fails validation has already copied its files and stays so (host/aidl_api.py:275-288).
  The check before the copy compares the sources with `current`; validation compares the latest frozen
  version with all that `current` then holds, old files included (`ReleaseCycle.UpdateOutcome`, with the
  instance `ReleaseCycle.MovedFileRun`).
* After a freeze the stamp of `current` names the version before, so that validation fails until the
  next update (`ReleaseCycle.NothingUntilUpdate`).
* The diff is described as detecting every changed member; with homonyms it does not
  (`DiffAlgebra.HomonymsHideChanges`, with overloads as instance in `DiffAlgebra.OverloadsHideChanges`).
* A body whose closing brace is missing loses its last character
  (`StatementSplitter.UnclosedBodyLosesLast`; host/aidl_surface.py:136-143).
* Numbered directories are ordered as strings: without `current`, version 9 is loaded rather than version 10
  (`InterfaceLoader.NineBeatsTen`; host/aidl_interface.py:307-311).
* A pin spelled `unknown` is no pin: it is the marker for an import without one
  (`LibraryList.UnknownPinIsNoPin`; host/aidl_interface.py:50-53, 139-140).

## Model

| member | source | states |
|---|---|---|
| `TopologicalSort.Sort` | host/aidl_interface.py:108-128 | on any dependency dictionary, repeated edges and self-loops included: a missing key is reported iff some dependency is no key; an order is returned iff every dependency is a key and there is no cycle; the order holds each key once, dependencies first |
| `TopologicalSort.CountIndegrees` | host/aidl_interface.py:109-112 | the counters are the numbers of edges into each key, or the missing keys are listed |
| `TopologicalSort.InitialQueue` | host/aidl_interface.py:114-115 | the queue starts with exactly the keys nobody depends on, each once |
| `TopologicalSort.Release` | host/aidl_interface.py:120-123 | taking a key lowers each counter by the number of its edges and queues exactly the keys that drop to zero, each once |
| `TopologicalSort.StepProgress` | host/aidl_interface.py:117-123 | the loop invariant: no key is queued twice, the queue and the done keys are exactly those with counter zero, and dependents come before dependencies |
| `TopologicalSort.LeftOverIsCyclic` | host/aidl_interface.py:125-128 | when fewer keys were taken than there are, the rest contains a cycle |
| `TopologicalSort.Finished` | host/aidl_interface.py:125-128 | the length test decides acyclicity, and the reversed list is a topological order |
| `VersionStore.RunKeepsChronicle` | host/aidl_api.py:104-129 | over every run of edits and freezes, records point only to targets frozen earlier or to version 0, and no version records two versions of one import |
| `VersionStore.FrozenGraphIsAcyclic` | host/aidl_api.py:104-129 | whatever is frozen in whatever order, even with cyclic current imports, frozen versions form no cycle |
| `VersionStore.DisciplineIsClosure` | host/aidl_api.py:118-121 | every recorded target exists iff every freeze of the run found all its imports frozen |
| `VersionStore.FreezeClosure` | host/aidl_interface.py:1249-1257 | one freeze keeps the records closed iff they were closed and each import has a frozen version |
| `VersionStore.FreezeOrderIsTopological` | host/interface-update.py:88-112 | the order of freezes in time is a topological order of the frozen graph iff the run is disciplined |
| `VersionStore.UnfrozenImportDangles` | host/aidl_interface.py:1253-1254 | in every run, a freeze that finds an import never frozen records version 0 of it; the record stays in every later state and its target never exists |
| `VersionStore.UndisciplinedFreezeDangles` | host/aidl_interface.py:1253-1254 | an instance: `hal` frozen before `common` records `common` at version 0 |
| `VersionStore.RecordsAreNotAhead` | host/aidl_interface.py:1249-1263 | no record ever names a version later than the latest of its interface |
| `DependencyResolver.Resolver.AddDependency` | host/aidl_interface.py:683-707 | keeps the newest version of each interface, moves a replaced entry to the end and preprocesses it with the other entries |
| `DependencyResolver.Resolver.ProcessImports` | host/aidl_interface.py:553-635 | terminates on acyclic graphs, restores the depth counter, and its state is the depth-first visit of the target over the imports as they are looked up, records read back from their text |
| `DependencyResolver.Resolver.ProcessBelow` | host/aidl_interface.py:618-626 | the loop over imports visits each in dictionary order and fails iff one visit fails |
| `DependencyResolver.VisitSucceeds` | host/aidl_interface.py:1196-1236 | a visit fails iff some target reachable from it does not exist |
| `DependencyResolver.VisitMerges` | host/aidl_interface.py:683-707 | a visit merges exactly the targets reachable from it, keeping per interface the maximum |
| `DependencyResolver.MaxMergeUnique` | host/aidl_interface.py:687-693 | the merge determines its result |
| `DependencyResolver.VisitPrepares` | host/aidl_interface.py:729-788 | whenever a target is preprocessed, all it reaches is already recorded, in a version at least as new |
| `DependencyResolver.VisitConsistent` | host/aidl_interface.py:683-707 | the recorded order is that of the last preprocessor runs, each interface is recorded in the version that was preprocessed last, versions of one interface only rise, and every run was given exactly what had been recorded of the others |
| `DependencyResolver.RunIsWalkable` | host/aidl_interface.py:618-626 | in every store reached by a run the records as they are read make a graph that answers every lookup on the resolver's way |
| `DependencyResolver.NextIsWalkable` | host/aidl_interface.py:577-583 | so does the part of the current import graph that is reached, when no cycle can be reached |
| `DependencyResolver.NextEdge` | host/aidl_interface.py:577-583 | in next mode edges lead from the next version of an interface to the next version of every interface on its current import list, and to no other |
| `OrderedDict.FirstAssignments` | host/aidl_interface.py:1230-1233 | the imports of a version are gone through in the order in which their names first occur |
| `OrderedDict.LastAssignment` | host/aidl_interface.py:1230-1233 | of several records of one name the last counts |
| `DependencyResolver.NextRecursionEnds` | host/aidl_interface.py:577-583 | in next mode the recursion from an interface has a deepest point iff no cycle of current imports can be reached from it |
| `ImportRecords.ReadGraphIsAcyclic` | host/aidl_interface.py:1230-1236 | reading records back makes no cycle: a misread record leads to no frozen version |
| `ImportRecords.ReadableEdge` | host/aidl_interface.py:1230-1236 | where no import that counts has `-v` in its name, the imports read are the imports recorded |
| `DependencyResolver.SeparatorsBreakResolution` | host/aidl_interface.py:1230-1236 | what is resolved over the records as read is the resolution over what was frozen iff no reachable import has `-v` in its name |
| `DependencyResolver.MisreadImportFails` | host/aidl_interface.py:1230-1236 | a frozen version whose last import has `-v` in its name never resolves |
| `DependencyResolver.DashedNameFails` | host/aidl_interface.py:1230-1236 | an instance: `hal`, frozen after `audio-video`, which it imports |
| `DependencyResolver.GetDependencies` | host/aidl_interface.py:501-551 | on every reachable store: frozen mode succeeds iff every target that the records as read lead to exists, and records the maximum version over that closure; for a disciplined run this is the closure of what was frozen iff no reachable import has `-v` in its name; next mode, when no cycle can be reached from the interface, does so over current imports, each at its own next version |
| `TargetNames.RecordRoundTrip` | host/aidl_interface.py:1231-1233 | a recorded import is read back as written iff the name contains no `-v` |
| `TargetNames.SeparatorInNameIsMisread` | host/aidl_interface.py:1231-1233 | every name with `-v` is read back as what comes before it, hence as another interface |
| `TargetNames.RereadMisreads` | host/aidl_interface.py:1230-1233 | a record of a name with `-v` is read as a version that never exists, of the name before the first `-v` |
| `TargetNames.LibTextInjective` | host/aidl_interface.py:182-192 | tags without `-v` make library target names unambiguous, whatever the interfaces are called |
| `TargetNames.ImportRoundTrip` | host/aidl_interface.py:56-79 | an import entry is read back as written iff its name has no `@` and both parts of a pinned entry are nonempty |
| `LibraryList.RegisterInterface` | host/aidl_interface.py:177-192 | registering an interface adds exactly its frozen targets and `current`, with the recorded and current dependencies |
| `LibraryList.GenerateLibraries` | host/aidl_interface.py:146-260 | over the dictionary keyed by text: the list is unresolved iff a dependency's text is not registered, produced iff in addition there is no cycle; then every registered target has one line, after the lines of its dependencies |
| `LibraryList.LibGraphClosed` | host/aidl_interface.py:226-249 | on stores reached by runs, all targets resolve iff the run is disciplined and current imports and pins resolve |
| `LibraryList.LibGraphAcyclic` | host/aidl_interface.py:131-143 | on such stores the target graph is acyclic iff the unpinned and `@current` imports are |
| `LibraryList.LibrariesOfRun` | host/aidl_interface.py:146-260 | where no pin contains `-v`, the list is produced iff the run is disciplined, pins resolve and the current imports that follow `current` are acyclic, and unresolved iff one of the first two fails |
| `LibraryList.TextsTellTargetsApart` | host/aidl_interface.py:177-192 | where no pin contains `-v`, no two targets that the list mentions have the same text, so the dictionary keyed by text is the one over pairs |
| `LibraryList.PinReadsAsAnother` | host/aidl_interface.py:140-142 | an instance of the contrary: the pin `common@1-v2` and version 2 of `common-v1` have the same text |
| `LibraryList.UnknownPinIsNoPin` | host/aidl_interface.py:131-143 | an entry pinned `unknown` links against `current`, as one without a pin does |
| `LibraryList.LastPinCounts` | host/aidl_interface.py:1128-1140 | of several current entries for one interface the last one's pin counts, and no other |
| `LibraryList.ImportText` | host/aidl_interface.py:131-143 | the target of a current import is written with its name, `-v`, `current` or the pin, and `-cpp` |
| `LibraryList.FreezeIgnoresPins` | host/aidl_api.py:118-121 | for every store and every import as the loader keeps it, the target a freeze records is the one the import links against iff it is pinned to the latest frozen version |
| `LibraryList.PinnedToOlderVersion` | host/aidl_api.py:118-121 | an instance: pinned to version 1, frozen against version 2 |
| `InterfaceLoader.LoadInterfaces` | host/aidl_interface.py:300-324 | of all definitions of a name the last in sort order is loaded; the keys are in order of first occurrence, and all definitions are listed in sort order |
| `InterfaceLoader.WalkOrderIsIrrelevant` | host/aidl_interface.py:300-324 | for every order in which the walk finds the same definitions, the table, the order of its keys and the list of all definitions are the same |
| `InterfaceLoader.CurrentWins` | host/aidl_interface.py:307-310 | a name defined under `current` is loaded from a `current` directory |
| `InterfaceLoader.GreatestWins` | host/aidl_interface.py:307-310 | a definition is loaded iff each other one of its name gives way: to one under `current`, else to a directory name that is greater where the two first differ, else to such a path |
| `InterfaceLoader.LaterVersionWins` | host/aidl_interface.py:307-310 | without `current`, of two numbered directories the later version is loaded when the numbers have as many digits |
| `InterfaceLoader.NineBeatsTen` | host/aidl_interface.py:307-310 | with more digits it is not: version 9 is loaded rather than version 10 |
| `InterfaceLoader.NamesInOrder` | host/aidl_interface.py:312-324 | the keys of the table are in the order of their first definitions |
| `SortedNames.LessAtFirstDifference` | host/aidl_interface.py:311 | the string order is decided by the characters at the first difference |
| `InterfaceLoader.LoadOrderIsSorted` | host/aidl_interface.py:307-311 | sorting keeps the definitions and puts them in key order |
| `ReleaseCycle.RunRefines` | host/aidl_api.py:202-340 | the definitions after any run of commands are those of the version store after its edits and completed freezes |
| `ReleaseCycle.FrozenVersionsAreAcyclic` | host/aidl_api.py:291-340 | over every run of commands, aborted ones included, frozen versions form no cycle |
| `ReleaseCycle.RunIsSound` | host/aidl_api.py:178-340 | in every reachable workspace exactly the listed versions are on disk, each with the right hash, neighbours compatible |
| `ReleaseCycle.FrozenNeverChanges` | host/aidl_api.py:75-84 | a numbered directory is the same, files and hash, in every later state of the run |
| `ReleaseCycle.FrozenVersionsStayGood` | host/aidl_interface.py:363-434 | every frozen version passes its hash check, and every older one is compatible with every newer one |
| `ReleaseCycle.HashWordsDiffer` | host/aidl_interface.py:802-809 | consecutive versions are hashed with different words |
| `ReleaseCycle.HashWords` | host/aidl_interface.py:802-809 | up to version 1 the word is `latest-version`, later it is the decimal numeral of the version before |
| `ReleaseCycle.FreezeNeedsUpdate` | host/aidl_interface.py:416-426 | right after a freeze `current` validates iff the hash does not tell the two words apart; otherwise another freeze has no effect |
| `ReleaseCycle.NothingUntilUpdate` | host/aidl_interface.py:416-426 | unless the hash confuses the words, after a freeze and until the next update of the interface no command of any run changes its directories, and validation fails |
| `ReleaseCycle.UpdateOutcome` | host/aidl_api.py:270-288 | in every reachable workspace, an update that passed its check validates iff the latest frozen version, if any, is compatible with all that `current` then holds |
| `ReleaseCycle.UpdateCopies` | host/aidl_api.py:248-279 | an update is refused iff versions are frozen and the dependencies fail or the sources are not compatible with `current`; otherwise `current` holds every source file with the text of the source, every other old file, nothing else, and the stamp of the next version |
| `ReleaseCycle.FreezeStoresSources` | host/aidl_api.py:270-340 | over every run: a completed freeze after an update, with no edit of the interface in between, stores the source text of every source file in the new numbered directory |
| `ReleaseCycle.FreezeMakesVersion` | host/aidl_interface.py:973-981 | on every reachable workspace where `current` exists and validates, dependencies resolve and imports are known, the version list grows by one iff nothing is frozen or the compiler tells the latest frozen files from the current ones; otherwise nothing is added |
| `ReleaseCycle.VersionsDiffer` | host/aidl_api.py:68-84 | in every reachable workspace the compiler tells any two neighbouring frozen versions apart |
| `ReleaseCycle.FreezeStamps` | host/aidl_api.py:309-315 | a freeze that validates stamps `current` anew, whether or not a version comes of it, and leaves files, sources and import list alone; any other does nothing |
| `ReleaseCycle.ValidationMeaning` | host/aidl_interface.py:363-434 | on any directories, sound or not, a validation succeeds iff every listed version exists, every hash is that of the files and the word of its version, only the last directory lacks one, each is compatible with the next, and the dependencies resolve once there are two |
| `ReleaseCycle.ValidationOutcome` | host/aidl_interface.py:363-434 | on reachable directories this comes down to the hash of `current` and its compatibility with the latest frozen version |
| `ReleaseCycle.MovedFileFails` | host/aidl_api.py:275 | a type that moves to another file passes the check before the copy and fails validation after it, under a check that allows one file |
| `ReleaseCycle.MovedFileRun` | host/aidl_api.py:275 | a run that gets there |
| `ReleaseCycle.ReleaseTool.ValidateInterface` | host/aidl_interface.py:363-434 | succeeds iff all listed directories exist, all hashes are right, only the last may lack one, and neighbours are compatible |
| `ReleaseCycle.ReleaseTool.ListDumps` | host/aidl_interface.py:381-414 | lists the frozen versions in order and then `current`, or fails on a missing directory |
| `ReleaseCycle.ReleaseTool.UpdateApi` | host/aidl_api.py:202-288 | the whole new workspace, and success iff the sources were compatible and the result validates, dependencies resolved separately before and after the copy |
| `ReleaseCycle.ReleaseTool.AppendVersion` | host/aidl_api.py:104-129 | the new version list: the old one and the latest version of each import |
| `ReleaseCycle.ReleaseTool.FreezeApi` | host/aidl_api.py:291-340 | the whole new workspace, for completed and aborted freezes |
| `CommentStripper.StringEnd` | host/aidl_surface.py:61-66 | the index just past the literal, backslash escapes skipped, or the end |
| `CommentStripper.StripComments` | host/aidl_surface.py:69-89 | the loop computes `Strip` |
| `CommentStripper.LiteralsAreVerbatim` | host/aidl_surface.py:75-78 | every string literal reached in code is copied unchanged |
| `CommentStripper.LiteralCloses` | host/aidl_surface.py:61-66 | a literal whose text is made of characters other than quotes and of backslashes with the character after them ends right after the next quote |
| `CommentStripper.LiteralRunsOn` | host/aidl_surface.py:61-66 | without that quote it runs to the end of the text |
| `CommentStripper.QuotedIsKept` | host/aidl_surface.py:75-78 | such a literal is kept whole, comment openers in it included, and stripping goes on after it |
| `CommentStripper.StripIdempotent` | host/aidl_surface.py:69-89 | stripping twice is stripping once, for every text |
| `CommentStripper.NoCommentIsLeft` | host/aidl_surface.py:79-85 | no comment opener is left outside literals |
| `CommentStripper.BlockCommentIsIrrelevant` | host/aidl_surface.py:82-85 | replacing a block comment by any other leaves the result unchanged, one that runs to the end of the text included |
| `CommentStripper.LineCommentIsIrrelevant` | host/aidl_surface.py:79-81 | so does replacing a line comment, at the end of the text too |
| `StatementSplitter.MatchBrace` | host/aidl_surface.py:134-145 | the loop finds the end of the braced text, literals skipped |
| `StatementSplitter.SplitStatements` | host/aidl_surface.py:119-155 | the loop computes `Split` |
| `StatementSplitter.NestedIsShorter` | host/aidl_surface.py:136-145 | every nested body is strictly shorter than the text it was cut from, for every text |
| `StatementSplitter.SplitUnstructured` | host/aidl_surface.py:129-133 | `;`, `{` and `}` inside literals never cut a statement |
| `StatementSplitter.MatchPrinted` | host/aidl_surface.py:134-145 | scanning a printed tree of any depth comes out at the depth it went in |
| `StatementSplitter.SplitUndoesPrint` | host/aidl_surface.py:119-155 | cutting a printed declaration tree gives its statements and declarations in order, bodies whole |
| `StatementSplitter.InsideIsBeforeMatch` | host/aidl_surface.py:134-145 | for every text, what is taken as inside the braces is all before the matching brace, or, without one, all but the last character |
| `StatementSplitter.BodyEndsAtMatch` | host/aidl_surface.py:134-145 | a declaration whose brace is matched is cut there, and splitting goes on after it |
| `StatementSplitter.UnclosedBodyLosesLast` | host/aidl_surface.py:134-145 | one whose brace is never matched takes all the rest, less its last character |
| `Normalizer.NormalizeStatement` | host/aidl_surface.py:92-116 | the loop computes `Normalize` |
| `Normalizer.SettleIsTwoPasses` | host/aidl_surface.py:100-106 | the four substitutions amount to tidying and spreading |
| `Spacing.OneSign` | host/aidl_surface.py:100-106 | a character between two identifiers, with any white space around it: `(`, `)`, `[` and `;` are closed up, `]` and `,` get one space after them, `=` one on each side, and any other character keeps one space for each run it had |
| `NormalForm.NormalizeIdempotent` | host/aidl_surface.py:92-116 | for every text, the canonical form is its own canonical form |
| `NormalForm.NormalizeKeepsSubstance` | host/aidl_surface.py:92-95 | only white space outside literals changes, so a change inside a literal always shows |
| `NormalForm.NormalizeTrimmed` | host/aidl_surface.py:116 | for every text, white space around it does not matter |
| `NormalForm.NormalizeIsLine` | host/aidl_surface.py:92-116 | the canonical form of a nonblank statement is one trimmed line |
| `EnumBody.ParseEnumBody` | host/aidl_surface.py:170-191 | the loop computes the member lines, or the error of a malformed integer |
| `EnumText.SpelledReads` | host/aidl_surface.py:54 | for every number, an optional sign and its decimal numeral, or `0x` or `0X` and its numeral to base 16 in either letter case, read as that signed number |
| `EnumText.BodyMembers` | host/aidl_surface.py:170-191 | for every body written with identifiers and integer literals in any layout, a trailing comma included, each line is the name and the decimal numeral of the nearest literal before it plus the distance, or of its index |
| `EnumText.BodyUnknown` | host/aidl_surface.py:185-190 | an expression that is no literal is kept in canonical spacing, and lines after it are bare up to the next literal |
| `EnumText.MalformedBody` | host/aidl_surface.py:182 | a decimal numeral with a leading zero anywhere, other than zero, makes reading the enum fail |
| `EnumBody.DumpedInt` | host/aidl_surface.py:183-190 | each dumped integer is the nearest preceding literal plus the distance, or the index where there is none |
| `EnumBody.UnknownInt` | host/aidl_surface.py:185-190 | after an expression that is no literal the integer is unknown until the next literal |
| `EnumBody.IntRoundTrip` | host/aidl_surface.py:54 | a printed integer reads as itself |
| `MemberNames.MethodLine` | host/aidl_surface.py:306-313 | the name of a method line is the identifier before its parameter list |
| `MemberNames.ValueLine` | host/aidl_surface.py:306-313 | the name of a field, constant or enumerator line is the identifier before its value, parentheses in the value notwithstanding |
| `EnumVerdict.EnumEditVerdict` | host/aidl_surface.py:369-389 | an edit of an enum is classified by the name-to-integer tables alone |
| `EnumVerdict.ReorderingVerdict` | host/aidl_surface.py:369-389 | a reordered enum is classified none iff every name keeps its integer |
| `Headers.SplitAnnotations` | host/aidl_surface.py:158-167 | the loop computes `TakeAnnotations` |
| `Headers.HeaderRoundTrip` | host/aidl_surface.py:289-301 | a printed header is read back, whatever its annotations |
| `HeaderLayout.HeaderInAnyLayout` | host/aidl_surface.py:158-200 | a header with any white space between its parts, inside annotations and before their arguments is read as its kind, direction and name, and its annotations in order without white space |
| `HeaderLayout.HeaderExactly` | host/aidl_surface.py:289-301 | a text is read as a header iff after its annotations it is made of `oneway` or nothing, one of the four kind words and a name, and of no other words |
| `DeclarationParser.SurfaceReader.ParseType` | host/aidl_surface.py:194-217 | enters the declaration and all nested ones, or reports the error; under which names is stated by `TypePaths` |
| `DeclarationParser.SurfaceReader.ParseMembers` | host/aidl_surface.py:205-211 | enters nested declarations and collects the other statements as canonical members |
| `DeclarationParser.SurfaceReader.ParseFile` | host/aidl_surface.py:230-245 | enters every declaration of a file and every forward declaration |
| `DeclarationParser.MembersOfTree` | host/aidl_surface.py:205-211 | members are the canonical statements of the type in declaration order |
| `DeclarationParser.ReadTree` | host/aidl_surface.py:194-217 | the nested declarations of a printed tree are read as the tree declares them |
| `SourceDump.ParseUndoesPrint` | host/aidl_surface.py:119-155 | parsing a printed file, of any nesting depth and layout, yields exactly the types its tree declares |
| `TypePaths.QualifiedIsFull` | host/aidl_surface.py:201 | the qualified name is the nonempty ones of package, enclosing types from the outside in, and own name, joined by dots |
| `TypePaths.DeclaredIsEntered` | host/aidl_surface.py:194-245 | a type declared at any depth is in the table under its path joined by dots, with the kind, direction, sorted annotations and members of its declaration |
| `TypePaths.EnteredIsDeclared` | host/aidl_surface.py:194-245 | the table holds nothing else |
| `TypePaths.DistinctExactly` | host/aidl_surface.py:201-217 | no qualified name is declared twice iff at every level siblings bear different names, forward declarations of the file included |
| `TypePaths.FullNameIsInjective` | host/aidl_surface.py:201 | different paths have different qualified names |
| `SourceDump.EachTypeOnce` | host/aidl_surface.py:212-217 | with distinct qualified names every declared type is in the table as declared, and nothing else is |
| `SourceDump.TakenAreAnnotations` | host/aidl_surface.py:158-167 | every annotation taken off any text is a whole annotation without white space |
| `SourceDump.SortAllSorts` | host/aidl_surface.py:215 | sorting annotations gives a sorted permutation |
| `SourceDump.SourceRoundTrip` | host/aidl_surface.py:248-303 | whatever declaration tree is printed and read, its dump is read back as the same types |
| `SourceTexts.TextIsPrinted` | host/aidl_surface.py:119-155 | every text with closed literals and matched braces is the print of its tree |
| `SourceTexts.ParseText` | host/aidl_surface.py:194-245 | every such text is parsed into exactly the types its tree declares |
| `SourceTexts.TextRoundTrip` | host/aidl_surface.py:248-303 | whatever such text is read, its dump is read back as the same types |
| `SourceDump.DocOnlyChange` | host/aidl_surface.py:38-41 | sources that differ in a comment, wherever it stands, give the same types, verdict none and an empty report |
| `SurfaceDump.Dump` | host/aidl_surface.py:261-272 | the loop prints the types by ascending name |
| `SurfaceDump.ParseDumpLines` | host/aidl_surface.py:279-303 | the loop computes `ParseDump`, or the error at a bad header |
| `SurfaceDump.DumpRoundTrip` | host/aidl_surface.py:263-303 | reading a dump gives back the surface it was printed from |
| `SurfaceDump.DumpIsBlocks` | host/aidl_surface.py:261-272 | the dump is one block a type with an empty line between: annotations, `oneway`, kind and name on one line, each member on a line indented by four spaces |
| `SurfaceDump.BadLineFails` | host/aidl_surface.py:283-295 | reading fails iff some line is neither blank, nor indented, nor a header |
| `SurfaceDump.ReadIsSorted` | host/aidl_surface.py:296-301 | annotations are read in sorted order, whatever order a dump lists them in |
| `SurfaceDump.DumpIsInjective` | host/aidl_surface.py:263-303 | two dumps are the same text iff the surfaces are equal |
| `SurfaceDiff.DiffSequence` | host/aidl_surface.py:316-366 | reports exactly the removed, changed, reordered and added members, in order |
| `SurfaceDiff.DiffNamed` | host/aidl_surface.py:369-389 | reports exactly the enumerators or constants removed, changed and added, by name |
| `SurfaceDiff.DiffType` | host/aidl_surface.py:406-436 | reports the changes of head, annotations and members of one type |
| `SurfaceDiff.DiffSurface` | host/aidl_surface.py:392-446 | the report lists every change in order and its verdict is the worst severity |
| `DiffReport.NamedReport` | host/aidl_surface.py:369-389 | an enumerator or constant is reported removed iff it is gone, changed iff its line differs, added iff it is new |
| `DiffReport.OrderedReport` | host/aidl_surface.py:316-366 | where the survivors keep their order, a field or method is reported removed iff gone, changed iff its line differs, added iff new |
| `DiffReport.ReorderedReport` | host/aidl_surface.py:339-347 | where they do not, losses and the reordering are reported and additions are not |
| `DiffReport.MovedIsOutOfPlace` | host/aidl_surface.py:338-339 | the survivors do not come first and in their old order iff some surviving name does not stand where the survivors before it leave it |
| `DiffReport.FirstsInOrder` | host/aidl_surface.py:325 | lost members are gone through in the order in which their names first occur |
| `DiffReport.LossesFollowNames` | host/aidl_surface.py:325-337 | losses are reported in the order of the names, none twice |
| `DiffReport.JoinGrows` | host/aidl_surface.py:344 | a reordering names the survivors with a comma and a space between them |
| `SurfaceReport.TypeReport` | host/aidl_surface.py:398-407 | for any two surfaces, a type is listed as removed iff the new one lacks it and as added iff the old one does, under its kind and name |
| `SurfaceReport.HeadReport` | host/aidl_surface.py:409-415 | a type is listed as changed, with the words before and after, iff kind or `oneway` differ |
| `SurfaceReport.LostAnnotationReport` | host/aidl_surface.py:416-420 | an annotation is listed as removed iff it is |
| `SurfaceReport.NewAnnotationReport` | host/aidl_surface.py:417-426 | and as added iff it is, breaking unless it is `@VintfStability` |
| `SurfaceReport.EnumReport` | host/aidl_surface.py:427-428 | enumerators are listed as enum values: removed iff gone, changed iff the line differs, added iff new |
| `SurfaceReport.ConstReport` | host/aidl_surface.py:430-434 | constants of any other type are listed as constants in the same way |
| `SurfaceReport.OtherReport` | host/aidl_surface.py:435-438 | its other members are listed as methods for an interface and as fields otherwise: removed iff gone, changed iff the line differs |
| `SurfaceReport.GainReport` | host/aidl_surface.py:348-366 | and as added, or as a new union arm, iff new and no survivor is out of place |
| `SurfaceReport.ReorderReport` | host/aidl_surface.py:338-347 | a reordering is listed iff some survivor is out of place |
| `SurfaceReport.ReportInOrder` | host/aidl_surface.py:396-438 | the report goes through types by ascending name, and through each: head, annotations lost and gained, members by name lost and gained, ordered members lost, then gained or reordered |
| `DiffLaws.SequenceVerdict` | host/aidl_surface.py:316-366 | the ordered diff breaks iff names do not stay in front, a line changes or a union gains an arm, and is major iff in addition there is a new name |
| `DiffLaws.NamedVerdict` | host/aidl_surface.py:369-389 | the diff by name breaks iff an old entry is lost or changed, and is major iff there is a new one |
| `DiffLaws.AnnotationVerdict` | host/aidl_surface.py:416-426 | annotations break iff one is lost or one other than `@VintfStability` is gained |
| `DiffLaws.TypeVerdict` | host/aidl_surface.py:406-436 | the verdict on a type is that of extension and growth |
| `DiffLaws.Classification` | host/aidl_surface.py:392-446 | for any two surfaces: breaking iff the new one does not extend the old, else major iff something was added, else none |
| `DiffAlgebra.ExtendsIsPrefix` | host/aidl_surface.py:339-366 | without homonyms, extension means the old lines are a prefix of the new ones, and all of them for a union |
| `DiffAlgebra.HomonymsHideChanges` | host/aidl_surface.py:320-323 | of two members with one name the first can be replaced by any line of that name unnoticed |
| `DiffAlgebra.OverloadsHideChanges` | host/aidl_surface.py:320-323 | an instance: of two overloads of a method the first may change its parameters unnoticed |
| `DiffAlgebra.ClassificationInLines` | host/aidl_surface.py:392-446 | without homonyms: not breaking iff every old type survives with kind and direction, annotations grown by `@VintfStability` at most, enumerators and constants kept and its other lines a prefix of the new ones, equal for a union; none iff nothing was added either |
| `DiffAlgebra.GrowthAddsUp` | host/aidl_surface.py:392-446 | along two extensions something is added iff one of them adds something |
| `DiffAlgebra.NoChangeIsEmpty` | host/aidl_surface.py:439-446 | the verdict is none iff the report is empty |
| `DiffAlgebra.SelfDiffIsEmpty` | host/aidl_surface.py:392-446 | any surface against itself: none, and no changes |
| `DiffAlgebra.VerdictByExtension` | host/aidl_surface.py:392-446 | the verdict is determined by extension in the two directions |
| `DiffAlgebra.MajorReversedBreaks` | host/aidl_surface.py:392-446 | for any two surfaces, major one way is breaking the other way |
| `DiffAlgebra.Compose` | host/aidl_surface.py:392-446 | for any three surfaces, two steps that do not break have together the worse of their verdicts |
| `DiffAlgebra.ChainVerdict` | host/aidl_surface.py:392-446 | along any chain, up to its first break, the verdict from the first release to any later one is the worst of the steps |
| `MemberEdits.ConstIsSixCharacters` | host/aidl_surface.py:430-433 | a member is taken for a constant iff its line begins with the six characters `const` and a space |
| `MemberEdits.AddedConstant` | host/aidl_surface.py:430-434 | in every surface, a line that begins so and bears a new name, put anywhere into a type that is no enum, gives major, and taking it out gives breaking |
| `MemberEdits.InsertedMember` | host/aidl_surface.py:338-347 | any other line, put in front of a field or method of another name, gives breaking |
| `MemberEdits.AppendedMember` | host/aidl_surface.py:348-366 | one with a new name, put after all others, gives major, and breaking for a union |
| `MemberEdits.AddedAnnotation` | host/aidl_surface.py:421-426 | a new annotation gives major iff it is `@VintfStability`, else breaking |
| `MemberEdits.RemovedAnnotation` | host/aidl_surface.py:418-420 | losing any annotation gives breaking |
| `Parcel.Int32RoundTrip` | binder_aidl_gen/android/os/ConnectionInfo.cpp:8-9 | a written 32-bit integer reads as its value wrapped to 32 bits |
| `Parcel.ParcelBuffer.WriteFields` | binder_aidl_gen/android/os/ConnectionInfo.cpp:39-46 | the fields lie one after the other at the old position; refused iff one of them is |
| `Parcel.ParcelBuffer.WriteRecord` | binder_aidl_gen/android/os/ConnectionInfo.cpp:35-52 | the buffer holds the size-headed record at the old position and nothing else changed; the position is its end |
| `Parcel.ParcelBuffer.ReadRecordInto` | binder_aidl_gen/android/os/ConnectionInfo.cpp:5-34 | the reader's status, position and fields, for any bytes |
| `WireFormat.ReadEndsAtSize` | binder_aidl_gen/android/os/ServiceDebugInfo.cpp:5-34 | on arbitrary bytes every successful read ends at its start plus the declared size |
| `WireFormat.RefusedHeader` | binder_aidl_gen/android/os/ConnectionInfo.cpp:8-15 | a record whose size is missing, less than four, or ends past the greatest 64-bit position is refused and its fields keep their values; any other has its fields read |
| `WireFormat.RefusedField` | binder_aidl_gen/android/os/ConnectionInfo.cpp:16-31 | when a field is refused, its fault is returned, the fields before it have been read and the others are as they were |
| `WireFormat.RecordRoundTrip` | binder_aidl_gen/android/os/ServiceDebugInfo.cpp:5-52 | a record written by one side under its schema is read by another under any shorter or longer version iff its size fits 32 bits: shared fields arrive as the two encodings convey them, others keep their values, the position is the end |
| `WireFormat.StreamRoundTrip` | binder_aidl_gen/android/os/ServiceDebugInfo.cpp:5-52 | records written back to back by any sides and versions are read one by one by readers of any versions that meet theirs |
| `WireFormat.ListReadsBack` | binder_aidl_gen/android/os/IServiceManager.cpp:500 | the elements of a list arrive in order, each as it is conveyed |
| `NestedParcels.DecodesBack` | binder_aidl_gen/android/os/ConnectionInfo.cpp:5-52 | whatever one release writes, of any depth of parcelables, unions and lists, a related release reads whatever follows: it ends where the writer ended and holds at every level the fields it knows and its own for the rest |
| `NestedParcels.RecordIsRead` | binder_aidl_gen/android/os/ConnectionInfo.cpp:5-34 | a nested parcelable is read as a record like any other, for any bytes |
| `NestedParcels.OlderIsRelated` | host/aidl_surface.py:351-357 | an older release and one in which any of its parcelables grew can read each other |
| `NestedParcels.ConvertFits` | binder_aidl_gen/android/os/ConnectionInfo.cpp:16-31 | what a release receives is a value of its own types |
| `NestedParcels.ConvertSame` | binder_aidl_gen/android/os/ConnectionInfo.cpp:16-31 | a value whose types did not grow arrives unchanged |
| `NestedParcels.ThereAndBack` | binder_aidl_gen/android/os/ConnectionInfo.cpp:5-52 | what an older release sends comes back to it unchanged from a newer one |
| `Transactions.OnTransact` | binder_aidl_gen/android/os/IServiceManager.cpp:523-884 | status and reply for every code and every data bytes, codes outside the interface handed on |
| `Transactions.CallThrough` | binder_aidl_gen/android/os/IServiceManager.cpp:20-507 | what the caller gets, for every remote behaviour, fallback included; a one-way call reads no reply |
| `Transactions.SentIsDelivered` | binder_aidl_gen/android/os/IClientCallback.cpp:60-82 | what is sent for a method that both sides have at the same place is delivered to it with the arguments as they are conveyed, one-way or not |
| `Transactions.SharedMethodIsCalled` | binder_aidl_gen/include/android/os/BnServiceManager.h:10-22 | a call of such a method reaches it whichever side is newer; the service gets the arguments and the caller the answer as the two sides' encodings convey them, and of a one-way call nothing |
| `Transactions.NullArgumentIsReported` | binder_aidl_gen/android/os/IServiceManager.cpp:880-884 | a null that is refused on reading never reaches the service; a caller that waits gets the null-pointer exception |
| `Transactions.TurnedAway` | binder_aidl_gen/android/os/IServiceManager.cpp:523-535 | codes other than 1 up to the number of methods are handed on; under those, data with another interface's token, or none that can be read, is refused as of a bad type and the service is not called |
| `Transactions.OtherInterface` | binder_aidl_gen/android/os/IServiceManager.cpp:526-529 | a caller of another interface gets that refusal |
| `Transactions.NewMethodOldService` | binder_aidl_gen/android/os/IServiceManager.cpp:20-507 | a method that neither the service nor its base knows goes to the default implementation, or fails as unknown |
| `WireCompatibility.LinesStayInPlace` | host/aidl_surface.py:339-366 | a diff that does not break keeps kind and lines of every surviving type in place |
| `WireCompatibility.ExtensionIsGrowth` | host/aidl_surface.py:339-366 | a surface that extends another is a release in which all its types at most grew, and the two can read each other |
| `WireCompatibility.ParcelableUpgrade` | host/aidl_surface.py:351-357 | a verdict other than breaking implies that old and new versions of every parcelable exchange records both ways, whatever grew inside it |
| `WireCompatibility.ChainInterop` | host/aidl_surface.py:351-357 | any two releases of a chain without breaks exchange any parcelable both declare, whatever grew inside it |
| `WireCompatibility.InterfaceUpgrade` | host/aidl_surface.py:316-366 | a verdict other than breaking implies that an old client's call reaches the same method of the new service, with its arguments as the new release sees them, and returns the service's answer as the old release sees it |
| `WireCompatibility.NewClientOldService` | host/aidl_surface.py:316-366 | so does a new client's call of a method that the old service has |
| `WireCompatibility.ReceivedAsSent` | binder_aidl_gen/android/os/IServiceManager.cpp:530-540 | arguments whose types did not grow are received as they were sent |
| `WireCompatibility.SeenAsAnswered` | binder_aidl_gen/android/os/IServiceManager.cpp:385-392 | an answer whose types did not grow is seen as a direct call would return it |
| `WireCompatibility.MergedShape` | binder_aidl_gen/android/os/ConnectionInfo.cpp:16-31 | where nothing inside grew, an older reader holds exactly its fields, a newer one the written fields and its own for the rest |
| `WireCompatibility.UnionNeedsItsArm` | host/aidl_surface.py:349-360 | a union is understood iff the reader knows the arm written, otherwise it fails with a bad value |

## Left out

- The resolver's "latest" mode: it records one version but reads the imports of another, so it has no closure it could be compared with.
- DependencyResolver.GetDependencies: for the next version it assumes that no cycle of current imports can be reached from the interface; from one that can, the program recurses until it is stopped (NextRecursionEnds).
- On-disk snapshots in the library list, the module-local layout and "unstable" interfaces.
- Duplicate version labels in a definition file: versions are their ordinals, as the tools write them.
- The external compiler, hash, file copying, YAML and JSON reading, logging and command lines: the compiler's checks and the hash are arbitrary functions, compatibility where needed transitive; copies merge files and delete none.
- ReleaseCycle.ReleaseTool.FreezeApi: takes the outcomes of the dependency checks inside a freeze as parameters; they are the resolver's "latest" mode.
- The encodings of strings, binders and statuses: they come from the Android sources; any encoding that is nonempty and read back whatever follows is covered, and 32-bit integers are shown to be one. The presence marker before a parcelable, the count before a list, `FIRST_CALL_TRANSACTION` and the null-pointer code are taken from there too.
- What the base class answers to codes outside an interface: an arbitrary function.
- `out` and `inout` parameters: no interface here has any; arguments go one way.
- Explicit transaction ids: methods have the ids of their positions, as the generated code here does.
- The positions a parcel is left at after a failed write; failed writes are a status only.
- Which type an AIDL line denotes on the wire: an arbitrary function of the line.
- The regular expressions that find the package and remove package and import lines: an arbitrary function of the stripped text.
- SourceTexts.ParseText: covers texts with closed literals, matched braces and no malformed enum integer; on other texts the scanners are modelled, and what an unmatched brace does is proved.
- SourceTexts.TextRoundTrip: assumes that literals hold no line breaks and that enumerators are identifiers with nonblank expressions; otherwise the dump is not one line a member.
- Word characters beyond ASCII in `\w`; digits beyond ASCII in enum values.
- The error raised when a member has no word before `=`: its name is the empty string here.
- Code generation, CMake and shell plumbing, the QEMU harness, the example service, callback proxies: build plumbing or easy.
