# Proofs about the agent-space core algorithms

A Dafny model of the parts of the repository that hold an algorithm or a protocol, with proofs of
what those parts are for. `dafny verify dfyconfig.toml` checks everything. There is one module per
component; a component that works by changing things step by step is a class or a method with
loops, proved against a function or a predicate whose own properties are the lemmas beside it.

| module | component |
|---|---|
| `Workflow` | cross-node refinement of a workflow definition: references, bindings, depth-first cycle search |
| `Migrations`, `MigrationRunner`, `MigrationProtocol` | loading migration files; one run statement by statement; any number of runs, interleaved, failing, cut off |
| `LoginStream` | incremental splitting of the login event stream |
| `Publish`, `ReplaceDirectory` | no-clobber publication against concurrent processes; directory swap with a fault at any call |
| `JsonTree`, `ForbiddenKeys`, `KeyTokens`, `ObjectKindConfig` | the recursive JSON checkers, as searches for the first fault in document order |
| `NestedPaginate` | the nested-paginate finders of recipes and pipelines |
| `ConfigJson` | canonical configuration text |
| `RunPolling` | the load-and-poll effect of the run view |
| `SafeExtract` | archive path validation |
| `Navigation` | space-scoped paths and their inverse |
| `Options`, `Sequences`, `Strings` | shared vocabulary: sequences, string order and sorting, decimal numerals, trimming |

SQL effects, file contents, hashing (`sha256`), JSON payload parsing (`parse`) and injected failures
are parameters. Strings are sequences of characters.

## Where the code does less than its documentation says

- `loadMigrations` sorts by file name, which a test calls numeric order (`server/test/migrator.test.ts:119`).
  The two agree on versions a and b, a not the longer, exactly when a is less than as many leading digits
  of b, or greater than b (`Migrations.NameOrderIsNumericOrder`); so always for equal widths, and not for
  9 and 10 (`Migrations.NameOrderCanDisagree`). `Migrations.LoadedInNumericOrder` says it of the whole list.
- A migration whose COMMIT succeeds but whose reply is lost is reported as failed although it is committed
  and tracked (`MigrationProtocol.LostReply` is such a run); `MigrationProtocol.FailureMeans` says that a lost
  reply is the only way to this.
- `migrate` swallows a failing ROLLBACK and a failing unlock and gives the connection back to the pool. Exactly then
  the lock stays taken after the call (`MigrationProtocol.LockKeptExactly`), even after a success
  (`MigrationProtocol.LockKeptAfterSuccess`), and every other run waits until that connection is cut off
  (`MigrationProtocol.BlockedUntilCutOff`).
- `replace_directory` rolls back when publishing fails, but not when an exception arrives between the first
  rename and the assignment that notes it (`ReplaceDirectory.UnnoticedMove`); `RollsBack` is the exact
  condition under which an exception leaves everything as it was. The roll-back can also destroy the entry
  that was to be published (`ReplaceDirectory.LostLink`): exactly when `LosesNew` holds, that is, a dangling
  link is moved in, an exception arrives right after that, and the old entry, a file or another link, is moved
  back over it.
- `spacePath` is documented to leave top-level paths such as Home alone and to preserve queries; followed by a
  query or a fragment, exactly the listed prefixes themselves are scoped all the same
  (`Navigation.QueryHidesTopLevelPath`). Ids with a slash
  and paths with a line break are not recovered by `stripSpacePrefix` (`Navigation.StripUndoesSpacePath`, both
  directions).
- The statuses at which the run view stops polling are not the protocol's terminal ones
  (`RunPolling.StoppingIsNotTerminal`). What is displayed after polling has stopped is final exactly when no
  request is under way, the effect is over, or there is no run (`RunPolling.FinalExactly`);
  `RunPolling.LateAnswerWins` is a run in which an older answer replaces it.
- Three entries of the unsafe token set contain an underscore, and exactly those can never match a token
  (`KeyTokens.UnderscoreEntriesAreDead`); every entry used as a key is rejected all the same
  (`KeyTokens.EveryEntryIsUnsafe`).
- The login stream recognises blank lines only as two line feeds (`LoginStream.DeliversExactly`). The server's own
  formatter (`server/src/modules/providers/cli/credentialBroker.ts:177`) writes those, and all its events arrive
  (`LoginStream.BrokerEventsArrive`). Another producer behind the same URL may end lines with CR LF, as section
  9.2 of the WHATWG HTML Living Standard allows: none of its events arrives
  (`LoginStream.CarriageReturnsHideBlankLines`, `LoginStream.LostBehindCarriageReturns`).

## Model

| member | source | states |
|---|---|---|
| `Workflow.Validate` | packages/protocol/src/workflows.ts:92-140 | no issues exactly for well-formed definitions; every issue other than a cycle is reported exactly when the definition itself has that fault, under the right node and name, each repeated id once per repetition; cycle issues name only ids on a cycle, every closed walk meets one of them, and one exists exactly when the graph is cyclic; without issues the finishing order is an execution order in which every dependency and binding source comes first |
| `Workflow.LocalIssuesExact` | packages/protocol/src/workflows.ts:93-124 | which issues the first two passes report, in terms of the definition alone |
| `Workflow.DependencyIssuesExact` | packages/protocol/src/workflows.ts:101-109 | node a is reported with dependency d exactly when a lists d, and d is a or undeclared |
| `Workflow.BindingIssuesExact` | packages/protocol/src/workflows.ts:110-123 | an input is reported exactly when its source is no dependency, or when its name is bound twice |
| `Workflow.DuplicateIssuesCount` | packages/protocol/src/workflows.ts:93-99 | an id is reported once for each declaration after its first |
| `Workflow.IssuesMeaning` | packages/protocol/src/workflows.ts:92-140 | the same about the issue list alone, from the trace of the search |
| `Workflow.DefinitionCheck.Refine` | packages/protocol/src/workflows.ts:92-140 | the issues are those of the two reference passes, then one per reported id, in order |
| `Workflow.DefinitionCheck.CheckIds` | packages/protocol/src/workflows.ts:93-99 | collects the ids and reports each repetition once |
| `Workflow.DefinitionCheck.CheckReferences` | packages/protocol/src/workflows.ts:100-124 | the second pass over all nodes |
| `Workflow.DefinitionCheck.CheckDependencies` | packages/protocol/src/workflows.ts:101-109 | one issue for each unknown or self dependency |
| `Workflow.DefinitionCheck.CheckBindings` | packages/protocol/src/workflows.ts:110-123 | issues for bindings from non-dependencies and for repeated names |
| `Workflow.DefinitionCheck.Visit` | packages/protocol/src/workflows.ts:128-137 | terminates on every graph, restores `visiting`, and extends finishing order and reports exactly as the specified search |
| `Workflow.DefinitionCheck.VisitDependencies` | packages/protocol/src/workflows.ts:134 | the loop over a node's dependencies, left to right |
| `Workflow.DefinitionCheck.VisitAll` | packages/protocol/src/workflows.ts:138 | one visit per declared node |
| `Workflow.VisitKeeps` | packages/protocol/src/workflows.ts:128-137 | a visit keeps the open nodes a walk, never reopens a finished id, reports only ids on cycles, and reports exactly one id per back edge it meets |
| `Workflow.VisitsKeep` | packages/protocol/src/workflows.ts:134 | the same for all dependencies of the open node |
| `Workflow.OpenNodeOnCycle` | packages/protocol/src/workflows.ts:130-131 | an id met while open lies on a real cycle |
| `Workflow.SearchEnds` | packages/protocol/src/workflows.ts:126-138 | the finished search has met every declared or referenced id once, and its reports are its back edges |
| `Workflow.EveryCycleIsReported` | packages/protocol/src/workflows.ts:126-138 | every closed walk, not just one, runs through a reported id |
| `Workflow.ReportedIffCyclic` | packages/protocol/src/workflows.ts:126-138 | nothing is reported exactly on acyclic graphs |
| `Workflow.ClosedWalkMeetsBackTarget` | packages/protocol/src/workflows.ts:126-138 | every closed walk runs through the target of a back edge of the finishing order |
| `Workflow.FinishingOrderIsExecutionOrder` | packages/protocol/src/workflows.ts:126-138 | for a well-formed definition `visited` fills up in topological order |
| `Workflow.AcceptsExactlyWellFormed` | packages/protocol/src/workflows.ts:92-140 | empty issue list if and only if unique ids, good references and an acyclic graph |
| `Workflow.NoReferenceIssues` | packages/protocol/src/workflows.ts:100-124 | the second pass is silent exactly when every node's references are good |
| `Workflow.NoBindingIssues` | packages/protocol/src/workflows.ts:110-123 | silent exactly when names are distinct and sources are direct dependencies |
| `Workflow.NoDuplicateIssues` | packages/protocol/src/workflows.ts:93-99 | silent exactly when ids are distinct |
| `Workflow.ByIdOfDistinct` | packages/protocol/src/workflows.ts:125 | with unique ids the last-wins map gives each node back |
| `Workflow.ByIdIsLast` | packages/protocol/src/workflows.ts:125 | of several nodes with one id the map keeps the last |
| `Workflow.DepthFirstLeftToRight` | packages/protocol/src/workflows.ts:133-136 | a node finishes after its dependencies, which are visited from left to right |
| `Workflow.DeclaredOrder` | packages/protocol/src/workflows.ts:138 | declared nodes are started in order |
| `Migrations.ParseNameExact` | server/src/db/migrator.ts:63 | parsing recognises exactly the file name pattern and reads off its two groups |
| `Migrations.LoadMigrations` | server/src/db/migrator.ts:66-92 | throws exactly when two matching names share a version, naming such a pair; otherwise every matching file once, in strictly ascending name order, with its own text and checksum |
| `Migrations.NameOrderIsNumericOrder` | server/src/db/migrator.ts:67-69 | name order and numeric order of two versions agree, in both directions, exactly when the shorter one is less than as many leading digits of the longer one or greater than it; always for equal widths |
| `Migrations.LoadedInNumericOrder` | server/src/db/migrator.ts:66-92 | the loaded list goes strictly up as numbers exactly when each two versions meet that condition, and so whenever all have one width |
| `Migrations.NameOrderCanDisagree` | server/src/db/migrator.ts:67-69 | a concrete pair of unequal width that is applied in the other order |
| `Migrations.UnrecordedUntilItsTurn` | server/src/db/migrator.ts:135-148 | a pending file's version is still untracked when the loop reaches it |
| `Migrations.ResumeReachesTheSame` | server/src/db/migrator.ts:127-173 | a run stopped anywhere and a later complete run commit the same files in the same order, and leave the same table, as one run |
| `Migrations.RerunAppliesNothing` | server/src/db/migrator.ts:127-173 | nothing is pending after a complete run |
| `Migrations.PartialRunLeavesNoMismatch` | server/src/db/migrator.ts:136-146 | a rerun never throws because of what an earlier run recorded |
| `MigrationRunner.Connection.Apply` | server/src/db/migrator.ts:148-166 | a file's SQL and its row are committed together or not at all |
| `MigrationRunner.Connection.Migrate` | server/src/db/migrator.ts:121-174 | commits in order exactly the untracked files before its stopping point, stops only at the first mismatch or failed transaction, returns the applied versions; leaves the lock free exactly when the unlock works and so does the ROLLBACK if one was needed |
| `MigrationRunner.Connection.Status` | server/src/db/migrator.ts:177-191 | one row per file, in order, saying whether it is tracked; commits nothing |
| `MigrationRunner.Connection.MigrateAfterFailure` | server/src/db/migrator.ts:121-174 | a run with any faults that could clean up, followed by a clean one, ends like a single clean run |
| `MigrationRunner.TwoRunsAreOne` | server/src/db/migrator.ts:121-174 | the equation of logs and tables behind it |
| `MigrationRunner.CompleteRunTracksAll` | server/src/db/migrator.ts:134-173 | after a complete run every file is tracked with its own checksum |
| `MigrationProtocol.StepKeepsInv` | server/src/db/migrator.ts:121-174 | every statement, failure, lost reply and cut-off of any session keeps the invariant and only extends the committed history |
| `MigrationProtocol.RunIsSafe` | server/src/db/migrator.ts:121-174 | at every moment of every interleaving: no version committed twice, the table lists exactly the committed files with their own checksums, one session at a time in the critical section, no INSERT hits an existing row |
| `MigrationProtocol.HistoryOnlyGrows` | server/src/db/migrator.ts:121-174 | no row is changed or removed, no committed file is lost |
| `MigrationProtocol.NotRecordedYet` | server/src/db/migrator.ts:148-160 | under the lock, a version about to be inserted is not in the table |
| `MigrationProtocol.SuccessMeans` | server/src/db/migrator.ts:134-173 | a successful run committed, in one block and nothing later, exactly the files missing when it read the table, returns them, and all its files are tracked with their checksums |
| `MigrationProtocol.FailureMeans` | server/src/db/migrator.ts:149-163 | a run failing at file k committed the pending files before k, plus k itself exactly when the COMMIT reply was lost, and nothing else ever after |
| `MigrationProtocol.LostReply` | server/src/db/migrator.ts:149-163 | a run that ends in failure with its file committed and tracked |
| `MigrationProtocol.MismatchMeans` | server/src/db/migrator.ts:136-145 | a checksum mismatch at k is the first one; the run committed the pending files before k, and no version from k on was committed by it |
| `MigrationProtocol.OutcomeExactly` | server/src/db/migrator.ts:121-174 | why a run ends as it does: success or mismatch exactly without a failing statement or lost reply, and which of the two by the checksums; a setup failure exactly when a statement failed before the table was read; else a failed file, committed exactly when the reply was lost |
| `MigrationProtocol.SetupFailureMeans` | server/src/db/migrator.ts:132-134 | a run whose setup failed has committed nothing |
| `MigrationProtocol.SuccessCommitsExactly` | server/src/db/migrator.ts:134-173 | of everything committed since the start, a successful run committed the files missing when it read the table, in the order it returns them, and nothing else |
| `MigrationProtocol.SuccessfulRun` | server/src/db/migrator.ts:121-174 | a run that applies a file, tracks its name and checksum, returns its version and succeeds |
| `MigrationProtocol.NeverStuck` | server/src/db/migrator.ts:121-174 | in every reachable state a run that has not ended can go on, waits for the lock, or has lost its connection |
| `MigrationProtocol.NoDoubleApply` | server/test/migrator.test.ts:104-117 | two successful concurrent runs never both report a version |
| `MigrationProtocol.RerunAppliesNothing` | server/src/db/migrator.ts:116-119 | whatever runs in between, a later successful run over the files of a successful one applies nothing |
| `MigrationProtocol.LockKeptExactly` | server/src/db/migrator.ts:161-171 | a run that has ended on a live connection still holds the lock exactly when it took it and its ROLLBACK or its unlock failed |
| `MigrationProtocol.BlockedUntilCutOff` | server/src/db/migrator.ts:161-171 | and then nobody gets the lock until that connection is cut off |
| `MigrationProtocol.LockKeptAfterSuccess` | server/src/db/migrator.ts:167-171 | a successful run that ends with the lock held and another run waiting |
| `LoginStream.LoginStream` | apps/web/src/api/client.ts:1328-1342 | for every cutting into chunks the events are those of the whole text; consumed blocks and buffer rejoin to the text received, and the buffer has no separator |
| `LoginStream.YieldBlocks` | apps/web/src/api/client.ts:1336-1341 | the inner loop yields the event of each data line that parses, in order |
| `LoginStream.DataBlockYields` | apps/web/src/api/client.ts:1336-1340 | between white space, `data: ` and a payload not ending in white space yield the event of that payload, or nothing if it does not parse |
| `LoginStream.OnlyDataBlocksYield` | apps/web/src/api/client.ts:1337-1338 | no other block yields anything |
| `LoginStream.SplitMore` | apps/web/src/api/client.ts:1334-1335 | later text can only affect the last, open part |
| `LoginStream.SplitIsCut` | apps/web/src/api/client.ts:1334 | splitting loses nothing and cuts leftmost |
| `LoginStream.CutIsSplit` | apps/web/src/api/client.ts:1334 | and it is the only way to do so |
| `LoginStream.EventsOnlyAppended` | apps/web/src/api/client.ts:1330-1342 | no event is taken back; a block never followed by a blank line is never delivered |
| `LoginStream.DeliversExactly` | apps/web/src/api/client.ts:1334-1336 | a block is handed over for parsing exactly when the text has two line feeds in a row |
| `LoginStream.CarriageReturnsHideBlankLines` | apps/web/src/api/client.ts:1334 | so with CR LF line ends nothing is yielded |
| `LoginStream.LostBehindCarriageReturns` | apps/web/src/api/client.ts:1334 | one event that arrives behind line feeds and is lost behind CR LF |
| `LoginStream.BrokerEventsArrive` | server/src/modules/providers/cli/credentialBroker.ts:176-178 | what the server's formatter writes is what the client yields: the events of all payloads, in order |
| `Publish.CandidatesDistinct` | ops/scripts/system/atomic_ops.py:17-22 | no two attempts try the same name |
| `Publish.CandidateName` | ops/scripts/system/atomic_ops.py:18-22 | the number goes in front of the whole extension, as in `backup-1.tar.gz`, and comes last when there is no extension or it ends in a dot; leading dots are no extension |
| `Publish.SuffixesExact` | ops/scripts/system/atomic_ops.py:18 | the suffix of a name is all from its first dot that is not leading |
| `Publish.NameParts` | ops/scripts/system/atomic_ops.py:18-19 | every name but one of dots alone can be cut up as these two say |
| `Publish.DotsOnlyName` | ops/scripts/system/atomic_ops.py:18-22 | and for one of dots alone the number comes last |
| `Publish.Directory.PublishNoClobber` | ops/scripts/system/atomic_ops.py:18-31 | terminates in every directory; takes the lowest-numbered free candidate, all lower ones being taken; changes only that name and the temporary one; an error changes nothing |
| `Publish.OccupiedMore` | ops/scripts/system/atomic_ops.py:21-28 | the counter never exceeds the number of files, so the loop ends |
| `Publish.StepKeepsInv` | ops/scripts/system/atomic_ops.py:21-31 | every step of every process leaves each publisher's names holding its own content and never changes the content behind any name that stays, temporary or not |
| `Publish.RunNeverClobbers` | ops/scripts/system/atomic_ops.py:15-31 | between any two moments of a run no file is replaced or lost, except that a publisher that returns in the meantime gives up its temporary name |
| `Publish.ReturnedIsOwn` | ops/scripts/system/atomic_ops.py:30-31 | a returned path holds the publisher's own content and belongs to nobody else |
| `Publish.NumbersGoUpOnlyPastTaken` | ops/scripts/system/atomic_ops.py:21-28 | against any other processes, every name a publisher passed over was taken when it looked |
| `Publish.EndsExactly` | ops/scripts/system/atomic_ops.py:23-31 | a call raises exactly when a link or the removal failed, and returns exactly when it removed the temporary name |
| `ReplaceDirectory.RenamesAreSafe` | ops/scripts/system/atomic_ops.py:41-44 | whichever of the two renames took effect, the old entry is whole at target or backup, the new one under its old name or the target's, and no other path is touched |
| `ReplaceDirectory.FileSystem.Replace` | ops/scripts/system/atomic_ops.py:34-53 | returns exactly when the entry to publish exists, is not the target, and none of the calls on the way fails; then exactly the new entry is at the target and there is no backup; the old entry is whole at target or backup until the new one is at the target; an exception leaves everything as before exactly when `RollsBack`; the new entry survives exactly unless `LosesNew`; other paths untouched |
| `ReplaceDirectory.UnnoticedMove` | ops/scripts/system/atomic_ops.py:42-48 | a call that is interrupted right after the first rename ends with nothing at the target and the old entry at the backup |
| `ReplaceDirectory.LostLink` | ops/scripts/system/atomic_ops.py:44-48 | a call that ends with the entry to be published gone |
| `JsonTree.FirstExact` | packages/protocol/src/runOrchestration.ts:65-87 | the recursive search with early return finds the first fault in document order, and none exactly when there is none |
| `JsonTree.FaultMeaning` | packages/protocol/src/runOrchestration.ts:65-87 | a fault is a bad node, or a bad key of an object, at a position of the tree |
| `ForbiddenKeys.FindForbiddenKeyExact` | packages/protocol/src/runOrchestration.ts:65-87 | null exactly when no key anywhere lower-cases into the set; otherwise the path of such a key, with all others later in pre-order |
| `ForbiddenKeys.ForbiddingMoreRejectsMore` | packages/protocol/src/runOrchestration.ts:89-99 | the check is monotone in the forbidden set |
| `ForbiddenKeys.TraceSafeIsSecretFree` | packages/protocol/src/runOrchestration.ts:101-110 | every TraceSafe value is SecretFree |
| `ForbiddenKeys.NoDeadEntries` | packages/protocol/src/runOrchestration.ts:38-63 | every entry of the sets is in lower case already, so each can match, in whatever case the key is spelled |
| `ForbiddenKeys.EverySpellingIsFound` | packages/protocol/src/runOrchestration.ts:79-82 | an entry is found with any of its letters written as capitals |
| `ForbiddenKeys.PathsAsWritten` | packages/protocol/src/runOrchestration.ts:73-81 | a path gives keys as written and list positions as numerals |
| `KeyTokens.BreaksEverywhere` | packages/protocol/src/objectSchema.ts:77 | no camel-case boundary is lost to overlapping matches |
| `KeyTokens.TokensExact` | packages/protocol/src/objectSchema.ts:74-79 | the tokens are exactly the lower-cased maximal words of the key, cut at every camel-case boundary; trimming is irrelevant |
| `KeyTokens.UnsafeKeyExact` | packages/protocol/src/objectSchema.ts:74-81 | unsafe exactly when some word is in the set |
| `KeyTokens.TokensHaveNoUnderscore` | packages/protocol/src/objectSchema.ts:79 | no token contains an underscore |
| `KeyTokens.UnderscoreEntriesAreDead` | packages/protocol/src/objectSchema.ts:13-30 | an entry of the set is a token of some key exactly when it has no underscore; three entries have one |
| `KeyTokens.EveryEntryIsUnsafe` | packages/protocol/src/objectSchema.ts:13-30 | every entry, with or without underscore, is rejected as a key |
| `ObjectKindConfig.AcceptsExactlyAcceptable` | packages/protocol/src/objectSchema.ts:53-72 | null exactly when every node is at depth at most 8, every array has at most 200 entries and no key is unsafe |
| `ObjectKindConfig.ReportsTheFirst` | packages/protocol/src/objectSchema.ts:53-72 | the message tells the kind and path of the first violation in document order |
| `ObjectKindConfig.PathsAsWritten` | packages/protocol/src/objectSchema.ts:57-69 | a path gives a dot before a key and brackets around a list position |
| `NestedPaginate.FindNestedPaginatePaths` | packages/protocol/src/sourceRecipes.ts:265-278 | the pushing loop collects the specified list |
| `NestedPaginate.FinderExact` | packages/protocol/src/sourceRecipes.ts:265-278 | the paths are exactly those of paginate steps inside another one, in document order, no path twice |
| `NestedPaginate.IssuePathInjective` | packages/protocol/src/sourceRecipes.ts:273-275 | different steps have different paths |
| `NestedPaginate.IssuePathShape` | packages/protocol/src/sourceRecipes.ts:273-275 | a path gives the step number of each level, `steps` in between, and ends in `type` |
| `NestedPaginate.PathsArePositions` | packages/protocol/src/sourceRecipes.ts:265-278 | each path spells out the position it reports |
| `NestedPaginate.AcceptedExactly` | packages/protocol/src/sourceRecipes.ts:287-295 | accepted exactly when all paginate steps are at the top |
| `NestedPaginate.IssueCount` | packages/protocol/src/sourceRecipes.ts:265-278 | as many issues as paginate steps that are not at the top |
| `NestedPaginate.AcceptedIsShallow` | packages/protocol/src/sourceRecipes.ts:264-295 | an accepted definition has at most two levels of steps |
| `NestedPaginate.EmbeddingKeepsIssues` | packages/protocol/src/sourceCustomSourceHandlers.ts:262-292 | a pipeline read as a recipe gets the same issues |
| `ConfigJson.CanonicalConfigJson` | server/src/config.ts:761-771 | the loop computes the canonical text |
| `ConfigJson.CanonicalExact` | server/src/config.ts:746-784 | equal texts if and only if the configurations have the same keys and agree on all but `internalToken`, `googleClientSecret` and `backupDatabaseUrl`; insertion order is irrelevant |
| `ConfigJson.CanonicalMeans` | server/src/config.ts:761-771 | the text is that of one field per key in strictly ascending order, the three secrets replaced by one fixed text |
| `ConfigJson.PlainTextAsIs` | server/src/config.ts:770 | text without special characters is quoted as it is |
| `ConfigJson.ListsAsJson` | server/src/config.ts:770 | lists have brackets and commas |
| `ConfigJson.ObjectsAsJson` | server/src/config.ts:770 | objects have braces, colons and commas |
| `ConfigJson.StringifiedInjective` | server/src/config.ts:770 | no two lists of fields print alike |
| `ConfigJson.QuotedPrefixFree` | server/src/config.ts:770 | a quoted string can be read back from the front of any text |
| `ConfigJson.PrintedPrefixFree` | server/src/config.ts:770 | so can a printed value in front of a comma or brace |
| `RunPolling.Effect.OnDetail` | apps/web/src/hooks/useRun.ts:45-53 | while active, the loaded run is shown, loading ends, and the timer starts unless the status is a stopping one; else nothing changes |
| `RunPolling.Effect.OnPoll` | apps/web/src/hooks/useRun.ts:64-79 | while active, a loaded run takes over what the answer knows and keeps what it does not, and a stopping status clears the timer; else nothing changes |
| `RunPolling.Effect.OnPollError` | apps/web/src/hooks/useRun.ts:80-84 | while active, a failed request shows its error and clears the timer |
| `RunPolling.Effect.OnCleanup` | apps/web/src/hooks/useRun.ts:90-93 | the effect is over and its timer cleared |
| `RunPolling.RunInv` | apps/web/src/hooks/useRun.ts:42-94 | the invariant of every interleaving of responses, ticks and clean-up |
| `RunPolling.OneTimer` | apps/web/src/hooks/useRun.ts:61-93 | at most one timer is ever created, none is live after the clean-up |
| `RunPolling.NoRequestAfterEnd` | apps/web/src/hooks/useRun.ts:79-83 | no request starts after a stopping status, a failed poll or the clean-up |
| `RunPolling.NoWriteAfterCleanup` | apps/web/src/hooks/useRun.ts:42-94 | the hook's state is not written after the clean-up |
| `RunPolling.PollingKeepsKnownFields` | apps/web/src/hooks/useRun.ts:66-78 | polling never turns a known time or error message back to null, nor loses the rest of the run |
| `RunPolling.AnswerIsShown` | apps/web/src/hooks/useRun.ts:64-78 | in every run, an answer that arrives while the effect is active is what is shown next, field by field |
| `RunPolling.DetailIsShown` | apps/web/src/hooks/useRun.ts:48-53 | so is the loaded run, and polling starts exactly when its status is not a stopping one |
| `RunPolling.PollsUntilEnd` | apps/web/src/hooks/useRun.ts:61-86 | polling goes on until a stopping answer, a failure or the clean-up |
| `RunPolling.FinalExactly` | apps/web/src/hooks/useRun.ts:42-94 | in any state, the displayed run stays as it is in every continuation exactly when the effect is over, or the run is loaded and there is none or no timer and no request is left |
| `RunPolling.LateAnswerWins` | apps/web/src/hooks/useRun.ts:62-79 | a run in which a displayed stopping status is replaced for good |
| `RunPolling.StoppingIsNotTerminal` | apps/web/src/hooks/useRun.ts:7-14 | of all statuses exactly `queued`, `running`, `cancelling` and `orphaned` keep polling going, so of the terminal ones `orphaned` alone |
| `SafeExtract.Destination.Extract` | ops/scripts/system/safe_extract.py:11-33 | extracts all members if none is refused and nothing otherwise, and then reports the first refusal; every extracted name stays at the destination or below an allowed root |
| `SafeExtract.PassesExactly` | ops/scripts/system/safe_extract.py:19-28 | a member passes exactly when its name resolves to or below an allowed root with no step up, does not begin with `.//`, and its type is known; a name that begins with a slash resolves to no place inside |
| `SafeExtract.RefusalExactly` | ops/scripts/system/safe_extract.py:19-28 | which members are passed over, and which are refused for which reason |
| `SafeExtract.ComponentsExact` | ops/scripts/system/safe_extract.py:20 | the components are what lies between the slashes |
| `SafeExtract.NotRefusedStaysInside` | ops/scripts/system/safe_extract.py:19-28 | a name that is not refused never leaves the destination |
| `SafeExtract.WalkWithoutParents` | ops/scripts/system/safe_extract.py:23 | without `..` component-wise resolution is concatenation of the parts |
| `Navigation.StripUndoesSpacePath` | apps/web/src/core/navigation.tsx:210-227 | for in-space paths, stripping undoes scoping if and only if the id has no slash and the path no line break |
| `Navigation.FirstIdWins` | apps/web/src/core/navigation.tsx:210-216 | scoping is idempotent; the first non-empty id wins |
| `Navigation.SceneUnchangedByScoping` | apps/web/src/core/navigation.tsx:233-237 | a path has the same scene before and after scoping |
| `Navigation.ScopeOfSpacePath` | apps/web/src/core/navigation.tsx:243-245 | the route scope is 'space' exactly when the path was or became scoped |
| `Navigation.UnchangedExactly` | apps/web/src/core/navigation.tsx:198-216 | exactly the listed prefixes, alone or with more segments, paths of a space, and texts without a leading slash stay as they are; all else gets `/spaces/` and the id in front |
| `Navigation.StripsToRoot` | apps/web/src/core/navigation.tsx:223-227 | a space's own address strips to `/`, and what is no space path stays |
| `Navigation.SceneExact` | apps/web/src/core/navigation.tsx:229-237 | a path has the first scene that lists its first segment, and none exactly when no scene does |
| `Navigation.NoSceneAtRoot` | apps/web/src/core/navigation.tsx:233-236 | the root and a space's own address have no scene |
| `Navigation.QueryHidesTopLevelPath` | apps/web/src/core/navigation.tsx:198-216 | a path outside the space stays as it is alone; with a query or fragment it does exactly when it is not itself a listed prefix, and is else moved into the space |
| `Strings.LessIsNumeric` | server/src/db/migrator.ts:69 | equal-width numerals compare as their numbers |
| `Strings.SortIsSorted` | server/src/db/migrator.ts:69 | sorting gives an ascending permutation |
| `Strings.DecimalInjective` | ops/scripts/system/atomic_ops.py:22 | different counters print differently |
| `Strings.DecimalHasNoLeadingZero` | ops/scripts/system/atomic_ops.py:22 | no numeral but zero starts with a zero |
| `Strings.LowerExact` | packages/protocol/src/runOrchestration.ts:80 | lower-casing maps the capitals to the small letters one by one and leaves all else |
| `Strings.TrimCuts` | apps/web/src/api/client.ts:1337 | trimming removes the white space around a text |
| `Strings.TrimLeaves` | apps/web/src/api/client.ts:1337 | and nothing else |

## Left out

- Declarative Zod shapes, enums and one-field refinements, registries, Drizzle schemas and seeds, React components, the rest of the API client, Fastify wiring, the launcher and the deployer: records and constants that can be read off.
- `workflows.ts` field limits (1 to 30 nodes, non-empty strings): the checks are proved for every list of nodes.
- Message texts of the workflow, migration and extraction errors are constructors carrying their parameters.
- Shadowed duplicate nodes: the cycle search follows only the last node of an id, as the code does, so cycle statements are about that graph.
- Real PostgreSQL: a migration's SQL is an entry in the committed log; SQL that contains its own COMMIT, touches the tracking table or takes locks, the reuse of a pooled connection by a later run, the log callback and failing file reads are not modelled. That runs eventually end is not claimed.
- `MigrationRunner.Connection.Commit`: a failing COMMIT has no effect here; the lost reply of a successful one is in `MigrationProtocol`.
- `MigrationRunner.Connection.MigrateAfterFailure`: the first run's ROLLBACK and unlock work; after one that keeps the lock a second run has to wait, as `MigrationProtocol.BlockedUntilCutOff` says.
- `MigrationRunner.Connection.Run`: SQL is recorded as having run, not interpreted.
- `Migrations.LoadMigrations`: file names are ordered by Unicode scalar value, which differs from JavaScript's UTF-16 order only beyond the Basic Multilingual Plane.
- `LoginStream.LoginStream`: takes decoded text, so `fetch`, `TextDecoder` and exceptions thrown into the generator by its consumer are not part of this model.
- `Publish.RunNeverClobbers`: other processes only create files; processes that delete or overwrite are not modelled, and a publisher's name does not depend on them. Suffixes follow pathlib before Python 3.14, and the desired path has a file name: for one without, pathlib raises instead of numbering it.
- `ReplaceDirectory.FileSystem.Replace`: paths are independent names of one file system, no other process acts meanwhile, and the freshness of the random backup name is a requirement; removal of the backup is one call that may leave any part of it when it fails.
- `ForbiddenKeys.FindForbiddenKeyExact`: lower-casing is ASCII.
- `ObjectKindConfig.AcceptsExactlyAcceptable`: the size limit of the serialized text (objectSchema.ts:32-43) is not included; lower-casing is ASCII.
- `ConfigJson.CanonicalExact`: values are null, booleans, integers, strings and string lists; keys are identifiers, which JavaScript keeps in insertion order; unpaired surrogates cannot occur. SHA-256, the freezing and the time stamp of the snapshot are left out.
- `RunPolling.NoRequestAfterEnd`: about one effect; the empty run id, and the order in which React applies effects of different runs, are left out. When a displayed status is final is `RunPolling.FinalExactly`.
- `SafeExtract.Destination.Extract`: extraction itself is one step that does not fail; links and special files are left to tarfile's data filter, which is not part of this model.
- `Navigation.SceneUnchangedByScoping`: for ids without a slash and paths without a line break, the ones that stripping recovers; scenes carry only their id and segments, and a non-string target of `spacePath` cannot occur.
