# SynapseNote: verified models of its algorithms

SynapseNote is a desktop and server application with a number of self-contained algorithms around
its core: a scheduler that spreads test files over shards, a glob compiler that decides which files
enter a cache key, an editor that writes one server entry into a user's TOML configuration without
disturbing the rest, codecs for the structured lines of commit messages, a shell-command printer, a
release resolver with a shared cache, and several graph and sequence algorithms. This project models
them in Dafny, branch by branch, and proves what they are for.

`dafny verify dfyconfig.toml` checks everything. Code that works by updating variables, arrays,
fields or closures is a method or a class here, proved equal to a specification function or
predicate; the laws are lemmas about that specification, for all inputs.

| files | what they model |
|---|---|
| `ShardBalancer`, `ShardBounds`, `ShardTightness`, `TestManifest`, `TestRunner` | longest-first scheduling of test files, the test manifest, the sharded runner |
| `Regex`, `Glob`, `GlobLanguage`, `GlobSegments`, `GlobTerminators` | the glob-to-regex compiler, a parser and matcher for the regexes it writes, and their reading segment by segment |
| `CacheKey`, `CacheFraming` | which files enter a cache key, and the framing of the text that is hashed |
| `OrderedPairs`, `Toml`, `TomlLaws`, `McpEdit`, `McpLaws`, `McpRuns` | the format-preserving TOML edit engine and its JSON conversions |
| `JsonNumber`, `JsonText`, `JsonLaws` | JSON text (RFC 8259) as `JSON.stringify` writes and `JSON.parse` reads it |
| `CommitBody`, `CommitLaws`, `CommitReaders`, `Subject` | commit-message lines and subjects of the shadow repository |
| `ShellWords`, `ShellQuote` | shell quoting against the word rules of POSIX.1-2017 |
| `BetaRelease`, `BetaResolver` | the newest beta of a release listing, and the redirect with its last-known-good cache |
| `Affected`, `AffectedLaws` | test planning by reverse dependencies |
| `Bursts`, `BurstFilter` | grouping transactions into bursts between human edits, and the agent filter |
| `ThemeTokens`, `ThemeLaws` | flattening of CSS `var()` references |
| `PathResolve` | write-through resolution of symbolic links |
| `Isolation`, `IsolationLaws` | test isolation and its leak check |
| `Sequences`, `Sorting`, `Text`, `Wrappers` | stable sorting, numerals, splitting and trimming, Option and Result |

## Conditions on what is promised

The model follows the code. Where documentation promises more than the code does, or a property one
would expect holds only under a condition, the exact condition and a failing input are lemmas.

- The subject composer documents a cap of 72 characters and a base that is never truncated.
  `Subject.ComposedLength` and `Subject.BaseKept` say exactly when each holds;
  `Subject.LongBaseBreaksBoth` is a base of 73 characters.
- The agent filter of the burst grouping documents whole sessions and tests single bursts. The two
  agree exactly when every transaction of a matching session has a transaction of that agent type
  from which no edit separates it (`BurstFilter.FilterKeepsSessions`);
  `BurstFilter.FilterMaySplitSession` is a case where they differ.
- In the TOML editor the last of two writes with the same keys wins exactly when both add the keys
  the entry lacks in the same order (`McpLaws.UpsertLastWins`); `McpLaws.OrderOfFirstWriteStays` is
  two writes of two keys in opposite orders.
- An actor line round-trips exactly when it names a writer (`CommitLaws.ActorLineRoundTrip`);
  `CommitLaws.NamelessActor` comes back as the file system.
- A falsy value thrown by a cleanup is taken for no error, and hides the ones after it
  (`IsolationLaws.ErrorExact`, `IsolationLaws.FalsyErrorHides`).
- The planner treats a package with an empty key as no package (`Affected.EmptyKeyEscapesGate`), and
  only then takes its last fallback branch (`Affected.NoSupportedExact`); discovered packages never have one.
- Compiled globs are answered segment by segment unless `**` meets a line terminator. The paths on
  which every pattern is are those without terminators (`GlobTerminators.TerminatorsExact`); the
  patterns that are on every path are those without `**` (`GlobTerminators.DoubleStarExact`);
  `GlobTerminators.TerminatorStopsDeep` is a single line feed.
- The framing of hashed files can be read back, when nothing is known of the files, exactly for at most
  one file without a NUL (`CacheFraming.ReadableExact`): any selection of two or more files hashes like
  a smaller one with NULs in its contents (`CacheFraming.SeveralCollide`). When the number of files is
  known it can be read back exactly when no NUL stands in a path or in contents
  (`CacheFraming.FrameExact`); two selections without NULs are always told apart (`CacheFraming.FramingExact`).
  `CacheFraming.NulBreaksFraming` is one file that hashes like two.
- Restoring an environment keeps the variables that were added under a name every object inherits, such
  as `constructor` (`Isolation.Runtime.RestoreEnvironment`, `IsolationLaws.NothingTrackedStays`);
  `IsolationLaws.InheritedNameStays` is a callback that sets one.

## Model

| member | source | states |
|---|---|---|
| `ShardBalancer.CreateBalancedShards` | packages/server/scripts/server-test-manifest.ts:175-207 | the loop over an array of shards computes the specified longest-first schedule, or rejects a shard count below 1 |
| `ShardBalancer.PlaceInTurn` | packages/server/scripts/server-test-manifest.ts:192-204 | in-place assignment of each file to the least loaded shard equals the recursive placement |
| `ShardBalancer.LeastLoaded` | packages/server/scripts/server-test-manifest.ts:193-200 | the reduce finds the lowest-indexed of the least loaded shards |
| `ShardBalancer.TimingFor` | packages/server/scripts/server-test-manifest.ts:165-172 | the file's own usable timing, else the one under its repository path, else the category's default; always positive |
| `ShardBounds.LptWithinFourThirds` | packages/server/scripts/server-test-manifest.ts:175-207 | Graham's bound: 3m times the fullest returned shard is at most (4m-1) times the makespan of any assignment whatsoever of the same files to m shards |
| `ShardTightness.FourThirdsIsTight` | packages/server/scripts/server-test-manifest.ts:175-207 | for every m there are files and timings whose fullest returned shard is 4m-1 while another assignment keeps every shard at 3m: the bound is met with equality |
| `ShardBounds.GreedyBound` | packages/server/scripts/server-test-manifest.ts:186-204 | the bound for every shard and any placement order that is non-increasing in weight |
| `ShardBounds.AlwaysBalanced` | packages/server/scripts/server-test-manifest.ts:192-204 | after every placement, each shard without its last file is no heavier than any other shard |
| `ShardBounds.LoadAgainstTotal` | packages/server/scripts/server-test-manifest.ts:192-204 | m times a shard's load is at most the total plus m-1 times that shard's last file |
| `ShardBounds.SpreadAtMostHeaviest` | packages/server/scripts/server-test-manifest.ts:192-204 | no two shards differ by more than the heaviest file |
| `ShardBalancer.LoadsAreSums` | packages/server/scripts/server-test-manifest.ts:201-203 | a shard's running load is the weight of its files |
| `ShardBalancer.ShardsPartitionFiles` | packages/server/scripts/server-test-manifest.ts:175-207 | the shards together are a permutation of the distinct input files |
| `ShardBalancer.ShardsDependOnSet` | packages/server/scripts/server-test-manifest.ts:186-190 | input order and repetitions do not change the shards, the name order being total |
| `ShardBalancer.ScheduleOrder` | packages/server/scripts/server-test-manifest.ts:186-190 | files are placed heavier first, those of equal weight by name |
| `ShardBalancer.ShardsSorted` | packages/server/scripts/server-test-manifest.ts:175-207 | every returned shard holds exactly the files placed there, sorted by code units |
| `TestManifest.BuildManifest` | packages/server/scripts/server-test-manifest.ts:126-135 | each category lists exactly its files, in discovery order |
| `TestManifest.ValidationIsExact` | packages/server/scripts/server-test-manifest.ts:137-163 | a manifest is accepted if and only if it partitions the discovered files and no category is empty |
| `TestManifest.BuiltManifestValid` | packages/server/scripts/server-test-manifest.ts:126-163 | the built manifest is accepted if and only if every category occurs |
| `TestManifest.RefusalExact` | packages/server/scripts/server-test-manifest.ts:137-163 | what a refusal lists: each file listed twice, once; else the missing and the unexpected files; else the first category without files |
| `TestRunner.ParseShardNumerals` | packages/server/scripts/run-server-test-task.ts:21-29 | two numerals around a slash are accepted exactly when the shard exists, and read as their values |
| `TestRunner.ParseShardSyntax` | packages/server/scripts/run-server-test-task.ts:21-29 | every other nonempty text is a syntax error |
| `TestRunner.ParseShardPrinted` | packages/server/scripts/run-server-test-task.ts:21-29 | every shard 1..count can be asked for |
| `TestRunner.RunCategories` | packages/server/scripts/run-server-test-task.ts:154-165 | runs every category, or stops after the first that fails with its status; says exactly which files were executed |
| `TestRunner.RunStatus` | packages/server/scripts/run-server-test-task.ts:31-165 | a run succeeds if and only if the command fails on no category with files; else it ends with the status of the first on which it does, having executed the files up to there |
| `TestRunner.RunIsShare` | packages/server/scripts/run-server-test-task.ts:31-46 | one sharded run executes its share of every category |
| `TestRunner.EveryFileExactlyOnce` | packages/server/scripts/run-server-test-task.ts:31-46 | for an accepted manifest and any k, k runs of the category loop as shards 1/k to k/k, all with status 0, have executed every discovered file exactly once between them and nothing else |
| `Glob.CompileGlob` | scripts/test-feedback/cache-key.ts:7-28 | the index loop emits the text of the pattern's tokens |
| `Glob.NormalizedAt` | scripts/test-feedback/cache-key.ts:7-10 | a path or pattern keeps every character but backslashes, which become slashes, and one leading `./` |
| `GlobLanguage.EmittedTextParses` | scripts/test-feedback/cache-key.ts:3-28 | the emitted text is a valid regular expression and parses to the tree of the tokens; escaping makes every other character literal |
| `GlobLanguage.CompiledLanguage` | scripts/test-feedback/cache-key.ts:7-28 | that tree accepts exactly the paths the tokens accept |
| `GlobLanguage.TurboGlobMatches` | scripts/test-feedback/cache-key.ts:7-28 | normalise, compile, parse and test: the answer is the tokens' language |
| `GlobSegments.GlobMatchesBySegments` | scripts/test-feedback/cache-key.ts:3-28 | meaning is preserved: the parsed expression of a segment-wise pattern accepts exactly the paths matched segment by segment, whenever the path has no line terminator or the pattern no `**` |
| `GlobTerminators.TerminatorsExact` | scripts/test-feedback/cache-key.ts:7-28 | every segment-wise pattern is answered by segments on a path if and only if the path has no line terminator |
| `GlobTerminators.DoubleStarExact` | scripts/test-feedback/cache-key.ts:7-28 | a segment-wise pattern is answered by segments on every path if and only if it has no `**` |
| `GlobTerminators.TerminatorStopsDeep` | scripts/test-feedback/cache-key.ts:13-20 | the expression of `**` rejects a single line feed, which matches by segments |
| `CacheKey.TurboInputMatches` | scripts/test-feedback/cache-key.ts:30-36 | some positive input matches and no negated one does |
| `CacheKey.OneMoreInput` | scripts/test-feedback/cache-key.ts:30-36 | input by input: a pattern lets in what no negated input excludes, a negated one takes away what it matches, none selects nothing |
| `CacheKey.TurboCacheKey` | scripts/test-feedback/cache-key.ts:38-50 | the update loop hashes the framed, sorted, selected entries |
| `CacheKey.HashDependsOnSelection` | scripts/test-feedback/cache-key.ts:38-50 | insertion order and unselected files never reach the hash |
| `CacheFraming.ReadableExact` | scripts/test-feedback/cache-key.ts:44-47 | the framed text has no other reading, as a list of any length, if and only if it is of at most one file and that has no NUL in path or contents |
| `CacheFraming.FrameExact` | scripts/test-feedback/cache-key.ts:44-47 | with the number of files known, it has no other reading if and only if no NUL stands in any path or contents |
| `CacheFraming.FramingExact` | scripts/test-feedback/cache-key.ts:38-50 | a selection without NULs hashes like another, which has no NULs or as many files, if and only if the two are equal |
| `CacheFraming.SeveralCollide` | scripts/test-feedback/cache-key.ts:38-50 | any two or more selected files are hashed like some smaller selection, in any order of paths |
| `CacheFraming.NulBreaksFraming` | scripts/test-feedback/cache-key.ts:38-50 | with a NUL in its contents one selected file is hashed like two others, whose names are in order |
| `OrderedPairs.ReconcileClosed` | packages/native-config/src/mcp_edit.rs:128-166 | the key loop in closed form: update what is there in place, then append what is missing |
| `OrderedPairs.LastWriteWins` | packages/native-config/src/mcp_edit.rs:128-189 | reconciling twice equals the second reconciliation alone, if and only if both append the missing names in one order |
| `OrderedPairs.ReconcileIdempotent` | packages/native-config/src/mcp_edit.rs:128-189 | reconciling twice with one list changes nothing more |
| `Toml.RebuildTable` | packages/native-config/src/document_helpers.rs:26-36 | the rebuilding loop equals the rebuilt table |
| `TomlLaws.RebuiltEntry` | packages/native-config/src/document_helpers.rs:26-36 | each rebuilt entry has a plain key and its old value, with nothing after it |
| `Toml.CarryDecor` | packages/native-config/src/document_helpers.rs:61-90 | the recursive decor loop equals the specified result |
| `Toml.PreserveDecorKeepsData` | packages/native-config/src/document_helpers.rs:61-90 | carrying formatting over never changes the JSON projection |
| `TomlLaws.DecorCarried` | packages/native-config/src/document_helpers.rs:61-90 | every node that was there and stays gets its old formatting, keys included, at any depth; nothing else of the replacement changes |
| `TomlLaws.EntriesExact` | packages/native-config/src/toml_json.rs:28-47 | the JSON of a table has one member for each entry that is no placeholder, in order |
| `Toml.JsonRoundTrip` | packages/native-config/src/toml_json.rs:28-73 | JSON written into TOML reads back unchanged if and only if it has no null and no integer beyond i64 |
| `McpEdit.Document.Upsert` | packages/native-config/src/mcp_edit.rs:35-85 | the document edited in place is the specified one; an item that cannot host keys is an error |
| `McpEdit.Document.RemoveServer` | packages/native-config/src/mcp_edit.rs:91-117 | removal in place, only when the entry is present |
| `McpEdit.EditTable` | packages/native-config/src/mcp_edit.rs:128-166 | the key loop over an entry in an explicit table, with migration of inline and scalar entries |
| `McpEdit.EditInline` | packages/native-config/src/mcp_edit.rs:168-189 | the key loop over an entry inside an inline servers table |
| `McpEdit.UpsertMcpServer` | packages/native-config/src/mcp_edit.rs:35-85 | text, changed and existed of the outcome, and all three errors in order |
| `McpEdit.RemoveMcpServer` | packages/native-config/src/mcp_edit.rs:91-117 | text, changed and existed of a removal |
| `McpLaws.UpsertLastWins` | packages/native-config/src/mcp_edit.rs:35-189 | two writes with the same keys: the second alone would have done, if and only if both add the lacking keys in the same order, on every shape |
| `McpLaws.OrderOfFirstWriteStays` | packages/native-config/src/mcp_edit.rs:128-166 | two writes of two keys in opposite orders into an empty document differ from the second alone |
| `McpLaws.UpsertIdempotent` | packages/native-config/src/mcp_edit.rs:35-189 | repeating a write changes nothing: absent, table, inline, scalar, array of tables, whole-inline parent |
| `McpLaws.EntryAfterUpsert` | packages/native-config/src/mcp_edit.rs:128-189 | which entry is left, and that the servers keep their own form |
| `McpLaws.EntryKeyInTable` | packages/native-config/src/mcp_edit.rs:128-166 | the key of the entry: plain when new, without its spacing when a value became a table, otherwise as it was |
| `McpLaws.PutGet` | packages/native-config/src/mcp_edit.rs:128-264 | every managed key reads back as requested if and only if the value is representable |
| `McpRuns.PutGetProjected` | packages/native-config/src/mcp_edit.rs:128-264 | and every other value reads back with its nulls as empty strings and its integers beyond i64 as floats |
| `McpLaws.RootFrame` | packages/native-config/src/mcp_edit.rs:47-77 | every other root item keeps its value, order and decor |
| `McpLaws.SiblingFrame` | packages/native-config/src/mcp_edit.rs:128-189 | every sibling server keeps its value, order and decor |
| `McpLaws.HandAddedKept` | packages/native-config/src/mcp_edit.rs:128-189 | hand-added keys of the entry survive, in the entry's own form or through its migration |
| `McpLaws.RemoveOnlyEntry` | packages/native-config/src/mcp_edit.rs:91-117 | removal takes away that entry and leaves every other one, with its key, formatting and place |
| `McpLaws.RemoveFrame` | packages/native-config/src/mcp_edit.rs:91-117 | removal leaves every other root item; removing an absent entry is the identity |
| `McpLaws.RemoveUndoesInsert` | packages/native-config/src/mcp_edit.rs:35-117 | removing a freshly inserted entry gives the document back |
| `McpRuns.SecondRunUnchanged` | packages/native-config/src/mcp_edit.rs:35-85 | a second run on the text of the first reports no change and an existing entry, with the same text: fresh entries included, for a library that fills in spelling and formatting when it reads a text, in any order of tables, and writes what it has read as it stood |
| `McpRuns.UpsertAgain` | packages/native-config/src/mcp_edit.rs:35-189 | a write repeated on the tree that is read back, on every shape, gives a tree that differs only in what the library fills in |
| `McpRuns.UpsertReports` | packages/native-config/src/mcp_edit.rs:35-85 | the outcome carries the text of the edited document, changed if and only if that is not the text of the document as read, existed if and only if there was an entry |
| `McpRuns.FirstRunReports` | packages/native-config/src/mcp_edit.rs:35-85 | a first registration reports a change and no existing entry, and the entry is there when its text is read |
| `McpRuns.RemoveOutcome` | packages/native-config/src/mcp_edit.rs:91-117 | text, changed and existed of a removal, told apart, for any library |
| `McpRuns.RemoveReports` | packages/native-config/src/mcp_edit.rs:91-117 | a removal reports a change if and only if there was an entry, which is gone when its text is read |
| `McpRuns.UpsertFails` | packages/native-config/src/mcp_edit.rs:35-85 | which error is returned, in the order of the steps; only an array of tables cannot host the servers |
| `JsonNumber.NumberRoundTrip` | packages/core/src/shadow-repo-layout.ts:766-779 | every number is read back from its printed form, in all four layouts |
| `JsonLaws.JsonRoundTrip` | packages/core/src/shadow-repo-layout.ts:850-856 | `JSON.parse` of `JSON.stringify` is the value, with all string escapes and all finite numbers |
| `JsonLaws.PrintVisible` | packages/core/src/shadow-repo-layout.ts:846-856 | printed JSON holds no control character, in particular no line feed |
| `CommitBody.ParseOkActors` | packages/core/src/shadow-repo-layout.ts:979-1000 | the line loop returns every valid actor line in order |
| `CommitBody.ParseOkActor` | packages/core/src/shadow-repo-layout.ts:954-970 | the first actor line decides, valid or not |
| `CommitBody.ParseContributors` | packages/core/src/shadow-repo-layout.ts:533-575 | the line loop returns every valid legacy line in order |
| `CommitBody.ParseCheckpoint` | packages/core/src/shadow-repo-layout.ts:666-756 | the first checkpoint line decides, valid or not |
| `CommitReaders.ActorExact` | packages/core/src/shadow-repo-layout.ts:872-943 | an object is read as an actor if and only if its properties say so, field by field, with the derived writer, the default color and malformed list elements dropped |
| `CommitReaders.ActorLineExact` | packages/core/src/shadow-repo-layout.ts:979-996 | a line is an actor if and only if, trimmed, it is the prefix and the JSON text of such an object |
| `CommitReaders.ContributorExact` | packages/core/src/shadow-repo-layout.ts:533-572 | the same for legacy contributors, where only malformed summaries are let pass and dropped |
| `CommitReaders.CheckpointExact` | packages/core/src/shadow-repo-layout.ts:666-756 | the same for checkpoints, kind by kind |
| `CommitReaders.BodyExact` | packages/core/src/shadow-repo-layout.ts:979-1036 | the plural readers return the entry of each line that has one, in order; legacy lines count only without actors |
| `CommitLaws.ActorLineRoundTrip` | packages/core/src/shadow-repo-layout.ts:850-928 | a formatted actor reads back exactly, up to empty lists, if and only if its writer id is nonempty |
| `CommitLaws.ElidedWhenEmpty` | packages/core/src/shadow-repo-layout.ts:850-856 | summaries and previous paths are printed, last, if and only if they are not empty |
| `CommitLaws.NamelessActor` | packages/core/src/shadow-repo-layout.ts:872-928 | an actor without a writer id comes back with a derived one |
| `CommitLaws.ActorsRoundTrip` | packages/core/src/shadow-repo-layout.ts:850-1000 | a body of actor lines and other composed lines reads back as exactly the actors, in order |
| `CommitLaws.ContributorFields` | packages/core/src/shadow-repo-layout.ts:1004-1036 | a body with an actor is read as its actors in order: writer id, display name, color and documents of each, and its summaries unless there are none |
| `CommitLaws.CheckpointRoundTrip` | packages/core/src/shadow-repo-layout.ts:666-779 | all five kinds of checkpoint read back from among other lines, with any finite size and counters, exact but for the optional `which` |
| `Subject.ComposedIsSingleLine` | packages/core/src/shadow-repo-layout.ts:1112-1156 | whatever base and summaries contain, the subject is one line |
| `Subject.ComposedLength` | packages/core/src/shadow-repo-layout.ts:1142-1156 | the documented cap of 72 holds if and only if there is one summary, or none and the base has at most 72 characters, or several and the base has at most 72 less 9 less the digits of their number |
| `Subject.BaseKept` | packages/core/src/shadow-repo-layout.ts:1142-1156 | the base is a prefix of the subject if and only if there is not exactly one summary or the base has at most 72 characters |
| `Subject.OneSummary` | packages/core/src/shadow-repo-layout.ts:1142-1156 | with one summary: base, dash and summary if they fit, else the first 72 characters of that, the last an ellipsis when the base has at most 67 |
| `Subject.OtherSummaries` | packages/core/src/shadow-repo-layout.ts:1142-1146 | without a summary the base alone; with several the base and their number at the end |
| `Subject.NamedParts` | packages/core/src/shadow-repo-layout.ts:1049-1071 | the parts of the named subjects, in order, the commit abbreviated to seven characters |
| `Subject.ImportParts` | packages/core/src/shadow-repo-layout.ts:1074-1078 | an import names both heads by eight characters, or the new one alone when there is no old one |
| `Subject.LongBaseBreaksBoth` | packages/core/src/shadow-repo-layout.ts:1142-1156 | a base of 73 characters exceeds the bound without a summary and is cut with one |
| `Subject.FormattersStartPlain` | packages/core/src/shadow-repo-layout.ts:1042-1083 | no formatter's subject can begin one of the structured lines |
| `Subject.MessageRoundTrip` | packages/core/src/shadow-repo-layout.ts:850-1156 | a composed subject with one line per actor reads back as exactly the actors; the subject adds none, whatever the summaries hold |
| `Subject.MessageFirstActor` | packages/core/src/shadow-repo-layout.ts:850-1156 | the reader of a single actor returns the first of the message |
| `ShellQuote.ArgAddsItself` | docs/src/lib/share-splash.ts:300-311 | a printed argument adds exactly itself to the shell's current word, even when empty |
| `ShellQuote.CloneCommandWords` | docs/src/lib/share-splash.ts:300-336 | for all strings the shell reads the command as `ok`, `clone`, owner/repo, `-b`, branch |
| `ShellQuote.CloneCommandInjective` | docs/src/lib/share-splash.ts:326-336 | different targets or branches never print one command |
| `ShellQuote.BareExact` | docs/src/lib/share-splash.ts:300-314 | an argument is printed bare if and only if it is not empty and all letters, digits and `._/@+-`; any other is quoted |
| `BetaRelease.TagExact` | docs/src/lib/download-links.ts:66 | a tag is read if and only if it has the pattern, and every rank has a tag |
| `BetaRelease.PickLatestBetaDmgUrl` | docs/src/lib/download-links.ts:110-138 | the best-so-far loop computes the specified URL |
| `BetaRelease.PickedExact` | docs/src/lib/download-links.ts:104-138 | over the listing: the URL served is that of the first DMG asset under the release prefix of the first newest release that is a published prerelease with a beta tag and has such an asset; none if and only if there is no such release |
| `BetaRelease.BestIsNewest` | docs/src/lib/download-links.ts:71-138 | the chosen beta is on offer and nothing on offer ranks higher; none is chosen only if none is on offer |
| `BetaRelease.OrderIrrelevant` | docs/src/lib/download-links.ts:104-138 | every order of a listing serves the same URL if and only if its newest betas share one |
| `BetaResolver.Resolver.Complete` | docs/src/lib/download-links.ts:182-221 | the new cache and the reply of a completed fetch |
| `BetaResolver.Play` | docs/src/lib/download-links.ts:171-221 | one resolver object driven through any events replies as the state machine does |
| `BetaResolver.CacheIsLatestSuccess` | docs/src/lib/download-links.ts:171-221 | over every interleaving the cache holds the latest successful write |
| `BetaResolver.FallbackExact` | docs/src/lib/download-links.ts:209-219 | a fallback is sent if and only if a fetch fails and none has yet succeeded |
| `BetaResolver.CachedExact` | docs/src/lib/download-links.ts:178-181 | a cached reply is sent if and only if the latest success is less than 300000 ms old, with its URL |
| `BetaResolver.RepliesVouched` | docs/src/lib/download-links.ts:110-221 | every URL sent is that of the newest eligible beta of some received payload |
| `BetaResolver.RepliesExact` | docs/src/lib/download-links.ts:171-221 | every reply over every interleaving: a start gives a cached URL or none yet, a completion the URL it brought, or its error with the latest URL, or its error alone |
| `BetaResolver.RepliedOnce` | docs/src/lib/download-links.ts:171-221 | no call is replied to twice, and exactly the started calls without a reply are still waiting |
| `Affected.ReverseDependencyClosure` | scripts/test-feedback/affected.ts:49-80 | breadth-first search returns exactly the keys reaching a seed by dependency edges, each once, and terminates |
| `Affected.IndexDependents` | scripts/test-feedback/affected.ts:53-66 | the map of dependents holds exactly the edges |
| `Affected.EdgeIsDependency` | scripts/test-feedback/affected.ts:53-66 | with distinct names and nonempty keys the edges are the declared dependencies |
| `Affected.ChangedFilesExact` | scripts/test-feedback/affected.ts:32-34 | the changed files are the nonempty normal forms, each once, sorted |
| `Affected.ChangedFilesOfSet` | scripts/test-feedback/affected.ts:119-120 | order and repetition of the changes do not matter |
| `Affected.OwnerUnique` | scripts/test-feedback/affected.ts:40-47 | in a discovered workspace at most one package owns a file |
| `Affected.DiscoveredKeys` | scripts/test-feedback/workspace.ts:81-87 | discovered packages have nonempty keys |
| `Affected.ComputeAffectedPlan` | scripts/test-feedback/affected.ts:119-214 | the whole plan, reasons included, on every branch |
| `Affected.PlanIsOneOfThree` | scripts/test-feedback/affected.ts:119-214 | any nonempty change gives the repository gate, documentation only, or a package list, with exact conditions |
| `AffectedLaws.RepositoryExact` | scripts/test-feedback/affected.ts:119-214 | over the changed files: the repository gate, documentation only, and the domains, each exactly when it applies |
| `AffectedLaws.PackagesExact` | scripts/test-feedback/affected.ts:186-213 | the planned packages are sorted, each once, and are exactly the supported ones depending, through any chain, on an owner, outside the other two kinds of plan |
| `AffectedLaws.ReasonsExact` | scripts/test-feedback/affected.ts:135-205 | each reason is given exactly when it holds, in a fixed order |
| `AffectedLaws.NormalForm` | scripts/test-feedback/affected.ts:32-34 | a path keeps every character but backslashes, which become slashes, and one leading `./` |
| `Affected.PlanSound` | scripts/test-feedback/affected.ts:186-213 | every changed file is documentation or planned, and the plan lists exactly the supported packages depending, through any chain, on an owner |
| `Affected.NoSupportedExact` | scripts/test-feedback/affected.ts:119-203 | the branch for no supported package is taken if and only if there is no root file, no unknown file and not only documentation, the first unsupported owner has an empty key, and no owner reaches a supported package |
| `Affected.NoSupportedNeedsEmptyKey` | scripts/test-feedback/affected.ts:193-203 | so it needs an owner with an empty key |
| `Affected.EmptyKeyEscapesGate` | scripts/test-feedback/affected.ts:146-153 | and with one it is taken: the guard tests truthiness |
| `Bursts.HumanEditBetween` | packages/core/src/burst-grouping.ts:48-63 | the binary search answers whether some edit lies strictly between |
| `Bursts.GroupBySession` | packages/core/src/burst-grouping.ts:66-74 | a list per session in arrival order, sessions in order of first arrival |
| `Bursts.CutSession` | packages/core/src/burst-grouping.ts:78-98 | the loop cuts exactly where an edit lies between neighbours |
| `Bursts.BucketIntoBursts` | packages/core/src/burst-grouping.ts:37-105 | the bursts of all sessions, then the agent filter |
| `Bursts.PartitionUnique` | packages/core/src/burst-grouping.ts:3-10 | there is exactly one way to cut a sequence into such bursts |
| `Bursts.BurstsUnique` | packages/core/src/burst-grouping.ts:37-105 | the specification determines the whole result |
| `Bursts.SessionTransactions` | packages/core/src/burst-grouping.ts:78-98 | the bursts of a session, joined, are its transactions sorted by time, those of one moment in order of arrival, and they are cut exactly at the edits |
| `Bursts.EditInsideCoincides` | packages/core/src/burst-grouping.ts:80-84 | an edit strictly inside a burst falls on the moment of one of its transactions |
| `Bursts.TransactionsConserved` | packages/core/src/burst-grouping.ts:37-105 | no transaction is lost or repeated |
| `BurstFilter.BurstExactly` | packages/core/src/burst-grouping.ts:3-10 | a burst is all transactions of its session from which no edit separates a given one of them |
| `BurstFilter.BurstSpan` | packages/core/src/burst-grouping.ts:86-96 | a burst is in order of time and runs from its earliest transaction to its latest |
| `BurstFilter.FilterKeepsSessions` | packages/core/src/burst-grouping.ts:100-102 | the filter keeps exactly the bursts of matching sessions, if and only if every transaction of such a session has a match that no edit separates from it |
| `BurstFilter.ResultExact` | packages/core/src/burst-grouping.ts:37-105 | the whole result is determined, and holds a transaction if and only if there is no filter or the transaction has a near match |
| `BurstFilter.OneAgentSuffices` | packages/core/src/burst-grouping.ts:100-102 | one kind of agent per session is enough for that |
| `BurstFilter.FilterMaySplitSession` | packages/core/src/burst-grouping.ts:100-102 | a session of two kinds of agent of which one burst is kept |
| `ThemeTokens.ResolvedIsSubstitution` | packages/core/scripts/preview-theme-token-resolver.ts:99-124 | a success equals full substitution by any solution of the declarations |
| `ThemeTokens.ResolutionSolves` | packages/core/scripts/preview-theme-token-resolver.ts:99-124 | such a solution exists, even beside cyclic declarations |
| `ThemeTokens.ResolutionCovers` | packages/core/scripts/preview-theme-token-resolver.ts:99-124 | and it covers every value that resolves |
| `ThemeTokens.BudgetIrrelevant` | packages/core/scripts/preview-theme-token-resolver.ts:99-108 | a result does not depend on the depth it was found at |
| `ThemeTokens.ResolvesExactly` | packages/core/scripts/preview-theme-token-resolver.ts:99-124 | success if and only if no chain exceeds 16 indirections and every value reached has only resolvable references and, filled in by the declarations, no `var(` |
| `ThemeTokens.PlainResolvesExactly` | packages/core/scripts/preview-theme-token-resolver.ts:88-124 | for ordinary literals flatness comes for free |
| `ThemeTokens.CycleFails` | packages/core/scripts/preview-theme-token-resolver.ts:99-108 | a value that reaches a reference cycle fails at every depth |
| `ThemeTokens.MergeDecls` | packages/core/scripts/preview-theme-token-resolver.ts:80-86 | the last declaration of a name wins within and across blocks |
| `ThemeLaws.MergedExact` | packages/core/scripts/preview-theme-token-resolver.ts:80-86 | a merged name has the value of its last declaration in the last block that declares it |
| `ThemeLaws.SingleReference` | packages/core/scripts/preview-theme-token-resolver.ts:99-124 | a reference is replaced by the declared value, else by a fallback that is not blank, else it is an error |
| `ThemeLaws.MentionsExact` | packages/core/scripts/preview-theme-token-resolver.ts:118-122 | a reference is taken to be left if and only if `var(` occurs in the text |
| `ThemeLaws.ThemeScopes` | packages/core/scripts/preview-theme-token-resolver.ts:149-151 | light looks in `:root`, then `@theme`; dark in `.dark` before both |
| `ThemeLaws.TokenExact` | packages/core/scripts/preview-theme-token-resolver.ts:153-164 | a token has its light value resolved in the light scopes and its dark value, `.dark` before `:root`, in the dark ones |
| `ThemeLaws.TokensFail` | packages/core/scripts/preview-theme-token-resolver.ts:142-165 | a theme without declarations is an error of its own; else the first name that fails decides |
| `ThemeTokens.DarkFollowsLight` | packages/core/scripts/preview-theme-token-resolver.ts:149-164 | a token whose references the dark theme leaves alone is the same in both themes |
| `PathResolve.ResolveSymlinkWritePaths` | packages/native-config/src/path_resolve.rs:34-84 | the loop terminates and returns the end of the chain, or the root for writing only |
| `PathResolve.BrokenExact` | packages/native-config/src/path_resolve.rs:34-84 | no read path if and only if the chain repeats a path or hits an error |
| `PathResolve.ResolvedUnique` | packages/native-config/src/path_resolve.rs:34-84 | the file system and the path determine the outcome |
| `PathResolve.ResolvedByHops` | packages/native-config/src/path_resolve.rs:34-84 | a path is read if and only if hops lead to it, absolute or below the directory of the link, and it is no link; else the root is only written |
| `PathResolve.WriteThrough` | packages/native-config/src/path_resolve.rs:1-30 | after writing there, resolution gives the same place to read and write; a sound chain keeps its links, a broken one loses the root link only |
| `Isolation.Runtime.TrackTestResource` | scripts/test-feedback/leak-detector.ts:32-36 | the identifier issued and the new state |
| `Isolation.Runtime.RestoreEnvironment` | scripts/test-feedback/leak-detector.ts:47-58 | the two loops leave the snapshot and the new variables with an inherited name: exactly the snapshot if and only if there are none |
| `IsolationLaws.ResourceCheckExact` | scripts/test-feedback/leak-detector.ts:69 | comparing printed names finds exactly the resources not live before |
| `Isolation.TestIsolation.Restore` | scripts/test-feedback/isolation.ts:42-57 | every cleanup registered before is invoked once, in reverse, and the state and error are the specified ones |
| `Isolation.WithTestIsolation` | scripts/test-feedback/isolation.ts:60-79 | the whole call, whatever callback and cleanups do |
| `IsolationLaws.NothingTrackedStays` | scripts/test-feedback/isolation.ts:16-79 | on exit nothing the callback tracked is live and every variable is as before, but for new ones with an inherited name: the environment is the snapshot if and only if none was left |
| `IsolationLaws.SilenceMeansClean` | scripts/test-feedback/isolation.ts:60-79 | a call without an error leaves no resource, handle or request more than before, and the environment as it was unless an inherited name is among the keys allowed to change |
| `IsolationLaws.ErrorExact` | scripts/test-feedback/isolation.ts:42-79 | which error is reported: the callback's, else a leak, else the first solid cleanup error if truthy |
| `IsolationLaws.LeakReported` | scripts/test-feedback/isolation.ts:37-79 | without an error of the callback, a leak is reported whenever a variable that may not change did, a resource is new, or handles of a kind or requests are more; without one only errors of cleanups are |
| `IsolationLaws.TrackedIsLive` | scripts/test-feedback/leak-detector.ts:32-36 | a tracked resource is live under a fresh identifier until it is released |
| `IsolationLaws.FalsyErrorHides` | scripts/test-feedback/isolation.ts:42-57 | a cleanup throwing 0 hides the error of one registered before it |

## Left out

- CommitLaws.CheckpointRoundTrip: a size that is NaN or infinite, which is printed as null and read as none, is not a number of the model.
- JsonLaws.JsonRoundTrip: a number is its own shortest decimal, as ECMAScript prints it; that no two doubles share one, the rounding of other decimals to a double, and the sign of zero are not modelled. An object repeats no member name, which a JavaScript object cannot.
- McpLaws.PutGet: integers beyond i64 are read as exact reals; their rounding to a double is not modelled.
- McpRuns.SecondRunUnchanged: what the library makes of its own output is a condition, since parser and renderer are parameters: the text of the edited tree is read as a tree with the same items under the same names, each value with its spelling and formatting filled in, and that tree is written as the same text. `McpRuns.FilledIsReadBack` shows that every tree can be read back so.
- GlobSegments.GlobMatchesBySegments: patterns with `**` glued to other characters of a segment have no segment-wise reading; GlobLanguage.CompiledLanguage covers them.
- Isolation.Runtime.RestoreEnvironment: a snapshot value of undefined does not occur, because snapshots are taken from an environment of strings.
- Characters are Unicode scalar values: lone surrogates, surrogate escapes in JSON and lengths in UTF-16 units are not modelled.
- Numbers: timings and timestamps are exact; double rounding, NaN and infinities (but for TOML floats and the overflow of a parsed size) are not modelled.
- String orders (`localeCompare`, code units) are parameters, assumed total preorders or orders where a statement needs it.
- Property order and prototype members of JavaScript objects (but for the restored environment), such as integer-like keys coming first; an actor entry's own properties are written in one fixed order, and unknown properties of legacy contributor lines are dropped.
- File discovery, the regular expressions that classify test files, gate patterns, domains, git, HTTP, timeouts, the clock, process spawning and environment reads are parameters or outcomes of events.
- The internals of the TOML and JSON libraries; spelling and layout of TOML values are carried along and never looked into.
- The hash function of the cache key is a parameter.
- Shell syntax beyond quoting and word splitting: an unquoted character with a meaning of its own makes the lexer refuse, so the round trip shows that none is printed unquoted.
- Scanning of CSS text into declarations: values are given as pieces.
- Restoring an isolation from inside its own callback, and callbacks that go on working after they have returned.
- Slugs, writer-id classification, `.git` discovery, share-URL decoding and view models, which would add easy members only.
