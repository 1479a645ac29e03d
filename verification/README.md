# Verified models of werf

This project models, in Dafny, the algorithms of werf whose correctness does not show in any single
function, and proves what their code and comments promise for all inputs, all runs and all
interleavings. `dafny verify dfyconfig.toml` checks everything.

| part | modules |
|---|---|
| Links of a `docker cp` stream, materialised so that a directory reads like the image | `SymlinkTree`, `EntryPaths`, `DirTarExtractor` |
| The image graph of a config: loop check and the images a build processes | `DependencyGraph`, `NameOrder`, `WerfConfig` |
| The YAML stream splitter | `YamlLines`, `YamlSplitter`, `YamlDocs` |
| Registry cleanup: what is kept, and how rejected stages go | `StageProtection`, `ProtectionOrder`, `RejectedStages` |
| Two concurrent caches: repo tags and bearer tokens | `TagsCache`, `BearerResponse`, `BearerCache` |
| Environment directives compiled to shell | `ShellWords`, `PackagesEnv`, `PackagesCommands`, `BuildTimeEnv` |
| Removing a path with the parents it leaves empty | `EmptyParents` |
| Copying and publishing attestations | `AttestationCopy` |
| Conflicts between `sign` entries | `SignIndex` |

`Basics` holds what several of them share.

The code that works in place is a class with the same fields and loops (`Extractor`, `WerfConfig`,
`CleanupManager`, both `Cache` classes, `Disk`, `Repository`, `LegacyStageImageContainer`), and each
method is proved against a specification that does not mention how it computes: a lookup one link at
a time, reachability in a graph, runs of lines between separators, an evaluator of shell words, a
rule on pairs. Protocols (`RejectedStages`, `TagsCache`, `BearerCache`) are step systems in which
failures, cancellations and the passing of time are steps like any other. Iteration over a Go map is
a nondeterministic choice, so what is proved holds for every order.

## Where the code and its promises differ

Each of these is a lemma with a concrete input, next to a lemma that says exactly when the promise
is kept.

- The number of link expansions is cut at the number of recorded links, which is said to drop
  cycles. It also drops links without any cycle, when one link is crossed several times at different
  depths (`SymlinkTree.BoundDropsDetour`). `SymlinkTree.TargetExact` says which targets are found,
  and `SymlinkTree.MissedExact` which paths are copied: those whose links on the way down are
  distinct and each resolve within the bound and not to the root. `SymlinkTree.WalkComplete` shows
  that paths using no link twice never meet the bound.
- A relative link that leaves the copied directory and comes back is dropped although its target was
  copied (`EntryPaths.ReenteringTargetDropped`); `EntryPaths.RecordedTargetFaithful` says a relative
  link is dropped if and only if its components, read left to right, climb out.
- What the cleanup keeps is meant to be the kept stages and their relatives. With a stage kept for the
  Git policy it can depend on the order maps are iterated in (`ProtectionOrder.SharedParentDepends`);
  `ProtectionOrder.OrderExact` says when it does not.
- A tag published while the first listing of a repo is in flight is forgotten, because there is no
  entry yet to record it in (`TagsCache.FirstListingLosesPublication`). When two listings overlap, the
  first can confirm a published tag and the second, older one can drop it again
  (`TagsCache.OverlapLosesPublication`). `TagsCache.HistoryExact` says, for every interleaving, which
  publications a cache has: the last one of a tag, if it came after the first stored listing and every
  listing stored since started before it and did not list the tag.
- A secret that cannot be read is meant to stop the package manager from running. The status of an
  assignment is that of its last command substitution, so of two secrets in one value only the last is
  noticed to be missing: with the first one missing the command runs with the value cut short
  (`PackagesCommands.MissingSecretRuns`). `PackagesCommands.DirectiveExact` says when the directive
  stops and when the command gets what is meant.
- A keep directory that does not exist stops the removal of empty parents all the same, so that an
  empty parent can be left (`EmptyParents.MissingKeepStops`); `EmptyParents.SurvivorExact` says exactly
  when the lowest parent left has nothing in it, is not the root and is not a keep directory.
- Repeating a copy of attestations that failed half way leads to the same slots with equivalent
  artifacts, but not always to the same payloads (`AttestationCopy.RepeatKeepsOldPayload`), because an
  equivalent artifact is replaced only if its attach also evicts something;
  `AttestationCopy.RepeatExact` says exactly when.
- Publishing is said to leave exactly one artifact of the kind per image. One of the same signing state
  under the kind's other URI stays beside it (`AttestationCopy.PublishLeavesTwo`);
  `AttestationCopy.PublishLeavesOne` says that this is the only exception.

The worklist closure over images needs no acyclic graph to end: each queued image can be weighed by
how many images were unhandled when it was queued, and `DependencyGraph.WorklistShrinks` makes that
a measure on every graph, repetitions included.

## Model

| member | source | states |
|---|---|---|
| `SymlinkTree.LongestLinkExact` | pkg/container_backend/docker_image_reader.go:392-407 | the climb finds no link exactly if no component of the path is one, and otherwise the link all other link prefixes are prefixes of |
| `SymlinkTree.TargetExact` | pkg/container_backend/docker_image_reader.go:366-390 | a link has a target if and only if the image's lookup of it ends, link-free and strictly below the copied directory, within as many hops as there are links |
| `SymlinkTree.ChainSound` | pkg/container_backend/docker_image_reader.go:329-364 | whatever is copied to a path through any depth of nested links is the archive file the image shows there |
| `SymlinkTree.CopiedUnique` | pkg/container_backend/docker_image_reader.go:301-308 | a path is copied from at most one file, whichever links lead to it |
| `SymlinkTree.SplitWalk` | pkg/container_backend/docker_image_reader.go:366-390 | a lookup below a link first resolves the link's target on its own and then goes on from there, with the same links in the same order |
| `SymlinkTree.WalkComplete` | pkg/container_backend/docker_image_reader.go:333-390 | every file the lookup reaches through distinct directory links, none leading to the copied root, is copied; the bound suffices by counting |
| `SymlinkTree.CopiedExact` | pkg/container_backend/docker_image_reader.go:333-390 | a path is copied if and only if its lookup ends at an archive file over links that are distinct on the way down and each resolve within the bound and not to the root |
| `SymlinkTree.MissedExact` | pkg/container_backend/docker_image_reader.go:333-390 | a path the image leads to a file over given links is copied if and only if they are distinct and all resolve |
| `SymlinkTree.DirectoryWalkOuter` | pkg/container_backend/docker_image_reader.go:333-390 | every lookup over directory links that ends at a file is such a way down |
| `SymlinkTree.BoundDropsDetour` | pkg/container_backend/docker_image_reader.go:374-384 | a well-formed archive without a cycle in which a readable file below a link is left out |
| `EntryPaths.CleanRootedSafe` | pkg/container_backend/docker_image_reader.go:244-249 | cleaning below an anchored root leaves no component that could escape, for any name |
| `EntryPaths.RelativeTargetFaithful` | pkg/container_backend/docker_image_reader.go:268-273 | a cleaned relative target starts with `..` exactly if reading it climbs out, and otherwise is the image path it stands for |
| `EntryPaths.RecordedTargetFaithful` | pkg/container_backend/docker_image_reader.go:253-275 | the recorded target is the image's target relative to the copied directory; when it is dropped, for absolute and relative links |
| `EntryPaths.TargetsRecorded` | pkg/container_backend/docker_image_reader.go:253-275 | a link to a plain target, with or without `./`, is recorded as leading to that target next to it, and an absolute target below the copied directory as the path there |
| `EntryPaths.ReenteringTargetDropped` | pkg/container_backend/docker_image_reader.go:257-273 | a link `/out/a` to `../out/b` is not recorded although its target is inside the copied `/out` |
| `DirTarExtractor.Extractor.Rebase` | pkg/container_backend/docker_image_reader.go:244-249 | every destination is made of harmless components only |
| `DirTarExtractor.Extractor.RebaseExact` | pkg/container_backend/docker_image_reader.go:232-249 | an entry named after the copied directory is put where it stands below it, any other where its own name says; also for the root |
| `DirTarExtractor.Extractor.Extract` | pkg/container_backend/docker_image_reader.go:251-299 | where an entry named after the copied directory goes, file or link, when a file in the way makes it fail, and what a stream that breaks off leaves; otherwise nothing changes |
| `DirTarExtractor.Extractor.ResolveSymlinks` | pkg/container_backend/docker_image_reader.go:301-327 | in a well-formed archive the written tree is the materialised one, and on a tree-shaped archive writing cannot fail |
| `DirTarExtractor.Extractor.CollectLinkContents` | pkg/container_backend/docker_image_reader.go:329-364 | the copies are exactly the destinations of the expansion chains that avoid the active links; the recursion ends because these grow |
| `DirTarExtractor.Extractor.ResolveTarget` | pkg/container_backend/docker_image_reader.go:374-390 | the loop computes the bounded expansion |
| `DirTarExtractor.Extractor.FindLongestLink` | pkg/container_backend/docker_image_reader.go:392-407 | the climb computes the longest recorded link prefix |
| `DirTarExtractor.MaterialisedUnique` | pkg/container_backend/docker_image_reader.go:301-308 | the written tree does not depend on the order links and files are visited in |
| `DirTarExtractor.ShowsOnlyImage` | pkg/container_backend/docker_image_reader.go:301-308 | every file in the written tree holds what the image shows at its path |
| `DirTarExtractor.ShowsWholeImage` | pkg/container_backend/docker_image_reader.go:301-308 | every path the image leads to an archive file over distinct directory links is in the written tree |
| `DirTarExtractor.WrittenExact` | pkg/container_backend/docker_image_reader.go:301-308 | a path below links that the image leads to a file is written if and only if the links on the way down are distinct and all resolve |
| `DirTarExtractor.CopyHitsNoSource` | pkg/container_backend/docker_image_reader.go:301-327 | no write hits a file the archive carried |
| `DirTarExtractor.FilesDoNotNest` | pkg/container_backend/docker_image_reader.go:309-327 | in a tree-shaped archive nothing that reads as a file lies below another that does, so no write finds a file for a directory |
| `DirTarExtractor.Extractor.TreeShapedExact` | pkg/container_backend/docker_image_reader.go:251-299 | what was extracted is tree-shaped unless a link was recorded below a file |
| `NameOrder.LessExact` | pkg/config/werf.go:270-272 | a name comes before another if it is smaller where they first differ or is the beginning of it |
| `NameOrder.Sort` | pkg/config/werf.go:270-272 | sorting gives the names in strictly increasing order |
| `NameOrder.IncreasingUnique` | pkg/config/werf.go:254-275 | an ordered list of names is determined by its elements |
| `DependencyGraph.ClosureExact` | pkg/config/werf.go:287-315 | a closed set around the roots, all of it reachable, is the reachable set |
| `DependencyGraph.WorklistShrinks` | pkg/config/werf.go:291-312 | one round makes the worklist lighter however often images are queued again |
| `DependencyGraph.FrontierStep` | pkg/config/werf.go:291-312 | one round keeps every handled image's dependencies handled or queued, and everything reachable from the request |
| `DependencyGraph.LoopIsCycle` | pkg/config/werf.go:227-231 | a reported name stack witnesses a cycle |
| `DependencyGraph.SettledAdd` | pkg/config/werf.go:218-252 | an image whose dependencies are all known to be acyclic is acyclic |
| `WerfConfig.FindFirst` | pkg/config/werf.go:63-78 | the first image of a name is the one found |
| `WerfConfig.WerfConfig.GetImage` | pkg/config/werf.go:63-78 | the cached lookup finds the first image of that name or none |
| `WerfConfig.EdgesExact` | pkg/config/stapel_image_base.go:88-103 | an image depends on the configured ones among its dependencies and, if it is a stapel image, its base and its imports, and on no other |
| `WerfConfig.WerfConfig.ValidateInfiniteLoop` | pkg/config/werf.go:190-199 | passes if and only if the graph of configured images is acyclic, and otherwise reports a dependency path whose last name occurs in it before |
| `WerfConfig.WerfConfig.Visit` | pkg/config/werf.go:222-252 | the memoised walk extends the set of acyclic images soundly or finds a loop; the image it looks up is always there |
| `WerfConfig.WerfConfig.UpdateDependencies` | pkg/config/werf.go:353-383 | returns exactly the configured relatives whatever was marked external before, and marks exactly what is external |
| `WerfConfig.WerfConfig.CollectRelatives` | pkg/config/werf.go:287-315 | ends on any graph; its keys are the images reachable from the request, each with its relatives in order and none missing |
| `WerfConfig.WerfConfig.GetImagesForProcessing` | pkg/config/werf.go:254-275 | the images reachable from the request, ordered by name |
| `WerfConfig.ProcessedUnique` | pkg/config/werf.go:254-275 | the order maps are iterated in leaves no trace in the result |
| `WerfConfig.WerfConfig.ConfiguredImports` | pkg/config/stapel_image_base.go:88-103 | marking imports external does not change which configured imports are listed |
| `YamlLines.DocumentsRebuild` | pkg/config/parser.go:619-711 | documents and verbatim separator lines, taken in turn, are the stream |
| `YamlLines.DocumentsHoldNoSeparator` | pkg/config/parser.go:619-711 | no document holds a separator line and every separator is one |
| `YamlLines.SeparatorExact` | pkg/config/parser.go:635-693 | byte for byte, what a separator is: three dashes, then tabs, carriage returns and spaces, then nothing or `#` and no dash |
| `YamlLines.TwoDocuments` | pkg/config/parser.go:619-711 | a separator line with either line end splits what is before it from what is after it |
| `YamlLines.LastSeparator` | pkg/config/parser.go:695-708 | a separator without a line end at the end of the stream ends the document before it |
| `YamlSplitter.AcceptsSeparators` | pkg/config/parser.go:635-693 | the seven-state machine accepts exactly `---`, blanks, and a comment without a dash |
| `YamlSplitter.ScanIsOnward` | pkg/config/parser.go:635-711 | reading byte by byte is reading line by line, from any point of the stream |
| `YamlSplitter.SplitContent` | pkg/config/parser.go:619-711 | for every byte sequence the loop on positions returns the runs of lines between separator lines, with no slice out of range |
| `YamlDocs.EmptyDocContent` | pkg/config/parser.go:713-734 | a document is empty if and only if each of its lines is blank or a comment |
| `YamlDocs.CommentOrBlankExact` | pkg/config/parser.go:713-734 | byte for byte, which lines count for nothing |
| `YamlDocs.BlankIsEmpty` | pkg/config/parser.go:713-734 | a document of line ends, tabs, carriage returns and spaces is empty |
| `YamlDocs.EntriesAreDocuments` | pkg/config/parser.go:619-711 | each document stands in the stream at the position computed for it |
| `YamlDocs.LineNumbersTrue` | pkg/config/parser.go:212-232 | the accumulated line of each document is the number of newlines before its first byte |
| `YamlDocs.SplitByDocs` | pkg/config/parser.go:212-232 | returns exactly the non-empty documents, in order, with their true lines |
| `StageProtection.CleanupManager.MarkAsProtected` | pkg/cleaning/stage_manager/stages.go:74-89 | marks only grow, and keep their first reason unless another is forced |
| `StageProtection.CleanupManager.ProtectPlatforms` | pkg/cleaning/cleanup.go:1153-1172 | a stage is kept for every platform digest of an index that the repo has a stage for |
| `StageProtection.SourceExact` | pkg/cleaning/cleanup.go:1185-1205 | with the label texts written out, which labels name a source: any dependency label, and any import label that names no external image |
| `StageProtection.ParentExact` | pkg/cleaning/cleanup.go:1207-1214 | the parent is what the parent label names |
| `StageProtection.CleanupManager.ProtectSources` | pkg/cleaning/cleanup.go:1185-1205 | all import and dependency sources that a stage's labels name are kept, and nothing unrelated |
| `StageProtection.CleanupManager.ProtectRelatives` | pkg/cleaning/cleanup.go:1151-1217 | the walk ends on any graph, and handles exactly what is reached without entering what was handled before |
| `StageProtection.CleanupManager.CleanupUnusedStages` | pkg/cleaning/cleanup.go:1040-1075 | what is kept holds the parent of every kept stage and the platforms of every marked index, is closed under sources unless some stage is kept for the Git policy, and holds relatives of marked stages only; what is left besides is what could not be deleted; without indexes the order determines what is kept |
| `StageProtection.LabelsKept` | pkg/cleaning/cleanup.go:1040-1075 | no parent label of a kept stage, and without Git-policy marks no dependency or import label, points at a stage that was there and is deleted |
| `StageProtection.PlatformsStay` | pkg/cleaning/cleanup.go:1040-1075 | for every platform of a marked index that the repo has a stage for one such stage is kept |
| `StageProtection.LeftIsClosure` | pkg/cleaning/cleanup.go:1040-1075 | without indexes and Git-policy marks what is kept is exactly the closure of the marked stages, whatever the order |
| `ProtectionOrder.OrderBounds` | pkg/cleaning/cleanup.go:1044-1051 | in any order what is kept lies between two sets given by the marks and labels alone |
| `ProtectionOrder.OthersFirst` | pkg/cleaning/cleanup.go:1044-1051 | walking the Git policy last keeps the upper one |
| `ProtectionOrder.GitFirst` | pkg/cleaning/cleanup.go:1044-1051 | walking the Git policy first keeps the lower one |
| `ProtectionOrder.OrderExact` | pkg/cleaning/cleanup.go:1044-1051 | what is kept depends on no order if and only if every source of a stage kept both for the Git policy and for another is kept anyway |
| `ProtectionOrder.SharedParentDepends` | pkg/cleaning/cleanup.go:1044-1051 | four stages and two orders of which only one keeps an import source |
| `RejectedStages.GoneIsCleared` | pkg/cleaning/cleanup.go:983-1034 | with the listed tags gone, every tag ever linked to the stage is, across partial runs |
| `RejectedStages.StepSafe` | pkg/cleaning/cleanup.go:983-1034 | one worker's step keeps the invariant whatever the others do |
| `RejectedStages.NextSafe` | pkg/cleaning/cleanup.go:924-1038 | starting, working, failing, cancelling and ending keep the invariant |
| `RejectedStages.MarkerGoesLast` | pkg/cleaning/cleanup.go:924-1038 | in every interleaving with failures and repeated runs a removed marker means image and tags are deleted and unregistered, and only such stages are reported |
| `RejectedStages.CanAdvance` | pkg/cleaning/cleanup.go:983-1034 | a worker that is not done can always go on |
| `RejectedStages.AdvanceCounts` | pkg/cleaning/cleanup.go:983-1034 | each successful call takes its worker one step nearer the end and no other |
| `RejectedStages.UndisturbedRun` | pkg/cleaning/cleanup.go:924-1038 | a run without failures comes to rest only when every stage it was given is gone with its tags and marker, and reports all of them |
| `RejectedStages.RunCanBegin` | pkg/cleaning/cleanup.go:948-957 | a run over any stages can begin, given every registered tag or all but some unreadable ones |
| `RejectedStages.CallsCanFail` | pkg/cleaning/cleanup.go:983-1034 | every call of a worker can succeed or fail, with or without its effect, fatally or not |
| `RejectedStages.RunCanEnd` | pkg/cleaning/cleanup.go:1034-1037 | a run can end anywhere, and after a fatal failure its workers can be cancelled |
| `TagsCache.Cache.StoreTags` | pkg/docker_registry/docker_registry_with_cache.go:199-224 | the listing is merged with exactly the tags published after it started that it does not have, each once |
| `TagsCache.HistoryExact` | pkg/docker_registry/docker_registry_with_cache.go:43-90 | in every interleaving a tag is cached if and only if the last stored answer lists it, or its last publication came after the first stored listing and every listing stored since started before it and did not list it |
| `TagsCache.StoreClears` | pkg/docker_registry/docker_registry_with_cache.go:199-224 | of the pending publications storing a listing leaves exactly those it could have missed |
| `TagsCache.AnswerExact` | pkg/docker_registry/docker_registry_with_cache.go:112-132 | an answer from the cache is the last stored listing with what is still pending, no older than the caller allows, and has the newest publication |
| `TagsCache.CacheSound` | pkg/docker_registry/docker_registry_with_cache.go:43-90 | in every run records belong to cached tags and none is in the future |
| `TagsCache.CacheExact` | pkg/docker_registry/docker_registry_with_cache.go:134-197 | where no listings overlap the rule is simpler: the cache is the last stored answer and everything recorded as published since that listing started |
| `TagsCache.FirstListingLosesPublication` | pkg/docker_registry/docker_registry_with_cache.go:63-66 | a run in which a published tag is lost because no entry existed |
| `TagsCache.OverlapLosesPublication` | pkg/docker_registry/docker_registry_with_cache.go:199-224 | a run in which overlapping listings lose a published tag |
| `BearerResponse.BodyReplayed` | pkg/docker_registry/bearer_cache.go:350-359 | the body handed on replays the original stream, a read error at its place included |
| `BearerResponse.Inspect` | pkg/docker_registry/bearer_cache.go:346-399 | a grant ends at the earlier of issue and request start plus its lifetime, which does not overflow, and outlives the margin |
| `BearerResponse.GrantExact` | pkg/docker_registry/bearer_cache.go:346-399 | a token is granted if and only if the answer is usable and outlives the margin |
| `BearerCache.Cache.Store` | pkg/docker_registry/bearer_cache.go:297-317 | expired entries go, and one that expires soonest only if the cache is still full |
| `BearerCache.Cache.Oldest` | pkg/docker_registry/bearer_cache.go:306-314 | the scan finds an entry that expires soonest |
| `BearerCache.Cache.Invalidate` | pkg/docker_registry/bearer_cache.go:319-327 | exactly the entries of that target and policy with that token go |
| `BearerCache.InvalidatedNotAnswered` | pkg/docker_registry/bearer_cache.go:319-327 | in every run, after a token was invalidated no request is answered with it until it has been stored anew |
| `BearerCache.StoredBounded` | pkg/docker_registry/bearer_cache.go:297-317 | the cache never outgrows its capacity and changes no other entry |
| `BearerCache.StoredExact` | pkg/docker_registry/bearer_cache.go:297-317 | another entry goes exactly if it is within 30 seconds of its expiry, or if 128 are left and it expires soonest |
| `BearerCache.SingleTakes` | pkg/docker_registry/bearer_cache.go:255-257 | a new leader takes a key nobody leads |
| `BearerCache.SingleEnds` | pkg/docker_registry/bearer_cache.go:269-272 | a leader leaves together with its marker and no other |
| `BearerCache.NextSafe` | pkg/docker_registry/bearer_cache.go:221-275 | every step keeps single flight, wakeups, capacity and freshness |
| `BearerCache.AlwaysSafe` | pkg/docker_registry/bearer_cache.go:221-275 | in every interleaving there is one exchange per key, a marker exactly while its leader runs, no lost wakeup, at most 128 entries |
| `BearerCache.AnswerFresh` | pkg/docker_registry/bearer_cache.go:237-242 | a cached answer was more than 30 seconds before the end of the lifetime of the exchange it came from |
| `BearerCache.SecondRequestServed` | pkg/docker_registry/bearer_cache.go:221-275 | a granted token can be stored and the next request for the key is answered with it, without an exchange |
| `BearerCache.RequestCanMove` | pkg/docker_registry/bearer_cache.go:237-274 | a waiting request can give up and is woken once its channel is closed; an exchange can start and can end without a token |
| `ShellWords.EscapedEvaluates` | pkg/container_backend/legacy_stage_image_container.go:130-132 | parsing single quotes undoes the escaping of any string, whatever follows |
| `ShellWords.SingleQuotedQuotes` | pkg/container_backend/legacy_stage_image_container.go:130-132 | quoted text evaluates to itself wherever in a word it stands |
| `ShellWords.QuotedIfNeededQuotes` | pkg/config/packages_env.go:65-90 | quoting only what needs it meets the contract that is asked of the quoting function |
| `PackagesEnv.MatchFound` | pkg/config/packages_env.go:20-21 | a reference of either kind is recognised where it stands, with its ID and to its end |
| `PackagesEnv.MatchExact` | pkg/config/packages_env.go:20-21 | and nothing else is |
| `PackagesEnv.FindAllMissesNothing` | pkg/config/packages_env.go:20-21 | every reference in a value is found or starts inside one that is |
| `PackagesEnv.SplitPrintsBack` | pkg/config/packages_env.go:30-52 | the parts of a value print back to the value |
| `PackagesEnv.ReferenceMeaning` | pkg/config/packages_env.go:12-90 | a reference means the file below `/run/secrets/` or its contents; with an ID of other than letters, digits, `_`, `.` and `-` it is just text |
| `PackagesEnv.PlainTextMeaning` | pkg/config/packages_env.go:30-63 | text without `%` means itself and reads no secret |
| `PackagesEnv.SplitPackageEnvValue` | pkg/config/packages_env.go:30-52 | the loop returns the references with the text between them, or fails on a malformed ID |
| `PackagesEnv.FormatPackageEnvValue` | pkg/config/packages_env.go:65-90 | the loop prints the word of the value, a malformed value literally |
| `PackagesEnv.FormatEvaluates` | pkg/config/packages_env.go:65-90 | the printed word expands to the value with each reference replaced by its path or by the secret, nothing if it cannot be read, whatever follows the word |
| `PackagesEnv.ExpansionMeans` | pkg/config/packages_env.go:65-90 | where every secret can be read the expansion is what the value means |
| `PackagesEnv.StatusIsLast` | pkg/config/packages_env.go:65-90 | the status a value leaves is that of the last secret it reads |
| `PackagesEnv.ExpansionNeedsFiles` | pkg/config/packages_env.go:54-63 | a value that reads no secret means and expands to the same without any file |
| `PackagesCommands.FormatEnvVars` | pkg/config/packages_commands.go:39-61 | assignments and prefix, in the order of the names |
| `PackagesCommands.StatementsExact` | pkg/config/packages_commands.go:49-57 | a variable gets a statement of its own exactly if it is listed as standalone or reads a secret |
| `PackagesCommands.PrefixReadsNoSecret` | pkg/config/packages_commands.go:33-61 | the prefix gives the command an environment that depends on no file |
| `PackagesCommands.PrefixHidesFailure` | pkg/config/packages_commands.go:33-35 | in a prefix an unreadable secret would let the command run with the rest of the value |
| `PackagesCommands.AssignmentsExact` | pkg/config/packages_commands.go:33-61 | the assignments stop exactly if the last secret of some value cannot be read, and otherwise set every standalone variable to what its value expands to |
| `PackagesCommands.DirectiveRuns` | pkg/config/packages_commands.go:33-69 | the whole text stops if the last secret of some value is unreadable, and otherwise runs the command with every value as expanded, in a subshell or not, leaving the variables of the calling shell alone |
| `PackagesCommands.DirectiveExact` | pkg/config/packages_commands.go:33-69 | the command gets what is meant if and only if every secret can be read; the directive stops if and only if the last secret of some value cannot be |
| `PackagesCommands.MissingSecretRuns` | pkg/config/packages_commands.go:33-35 | with the first of two secrets in one value missing the command runs with the value cut short |
| `PackagesCommands.InstallDirective` | pkg/config/packages_commands.go:63-89 | the method's text does the same for all variables and files |
| `BuildTimeEnv.ExportsExact` | pkg/container_backend/legacy_stage_image_container.go:134-146 | the exports put exactly the build-time variables on top of the shell's |
| `BuildTimeEnv.LegacyStageImageContainer.AddBuildTimeEnv` | pkg/container_backend/legacy_stage_image_container.go:100-104 | later values win |
| `BuildTimeEnv.LegacyStageImageContainer.PrepareRunCommand` | pkg/container_backend/legacy_stage_image_container.go:162-165 | the commands of the script start with every build-time variable at its very value |
| `EmptyParents.Disk.RemoveExactPathWithEmptyParentDirs` | pkg/container_backend/file_utils.go:30-82 | what is removed is exactly the path with all below it and the parents that held only the way to it, up to the first keep directory; when it fails |
| `EmptyParents.Disk.RemoveInsidePath` | pkg/container_backend/file_utils.go:84-114 | a directory is emptied and everything else stays |
| `EmptyParents.ClimbLine` | pkg/container_backend/file_utils.go:46-81 | a parent with no entry left had only the line through the path below it |
| `EmptyParents.LeftWellFormed` | pkg/container_backend/file_utils.go:30-82 | the tree stays a tree |
| `EmptyParents.SurvivorExact` | pkg/container_backend/file_utils.go:46-81 | the lowest parent left has something in it, is the root or is a keep directory, except exactly if it was empty before and a keep directory that does not exist lies below it |
| `EmptyParents.MissingKeepStops` | pkg/container_backend/file_utils.go:53-63 | an empty parent survives because of a keep directory that does not exist |
| `AttestationCopy.KindOfExact` | pkg/attestation/predicate_types.go:50-80 | no predicate URI belongs to two kinds and none is the missing annotation |
| `AttestationCopy.Repository.CopyAttachedArtifacts` | pkg/oci/artifact/copy.go:59-141 | in whatever order, copying leaves the slots the order-free rule says |
| `AttestationCopy.MirroredUnique` | pkg/oci/artifact/copy.go:59-71 | copying gives one result |
| `AttestationCopy.SupersededExact` | pkg/attestation/publish.go:93-118 | with the types written out, what a copied artifact replaces |
| `AttestationCopy.SourceNotEvicted` | pkg/attestation/publish.go:85-110 | nothing the source holds is replaced |
| `AttestationCopy.CopyIdempotent` | pkg/oci/artifact/copy.go:59-71 | copying again changes nothing |
| `AttestationCopy.RepeatConverges` | pkg/oci/artifact/copy.go:59-71 | a failed copy that is repeated arrives at the same slots with equivalent artifacts |
| `AttestationCopy.RepeatExact` | pkg/oci/artifact/copy.go:59-71 | it arrives at the very same artifact in a slot, except exactly if an equivalent one was to be replaced only for what its attach evicts and that is gone already |
| `AttestationCopy.RepeatKeepsOldPayload` | pkg/oci/artifact/copy.go:106-115 | an interrupted copy after which the older payload stays |
| `AttestationCopy.OthersUntouched` | pkg/attestation/publish.go:85-110 | slots users signed, without annotation, of unknown kinds or of kinds the source does not hold stay as they are |
| `AttestationCopy.OneStateMirrored` | pkg/attestation/publish.go:85-110 | no slot of werf's own in the signing state the source has left remains |
| `AttestationCopy.PublishLeavesOne` | pkg/attestation/publish.go:21-81 | publishing leaves exactly one artifact of werf's own of the kind per image, if and only if there was none of the same signing state under the kind's other URI |
| `AttestationCopy.PublishLeavesTwo` | pkg/attestation/publish.go:21-81 | with one there, two are left |
| `AttestationCopy.PublishKeepsOthers` | pkg/attestation/publish.go:21-81 | publishing, with a checksum or without, leaves all other slots as they are |
| `SignIndex.CollectSigns` | pkg/config/raw_stapel_image.go:199-230 | the two-map loop accepts exactly the lists without a clashing pair, and rejects at the first entry that clashes with one before it |
| `SignIndex.ClashExact` | pkg/config/raw_stapel_image.go:206-228 | the rule on pairs in full: equal paths, or two single files of one stage of which one is the other's detached `.p7s` |
| `SignIndex.LookupsExact` | pkg/config/raw_stapel_image.go:206-228 | the lookups find a clash if and only if some entry before clashes |
| `SignIndex.OrderDoesNotMatter` | pkg/config/raw_stapel_image.go:199-230 | a list is accepted or not whatever order it is written in |

## Left out

- Network, Docker, Buildah, Kubernetes and Git: calls that the protocols depend on are steps that may fail.
- YAML unmarshalling, templates, the copying of raw directives into directives, and error texts.
- `filepath` on anything but clean paths: a path is its list of components, and `destDir` and `srcDir` are clean.
- `..` in a link target is resolved lexically, as the code does; an image whose `..` crosses another link is not compared with a kernel that resolves it physically.
- Disk errors other than a file standing where a directory is needed, the directories a failed write leaves, file modes; the file name patterns, which are a parameter.
- Archives that record something below a link or one name as file and link: the collector's contract covers them, the comparison with the image does not.
- The images a caller requests are taken to be configured, and `dependencies` to name configured images, which config validation establishes before.
- StageProtection.CleanupManager.ProtectRelatives: an index met on the way to a relative does not get its platforms protected, because the code expands platforms of the starting stage only.
- ProtectionOrder.OrderExact: covers repos without indexes, because which of several stages with one platform digest is taken for an index is up to the map order as well.
- StageProtection.CleanupManager.CleanupUnusedStages: deletes one stage after the other, while the code deletes in parallel and other deletions may go on after one that fails for good.
- RejectedStages.MarkerGoesLast: tags whose metadata a run could not read are excepted, because such a tag is not on the run's list.
- Dry runs, reports and logging of the cleanup, and the Git-history policies that choose the protected stages.
- The background poller of the tags cache and the removal of cached entries: listings of any origin are the same step.
- JSON decoding of a token response and the request key of the token cache: the decoder is a parameter and keys are opaque.
- `shellescape.Quote`: it is a parameter with the contract that quoted text evaluates to itself anywhere in a word.
- Shell syntax the generated scripts do not use; `$(<file)` drops trailing newlines, as command substitution does, so the meaning of a reference is the secret without them.
- The commands around the environment prefix: `cd`, the lock guard and the version file; the directive here has one command and is a statement of its own under `set -e`.
- Names of build-time variables are taken to be shell names; the terminal width is a parameter.
- Symbolic links in the tree that empty parents are removed from; removing the root fails.
- Entries of an artifact index without an artifact type, two entries of one digest, retries of the push, and the content check that finds annotation-less entries of a kind when publishing: an index is a map from slots to artifacts.
- Validation of single `sign` entries and the conflicts of patterns, which are checked when they are expanded.
