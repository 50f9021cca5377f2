# ctxfw verification

A Dafny model of the parts of ctxfw whose correctness rests on state, arithmetic or tree
manipulation, with proofs of what they promise. Each module follows one component.

- **Hash-chained audit ledger** (`Timestamps`, `AuditContracts`, `AuditVerifier`, `WalRetry`,
  `LedgerModel`, `LedgerRuns`, `LedgerReplies`, `AuditStore`). Blocks, the SQL guards, the transactional append
  under bounded retry, the chain verifier and the tamper latch. `LedgerModel` specifies one step
  over the three tables, `AuditStore` is the store class proved against it, and `LedgerRuns`
  proves properties over all interleavings of writers, faults, verifications and offline edits.
  `LedgerReplies` says exactly when a call succeeds and what it answers otherwise.
- **Pruners** (`Splice`, `Polyglot`, `ProxyCompaction`, `PythonPruner`). Span collection and
  right-to-left buffer edits refine a simultaneous substitution; the Python transformer is
  idempotent and its depths absorb each other.
- **Topology and caches** (`Topology`, `SemanticCache`, `BuildContext`, `Manifest`). Breadth-first
  distances with a memo table, the two-level cache that must agree with recomputing, and the
  budgeted symbol manifest.
- **Token budget** (`BudgetContracts`, `Forecaster`, `DecimalCost`, `Breaker`). Exact integer
  forecasting, decimal pricing and the decision state machine.
- **Rules** (`PathNormalizer`, `PathMeaning`, `RulesContracts`, `RulesEnforcer`, `CallMatching`,
  `RulesCompiler`, `RulesMeaning`). Path normalisation and where a path leads, matching, and a
  deduplicating compiler, from the clauses of a file to the calls that are blocked.
- **Licences** (`RsaMath`, `Bytes`, `Base64Url`, `License`). Issue and verify, from base64url
  (section 5 of RFC 4648) and EMSA-PKCS1-v1_5 (section 9.2 of RFC 8017) down to the theorem that
  RSA exponentiations cancel, proved from Fermat's little theorem for every valid key pair.
- **Telemetry** (`Telemetry`). The ledger class and the fetch, post and mark protocol with lost
  replies, crashes and concurrent pushers.

`Wrappers`, `Digits`, `PyText`, `Identifiers` and `CoreContracts` hold what several components share.

## Reading the statements

- SHA-256 is a parameter. No statement assumes that it is injective, which no function with
  64 digits of output is. Where the code relies on it, the conclusion reads "this holds, or these
  two concrete preimages collide"; with an injective hash the second half disappears.
- A loop in the source is a method with a loop, proved equal to a specification function or to a
  declarative property; lemmas then say what that function or property gives the caller.
- The JSON form of a licence payload, the clock's text form, `ast.unparse`, the rule classifier,
  the regular-expression matches and the parsers are parameters. Parsed trees, match lists, tokens
  and clauses are inputs.
- Text is ASCII.

## Where code and documentation differ, or a promise needs a condition

The model follows the code.

- `OptimizationRequestDTO` strips outer whitespace, so a FULL module is not always its source:
  `SemanticCache.FullIsVerbatimIff` gives the exact condition.
- `verify_chain` cannot report a position beyond 1,000,000; the fail-closed wrapper then reports
  position 0: `AuditVerifier.FarBreakReportedAtZero`.
- The right-to-left edit is not the substitution for every tree: an empty body may share its start
  with a non-empty one, whose span then eats the stub just inserted. `Polyglot.PruneSubstitutesIff`
  gives the exact condition, `Polyglot.EmptyBodyBreaksPrune` a nested tree that fails; whether a grammar ever
  produces such a zero-width body is not part of this model.
- Raises of functions nested inside compound statements are extracted with those of the enclosing
  body, because skipping a definition does not stop the walk: `PythonPruner.ExtractedExactly`.
- `normalize_path` is not idempotent: a first name that begins with two dots after a root slash is
  refused the second time. `PathNormalizer.NormalizeTwiceIff` gives the exact condition,
  `PathNormalizer.NormalizeTwiceFails` an input.
- Raising `max_turns` can harden a decision, because a longer horizon is then forecast.
  `Breaker.MoreTurnsNeverHarderIff` gives the exact condition, `Breaker.MoreTurnsCanHarden` a session; token
  limits behave as expected.
- The cost estimate is documented as an upper bound. It is one ten-thousandth short when the decimal
  context rounds down onto a whole ten-thousandth, which takes a rate of more than 28 digits:
  `DecimalCost.CostIsLeastCoverIff`, `DecimalCost.LongRateFallsShort`.
- The caches write L1 before the table, so a refused insert can leave them apart:
  `SemanticCache.RefusedInsertLeavesL1Ahead`; `SemanticCache.LocalSemanticCache.Set`,
  `SemanticCache.SymbolIndex.SetBatch`, `BuildContext.ContextFirewallEngine.BuildEntries` and
  `BuildContext.CompactSnippet` say exactly when for one call, `BuildContext.RunSession` for whole sessions.
  Answers are right all the same.
- Symbol keys of the global project are bare paths, so a path that starts with the id of another project and two
  colons takes that project's key: `SemanticCache.BarePathCollidesIff`, `SemanticCache.BatchLeavesOthersIff`.
- TRANSITIVE_NOMINAL, the canonical level, is documented as two hops (docs/spec/CONTEXT_DEPTH_CONFIGURATOR.md:107)
  but has no ceiling: every farther module enters too, except distance 3 when the manifest is switched
  on. Of the two levels that go beyond one hop only AMBIENT_CARTOGRAPHY rejects distances beyond 3, and a tripped breaker sends them all to the
  manifest. `BuildContext.CeilingIff` gives the exact condition,
  `BuildContext.CanonicalHasNoCeiling` the failing input.
- A telemetry post whose reply is lost is pushed again, so delivery is at least once
  (`Telemetry.SyncedIsDelivered`). With one pusher an event is repeated exactly when a batch is
  ingested after a lost mark: `Telemetry.RepeatsIff`, `Telemetry.LostReplyRepeats`.

## Model

| member | source | states |
|---|---|---|
| Timestamps.ParseCanonical | src/ctxfw/audit/contracts.py:206-212 | reading back a stored 27-character timestamp gives the instant that was written |
| Timestamps.CanonicalParse | src/ctxfw/audit/contracts.py:206-212 | only canonical text is read: writing what was read gives the text back |
| Timestamps.CanonicalOrder | src/ctxfw/audit/schema.sql:181-189 | text order of the stored column, which the SQL guard compares, is time order, which the verifier compares |
| Timestamps.InRangeIff | src/ctxfw/audit/schema.sql:95-97 | the ledger accepts exactly the moments of the years 2020 to 2099 |
| AuditContracts.MaterialInjective | src/ctxfw/audit/contracts.py:221-236 | the block preimage determines the link, the three digests and the time |
| AuditContracts.MaterialLayout | src/ctxfw/audit/contracts.py:221-236 | where link, intent, reasoning, action and time stand in the 283 characters |
| AuditContracts.GenesisDomainSeparated | src/ctxfw/audit/contracts.py:239-243 | no genesis preimage is a block preimage |
| AuditContracts.ValidateBlockSequence | src/ctxfw/audit/contracts.py:341-354 | accepts exactly the contiguous, one-session, time-ordered sequences; otherwise the first offence decides which of the four errors is raised |
| AuditContracts.OnlyPathToClean | src/ctxfw/audit/contracts.py:106-196 | a run of the ledger state machine ends VERIFIED_CLEAN exactly when it starts with the seven steps in order |
| AuditContracts.TerminalAbsorbs | src/ctxfw/audit/contracts.py:106-196 | a terminal state is never left |
| AuditVerifier.VerifyChain | src/ctxfw/audit/verifier.py:64-97 | the one-pass loop returns the verdict about the least inconsistent position |
| AuditVerifier.AuditNamesLeastBroken | src/ctxfw/audit/verifier.py:64-97 | the verdict is clean exactly when every position is consistent, else it names the least inconsistent one; a refusal means every position that can be reported is consistent |
| AuditVerifier.VerifyFailClosed | src/ctxfw/audit/verifier.py:107-127 | never fails and always returns a well-formed verdict |
| AuditVerifier.CleanIsNeverGuessed | src/ctxfw/audit/verifier.py:107-127 | a clean fail-closed verdict implies the derived genesis and a consistent chain |
| AuditVerifier.FarBreakReportedAtZero | src/ctxfw/audit/verifier.py:107-127 | a break at position k is reported at k up to 1,000,000 and at 0 beyond |
| AuditVerifier.LatchedIsNeverClean | src/ctxfw/audit/verifier.py:130-142 | a latched verdict is tampered, names the latched position and covers it if the chain reads clean, and latching twice is latching once |
| AuditVerifier.CleanVerifies | src/ctxfw/audit/verifier.py:64-97 | a clean chain passes with its full length |
| AuditVerifier.CleanIffIntact | src/ctxfw/audit/verifier.py:64-97 | nothing is reported exactly when every block is of the session, numbered, linked and sealed over its own fields, and no block is earlier than any before it |
| AuditVerifier.ExtendClean | src/ctxfw/audit/verifier.py:64-97 | a block sealed on the head of a clean chain keeps it clean |
| AuditVerifier.HeadDeterminesChain | src/ctxfw/audit/verifier.py:64-97 | two clean chains of one session with one head are equal in length, digests, links and times, or two of their preimages collide |
| AuditVerifier.AnchorExposesTruncation | src/ctxfw/audit/verifier.py:8-17 | a proper prefix of a clean chain has another head, or a collision is exhibited |
| AuditVerifier.TruncationVerifiesClean | src/ctxfw/audit/verifier.py:8-17 | without an external head, every prefix of a clean chain verifies clean |
| AuditVerifier.UnsealedEditReportedThere | src/ctxfw/audit/verifier.py:8-17 | changing a hashed field of block k without re-sealing is reported exactly at k |
| AuditVerifier.ResealedEditReportedNext | src/ctxfw/audit/verifier.py:8-17 | changing digests of block k and re-sealing only k is reported exactly at k + 1 |
| WalRetry.RunWithWalRetry | src/ctxfw/kernel/retry.py:47-66 | at most four attempts, every one but the last locked, pauses a prefix of the schedule, last outcome returned |
| LedgerModel.LoadStored | src/ctxfw/audit/store.py:375-396 | loading the stored rows of a session gives back the appended blocks |
| LedgerModel.LoadRowIff | src/ctxfw/audit/store.py:375-396 | a row loads exactly when it is the row of a sealed block of the session, and then as that block |
| LedgerRuns.CommittedAppend | src/ctxfw/audit/store.py:233-295 | a committed transaction adds one sealed block of the requested session, linked to its head, and nothing else |
| LedgerRuns.KeptAfterAppend | src/ctxfw/audit/store.py:233-295 | a commit keeps the correspondence between tables and the log of appended blocks |
| LedgerRuns.AttemptAddsOneOrNothing | src/ctxfw/audit/store.py:297-333 | every attempt of every writer adds one block to one session and says APPENDED, or leaves the tables untouched |
| LedgerRuns.AppendCallAddsOneOrNothing | src/ctxfw/audit/store.py:297-333 | a whole call makes at most four attempts; it adds exactly one block when it returns APPENDED and nothing otherwise |
| LedgerRuns.OneSession | src/ctxfw/audit/store.py:233-295 | an id with a final newline cannot put a block into the session it trims to |
| LedgerRuns.KeptVerifiesClean | src/ctxfw/audit/store.py:435-461 | a ledger written only by the store verifies clean with one audited block per append |
| LedgerRuns.CheckKeepsInvariant | src/ctxfw/audit/store.py:435-461 | verifying keeps the invariant and returns a clean verdict with the full count |
| LedgerRuns.RunKeepsInvariant | src/ctxfw/audit/store.py:233-333 | the invariant holds over every interleaving of writers, lock faults, retries and verifications |
| LedgerRuns.ReachableLedgerVerifiesClean | src/ctxfw/audit/store.py:435-461 | every reachable ledger verifies clean with total equal to its number of blocks |
| LedgerRuns.StepOnlyAddsVerdicts | src/ctxfw/audit/schema.sql:115-149 | verdict rows are only added and sessions never removed, even by offline edits of block rows |
| LedgerRuns.LatchSurvivesRun | src/ctxfw/audit/store.py:398-406 | the latched position of a session never changes again |
| LedgerRuns.TamperedVerdictLatches | src/ctxfw/audit/store.py:408-461 | a tampered verdict is stored before it is returned and latches the session |
| LedgerRuns.LatchIsForever | src/ctxfw/audit/store.py:435-461 | after one tampered verdict every later one is tampered, whatever happens to block rows; a re-cleaned chain is reported at the first stored position |
| LedgerRuns.LatchedSessionRefusesBlocks | src/ctxfw/audit/schema.sql:204-210 | a latched session accepts no block under any faults |
| LedgerReplies.AttemptSucceedsIff | src/ctxfw/audit/store.py:233-295 | on the tables of a log an attempt commits exactly when the request is well formed, its time is not before any block of the session, its derived block id is free and no fault stops it; it then adds exactly the next block, every field of which is given |
| LedgerReplies.AppendableCall | src/ctxfw/audit/store.py:297-333 | an acceptable request is APPENDED after j + 1 attempts when j <= 3 were locked out, TRANSIENT after four locks, and otherwise raises what the database raised |
| LedgerReplies.CallSucceedsIff | src/ctxfw/audit/store.py:297-333 | a call answers APPENDED exactly on an acceptable request that is let through after at most three locks, and otherwise leaves the tables alone |
| LedgerReplies.RefusedCall | src/ctxfw/audit/store.py:93-99 | without faults a refused request is answered DETERMINISTIC when it is wrong by itself and BUSINESS when it is out of place |
| LedgerReplies.NeverBackInTime | src/ctxfw/audit/schema.sql:178-199 | whatever the tables hold, no block is committed before its session or its predecessor |
| LedgerReplies.VerdictIff | src/ctxfw/audit/store.py:408-461 | a verdict is returned exactly when there is one, a reported position has a row, the derived event id is free and at most three writes are locked out |
| LedgerReplies.KeptVerdictIff | src/ctxfw/audit/store.py:435-461 | a session written only by the store gets a clean verdict with its full count and the time of the clock exactly then |
| AuditStore.TraceKitStore.AppendStatements | src/ctxfw/audit/store.py:233-295 | the statements of one transaction compute the specified tables and fill the holder |
| AuditStore.TraceKitStore.AppendOnce | src/ctxfw/audit/store.py:233-295 | one transaction commits all of it or restores every table |
| AuditStore.TraceKitStore.AppendDigests | src/ctxfw/audit/store.py:297-333 | the retried call ends in the ledger, reply and attempt count of the specification; on the tables of any log it answers APPENDED with the next block exactly when the request is acceptable and let through |
| AuditStore.TraceKitStore.LoadSession | src/ctxfw/audit/store.py:375-396 | rows are loaded in sequence order, or the load fails on a malformed row |
| AuditStore.TraceKitStore.PersistOnce | src/ctxfw/audit/store.py:408-433 | a verdict row is added in full or not at all |
| AuditStore.TraceKitStore.Verify | src/ctxfw/audit/store.py:435-461 | audits, latches and persists before answering, and returns a verdict exactly when the tables take it |
| Splice.FitIsDisjoint | src/ctxfw/core/polyglot.py:162-165 | the recursive notion of fitting edits is the pairwise one: ordered, disjoint, inside the buffer |
| Splice.RightToLeftIsSubstitution | src/ctxfw/core/polyglot.py:162-165 | editing a buffer in place from the last span to the first is the simultaneous substitution at original offsets |
| Splice.OutsideSurvives | src/ctxfw/core/polyglot.py:162-165 | every element outside the spans is kept, moved by the edits before it |
| Splice.ShiftKeepsOrder | src/ctxfw/core/polyglot.py:162-165 | kept elements keep their order |
| Splice.TextPlaced | src/ctxfw/core/polyglot.py:162-165 | every replacement stands where its span was |
| Splice.SubstituteLength | src/ctxfw/core/polyglot.py:162-165 | the length changes by exactly the sum of the edits |
| Splice.SortedDescSorts | src/ctxfw/core/polyglot.py:162-165 | sorting by descending start is a rearrangement |
| Splice.SortReverses | src/ctxfw/core/polyglot.py:162-165 | spans with different starts, collected in order, are sorted to their reversal |
| Splice.SpliceIsSubstitutionIff | src/ctxfw/core/polyglot.py:162-165 | with one replacement text, the sorted in-place edit is the substitution exactly when the copies inserted for empty spans survive the span that starts with them |
| Splice.HarmlessForEverySourceIff | src/ctxfw/core/polyglot.py:162-165 | for all sources of a length that holds exactly when no empty span shares its start with a non-empty one |
| Splice.SpliceAll | src/ctxfw/core/polyglot.py:162-165 | the loop equals the substitution exactly under that condition, and always when the starts differ |
| Polyglot.BodiesAreOutermost | src/ctxfw/core/polyglot.py:79-126 | the collected bodies are exactly those of functions not inside a stubbed function |
| Polyglot.SpansFit | src/ctxfw/core/polyglot.py:79-126 | spans collected from any well-nested tree are ordered, disjoint and inside the root |
| Polyglot.CollectReplacements | src/ctxfw/core/polyglot.py:79-126 | the recursion appends to the shared list exactly the spans of its subtree, in document order |
| Polyglot.Prune | src/ctxfw/core/polyglot.py:128-167 | the pruned text is the substitution of every outermost body exactly when the stubs of empty bodies survive, always when bodies are non-empty; Python is refused, FULL is unchanged |
| Polyglot.PruneSubstitutesIff | src/ctxfw/core/polyglot.py:128-167 | for all sources of a tree that holds exactly when no empty outermost body shares its start with a non-empty one |
| Polyglot.EmptyBodyBreaksPrune | src/ctxfw/core/polyglot.py:162-165 | a well-nested tree for which it fails |
| Polyglot.EmptiedNodes | src/ctxfw/core/polyglot.py:79-126 | for each language, which kinds of node are emptied of which kind of child, the first such child only |
| Polyglot.OneFunctionPruned | src/ctxfw/core/polyglot.py:128-167 | a source that is one function keeps its head and tail around the placeholder of its language and depth |
| Polyglot.UntouchedByteSurvives | src/ctxfw/core/polyglot.py:128-167 | every byte outside the replaced bodies survives at its shifted offset |
| ProxyCompaction.CompactPhase | src/ctxfw/proxy.py:156-210 | the reversed-match loop is one substitution and its saving the sum over the replaced blocks |
| ProxyCompaction.CompactTextPayload | src/ctxfw/proxy.py:156-210 | tagged blocks if there are any, else generic ones, replaced as one substitution; no fence, no change |
| ProxyCompaction.EditsExactly | src/ctxfw/proxy.py:156-210 | exactly the spans of the matches that ask for it are replaced |
| ProxyCompaction.TagDecides | src/ctxfw/proxy.py:174-187 | FULL or D0 anywhere in the tag keeps a block, NOMINAL or D2 reduces it to names, whatever the letter case and outer space |
| ProxyCompaction.TaggedEditIs | src/ctxfw/proxy.py:174-195 | a tagged block is replaced exactly when it is not kept and something is saved: heading, fence, the lines compacted at the depth asked for, and the closing fence |
| ProxyCompaction.GenericEditIs | src/ctxfw/proxy.py:198-208 | a generic block is replaced exactly when something is saved, by the same fence around the compacted lines |
| ProxyCompaction.FullBlocksUntouched | src/ctxfw/proxy.py:156-210 | characters of a block tagged FULL or D0 are outside every edit |
| ProxyCompaction.NoSavingNoEdit | src/ctxfw/proxy.py:156-210 | the reported saving is zero exactly when nothing was replaced |
| PythonPruner.ExtractRaises | src/ctxfw/core/pruner.py:30-66 | the loops return the cleaned raises in walk order, the first of each text kept |
| PythonPruner.WalkReaches | src/ctxfw/core/pruner.py:36-38 | the walk yields every node below, also inside nested definitions: skipping a definition does not stop it |
| PythonPruner.ExtractedExactly | src/ctxfw/core/pruner.py:30-66 | exactly the raises under statements that are not themselves definitions are extracted, one of each text |
| PythonPruner.NestedRaiseExtracted | src/ctxfw/core/pruner.py:36-38 | the raise of a function defined inside a compound statement is extracted too |
| PythonPruner.CleanBody | src/ctxfw/core/pruner.py:68-86 | the rebuilt body is docstring, raises and the ellipsis |
| PythonPruner.NominalClassBody | src/ctxfw/core/pruner.py:96-115 | a NOMINAL class body keeps its docstring and annotations only |
| PythonPruner.InterfaceThen | src/ctxfw/core/pruner.py:18-115 | pruning an INTERFACE-pruned tree at any depth equals pruning the original |
| PythonPruner.AfterNominal | src/ctxfw/core/pruner.py:18-115 | a NOMINAL-pruned tree is a fixed point at either depth |
| PythonPruner.PruningLaws | src/ctxfw/core/pruner.py:18-115 | idempotence at both depths and absorption of INTERFACE by NOMINAL on both sides |
| PythonPruner.SignaturesSurvive | src/ctxfw/core/pruner.py:88-115 | the pruned tree has exactly the signatures not inside another function or a removed class body, in order |
| PythonPruner.PrunedBodiesAreStubs | src/ctxfw/core/pruner.py:68-94 | every remaining function body is docstring, distinct cleaned raises and the ellipsis |
| PythonPruner.InterfaceKeepsSkeleton | src/ctxfw/core/pruner.py:88-115 | INTERFACE pruning changes nothing outside function bodies |
| PythonPruner.RaisesAnnounced | src/ctxfw/core/pruner.py:30-86 | every raise of the source body outside nested definitions is announced in the pruned body by one with its cleaned text |
| PythonPruner.EveryRaiseAnnounced | src/ctxfw/core/pruner.py:30-86 | every raise of the source body outside nested definitions has an announcement with the same callee, the one argument "..." and no cause, or stands there itself when raises are not sanitised |
| PythonPruner.NothingElseAnnounced | src/ctxfw/core/pruner.py:30-86 | every raise of a pruned body announces a raise of the source |
| PythonPruner.WalkByGenerations | src/ctxfw/core/pruner.py:36-38 | raises are met generation by generation, from left to right |
| PythonPruner.DedupSelects | src/ctxfw/core/pruner.py:62-65 | the first raise of every text is kept, in order |
| PythonPruner.PrunedFunction | src/ctxfw/core/pruner.py:68-94 | a pruned function is its head, its docstring unless stripped, raises at INTERFACE only, and the ellipsis |
| PythonPruner.PrunedClass | src/ctxfw/core/pruner.py:96-115 | a NOMINAL class is its head, its docstring unless stripped and its annotated assignments in order, or the ellipsis |
| PythonPruner.KeepsOutline | src/ctxfw/core/pruner.py:88-115 | at either depth nothing outside function and class bodies changes |
| Topology.ProjectDependencyGraph.GetDistances | src/ctxfw/core/topological.py:156-181 | the keys are the reachable modules, each with its shortest path length; the memo table agrees with recomputing |
| Topology.ProjectDependencyGraph.Search | src/ctxfw/core/topological.py:156-181 | breadth-first search terminates on every graph with the shortest distances |
| Topology.ProjectDependencyGraph.Expand | src/ctxfw/core/topological.py:171-179 | one dequeued module records and queues exactly its unknown imports |
| Topology.DistancesUnique | src/ctxfw/core/topological.py:156-181 | at most one map is the distance map of a target |
| Topology.KeysAreReachable | src/ctxfw/core/topological.py:156-181 | a module has a distance exactly when some import path leads to it |
| Topology.ClosedBoundsPaths | src/ctxfw/core/topological.py:156-181 | a map closed under imports bounds the length of every path |
| Topology.ClassifyPerimeter | src/ctxfw/gatekeeper.py:102-126 | the nested loops compute the distance to the nearest changed file |
| Topology.PerimeterUnique | src/ctxfw/gatekeeper.py:120-126 | at most one map is the multi-source distance map |
| Topology.ZeroIsChanged | src/ctxfw/gatekeeper.py:120-126 | distance 0 is exactly the changed files |
| Topology.DepthsOfPerimeter | src/ctxfw/gatekeeper.py:139-147 | FULL is given to changed files only and INTERFACE to unchanged direct imports only |
| SemanticCache.KeyPayloadInjective | src/ctxfw/storage/cache.py:188-197 | the key payload determines source, version, strip flag, depth and language, although sources may contain the separator |
| SemanticCache.FullIsVerbatimIff | src/ctxfw/core/contracts.py:28-38 | a FULL module is its source verbatim exactly when the source has no outer whitespace or is blank |
| SemanticCache.ShowsRecomputed | src/ctxfw/core/pruner.py:125-166 | what is recomputed for a query is the pruner's code with both lengths, the depth and max(0, max(1, n / 4) - max(1, m / 4)) tokens saved; the stripped text at FULL; the raw text when blank or refused |
| SemanticCache.LocalSemanticCache.Get | src/ctxfw/storage/cache.py:199-226 | a read answers what L1 or the table holds and changes no answer |
| SemanticCache.LocalSemanticCache.Set | src/ctxfw/storage/cache.py:263-308 | L1 and, if the database accepts, the table hold the answer; an attributed row keeps its project; L1 still agrees with the table exactly when the insert was accepted or the row already held the answer |
| SemanticCache.LocalSemanticCache.AttributeProject | src/ctxfw/storage/cache.py:228-261 | an unattributed row of the key gets project and model unless the write is refused; every answer, every attributed row and every other row stays |
| SemanticCache.LocalSemanticCache.Reopen | src/ctxfw/storage/cache.py:101-131 | reopening keeps the table and empties L1 |
| SemanticCache.LocalSemanticCache.HitIsRecomputed | src/ctxfw/storage/cache.py:188-226 | a hit is the recomputed answer, or its key collides with a stored one |
| SemanticCache.LocalSemanticCache.AgreesIffCovered | src/ctxfw/storage/cache.py:199-308 | L1 agrees with the table exactly when the table has all its keys, or two stored queries collide |
| SemanticCache.RefusedInsertLeavesL1Ahead | src/ctxfw/storage/cache.py:263-308 | a refused insert leaves L1 with an entry the table does not have |
| SemanticCache.ScopedKeysMeetIff | src/ctxfw/storage/cache.py:309-317 | two symbol keys are equal exactly when scope and path are, or when a bare path of the global project spells out the scoped key |
| SemanticCache.BarePathCollidesIff | src/ctxfw/storage/cache.py:309-317 | a bare path has a key of a repository exactly when it starts with its id and two colons |
| SemanticCache.SymbolIndex.GetBatch | src/ctxfw/storage/cache.py:319-368 | the batch answers exactly the paths held by L1 or the table, L1 first, and changes no answer |
| SemanticCache.SymbolIndex.SetBatch | src/ctxfw/storage/cache.py:370-400 | L1 is filled in order, the rows only when accepted; L1 still agrees with the table exactly when the write was accepted or would have changed nothing |
| SemanticCache.BatchLeavesOthersIff | src/ctxfw/storage/cache.py:309-400 | a batch writes over another project's entry exactly when one of them is global and a bare path spells out the other's key; otherwise the entry stays |
| BuildContext.PlacementExact | src/ctxfw/core/topological.py:464-522 | in an untripped build, the distances at which a module becomes an entry, a manifest line or nothing, for each level |
| BuildContext.TrippedPlacementExact | src/ctxfw/core/topological.py:464-522 | in a tripped build every module from distance 2 on becomes a manifest line |
| BuildContext.CeilingIff | src/ctxfw/core/topological.py:466-486 | the configured number of hops is a ceiling, and so is 3, exactly in untripped builds of a level other than TRANSITIVE_NOMINAL, and no smaller number is |
| BuildContext.CanonicalHasNoCeiling | src/ctxfw/config.py:71-96 | with the canonical configuration every module from distance 2 on enters, although the level is documented as two hops |
| BuildContext.NearerNeverLessIff | src/ctxfw/core/topological.py:464-522 | a nearer module is never shown less than a farther one except in two named configurations |
| BuildContext.PlacementOrder | src/ctxfw/core/topological.py:504-522 | the active file is FULL, and among entries a nearer module is never pruned harder |
| BuildContext.ContextFirewallEngine.ModuleAnswer | src/ctxfw/core/topological.py:524-592 | the cached or freshly stored answer shows the pruned code of the module, or its own key collides; a refused store keeps L1 in agreement exactly when the row already held the answer |
| BuildContext.StoresIsMisses | src/ctxfw/core/topological.py:531-586 | when a module is reached it has to be stored exactly when it is blank or its key was neither held before the build nor asked for by an earlier module |
| BuildContext.ContextFirewallEngine.BuildEntries | src/ctxfw/core/topological.py:459-592 | exactly the placed files enter, each with the pruner's own code, lengths, depth and saving (raw in passthrough, when blank or when refused) unless the key of its own query collides with a stored one; the build fails exactly at the first needed insert that is refused, and L1 then still agrees with the table exactly when the row of that module held its answer |
| BuildContext.AmbientModules | src/ctxfw/core/topological.py:464-486 | the manifest candidates are exactly the modules placed there |
| BuildContext.KeptIsUncached | src/ctxfw/core/topological.py:459-592 | without such a collision the entries are the uncached ones |
| BuildContext.EntriesUnique | src/ctxfw/core/topological.py:459-592 | the uncached entries are determined by files and configuration |
| BuildContext.CompactSnippet | src/ctxfw/proxy.py:96-153 | the snippet answer is the pruned code with its saving, or the untouched code on a refused insert, or its own key collides; L1 stays in agreement exactly when nothing was inserted or the insert was accepted |
| BuildContext.WorthIff | src/ctxfw/proxy.py:133-149 | a snippet is written to the cache only when what is shown for it saves something |
| BuildContext.AheadIff | src/ctxfw/storage/cache.py:120-308 | after any session L1 has a key the table lacks exactly when the table never got it and, since the last reopening, an insert of it was refused (or L1 held it from the start) |
| BuildContext.RunSession | src/ctxfw/core/topological.py:318-692 | over any sequence of builds, compactions, reads, attributions and reopenings every build is as uncached or fails exactly where it must, and L1 agrees with the table at the end exactly when every key left ahead reached the table, or two stored queries collide |
| BuildContext.SureAfterReopening | src/ctxfw/storage/cache.py:120-131 | agreement is sure, collisions or not, when no insert was refused since the last reopening |
| Manifest.ResolveSymbols | src/ctxfw/core/topological.py:638-658 | current cached symbols first, else a parse with its whole record while fewer than 20 were made, else permitted stale ones, else none |
| Manifest.BuildManifest | src/ctxfw/core/topological.py:594-687 | the listed lines are the index of the admitted files, the records are exactly those of the first 20 files to parse among the modules looked at, and the text stays within 1000 tokens |
| Manifest.IndexUnique | src/ctxfw/core/topological.py:625-674 | modules, files and cache determine the index |
| Manifest.ModuleNameIs | src/ctxfw/core/topological.py:183-190 | a source file is listed by its dotted path without the suffix, a package by its directory, any other file by its whole dotted path |
| Manifest.LineShows | src/ctxfw/core/topological.py:667-668 | a line is the module name, a colon and the comma-separated symbols in brackets |
| Manifest.IndexWithinBudgets | src/ctxfw/core/topological.py:658-674 | candidate order without gaps, symbols and tokens within their limits, only the last line ever cut |
| Manifest.WhyItEnds | src/ctxfw/core/topological.py:643-668 | the index ends early only when the symbols are spent, the parses are spent on a module without usable symbols, or the next line would pass 1000 tokens |
| Manifest.ListedAreAdmitted | src/ctxfw/core/topological.py:596-609 | listed modules are existing candidates and, when clamping applies, of a subsystem in the bundle |
| BudgetContracts.CeilDivIsLeast | src/ctxfw/budget/contracts.py:178-182 | ceiling division is the least integer whose product reaches the numerator |
| BudgetContracts.CeilIsqrtIsLeast | src/ctxfw/budget/contracts.py:185-190 | the ceiling root is the least integer whose square covers the value |
| Forecaster.AdditionalIsTurnByTurn | src/ctxfw/budget/forecaster.py:86-95 | the closed form is the turn-by-turn sum of linearly growing turns, and its halving is exact |
| Forecaster.PredictedIsObservedPlusTurns | src/ctxfw/budget/forecaster.py:77-99 | the prediction is the observed total plus the sum over the remaining horizon |
| Forecaster.MeanAndGrowthAre | src/ctxfw/budget/forecaster.py:77-89 | the mean is the completion tokens per turn rounded up; the growth is the rise of the prompt per turn rounded up, never negative, or the completion of the only turn |
| Forecaster.IntervalIs | src/ctxfw/budget/forecaster.py:86-117 | the interval reaches half of what is to come after one turn and 1.96 sigma times the root of the horizon after more, rounded up, and never falls below what was observed |
| Forecaster.VarianceIsPairwise | src/ctxfw/budget/forecaster.py:101-106 | the variance numerator is the sum of squared pairwise differences, so the clamp at zero never fires |
| Forecaster.SigmaIsLeast | src/ctxfw/budget/forecaster.py:101-106 | sigma is the least integer whose square covers the variance |
| Forecaster.WidthZeroIff | src/ctxfw/budget/forecaster.py:101-117 | with two turns or more the width is zero exactly when all turns are equal or no turn is left |
| Forecaster.PredictNeverRejects | src/ctxfw/budget/forecaster.py:30-117 | the forecast fails exactly on invalid input: every bound of the forecast contract holds for all valid input |
| Forecaster.PredictedMonotone | src/ctxfw/budget/forecaster.py:77-99 | a longer remaining horizon never predicts less |
| DecimalCost.CostIsLeastCoverIff | src/ctxfw/budget/contracts.py:193-209 | the estimate is the least amount that covers the exact price, and one ten-thousandth short exactly when rounding to 40 digits drops something and lands on a whole ten-thousandth |
| DecimalCost.WholeRateAccepted | src/ctxfw/budget/contracts.py:196-205 | whole rates are accepted from 0 to 1000 dollars, however many places they are written with |
| DecimalCost.ShortRateIsLeastCover | src/ctxfw/budget/contracts.py:193-209 | rates of at most 28 digits are always covered |
| DecimalCost.LongRateFallsShort | src/ctxfw/budget/contracts.py:193-209 | a rate of 41 digits for which the estimate falls short |
| Breaker.Decide | src/ctxfw/budget/breaker.py:35-101 | decides exactly on valid input and rate: EMERGENCY_HALT exactly when the forecast passes the hard limit or no turn is left, CONTINUE exactly when it stays within the soft limit and a turn is left; with the trace that ends in its state |
| Breaker.DecideFailClosed | src/ctxfw/budget/breaker.py:104-129 | the same decision over the same limits, and a halt with the rejected trace exactly when the input or the rate is invalid |
| Breaker.ContinueCertifies | src/ctxfw/budget/breaker.py:35-101 | CONTINUE implies observed <= predicted <= soft <= hard and a turn left |
| Breaker.LongerHorizonNeverSofter | src/ctxfw/budget/breaker.py:35-129 | severity never falls when the horizon grows |
| Breaker.HigherLimitNeverHarder | src/ctxfw/budget/breaker.py:35-129 | severity never rises when token limits are raised |
| Breaker.MoreTurnsNeverHarderIff | src/ctxfw/budget/breaker.py:35-129 | for every input, raising the turn limit is harmless exactly when the old limit did not cut the horizon, or already halts everything (no turn left, invalid input or rate), or nothing changes, or further turns are free |
| Breaker.MoreTurnsCanHarden | src/ctxfw/budget/breaker.py:35-101 | a session that continues with a limit of two turns and is halted with three |
| Breaker.HaltIsForever | src/ctxfw/budget/breaker.py:104-129 | past the hard limit or out of turns every extension of the history halts |
| PathNormalizer.UnquoteShortensOrStops | src/ctxfw/rules/enforcer.py:42-50 | a decoding round strictly shortens the text or there is no escape and nothing changes |
| PathNormalizer.DecodeRounds | src/ctxfw/rules/enforcer.py:42-50 | at most three rounds; the text left over either has no escape or is refused |
| PathNormalizer.NormalizePath | src/ctxfw/rules/enforcer.py:31-64 | the loop and its checks compute the specified path or error |
| PathNormalizer.NormalizedIsNormal | src/ctxfw/rules/enforcer.py:31-64 | a returned path has no dot-dot segment, no backslash, no percent escape and no upper-case letter |
| PathNormalizer.NormalizeTwiceIff | src/ctxfw/rules/enforcer.py:31-64 | normalising twice is normalising once exactly when the decoded path does not have a single root slash and a first resolved name that begins with two dots |
| PathNormalizer.NormalizeTwiceFails | src/ctxfw/rules/enforcer.py:52-64 | a path whose normal form is refused |
| PathMeaning.UnquoteEncode | src/ctxfw/rules/enforcer.py:42-50 | one round undoes one layer of percent encoding, whichever characters are escaped and in whichever case the digits are written |
| PathMeaning.EncodedLikePlain | src/ctxfw/rules/enforcer.py:31-64 | a path under at most three layers of encoding gets the answer of the plain path |
| PathMeaning.TooManyLayers | src/ctxfw/rules/enforcer.py:42-50 | a path under more layers is refused |
| PathMeaning.EncodedClimbRefused | src/ctxfw/rules/enforcer.py:52-62 | an encoded climb out of the root is refused |
| PathMeaning.NormalizedSpellsPlace | src/ctxfw/rules/enforcer.py:57-64 | a returned path spells, in lower case, the place its decoded text leads to |
| PathMeaning.TraversesIff | src/ctxfw/rules/enforcer.py:52-55 | the text tests find exactly a dot-dot segment between two others or a rooted path whose first name begins with two dots |
| PathMeaning.ClimbsIffLeaves | src/ctxfw/rules/enforcer.py:57-62 | the normal form begins with dot-dot exactly when the path leads out of some directory |
| PathMeaning.RefusedIff | src/ctxfw/rules/enforcer.py:31-64 | exactly which paths are refused, and with which error |
| RulesEnforcer.GreedyIffEmbeds | src/ctxfw/rules/enforcer.py:67-72 | taking each token at its first chance succeeds exactly when an increasing embedding exists |
| RulesEnforcer.IsSubsequence | src/ctxfw/rules/enforcer.py:67-72 | the iterator loop decides the existence of an increasing embedding |
| RulesEnforcer.SlashedOccursIff | src/ctxfw/rules/enforcer.py:90-97 | between slashes a text occurs in another exactly when its segments are a run of the other's |
| RulesEnforcer.MatchesPath | src/ctxfw/rules/enforcer.py:75-98 | the token matches exactly when it can be normalised and the target's segments are a contiguous run of its segments |
| CallMatching.TargetSpellings | src/ctxfw/rules/enforcer.py:75-79 | every spelling of a target with leading dot-slashes, trailing slashes, backslashes and capitals is compared as the clean target |
| RulesEnforcer.MatchGuard | src/ctxfw/rules/enforcer.py:168-185 | each pattern decides its own condition over the tokens or the text |
| CallMatching.FindsWordIff | src/ctxfw/rules/enforcer.py:178-181 | a symbol is found exactly where nothing of a word stands on either side |
| CallMatching.FindsImportIff | src/ctxfw/rules/enforcer.py:182-185 | a module is found exactly after import or from and white space, with nothing of a word on either side |
| CallMatching.WordLaws | src/ctxfw/rules/enforcer.py:168-171 | a command target splits into its words at white space |
| RulesEnforcer.FindEvasion | src/ctxfw/rules/enforcer.py:154-163 | finds a path-like token that cannot be normalised exactly when there is one |
| CallMatching.EvasiveIff | src/ctxfw/rules/enforcer.py:154-163 | a call evades exactly when some word of it has no normal form; the look at its characters only saves work |
| CallMatching.PathGuardIdsAre | src/ctxfw/rules/enforcer.py:151-163 | an evasion names the path guards, in order |
| RulesEnforcer.Evaluate | src/ctxfw/rules/enforcer.py:142-189 | blocks exactly the evading or matching calls and names each matching guard once |
| RulesContracts.RuleTextInjective | src/ctxfw/rules/contracts.py:173-174 | for one file a rule preimage determines line and directive |
| RulesCompiler.CompileClauses | src/ctxfw/rules/compiler.py:252-292 | the loop keeps the first guard of every pattern and target, all rules and all unenforceable ids, or raises |
| RulesCompiler.CompileText | src/ctxfw/rules/compiler.py:210-312 | the outcome and the state trace; COMPILED exactly when every clause was classified |
| RulesCompiler.DedupPreservesMeaning | src/ctxfw/rules/compiler.py:252-292 | the deduplicated guards block exactly the calls that one guard per classified clause blocks |
| RulesCompiler.CompilesWithinBounds | src/ctxfw/rules/contracts.py:313-325 | clauses within bounds always compile: distinct guard ids, no rule both enforced and unenforceable, manifest accepted, or two short hashes collide |
| RulesMeaning.CompiledBlocksIff | src/ctxfw/rules/compiler.py:252-292 | the emitted guards block a call exactly when some classified clause forbids it by its own intent, or some clause denies paths and a word of the call has no normal form |
| RulesMeaning.GuardsAre | src/ctxfw/rules/compiler.py:266-281 | the guards are exactly those of the first clauses of every kind, in order, with ids, pattern and target of their clause |
| RulesMeaning.RulesAre | src/ctxfw/rules/compiler.py:256-290 | every clause gives one rule with its id, text, line and intent |
| RulesMeaning.UnenforceableAre | src/ctxfw/rules/compiler.py:255-258 | the unenforceable ids are those of the unclassified clauses, in order |
| RulesMeaning.TargetAcceptedIff | src/ctxfw/rules/contracts.py:228-262 | which targets the guard model accepts |
| RulesMeaning.CompiledWithinLimits | src/ctxfw/rules/contracts.py:296-325 | what compiled stays within every limit |
| RsaMath.Fermat | src/ctxfw/finops/licensing.py:215-220 | the p-th power of a number is congruent to it modulo a prime p |
| RsaMath.ExponentiationsCancel | src/ctxfw/finops/licensing.py:215-220 | for every key of two different primes with inverse exponents, signing then verifying returns every message below the modulus |
| Base64Url.DecodeEncode | src/ctxfw/finops/licensing.py:88-94 | the padding-stripped encoding of every byte string decodes back |
| Base64Url.EncodedShape | src/ctxfw/finops/licensing.py:88-89 | encoded text has the stripped length and no dot, padding, white space or character outside the URL alphabet |
| Base64Url.KnownTexts | src/ctxfw/finops/licensing.py:88-89 | two vectors of section 10 of RFC 4648 |
| Base64Url.UrlCharacters | src/ctxfw/finops/licensing.py:88-89 | the URL alphabet writes 62 and 63 as hyphen and underscore |
| Base64Url.ScanIgnoresOthers | src/ctxfw/finops/licensing.py:92-94 | the decoder skips characters outside the alphabet |
| Bytes.FromToBytes | src/ctxfw/finops/licensing.py:372-374 | a number that fits is read back from its big-endian bytes |
| License.EncodedMessageFits | src/ctxfw/finops/licensing.py:97-103 | the encoded message has 256 bytes and is below every modulus of 256 bytes |
| License.EncodedMessageLayout | src/ctxfw/finops/licensing.py:97-103 | the 256 bytes of the encoded message, position by position |
| License.PublicModulusIsFullSize | src/ctxfw/finops/licensing.py:24-36 | the published modulus has 256 bytes |
| License.EmsaInjective | src/ctxfw/finops/licensing.py:97-103 | one encoded number stands for one payload, or two hashed texts collide |
| License.SignatureBindsPayload | src/ctxfw/finops/licensing.py:215-225 | one signature text vouches for one payload in any key, or two hashed texts collide |
| License.VerifyLicenseKey | src/ctxfw/finops/licensing.py:167-324 | without a key unlicensed; active, expired or revoked exactly for authentic well-formed payloads, by expiry and then revocation; quarantined otherwise |
| License.VerifyParts | src/ctxfw/finops/licensing.py:191-268 | the staged checks after the prefix accept exactly the signed payloads |
| License.AnyPrefix | src/ctxfw/finops/licensing.py:191-204 | a signed payload is accepted under each of the four prefixes |
| License.OnlyFullSignatures | src/ctxfw/finops/licensing.py:222-227 | a signature of any other length than 256 bytes is refused |
| License.IssuedIsAccepted | src/ctxfw/finops/licensing.py:327-388 | an issued key starts with the prefix of its tier, is accepted by the public half with the ordered payload and has no outer white space |
| License.IssuesIff | src/ctxfw/finops/licensing.py:327-388 | a key is issued exactly with a private key, a known tier, printable dates, and an id, organisation and limits within bounds |
| License.IssueThenVerify | src/ctxfw/finops/licensing.py:327-388 | issuing then verifying gives the same id, organisation, tier, limits and expiry; active until the last second of the ordered days (at least one) unless revoked, with the ordered days left at issue |
| Telemetry.TelemetryLedger.RecordEvent | src/ctxfw/storage/telemetry.py:115-136 | one row is added under a new id |
| Telemetry.TelemetryLedger.IngestBatch | src/ctxfw/storage/telemetry.py:138-153 | all records are added as synced rows, in order |
| Telemetry.TelemetryLedger.GetUnsyncedRecords | src/ctxfw/storage/telemetry.py:155-178 | the oldest unsynced rows up to the limit |
| Telemetry.TelemetryLedger.MarkAsSynced | src/ctxfw/storage/telemetry.py:180-186 | exactly the named rows become synced |
| Telemetry.PushHeartbeat | src/ctxfw/storage/telemetry.py:334-359 | rows are marked only when the reply was seen; ingested ones stay unsynced if it was lost |
| Telemetry.HeartbeatSteps | src/ctxfw/storage/telemetry.py:334-359 | the protocol steps of an undisturbed heartbeat do to client and server what the heartbeat does |
| Telemetry.StepKeepsInv | src/ctxfw/storage/telemetry.py:115-186 | every recorder, pusher, failure and crash step keeps the delivery invariant and never shrinks the synced prefix |
| Telemetry.NothingIsLost | src/ctxfw/storage/telemetry.py:290-331 | over every run the ledger holds all recorded events in order, synced ids are a prefix, and every event is unsynced or was ingested |
| Telemetry.SyncedIsDelivered | src/ctxfw/storage/telemetry.py:290-331 | over every run the synced rows are the first k, and the server holds each record at least as often as it is among them |
| Telemetry.RepeatsIff | src/ctxfw/storage/telemetry.py:290-331 | with one pusher the server holds an event twice exactly when a batch is ingested after a lost mark |
| Telemetry.ExactlyOnce | src/ctxfw/storage/telemetry.py:290-331 | with one pusher, whenever it is idle, the server log is exactly the synced rows, in order, exactly when no mark was lost |
| Telemetry.LostReplyRepeats | src/ctxfw/storage/telemetry.py:318-331 | a run of five steps after which the server holds an event twice |
| Telemetry.HeartbeatsDrain | src/ctxfw/storage/telemetry.py:290-331 | n undisturbed heartbeats push 100 events each until none is left |

## Left out

- PythonPruner.InterfaceThen: trees are values; the in-place update of node bodies and any aliasing of nodes is not captured.
- PythonPruner.CleanBody: returns the new body instead of assigning it to the node.
- AuditStore.TraceKitStore.AppendStatements: when one insert violates several guards at once, the error is that of the first guard in the schema's order; SQLite does not fix that order.
- LedgerRuns.RunKeepsInvariant: session ids may carry a final newline but no other outer white space.
- DecimalCost.CostIsLeastCoverIff: the limits of decimal exponents are not modelled.
- BuildContext.ContextFirewallEngine.BuildEntries: the modules come in the sorted order the source gives them; savings percentages and execution times are not modelled.
- Manifest.BuildManifest: file times are real numbers, and a file whose status cannot be read counts as absent.
- License.VerifyLicenseKey: fetching the revocation list, reading the key from the environment or files and the message texts are not modelled; a configured key is one parameter.
- License.IssueThenVerify: the clock and JSON codecs are parameters assumed to read back what they write, at second precision for times.
- Telemetry.NothingIsLost: client and server are separate ledgers and the client table starts empty; every method call is one atomic step.
- SHA-256, SQLite and its PRAGMAs, decoding of UTF-8 with replacement, and text outside ASCII.
- Parsing of Python and of Tree-sitter grammars, regular expressions, `shlex` and `ast.unparse`.
- The rule extractor and `_classify` internals, which are regular expressions; the classifier is any function of the directive.
- `audit_source` and the resolution of call names in the rules enforcer.
- Budget and rules stores: plain inserts and reads that add only easy members.
- The encoding of symbol lists as JSON in the symbol index, and malformed rows in it.
- Telemetry statistics and exports: SQL aggregates and formatting.
- SARA, the sieve, reports, dashboards and floating-point accounting.
- The MCP server, the command line, the installer and the HTTP proxy around text compaction.
- `swegate`, of which only a facade is part of the repository.
