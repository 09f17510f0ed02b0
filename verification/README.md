# AlfredOS: a verified model of its gates, its budget guard and its Discord adapter

This project models the parts of AlfredOS whose correctness spans several functions or a whole run, and
proves what they promise. `dafny verify dfyconfig.toml` checks everything.

* **The T3 gate** (`scripts/check_tag_t3.py`). `Reachability` and `AliasResolution` prove that the bounded
  alias loop is graph reachability cut off at 32 bindings. `VerdictMaps` and `TierEnv` prove that the
  per-file environment gives every name the join of all the verdicts that reach it. `MappingReader` relates
  the constant folder and the mapping reader to what expressions evaluate to. `EnclosingFunctions` proves
  that the stack walk finds the innermost function of every line. `Census` decides the exit code over the
  bag of collected paths.
* **Outbound delivery** (`plugins/alfred_discord`). `IdempotencyStore`, `Timestamps` and `Outbound` hold the
  ledger, the handler, the emitter and the dispatcher as classes. `Delivery` is the protocol as a step
  system in which the process may crash between any two steps; `RateLimit` follows its rate-limit signals.
* **The budget guard** (`src/alfred/budget/guard.py`). `BudgetGuard` is the store of mutable entries,
  `BudgetLedger` proves that it refines a plain ledger of accepted charges over every run, `CapCoherence`
  lets identity changes interleave with guard calls.
* **Lifecycle and token frame.** `Lifecycle` is every interleaving of start and stop over the lifecycle
  lock and the gateway adapter; `Fd3Frame` reads the length-prefixed token under any schedule of short
  reads.
* **Configuration.** `ConfigTree` and `ConfigDocument` are dotted-path get and set on nested dicts changed
  in place; `AtomicWrite` is the crash-safe file replacement.
* **Wiki references** (`WikiReferences`): parent chains and cycles.

In the step systems a run is any sequence of steps, and a step that the current state does not allow changes
nothing, so a statement about every sequence is a statement about every interleaving.

## Assumptions

* Outbound requests are served one at a time: the stdio loop awaits each dispatch before it reads the next
  line (`plugins/alfred_discord/server.py:206-220`). The platform, the clocks, the loader, the version
  counter and the scheduler answer arbitrarily; their answers are parameters or steps.
* A send counts when the platform accepted the message. A failed send whose message was in fact delivered is
  outside the model.
* Money is exact; a cost or cap that is NaN or infinite is a separate case. The UTC day does not go back
  (`BudgetLedger.ClockMustNotGoBack` shows what happens if it does). Guard calls do not overlap one another,
  since they never await; row writes and bumps in other threads may fall anywhere inside them.
* Line ranges nest and siblings share no line, as Python's parser produces them. Sibling order is arbitrary.
* In the mapping reader's worlds, a bare name in `dictNames` denotes `dict` where it is called. The worlds choose
  freely what every other opaque expression evaluates to.
* A UUID and a message snowflake are numbers. A file is identified by what its path resolves to.
* The ledger row keeps its time; the text is rendered where the source compares it. The cutoff `now - ttl`
  is representable, as the source's subtraction demands.
* A YAML document has no shared nodes. Iteration over a dict or a sorted list is modelled in any order where
  the result does not depend on it.

## Where documentation and code differ

* `plugins/alfred_discord/idempotency_store.py:3-8` says that a respawned plugin must not send again after a
  crash between the send and the redelivery. It does if the crash falls before the record
  (`Delivery.CrashInTheWindowResends`); `Delivery.DeliveredOncePerRecord` counts exactly those crashes.
* `src/alfred/cli/config.py:396-397` says that a failure leaves no temporary file. It leaves one exactly when an
  interrupt falls after `mkstemp` has created it and before the `try`, or when, before the rename, the unlink
  fails with anything but a missing file or is itself interrupted (`AtomicWrite.OldOrNew`).
* `scripts/check_tag_t3.py:1996-1997` calls the mapping reader default-deny on what it cannot read. A key that
  does not fold, and a method that is called `dict`, are admitted (`MappingReader.AdmittedButHarmful`).
  `MappingReader.AdmittedIsSafe` gives the exact condition under which being admitted rules out a "tier" key.

## Model

| member | source | states |
|---|---|---|
| Reachability.Grow | scripts/check_tag_t3.py:1096-1101 | the loop returns exactly the names with a chain of at most `budget` bindings from a root, and reports overflow exactly when some reachable name has no chain of `budget - 1` |
| Reachability.LeastFixedPoint | scripts/check_tag_t3.py:1061-1101 | if nothing lies beyond the budget, the names found are the least set that holds the roots and is closed under the bindings |
| AliasResolution.CollectBindings | scripts/check_tag_t3.py:1079-1095 | the walk gathers the roots and the bindings of the set of nodes |
| AliasResolution.AliasNames | scripts/check_tag_t3.py:1061-1101 | the alias set of a file is every name within 32 bindings of the seed or its import aliases, as a function of the set of statements; overflow exactly when some alias is 32 or more bindings away |
| AliasResolution.ResolvedExactly | scripts/check_tag_t3.py:1061-1101 | the alias set read off the statements: a name is in it if and only if it is the seed, an import of the seed under that name, or reaches one of these through at most 32 bindings in the four shapes |
| AliasResolution.AliasHasAReason | scripts/check_tag_t3.py:1078-1095 | a name is an alias only as the seed, as an import of the seed, or through a binding to another alias |
| AliasResolution.OverflowsExactly | scripts/check_tag_t3.py:1096-1101 | overflow is reported if and only if some name stands for the seed, but through no fewer than 32 bindings |
| AliasResolution.NoOverflowIsLeastFixedPoint | scripts/check_tag_t3.py:1061-1101 | without overflow the alias set is all reachable names and the least fixed point |
| AliasResolution.DirectAliasIsResolved | scripts/check_tag_t3.py:1028-1058 | the seed, its import aliases and names bound to it by any of the four binding shapes are aliases |
| AliasResolution.ResolvedMonotone | scripts/check_tag_t3.py:1061-1101 | adding statements never removes an alias, overflow or not |
| VerdictMaps.Join | scripts/check_tag_t3.py:1139-1154 | the join is a member of the set and at least as strict as every member |
| VerdictMaps.Raise | scripts/check_tag_t3.py:1382-1386 | raising a set of names to a verdict, one by one in any order, adds exactly those contributions to the map |
| VerdictMaps.FannedIsReaching | scripts/check_tag_t3.py:1370-1383 | joining per seed and then following aliases gives the join of all verdicts that reach a name |
| VerdictMaps.BenignMeansAllBenign | scripts/check_tag_t3.py:1337-1340 | a name is benign exactly when it is not bound bare and all verdicts that reach it are benign, and T3 exactly when some verdict that reaches it is T3 |
| TierEnv.CollectTierParameters | scripts/check_tag_t3.py:1306-1318 | the generic tier parameters of all nodes are collected |
| TierEnv.SeedVerdicts | scripts/check_tag_t3.py:1370-1376 | each name bound to a subscript of the tagged class holds the join of its own verdicts |
| TierEnv.FanOut | scripts/check_tag_t3.py:1378-1383 | each seed's verdict reaches all its aliases, and overflow of any seed is reported |
| TierEnv.TierAliasEnv | scripts/check_tag_t3.py:1321-1397 | every component is the alias set it should be, the parameterised map is the join of all reaching verdicts raised where a name is also bound bare, and the flag says exactly whether any chain overflowed |
| TierEnv.TcParamExactly | scripts/check_tag_t3.py:1337-1397 | the parameterised map read off the statements: its names are those that stand for a name bound to the tagged class over some slice; T3 exactly if one such slice names T3; benign exactly if the name is not also bound bare and every such slice can be read and names a benign tier |
| TierEnv.UnreadableSliceIsNotBenign | scripts/check_tag_t3.py:1186-1195 | a slice that is neither a name nor a quoted one never makes a name benign |
| TierEnv.BenignTierExactly | scripts/check_tag_t3.py:1298-1318 | the benign tiers are the names of T0, T1 and T2 and what a `type` statement or a `TypeVar` call declares from a name of the trust tier that is no name of T3, and nothing else |
| TierEnv.EnvOverflowsExactly | scripts/check_tag_t3.py:1321-1397 | the flag is set if and only if some name is 32 or more bindings away from one of the eight fixed seeds or from a name bound to the tagged class over a slice |
| TierEnv.ReachingIsReachability | scripts/check_tag_t3.py:1321-1397 | without overflow a verdict reaches a name exactly when some chain of bindings leads from its seed to the name |
| TierEnv.QuotedLikeBare | scripts/check_tag_t3.py:1186-1195 | a quoted, a bare and a qualified tier get the same verdict |
| TierEnv.T3BindingIsSeen | scripts/check_tag_t3.py:1239-1268 | a T3 subscript of the tagged class bound in any of the four shapes marks the name as T3 |
| TierEnv.TypeVariableVerdict | scripts/check_tag_t3.py:1298-1317 | a slice that is a type variable declared once is benign exactly when its bound is a name of the trust tier that is no name of T3, and otherwise unresolved |
| TierEnv.ReboundTrustTierIsT3 | scripts/check_tag_t3.py:1281-1286 | with `TrustTier = T3` in scope, a name bound to the tagged class over a tier declared from `TrustTier` is T3 |
| TierEnv.T3IsNeverLost | scripts/check_tag_t3.py:1139-1195 | adding statements never lowers a T3 verdict, even when chains overflow |
| MappingReader.FoldIsExact | scripts/check_tag_t3.py:1009-1025 | the folder folds exactly the string literals nested at most 32 deep, to the string they evaluate to |
| MappingReader.AdmittedIsSafe | scripts/check_tag_t3.py:1978-2057 | an admitted mapping without formatted keys has no "tier" key in any world if and only if its explicit keys are constants that do not spell it and its dict calls go through a bare name |
| MappingReader.AdmittedHasNoTier | scripts/check_tag_t3.py:1978-2057 | a harmless readable mapping that is admitted has no "tier" key, whatever opaque operands evaluate to |
| MappingReader.TransparentIsExact | scripts/check_tag_t3.py:2022-2057 | without opaque operands, with keys that fold or are harmless, and within 32 levels, the answer is exactly whether there is a "tier" key |
| MappingReader.MentionsExactly | scripts/check_tag_t3.py:1991-2057 | a readable mapping with keys that fold or are harmless is refused if and only if an operand cannot be read, keywords are unpacked, it is nested more than 32 deep, or it has a "tier" key |
| MappingReader.ReadableExactly | scripts/check_tag_t3.py:1978-1990 | exactly dict displays and calls of any name of `dict`, bare or qualified and behind any assignment expressions, are read |
| MappingReader.DictCallIsRead | scripts/check_tag_t3.py:2041-2056 | a call of any name of `dict` is refused if a keyword is "tier" or unpacked or an argument is no readable mapping |
| MappingReader.AdmittedButHarmful | scripts/check_tag_t3.py:2038-2041 | a variable as a key and a method called `dict` are admitted, not harmless, and each has a world with a "tier" key |
| EnclosingFunctions.WalkFunctions | scripts/check_tag_t3.py:949-979 | the last-in-first-out walk gives every line what the recursive definition of innermost gives it |
| EnclosingFunctions.MapEnclosingFunctions | scripts/check_tag_t3.py:920-979 | a line is mapped exactly when some function covers it, to the function below which no other covers it and to the number of def and class scopes around that function |
| EnclosingFunctions.OrderIsImmaterial | scripts/check_tag_t3.py:976-978 | reordering siblings anywhere in a well-nested tree keeps it well nested and maps every line alike |
| EnclosingFunctions.CheckExempt | scripts/check_tag_t3.py:1726-1763 | an import in an exempt file is exempt exactly outside every function; anything else exactly where the innermost function is a listed one at depth 0 |
| Census.ScanAll | scripts/check_tag_t3.py:3170-3204 | the loop stops exactly when some path that is not exempt faults; otherwise the three sets of files and the presence of findings are those of the bag of paths |
| Census.Run | scripts/check_tag_t3.py:3116-3259 | for both kinds of run: exit 2 exactly if collection failed, a path that is not exempt faults, or a directory run completely scanned fewer than 250 distinct files; else 1 exactly if a path that is not exempt has a violation; else 0; the three counts are those of the distinct files and partition them |
| Census.CleanDirectoryRun | scripts/check_tag_t3.py:3226-3259 | a directory run exits 0 exactly when at least 250 distinct files were completely scanned, nothing faulted and no path gave a finding |
| BudgetGuard.Guard.Create | src/alfred/budget/guard.py:139-168 | a non-finite or negative per-call cap is refused, otherwise the store starts empty |
| BudgetGuard.Guard.LoadOrGetUser | src/alfred/budget/guard.py:297-358 | the new store and the error, in each of the cache's cases; entries stay unshared |
| BudgetGuard.Guard.RollDayIfNeeded | src/alfred/budget/guard.py:360-371 | only this user's row is rolled |
| BudgetGuard.Guard.CheckAndCharge | src/alfred/budget/guard.py:174-208 | the new store and the outcome are those of the charge on values |
| BudgetGuard.Guard.WouldExceed | src/alfred/budget/guard.py:210-230 | the new store and the answer are those of the preview on values |
| BudgetGuard.Guard.EstimateFor | src/alfred/budget/guard.py:232-249 | loads the user and answers the per-call cap |
| BudgetGuard.Guard.SpentToday | src/alfred/budget/guard.py:251-259 | loads and rolls the entry and answers its spend |
| BudgetGuard.Guard.Evict | src/alfred/budget/guard.py:261-273 | drops exactly this user's row |
| BudgetLedger.CallEffect | src/alfred/budget/guard.py:174-273 | a call changes the abstract spend only by an accepted charge, on its day and for its user, or by an eviction |
| BudgetLedger.OthersUntouched | src/alfred/budget/guard.py:12-13 | a call about one user leaves every other entry as it was |
| BudgetLedger.RefreshKeepsSpend | src/alfred/budget/guard.py:352-357 | refreshing a cap keeps spend and day |
| BudgetLedger.LoadIsExact | src/alfred/budget/guard.py:315-358 | loading succeeds exactly if the entry is stamped with the current version or later or the row is a cap above zero, fails as unknown exactly if there is neither such an entry nor a row, and otherwise for the row; which cap is then in force, and that a new entry has spent nothing |
| BudgetLedger.OnlyLoadingSetsCaps | src/alfred/budget/guard.py:174-259 | charges, previews and queries leave the cap and the stamp that loading gives, and an entry whose spend was looked at is of today |
| BudgetLedger.FailureLeavesNoTrace | src/alfred/budget/guard.py:185-196 | an invalid cost, an unknown user or a bad row changes nothing and adds no entry |
| BudgetLedger.PreviewAgrees | src/alfred/budget/guard.py:174-230 | the preview is false exactly when the charge succeeds, true exactly when it hits a cap, and otherwise fails alike |
| BudgetLedger.StoreRefinesLedger | src/alfred/budget/guard.py:174-371 | over every run with a clock that does not go back, the store is the ledger of accepted charges and every sum was within the cap in force |
| BudgetLedger.SpentTodayIsTheSum | src/alfred/budget/guard.py:251-259 | the query answers exactly for a user it can load, and then the sum of the user's accepted charges of the day since the last eviction |
| BudgetLedger.AcceptedExactlyWhenItFits | src/alfred/budget/guard.py:174-208 | at any point of any run a charge is accepted if and only if it is a number not below zero, within the per-call cap and, with today's accepted charges, within the cap in force, cached or from the row; each refusal has its exact reason |
| BudgetLedger.ClockMustNotGoBack | src/alfred/budget/guard.py:368-371 | after any run and any accepted charge above zero, one look on another day makes the spend of the first day read as nothing when that day comes back |
| CapCoherence.CapIsFresh | src/alfred/budget/guard.py:315-358 | a call that saw the counter at v uses the cap of a row at least as new as every write announced up to v |
| CapCoherence.StampIsHonest | src/alfred/budget/guard.py:343-357 | a cached cap is never older than the row as of the counter it is stamped with |
| CapCoherence.UndisturbedCallIsLoaded | src/alfred/budget/guard.py:315-358 | the steps of a call that nothing falls into add up to one load of the newest row |
| CapCoherence.ChangeIsUsed | src/alfred/budget/guard.py:315-358 | after any run, a change written and announced before a call is the cap the call uses |
| Timestamps.IsoOrder | plugins/alfred_discord/idempotency_store.py:106 | texts compare like the fields they render, with or without a fraction |
| Timestamps.InstantOrder | plugins/alfred_discord/idempotency_store.py:140-147 | instants on the time line compare like the fields of their calendar dates |
| Timestamps.TextOrderIsTimeOrder | plugins/alfred_discord/idempotency_store.py:140-147 | comparing two stored texts is comparing the instants |
| Timestamps.NextIsOneMore | plugins/alfred_discord/idempotency_store.py:140-147 | the time line the time to live is subtracted on has no gap: the next microsecond, carried through the calendar, is one more |
| Timestamps.YearsInClosedForm | plugins/alfred_discord/idempotency_store.py:140-147 | the days before a year are those of the proleptic Gregorian calendar in closed form |
| Timestamps.MonthsInClosedForm | plugins/alfred_discord/idempotency_store.py:140-147 | and so are the days before a month |
| Timestamps.IsoTail | plugins/alfred_discord/idempotency_store.py:106 | the text ends in the offset, behind a six-digit fraction exactly if there is one to show |
| IdempotencyStore.Store.Record | plugins/alfred_discord/idempotency_store.py:96-122 | inserts if absent, never overwrites, and reports a conflict exactly for a different id |
| IdempotencyStore.Store.Lookup | plugins/alfred_discord/idempotency_store.py:124-138 | finds exactly the recorded id |
| IdempotencyStore.Store.VacuumExpired | plugins/alfred_discord/idempotency_store.py:140-154 | deletes exactly the rows older than the time to live and returns their number |
| Outbound.BackOffCoversTheWindow | plugins/alfred_discord/outbound_handler.py:174-193 | the back-off is never shorter than the platform's window and less than a second longer |
| Outbound.RetriedOnlyIfTransient | plugins/alfred_discord/outbound_handler.py:133-172 | only a rate limit or a server error is retryable |
| Outbound.FailuresAreClassified | plugins/alfred_discord/outbound_handler.py:98-193 | an exception escapes exactly for an unexpected error or a rate limit whose hint is infinite or -1 or less; without a readable hint the back-off is five seconds; every other failure is terminal under the class of its cause |
| Outbound.Handler.HandleOutbound | plugins/alfred_discord/outbound_handler.py:88-124 | a known key is answered from the ledger, an accepted send is recorded, a failure leaves the ledger alone |
| Outbound.Emitter.EmitSignal | plugins/alfred_discord/rate_limit_emitter.py:63-89 | signals and sets the deadline exactly when no deadline of the endpoint is ahead |
| Outbound.Emitter.Clear | plugins/alfred_discord/rate_limit_emitter.py:91-93 | forgets all deadlines |
| Outbound.Dispatcher.Dispatch | plugins/alfred_discord/outbound_dispatcher.py:47-69 | a rate limit leaves a deadline and a signal due, a delivery clears, nothing else touches the emitter |
| Delivery.DispatchingIsDispatch | plugins/alfred_discord/outbound_dispatcher.py:47-69 | the steps of an undisturbed request add up to what the dispatcher promises: ledger, reply, deadlines and the signals in the sink |
| Delivery.DeliveredOncePerRecord | plugins/alfred_discord/outbound_handler.py:88-124 | over every run the sends for a key number at most one more than the crashes between its send and its record, exactly one more once it is recorded; no record conflicts; every delivered id is the recorded one and was sent for the key, and every later answer about the key repeats it |
| Delivery.NeverSentAgain | plugins/alfred_discord/outbound_handler.py:92-97 | once recorded, a key is never sent again or rebound, and every later answer about it is a delivery with the recorded id |
| Delivery.CrashInTheWindowResends | plugins/alfred_discord/outbound_handler.py:104-122 | a crash between send and record makes the next request for the key send again |
| RateLimit.RateLimitIsCovered | plugins/alfred_discord/outbound_dispatcher.py:54-63 | a rate-limited answer is covered by a signal of this call or by an earlier one whose window still contains its time and that nothing has cancelled |
| RateLimit.SignalsAreSpaced | plugins/alfred_discord/rate_limit_emitter.py:70-79 | two signals with no delivery and no crash between them are at least the first window apart |
| Lifecycle.OneLoop | plugins/alfred_discord/lifecycle.py:178-225 | in every interleaving at most one gateway loop is live, connects never overlap, running means that the last completed change was a successful start, and the error count is the number of starts answered false |
| Lifecycle.LoginKeepsInv | plugins/alfred_discord/gateway_adapter.py:85-105 | when a login returns, the loop it creates is the only live one; a failed login leaves none |
| Lifecycle.StopIsComplete | plugins/alfred_discord/gateway_adapter.py:127-134 | in every interleaving a stop that returns normally leaves no live loop, and one that raises leaves the adapter as it was |
| Lifecycle.WaitingStopEnds | plugins/alfred_discord/gateway_adapter.py:130-133 | a waiting stop waits for the loop the adapter holds, resumed or cancelled, while that is live; if it failed the stop raises when resumed but returns normally when cancelled |
| Lifecycle.StartIsDecided | plugins/alfred_discord/lifecycle.py:188-217 | in every interleaving a start that takes the lock is answered true if the last completed change was a start, refused and counted if there is no token or any loop is live, and goes to the login otherwise |
| Lifecycle.StartAfterStop | plugins/alfred_discord/lifecycle.py:178-225 | a start that takes the lock right after a completed stop reaches the login and, undisturbed, runs on one live loop |
| Lifecycle.StopGoesThrough | plugins/alfred_discord/lifecycle.py:219-225 | a stop that takes the lock closes the bot, waits for the loop the adapter holds, and returns normally once that has ended |
| Lifecycle.LockIsNeeded | plugins/alfred_discord/gateway_adapter.py:85-102 | from the start, two starts that enter without waiting for the lock end with two live loops |
| Fd3Frame.FrameReadsBack | src/alfred/supervisor/fd3_key_delivery.py:102-107 | a frame, whatever follows it, reads back as its body |
| Fd3Frame.CutFrameFails | plugins/alfred_discord/lifecycle.py:75-92 | a frame cut short anywhere reads as an error |
| Fd3Frame.PackUnpack | plugins/alfred_discord/lifecycle.py:49-51 | every four bytes are the header of exactly one length |
| Fd3Frame.HeadersOrderLikeLengths | plugins/alfred_discord/lifecycle.py:49-51 | the most significant byte comes first: headers compare byte by byte as their lengths compare |
| Fd3Frame.ReadExactly | plugins/alfred_discord/lifecycle.py:75-92 | for every schedule of short reads, exactly the bytes asked for, or the end-of-file error |
| Fd3Frame.ReadToken | plugins/alfred_discord/lifecycle.py:125-149 | returns the body of the frame in the stream and consumes 4 plus its length, refuses what is no pipe, and always leaves the descriptor closed |
| ConfigTree.PathIsUnique | src/alfred/cli/config.py:347-357 | in a document without shared nodes, two paths to one dict are one path |
| ConfigTree.GetIsFound | src/alfred/cli/config.py:457-462 | something other than null is found at a path exactly if a way through nested mappings ends in it |
| ConfigTree.PutIsLocal | src/alfred/cli/config.py:377 | storing an entry changes no path that does not lead through it |
| ConfigTree.AttachIsLocal | src/alfred/cli/config.py:351-355 | a new empty parent changes only the path to it |
| ConfigDocument.YamlGet | src/alfred/cli/config.py:457-462 | the loop finds the value at the path, null where a segment is missing or no mapping |
| ConfigDocument.YamlSet | src/alfred/cli/config.py:347-377 | fails exactly when a parent is a scalar, and then nothing has changed; otherwise get returns the value, all parents are mappings, and every path that is neither prefix nor extension keeps its value |
| AtomicWrite.OldOrNew | src/alfred/cli/config.py:382-440 | after every step readers see, and a power loss leaves, the whole old or the whole new file; a return after a directory fsync is durable; an exception leaves a temporary file exactly when an interrupt fell between its creation and the `try`, or the cleanup before the rename failed or was interrupted |
| AtomicWrite.SuccessReturns | src/alfred/cli/config.py:399-431 | a run in which every call succeeds never raises, takes one stage with each next call, and ends in a durable return |
| AtomicWrite.FailureRaises | src/alfred/cli/config.py:432-440 | a failing call or an interrupt in the guarded block starts the cleanup, which ends in an exception, changes no other name, and removes the temporary file if the unlink succeeds |
| AtomicWrite.SuppressedSyncMayLose | src/alfred/cli/config.py:414-431 | without the directory fsync a power loss can bring the old file back |
| WikiReferences.FindsCycle | scripts/validate_devin_wiki.py:251-259 | the walk ends, and answers true exactly when the chain comes back to a title |
| WikiReferences.EndlessIsCycle | scripts/validate_devin_wiki.py:251-259 | a chain never ends exactly when it comes back to a title |
| WikiReferences.CollectPages | scripts/validate_devin_wiki.py:234-242 | the dicts hold exactly the titles of the pages, each with the parent and the position of the last page that has it |
| WikiReferences.LastWins | scripts/validate_devin_wiki.py:234-242 | a page that no later page of its title follows decides the parent and the position of the title |
| WikiReferences.CheckTitle | scripts/validate_devin_wiki.py:244-259 | one title's problem: a parent that does not exist, a chain that enters a cycle, or none |
| WikiReferences.CheckReferences | scripts/validate_devin_wiki.py:228-260 | the errors are those of the last-wins maps, title by title in order of first appearance |
| WikiReferences.ReportIsExact | scripts/validate_devin_wiki.py:228-260 | an error is reported exactly for the last page of a title whose parent no page has, or whose parent some page has and whose chain enters a cycle |
| WikiReferences.ReportIsOrdered | scripts/validate_devin_wiki.py:244-260 | at most one error per title, in the order in which the titles first appear |
| WikiReferences.SilentMeansRooted | scripts/validate_devin_wiki.py:228-260 | no error exactly when every page's chain reaches a parentless page through existing pages |

## Left out

- `scripts/check_dependency_graph_freshness.py`: seven set comparisons and a conjunction, easy members.
- The single-node rules of the gate's detector, its parsing, path collection and messages: each is one branch or library behaviour.
- MappingReader.AdmittedIsSafe: does not decide explicit keys that are f-strings with something to format, because whether one can spell "tier" depends on which of its formatted parts are the same value; `AdmittedHasNoTier` counts them as harmful.
- The mapping reader's meaning of `dict` called with several positional arguments, which Python rejects.
- The census message's count of collected paths; the counts of distinct files are modelled.
- Overlapping `handle_outbound` calls for one key: the handler has no lock, and the stdio loop never makes them.
- A rate-limit sink that raises: the exception ends the process and is a crash in the model.
- The emitter's reading of an endpoint label off a response, mention rendering, and the scrubbed detail text.
- Overlapping guard calls from several threads.
- UTF-8 decoding of the token, and the health report.
- Python's definition of a blank title; a page with one is an ignored entry.
- YAML parsing and dumping, and splitting the dotted key; a path is its segments.
- SQLite, asyncio and discord.py internals, audit rows, localisation and command-line plumbing.
