# Gateway core, modelled and verified

This project models the decision-making cores of an LLM API gateway and proves what they promise: the
hierarchical fair queue, the coordination of credential refreshes, the request policy pipeline with
its rule sets, capability constraints and system-prompt rewriting, the billing header, the integer
token bucket, the allocation of egress proxies and archetype versions, the session cache, cursor
paging and the accounting of upstream attempts.

Code that updates state in place is modelled by classes and array methods, each proved to act as a
function on the value it stands for; the theorems are about those functions and about all their runs.
Code made of expressions is modelled by functions.  Protocols are step systems, and their theorems
hold for every interleaving.

| files | what they hold |
|---|---|
| `FairQueueSpec`, `FairQueueLaws`, `FairQueue`, `FairQueueRuns` | the queue as a value, its laws, the mutable tree, fairness over runs |
| `Singleflight` | one refresh worker per credential, many waiting callers |
| `Wrappers`, `Text`, `Json`, `PointerLaws` | options and results, string searching, JSON trees, pointers and their spelling |
| `Capability`, `CapabilityLaws`, `CapabilityValidation` | conditions, path expansion, constraint merging, validation |
| `ConditionLaws`, `ValidationLaws` | what conditions mean, what compiles and what is reported |
| `RuleSet`, `RuleSetLaws`, `RuleOrderLaws`, `ChangeLogLaws` | compiled rules, their order, their application, what gets logged |
| `Policy` | enforcement and the pipeline |
| `SystemSegments`, `SystemRewrite`, `SystemRewriteLaws`, `SystemReplaceLaws` | boundary detection, splicing, replacement and breakpoint transfer |
| `BillingBlock`, `BillingText`, `BillingLaws` | the attribution header |
| `TokenBucket` | rate limiting with an exact remainder |
| `Egress`, `Archetype` | least-loaded and weighted choices |
| `SessionCache`, `ModelsPaging`, `Attempt` | bounded cache, paging, attempt states |

`dafny verify dfyconfig.toml` checks everything.

## Where the code does less than is said of it

Each point is proved, together with a condition under which the stronger statement does hold, and
exactly then where a point says so.

- **Fair queue.** A user with a runnable head at every pop can be passed over for ever if its entry is
  removed and queued again in between (`FairQueueRuns.RequeueStarves`).  It is enough for the fairness
  bounds that it stays queued (`NoStarvation`); if it does not, the places it loses by coming back add
  to the bound, and nothing else does (`ServicesAccounted`, `NothingLostWhileQueued`).
- **Change log.** A rule changes the tree without a log entry exactly if it addresses an array element
  by an index with a sign or leading zeros, or removes one that an equal one follows
  (`ChangeLogLaws.LogMissesIff`, `UnloggedExample`).  A request without log entries is sent with its
  original bytes, and these are the adjusted request if no rule does that
  (`Policy.OriginalBytesAreTheAdjustedRequest`).
- **Rule order.** The order rules are listed in never matters exactly if no two different rules of one
  phase and layer share an identifier (`RuleSetLaws.SerializedOrderIrrelevantIff`).
- **Capability rules.** A whole number may satisfy an integer rule and a number rule one by one and
  still be rejected by both together, and nothing but a whole number under such a mix
  (`CapabilityLaws.EachImpliesMerged`, `MixedNumericTypesReject`).
- **Billing header.** Ensuring it twice is ensuring it once exactly under `Settles`; not, for one, when
  the version holds a semicolon or the header's first version key does not open its field
  (`BillingLaws.EnsureTwice`, `SemicolonNeverSettles`, `BuriedKeyNeverSettles`).
- **Retry-after.** It can be too short when asked with a clock that lags the last refill; `WaitReaches`
  says exactly when it is enough (`TokenBucket.RetryAfterIsSufficient`, `StaleClockWaitsTooLittle`).
  That it is rounded up to a millisecond is only how its documentation puts it: the wait is the least
  sufficient number of nanoseconds (`WaitIs`, and `WaitIsNotRounded` for an instance).
- **Session cache.** With a clock that stands still an entry can be evicted although a single other
  digest was stored after it; the operation count holds when no other digest was touched earlier at
  the instant of the last touch (`SessionCache.TiedClockEvictsEarly`, `MissCountedInOperations`).
- **Model list.** Repeated identifiers are dropped before providers are told apart, so one provider's
  model can hide another's (`ModelsPaging.ShadowedAcrossProviders`).
- **Usage knowledge.** It is documented as monotonic but falls on some cancellations and on the first
  byte of a retry (`Attempt.UsageGrowsUnlessForgotten`).
- **Dead code.** The console-key exemption in the refresh worker, the clamp on the dynamic start, the
  messages budget and the check that the model is unchanged can never take effect.

## Model

| member | source | states |
|---|---|---|
| FairQueue.FairQueue.Push | crates/gateway-scheduler/src/fair_queue.rs:17-27 | Pushing keeps every node of the tree valid, adds the entry at the back of its own lane and one to the length |
| FairQueue.FairQueue.PopRunnable | crates/gateway-scheduler/src/fair_queue.rs:29-48 | The rotating search over the rings is one `Pop` of the value the tree stands for, and the length falls exactly when an entry comes out |
| FairQueue.FairQueue.Remove | crates/gateway-scheduler/src/fair_queue.rs:50-64 | Removal by request identifier is one `Remove` of that value, with the length kept in step |
| FairQueue.FairQueue.Drain | crates/gateway-scheduler/src/fair_queue.rs:66-72 | Draining ends with an empty queue and hands out every lane whole and in its own order |
| FairQueue.FairQueue.Len | crates/gateway-scheduler/src/fair_queue.rs:74-76 | The stored length is the number of queued entries |
| FairQueue.QueueNode.Push | crates/gateway-scheduler/src/fair_queue.rs:86-95 | At every level: the ring stays a duplicate-free listing of the map, no child is empty, and the node stands for the pushed value |
| FairQueue.QueueNode.PopRunnable | crates/gateway-scheduler/src/fair_queue.rs:97-112 | At every level: a full rotation leaves the ring unchanged, a serving turn drops an emptied child or sends it to the back |
| FairQueue.QueueNode.Remove | crates/gateway-scheduler/src/fair_queue.rs:256-275 | At every level: the search drops the child it empties from map and ring, and keeps the order of the others |
| FairQueueLaws.PushWellFormed | crates/gateway-scheduler/src/fair_queue.rs:16-27 | Pushing keeps children distinct and nonempty and every entry under its own identifiers |
| FairQueueLaws.PopWellFormed | crates/gateway-scheduler/src/fair_queue.rs:29-48 | So does serving |
| FairQueueLaws.RemoveWellFormed | crates/gateway-scheduler/src/fair_queue.rs:50-64 | So does removing |
| FairQueueLaws.PushContents | crates/gateway-scheduler/src/fair_queue.rs:86-95 | A push appends to one lane and leaves all other lanes alone |
| FairQueueLaws.PopContents | crates/gateway-scheduler/src/fair_queue.rs:237-244 | What is served was the head of its own lane; all other lanes are left alone |
| FairQueueLaws.RemoveContents | crates/gateway-scheduler/src/fair_queue.rs:246-249 | Removal takes the first entry with the identifier out of one lane, keeping the order of the rest, and leaves the other lanes alone |
| FairQueueLaws.HeldInSomeLane | crates/gateway-scheduler/src/fair_queue.rs:50-64 | A request that removal finds is in some lane |
| FairQueueLaws.HeldInLane | crates/gateway-scheduler/src/fair_queue.rs:50-64 | A request that is in some lane is found by removal |
| FairQueueLaws.PopServesFirstRunnableHead | crates/gateway-scheduler/src/fair_queue.rs:97-112 | Pop serves the first runnable agent head in nested ring order, and nothing exactly when no head is runnable |
| FairQueueLaws.Turn | crates/gateway-scheduler/src/fair_queue.rs:31-46 | One turn of the ring either passes a child over unchanged or is the whole pop |
| FairQueueLaws.FullRound | crates/gateway-scheduler/src/fair_queue.rs:30-47 | A round in which nobody is runnable leaves the whole ring as it was |
| FairQueueLaws.SizeZero | crates/gateway-scheduler/src/fair_queue.rs:124-126 | A node is empty exactly when nothing is queued below it |
| FairQueueLaws.PushSize | crates/gateway-scheduler/src/fair_queue.rs:23-26 | A push adds one entry in total |
| FairQueueLaws.PopSize | crates/gateway-scheduler/src/fair_queue.rs:42-45 | A serving pop takes one entry in total |
| FairQueueLaws.RemoveSize | crates/gateway-scheduler/src/fair_queue.rs:58-61 | A successful removal takes one entry in total |
| FairQueueLaws.NothingRunnableMeansEmpty | crates/gateway-scheduler/src/fair_queue.rs:66-72 | When everything may run, only an empty queue serves nothing, so draining stops at empty |
| FairQueueRuns.StepBelow | crates/gateway-scheduler/src/fair_queue.rs:16-64 | An operation on the whole queue either passes a node by or acts on it as on a queue of its own |
| FairQueueRuns.NoStarvation | crates/gateway-scheduler/src/fair_queue.rs:29-48 | Over every run and at every level: while a child stays queued and runnable, each service that goes to a sibling brings it one place forward, so at most its ring position many go before it |
| FairQueueRuns.ServicesAccounted | crates/gateway-scheduler/src/fair_queue.rs:16-64 | The same without staying queued: as long as a child is runnable whenever its ring is served, at most as many services go to others as it had places in front of it and lost by leaving and coming back |
| FairQueueRuns.NothingLostWhileQueued | crates/gateway-scheduler/src/fair_queue.rs:16-64 | No operation costs a child a place while it stays queued, but its own service |
| FairQueueRuns.Alternation | crates/gateway-scheduler/src/fair_queue.rs:29-48 | The difference of the services two such children received is exactly the change in which of them stands ahead |
| FairQueueRuns.FairShares | crates/gateway-scheduler/src/fair_queue.rs:29-48 | Service counts of two such children differ by at most one |
| FairQueueRuns.RequeueLosesPlace | crates/gateway-scheduler/src/fair_queue.rs:16-64 | One such round: the first user is served and the second, removed and queued again, stands behind it as before |
| FairQueueRuns.RequeueStarves | crates/gateway-scheduler/src/fair_queue.rs:16-64 | Having a runnable head at every pop is not enough: for every n there is a run with n pops, all serving one user, while another, queued and runnable at each of them and second in the ring at first, is never served because its entry is removed and queued again in between |
| Singleflight.StepInv | crates/gateway-services/src/credential.rs:126-209 | Every step of every caller and worker keeps the protocol invariant |
| Singleflight.RunInv | crates/gateway-services/src/credential.rs:174-209 | So every state of every interleaving satisfies it |
| Singleflight.OneWorkerPerKey | crates/gateway-services/src/credential.rs:174-186 | Two flights of one credential are never both between insertion and removal |
| Singleflight.RetiresOwnFlight | crates/gateway-services/src/credential.rs:194-201 | A retiring worker finds its own flight in the map and removes that and no other |
| Singleflight.EveryCallerGetsTheResult | crates/gateway-services/src/credential.rs:204-208 | A caller that returns has the result of the one execution of its flight's worker, as delivered to a leader or a follower |
| Singleflight.SharedUnlessOwn | crates/gateway-services/src/credential.rs:204-218 | A success is marked as shared for every follower, and for a leader exactly if its worker joined an operation that was under way already |
| Singleflight.AtMostOneExecution | crates/gateway-services/src/credential.rs:186-194 | No flight is executed twice |
| Singleflight.StepDescends | crates/gateway-services/src/credential.rs:126-209 | Every step makes progress on a measure, so no interleaving runs forever |
| Singleflight.RunsAreBounded | crates/gateway-services/src/credential.rs:126-209 | A run over n callers takes at most 13 n steps |
| Singleflight.QuiescentIsFinished | crates/gateway-services/src/credential.rs:126-140 | When nothing can move, every call has returned or was dropped, every worker ran once and retired, and the map is empty: no deadlock and no lost wake-up |
| Singleflight.WaiterReturns | crates/gateway-services/src/credential.rs:127-135 | Once its flight was notified, on every continuation of the run and whatever the others do, a waiter is dropped, or has returned the worker's result, or has one of its own steps enabled; its own steps bring it one stage nearer each, of which there are at most three |
| Singleflight.WaiterAlone | crates/gateway-services/src/credential.rs:127-135 | Its own remaining steps, taken in a row, lead to its return with that result |
| Singleflight.CommitsOnlyOwnAccount | crates/gateway-services/src/credential.rs:188-243 | Also for a worker that its timeout cuts off at any await: new material is committed exactly when it is for the operation's own account and the worker gets that far, and is never committed and marked failed at once; an unshared success is exactly an accepted commit of an uncut worker |
| Singleflight.RefreshIsSettledUnlessCut | crates/gateway-services/src/credential.rs:188-243 | After a refresh was begun, committing it or marking it failed is begun exactly if the timeout does not cut the worker off before its third call |
| Singleflight.UnsharedSuccessIsACommit | crates/gateway-services/src/credential.rs:186-208 | On every run: a caller that returns an unshared success is a leader, and its flight's worker had a commit of its own account's material accepted, which is the commit returned, under the identifier of the operation it had begun |
| Singleflight.WorkerAnswers | crates/gateway-services/src/credential.rs:211-243 | An uncut worker succeeds with exactly the operation begun and the commit it was answered, to its candidate or to its waiting; it fails with the error of the call that failed, where a failed refresh reports its own error unless marking it fails too; and what it marks is that error, which for material of another account is the mismatch |
| Singleflight.ReturnsWhatWasAnswered | crates/gateway-services/src/credential.rs:186-243 | On every run a returned success or error is one that the worker of the caller's flight was answered in this sense, or the timeout |
| Json.UnescapePlain | crates/gateway-policy/src/engine.rs:734-742 | Under the escapes of section 4 of RFC 6901 a token free of `~` and `/` is spelled only as itself |
| PointerLaws.EscapeRoundTrip | crates/gateway-policy/src/engine.rs:734-742 | Every token is read back from its spelling under section 3 of RFC 6901 |
| PointerLaws.LookupIndexIff | crates/gateway-policy/src/engine.rs:511-520 | A lookup takes exactly the plain decimal spelling of a machine word for an index |
| PointerLaws.SignAndZeros | crates/gateway-policy/src/engine.rs:697-702 | A write takes it with a plus sign or leading zeros as well, which a lookup does not |
| Json.EditKeepsOthers | crates/gateway-policy/src/engine.rs:687-732 | A pointer edit under one member of an object leaves every other member alone |
| Json.EditWellFormed | crates/gateway-policy/src/engine.rs:687-732 | Pointer edits keep the keys of every object in the tree distinct |
| Json.SetThenGet | crates/gateway-policy/src/engine.rs:687-707 | What was written at a token path is read back exactly when the container is an object or the index is spelled as a lookup accepts it |
| Json.RemoveThenGet | crates/gateway-policy/src/engine.rs:709-732 | A removed object member is not found any more |
| RuleSet.Draft.SetPointer | crates/gateway-policy/src/engine.rs:687-707 | Walking down to the container, writing there and putting it back is the recursive edit of the tree, or fails under the same conditions and leaves the tree alone |
| RuleSet.Draft.RemovePointer | crates/gateway-policy/src/engine.rs:709-732 | The same for removing, with a missing parent accepted as nothing to do |
| Json.WalkDown | crates/gateway-policy/src/engine.rs:687-694 | The walk down a token path succeeds exactly when a lookup does, and keeps every value it passes |
| Json.WriteBack | crates/gateway-policy/src/engine.rs:687-707 | Putting a container back from the end of the path up changes the tree at that path |
| Json.EditThroughContainer | crates/gateway-policy/src/engine.rs:687-732 | An edit at a path is the edit of the container the path leads to, put back |
| RuleSet.Draft.ApplyOne | crates/gateway-policy/src/engine.rs:505-561 | One rule: condition, edit in place, change log, or the error |
| RuleSet.Draft.ApplyRules | crates/gateway-policy/src/engine.rs:505-561 | The loop over the rules, with what was done before an error staying done |
| RuleOrderLaws.RuleFollowsCondition | crates/gateway-policy/src/engine.rs:505-520 | A rule whose condition means true acts, one whose condition means false changes nothing, and one whose condition cannot be told stops the rule set with the error of its kind |
| RuleOrderLaws.ActionWrites | crates/gateway-policy/src/engine.rs:521-545 | A default is written only where nothing is, a value always, and a number out of range becomes the end of the range it is beyond |
| RuleOrderLaws.CompiledOrder | crates/gateway-policy/src/engine.rs:166-182 | The compiled rules are those given, each as often as its layer lists it, phase by phase as declared, within a phase earlier layers first, and within a layer by rising identifier |
| RuleOrderLaws.LaterLayerWins | crates/gateway-policy/src/engine.rs:166-182 | Of two rules of one phase that set one object member, the one of the later layer decides its value, as long as no third rule touches that part of the request |
| RuleOrderLaws.SetStands | crates/gateway-policy/src/engine.rs:505-561 | A `set` whose condition holds when its turn comes leaves its value there, if the rules behind it write elsewhere |
| RuleOrderLaws.MutationPathIff | crates/gateway-policy/src/engine.rs:486-503 | A path may be written exactly if it is a pointer into the body without a star whose first token is neither the model nor the messages |
| RuleOrderLaws.LayersCompileIff | crates/gateway-policy/src/engine.rs:149-173 | Layers compile exactly if the set is named and every rule has an identifier, a reason, a path that may be written, a condition within its limits and a range that is not empty |
| RuleSetLaws.ModelAndMessagesUntouched | crates/gateway-policy/src/engine.rs:149-183 | Whatever compiles, on every object-rooted tree, up to an error or to the end: `/model` and all of `/messages` stay as they were |
| RuleSetLaws.FirstTokenAllowed | crates/gateway-policy/src/engine.rs:486-503 | An accepted mutation path never leads to the model or into the messages, however it is escaped |
| RuleSetLaws.SplitPointerTokens | crates/gateway-policy/src/engine.rs:734-742 | Splitting off the leaf agrees with how a lookup reads the pointer |
| RuleSetLaws.SerializedOrderIrrelevantIff | crates/gateway-policy/src/engine.rs:149-183 | Every other listing of the rules of each layer compiles to the same rule set if and only if no two different rules of one phase and layer share an identifier |
| RuleSetLaws.RelistingCompilesTheSame | crates/gateway-policy/src/engine.rs:149-183 | Without such a clash any relisting compiles to the same rule set |
| RuleSetLaws.SwapCompilesDifferently | crates/gateway-policy/src/engine.rs:149-183 | Where two rules clash, listing them the other way round compiles to a different rule set |
| ChangeLogLaws.SetReadsBack | crates/gateway-policy/src/engine.rs:687-707 | A write through a pointer can be looked up again exactly when its container is an object or its index has no sign and no leading zero |
| ChangeLogLaws.EditActsOnContainer | crates/gateway-policy/src/engine.rs:687-732 | An edit leaves the tree equal to what it was exactly when it leaves its container so |
| ChangeLogLaws.LogMissesIff | crates/gateway-policy/src/engine.rs:505-561 | For all four actions: the tree is changed and nothing is logged if and only if the rule's condition holds and its edit hits an element of an array by an index with a sign or leading zeros, or removes one that an equal one follows |
| ChangeLogLaws.NothingLoggedMeansSame | crates/gateway-policy/src/engine.rs:505-561 | A rule set that adds nothing to the log and has no rule that misses, each looked at on the tree it meets, leaves the tree equal to what it was |
| ChangeLogLaws.SetIsLoggedIff | crates/gateway-policy/src/engine.rs:505-561 | Exactly when an applied `set` shows up in the change log |
| ChangeLogLaws.EntryTells | crates/gateway-policy/src/engine.rs:544-557 | A rule adds at most one entry, with its identifier, reason and risk and what its path led to before and after |
| ChangeLogLaws.UnloggedWrite | crates/gateway-policy/src/engine.rs:505-561 | An array element addressed with a sign or a leading zero is replaced and nothing is logged, so the original bytes would be sent |
| ChangeLogLaws.UnloggedExample | crates/gateway-policy/src/engine.rs:505-561 | A rule that compiles and a request on which that happens: `/a/00` writes element 0 and is not looked up |
| Capability.ExpandPath | crates/gateway-policy/src/capability.rs:546-578 | Expanding a path level by level, with the bound checked while the frontier grows |
| Capability.MergeRules | crates/gateway-policy/src/capability.rs:340-404 | The merging loop computes the fold of all rules, or reports the clash |
| ConditionLaws.ExpandIs | crates/gateway-policy/src/capability.rs:546-578 | A path that can be expanded expands to exactly the values it leads to: any item for a star, the member for a name, one header, one fact |
| ConditionLaws.ExpansionFailsIff | crates/gateway-policy/src/capability.rs:546-578 | Expansion fails exactly when some stretch of the path leads to more than the limit |
| ConditionLaws.MatchesMeans | crates/gateway-policy/src/capability.rs:486-544 | Whenever a condition is answered, the answer is what it means: every child, some child, the opposite, some value, or some or every value among those listed |
| ConditionLaws.AllIs | crates/gateway-policy/src/capability.rs:492-500 | A conjunction is decided, or fails, by its first child that is not true |
| ConditionLaws.AnyIs | crates/gateway-policy/src/capability.rs:501-508 | A disjunction is decided, or fails, by its first child that is not false |
| ConditionLaws.ErrorsCome | crates/gateway-policy/src/capability.rs:509-534 | A test of a path fails exactly when the path cannot be expanded, and a negation when its child fails |
| ConditionLaws.SameObjectsIff | crates/gateway-policy/src/capability.rs:592-598 | Objects are equal exactly when they have the same keys with equal values, in whatever order |
| ConditionLaws.ScalarsEqualIff | crates/gateway-policy/src/capability.rs:592-598 | Listed values are compared as numbers if both are numbers and as themselves otherwise |
| CapabilityLaws.MergesIffCompatible | crates/gateway-policy/src/capability.rs:340-404 | Rules merge exactly when no actions and no relative maxima clash and some type, some listed value and some number suit all of them |
| CapabilityLaws.MergeIsHereditary | crates/gateway-policy/src/capability.rs:327-338 | Fewer rules are never harder to merge |
| CapabilityLaws.MergeIsExact | crates/gateway-policy/src/capability.rs:340-404 | The merged constraints accept a value exactly when every rule does and one kind of the value suits all rules at once |
| CapabilityLaws.EachImpliesMerged | crates/gateway-policy/src/capability.rs:580-590 | Rules satisfied one by one are satisfied together exactly unless a whole number meets a mix of integer and number rules |
| CapabilityLaws.MixedNumericTypesReject | crates/gateway-policy/src/capability.rs:340-404 | Two rules and the number 1 on which they are not |
| CapabilityLaws.KindSharedIff | crates/gateway-policy/src/capability.rs:580-590 | Only a whole number can suit every rule and still share no kind with all of them |
| CapabilityLaws.MergeIsOrderFree | crates/gateway-policy/src/capability.rs:340-404 | Order and repetition of rules change neither success nor what is accepted nor whether presence is required |
| CapabilityValidation.Validate | crates/gateway-policy/src/capability.rs:210-283 | The validation loops find exactly the findings of all active groups, and stop at the first run-time error |
| ValidationLaws.ReportIs | crates/gateway-policy/src/capability.rs:210-283 | A compiled snapshot that gets to a report reports exactly what the rules applying at each path have to complain about: a value required or forbidden, a kind that does not suit all of them, or one of them not allowing it |
| ValidationLaws.NothingReportedIff | crates/gateway-policy/src/capability.rs:210-283 | Nothing is reported exactly when no applying rule has anything to complain about |
| ValidationLaws.ConditionCompilesIff | crates/gateway-policy/src/capability.rs:446-484 | A condition compiles exactly if it is at most eight levels deep, has at most 128 nodes, at most 32 children anywhere, valid paths and scalar values |
| ValidationLaws.CompilesIff | crates/gateway-policy/src/capability.rs:159-189 | A snapshot compiles exactly if it is named, its rules are compilable one by one and the unconditional rules of every path can be merged |
| ValidationLaws.ValidPathIff | crates/gateway-policy/src/capability.rs:415-436 | A path is a pointer into the body with at most three stars, the lower-case name of a header, or one of three facts about the request |
| CapabilityValidation.UnconditionalNeverConflicts | crates/gateway-policy/src/capability.rs:159-189 | A snapshot that compiles from unconditional rules never conflicts at run time, on any tree and context |
| CapabilityValidation.MergeableNeverConflicts | crates/gateway-policy/src/capability.rs:210-283 | Nor does any snapshot whose rules merge path by path whatever their conditions |
| CapabilityValidation.CleanMeansEveryRuleHappy | crates/gateway-policy/src/capability.rs:210-283 | When nothing is reported, every rule whose condition holds is satisfied by all values at its path, or by their absence |
| CapabilityValidation.CleanPath | crates/gateway-policy/src/capability.rs:223-279 | A path is clean exactly when every rule for it is satisfied and no whole number sits between an integer and a number rule |
| CapabilityValidation.RelativeIsSingle | crates/gateway-policy/src/capability.rs:438-444 | A relative maximum path stands for at most one value |
| CapabilityValidation.CompiledRules | crates/gateway-policy/src/capability.rs:159-189 | What compilation guarantees about every rule of a snapshot |
| SystemRewrite.EnforceBreakpointBudget | crates/gateway-policy/src/system_rewrite.rs:136-157 | The in-place loop strips the first breakpoints along the order inserted, before, after, until the budget fits |
| SystemRewrite.TransferCacheControls | crates/gateway-policy/src/system_rewrite.rs:161-199 | The in-place loop gives each source breakpoint to the nearest free target |
| SystemRewrite.FindNearest | crates/gateway-policy/src/system_rewrite.rs:183-189 | The nearest unused index, the lower one on a tie |
| SystemRewrite.SpliceStatic | crates/gateway-policy/src/system_rewrite.rs:55-70 | Prefix, inserted blocks and dynamic suffix are assembled and brought under budget |
| SystemRewrite.ReplaceSystemStatic | crates/gateway-policy/src/system_rewrite.rs:49-85 | A resolved boundary swaps the static segment only; otherwise the whole value is replaced |
| SystemRewrite.ParseRanges | crates/gateway-policy/src/system_rewrite.rs:53-54 | The slice bounds are always in range and the clamp on the dynamic start never takes effect |
| SystemRewriteLaws.SpliceKeepsClientBlocks | crates/gateway-policy/src/system_rewrite.rs:52-72 | Kept prefix and dynamic suffix are the client's own blocks, the inserted blocks lose at most leading breakpoints, and the total does not exceed what the client sent |
| SystemRewriteLaws.ReplaceKeepsClientBlocks | crates/gateway-policy/src/system_rewrite.rs:49-72 | The same for the whole replacement, with the boundary and the budget that it finds for itself, and no dynamic heading among the blocks dropped behind the static ones |
| SystemRewriteLaws.NeverMoreBreakpoints | crates/gateway-policy/src/system_rewrite.rs:49-85 | In every case the result carries no more breakpoints than the client's value |
| SystemReplaceLaws.WholeReplacement | crates/gateway-policy/src/system_rewrite.rs:74-84 | Without a boundary the result is the replacement: a text or any other single value as it is, one text block where a text meets a list, and a list block by block, alike in every key but `cache_control`, which is the block's own or the one sent to it as `TransferGives` says, less the leading ones beyond the budget |
| SystemReplaceLaws.StartIs | crates/gateway-policy/src/system_rewrite.rs:53-53 | The static segment starts behind a billing header, readable or not |
| SystemReplaceLaws.AsBlocksIs | crates/gateway-policy/src/system_rewrite.rs:106-112 | What is inserted for a text, for a list and for anything else |
| SystemReplaceLaws.TextBlockHas | crates/gateway-policy/src/system_rewrite.rs:74-77 | A text block has its type and its text and no other key |
| SystemReplaceLaws.InheritIs | crates/gateway-policy/src/system_rewrite.rs:57-63 | Inserted blocks stand as given, but the last one gets the last breakpoint of those it replaces if none of them has one |
| SystemReplaceLaws.DynamicStartIs | crates/gateway-policy/src/system_segments.rs:131-159 | The dynamic part starts right behind the one breakpoint between the last static block and the first dynamic heading after it, and else at that heading |
| SystemReplaceLaws.DynamicIff | crates/gateway-policy/src/system_segments.rs:260-267 | A block begins a dynamic section exactly if its text, behind leading blanks and in any case, begins with one of five headings |
| SystemReplaceLaws.StaticIff | crates/gateway-policy/src/system_segments.rs:131-135 | A block is static exactly if the static heading stands somewhere in its text |
| SystemRewriteLaws.EnforceKeepsBudget | crates/gateway-policy/src/system_rewrite.rs:136-157 | Afterwards there are exactly as many breakpoints as before or as the budget allows, whichever is less |
| SystemRewriteLaws.EnforceStripsInserted | crates/gateway-policy/src/system_rewrite.rs:136-157 | If the inserted blocks carry the excess, only leading inserted breakpoints go |
| SystemRewriteLaws.TransferGives | crates/gateway-policy/src/system_rewrite.rs:161-199 | A transfer is a partial map from source to target indices: defined on source breakpoints only, never two to one target, each to the nearest index not taken before, or nowhere if the block there has a control of its own or is no object; the block chosen holds that source's control and is otherwise as it was, and all others are unchanged |
| SystemRewriteLaws.DestinationsAreUnique | crates/gateway-policy/src/system_rewrite.rs:161-199 | That description leaves no choice: two such maps are the same |
| SystemRewriteLaws.EqualLengths | crates/gateway-policy/src/system_rewrite.rs:161-199 | With equally many blocks every breakpoint lands on its own index |
| SystemRewriteLaws.MappedIsNearest | crates/gateway-policy/src/system_rewrite.rs:176-182 | The mapped index is the rounding of i (T-1) / (S-1) to the nearest |
| SystemRewriteLaws.MappedInOrder | crates/gateway-policy/src/system_rewrite.rs:176-182 | It is in range and rises with the source index |
| SystemRewriteLaws.StripClientKeepsBilling | crates/gateway-policy/src/system_rewrite.rs:91-104 | Stripping the client leaves at most its billing block, alike but for the breakpoint, which is gone |
| SystemReplaceLaws.StripClientIff | crates/gateway-policy/src/system_rewrite.rs:91-104 | It leaves that block exactly if the client sent a list with a billing header in front |
| SystemSegments.FindBoundary | crates/gateway-policy/src/system_segments.rs:131-159 | A resolved boundary has its dynamic part behind its static end and within the list |
| SystemSegments.BoundarySeparates | crates/gateway-policy/src/system_segments.rs:131-159 | A boundary is found exactly when a dynamic heading follows the last static block; the part to be replaced ends behind all static blocks and takes no dynamic heading along |
| SystemSegments.LastStatic | crates/gateway-policy/src/system_segments.rs:131-135 | The static end is the last block that carries the static heading |
| Policy.ApplyEnforcement | crates/gateway-policy/src/engine.rs:563-614 | The mode switch edits the draft in place as specified |
| Policy.CanonicalizeSystemOrder | crates/gateway-policy/src/engine.rs:616-637 | The rebuilding loop produces the reordered members |
| Policy.ProcessWithOptions | crates/gateway-policy/src/engine.rs:353-416 | The whole pipeline, stage by stage, with the error of the stage that fails |
| Policy.EnforceTouchesOnlySystem | crates/gateway-policy/src/engine.rs:563-614 | Enforcement changes no member but `system`, and nothing at all when it fails |
| Policy.EnforcedSystem | crates/gateway-policy/src/engine.rs:563-614 | What the system member is afterwards in each mode, and exactly when enforcement fails |
| Policy.ReorderKeepsOthers | crates/gateway-policy/src/engine.rs:616-637 | Restoring the member order keeps the other members and their order |
| Policy.ReorderPlacesSystem | crates/gateway-policy/src/engine.rs:616-637 | `system` ends up right in front of `messages`, once |
| Policy.CanonicalKeepsMembers | crates/gateway-policy/src/engine.rs:616-637 | Every key keeps its value |
| Policy.AdjustKeepsModelAndMessages | crates/gateway-policy/src/engine.rs:370-382 | Rules, enforcement and reordering together leave model and messages alone |
| Policy.ModelCheckNeverFires | crates/gateway-policy/src/engine.rs:383-385 | The check that the model is still the client's can never fail |
| Policy.ProcessedRequest | crates/gateway-policy/src/engine.rs:353-416 | A request that gets through names its model, carries its messages unchanged and satisfies the final check |
| Policy.GetsThroughIff | crates/gateway-policy/src/engine.rs:353-416 | A well-structured request gets through exactly if its model is published, nothing is wrong with it as it came, adjusting it succeeds and nothing is wrong with it then; and what goes out is the adjusted tree |
| Policy.StoppedBy | crates/gateway-policy/src/engine.rs:353-416 | Which error stops it, in the order of the stages |
| Policy.IllStructured | crates/gateway-policy/src/engine.rs:449-470 | Without that structure it is refused before anything else |
| Policy.StructureIs | crates/gateway-policy/src/engine.rs:449-470 | The structure asked for: a model, messages, a token limit where needed and a flag for streaming |
| Policy.FactsAre | crates/gateway-policy/src/engine.rs:241-263 | Conditions see the caller's facts with the request's own model and streaming flag |
| Policy.CheckIs | crates/gateway-policy/src/engine.rs:472-484 | A check passes exactly if validation reports nothing, or nothing but about `max_tokens` when only tokens are counted; and otherwise reports exactly the rest |
| Policy.SystemByMode | crates/gateway-policy/src/engine.rs:563-602 | The system value each mode leaves, and when it is left to a template |
| Policy.SystemGoesBeforeMessages | crates/gateway-policy/src/engine.rs:378-382 | A request that was changed and has a system value goes out with it once, right before the messages |
| Policy.EnforceIsLogged | crates/gateway-policy/src/engine.rs:563-614 | Enforcement logs every change it makes |
| Policy.OriginalBytesAreTheAdjustedRequest | crates/gateway-policy/src/engine.rs:367-404 | A request that goes out with its original bytes goes out as adjusted, as long as no rule escapes the log: the adjusted tree is equal to the client's |
| BillingBlock.SystemPrompt.EnsureBillingBlock | crates/gateway-policy/src/billing.rs:108-185 | The branches on null, text and block list rewrite the system value in place as specified |
| BillingLaws.RenderParsesBack | crates/gateway-policy/src/system_segments.rs:217-254 | Parsing recovers exactly what was printed if and only if the version is three dotted numbers and the fingerprint three lower-case hexadecimal digits |
| BillingLaws.RewrittenPayload | crates/gateway-policy/src/billing.rs:191-214 | After rewriting the first version key the reader sees the target if that key opens its field, and what it saw before otherwise |
| BillingLaws.RewrittenHeader | crates/gateway-policy/src/billing.rs:187-214 | The same for a whole header text, leading blanks included |
| BillingLaws.RenderedVersion | crates/gateway-policy/src/billing.rs:68-82 | A printed header names its version to the lenient reader exactly unless the version holds a semicolon |
| BillingLaws.EnsureInstallsVersion | crates/gateway-policy/src/billing.rs:108-185 | One call leaves a header without a breakpoint at the head; it names the target exactly under `Settles` |
| BillingLaws.EnsureTwice | crates/gateway-policy/src/billing.rs:108-185 | A second call with the same arguments preserves everything exactly under `Settles`: the header already named the target, or the target has no semicolon and an existing header's first version key opens its field |
| BillingLaws.ActionIs | crates/gateway-policy/src/billing.rs:108-185 | Which action it comes to, exactly: refusal of a blank target or another kind of value, insertion in front of missing, plain or listed system values without a header, and preservation of a header that names the target and carries no breakpoint |
| BillingLaws.EnsureKeepsRest | crates/gateway-policy/src/billing.rs:119-184 | Nothing else moves: blocks behind an inserted header are the client's, and a rewritten header block keeps all fields but text and breakpoint |
| BillingLaws.InsertedIsParsed | crates/gateway-policy/src/system_segments.rs:112-119 | An inserted block is understood in full by the segment parser |
| BillingLaws.SemicolonNeverSettles | crates/gateway-policy/src/billing.rs:108-185 | Whatever the system value, with a semicolon in the target the first call writes a header and so does every one of any number of later calls |
| BillingLaws.BuriedKeyNeverSettles | crates/gateway-policy/src/billing.rs:187-214 | Whatever the header, if its first version key stands inside a field and a later field names another version than the target, every one of any number of calls rewrites it and the reader goes on seeing that other version |
| BillingLaws.BuriedKeyExample | crates/gateway-policy/src/billing.rs:187-214 | Such a header |
| TokenBucket.TokenBucket.Full | crates/gateway-scheduler/src/token_bucket.rs:39-46 | A new bucket is full and valid |
| TokenBucket.TokenBucket.DoRefill | crates/gateway-scheduler/src/token_bucket.rs:97-108 | The in-place refill is the specified one on all three fields |
| TokenBucket.TokenBucket.TryConsume | crates/gateway-scheduler/src/token_bucket.rs:49-56 | Consuming refills, then takes one token or refuses |
| TokenBucket.TokenBucket.RetryAfter | crates/gateway-scheduler/src/token_bucket.rs:60-73 | The suggested wait, counted after refilling |
| TokenBucket.TokenBucket.DoReconfigure | crates/gateway-scheduler/src/token_bucket.rs:90-95 | A new configuration settles, clamps and drops the remainder |
| TokenBucket.OperationsKeepValid | crates/gateway-scheduler/src/token_bucket.rs:49-108 | Every operation keeps the balance within the burst and the remainder below a minute |
| TokenBucket.RefillPathIndependent | crates/gateway-scheduler/src/token_bucket.rs:97-108 | Refilling at b and then at c is refilling at c, for all three fields and across the cap |
| TokenBucket.RefillPotential | crates/gateway-scheduler/src/token_bucket.rs:97-108 | Refilling adds exactly what accrued, and less only when the burst caps it |
| TokenBucket.RateBound | crates/gateway-scheduler/src/token_bucket.rs:49-95 | Over every run, changes of configuration included: tokens handed out are covered by what was in the bucket plus what accrued since, each stretch of time at the rate that held in it, exact to the nanosecond |
| TokenBucket.AccruedAtOneRate | crates/gateway-scheduler/src/token_bucket.rs:97-108 | While the configuration stays, what accrues is the rate times the time |
| TokenBucket.FullBucketBound | crates/gateway-scheduler/src/token_bucket.rs:39-95 | From a full bucket at most the burst plus what accrues is handed out |
| TokenBucket.ReconfigureAddsNothing | crates/gateway-scheduler/src/token_bucket.rs:88-95 | Reconfiguring never raises the settled balance |
| TokenBucket.WaitIs | crates/gateway-scheduler/src/token_bucket.rs:68-72 | The wait is the least whole number of nanoseconds whose accrual covers what is missing, at most a minute; the fallback to the largest number is unreachable |
| TokenBucket.WaitAtTheEnds | crates/gateway-scheduler/src/token_bucket.rs:60-67 | With a token there the wait is zero and it can be taken; without a rate it is a minute, and no wait will ever do |
| TokenBucket.RetryAfterIsSufficient | crates/gateway-scheduler/src/token_bucket.rs:58-73 | At whatever instant it is asked, waiting as told is enough exactly under `WaitReaches`; asked no earlier than the last refill, exactly when a token was there already or rate and burst are positive |
| TokenBucket.RetryAfterIsTight | crates/gateway-scheduler/src/token_bucket.rs:58-73 | Nobody is served more than ceil(60000 / rate) nanoseconds earlier, and without a carried remainder nobody earlier at all |
| TokenBucket.ServedAfter | crates/gateway-scheduler/src/token_bucket.rs:49-56 | When exactly a further wait is enough, the carried remainder included |
| TokenBucket.StaleClockWaitsTooLittle | crates/gateway-scheduler/src/token_bucket.rs:60-73 | Asked before the last refill, with no token there, the wait is too short whenever no remainder is carried or the clock lags by more than ceil(60000 / rate) nanoseconds |
| TokenBucket.StaleClockMaySuffice | crates/gateway-scheduler/src/token_bucket.rs:60-73 | With a carried remainder and a small lag it may be enough |
| TokenBucket.WaitIsNotRounded | crates/gateway-scheduler/src/token_bucket.rs:58-73 | The wait is not rounded to milliseconds as its documentation says |
| TokenBucket.NoOverflow | crates/gateway-scheduler/src/token_bucket.rs:97-108 | No 128-bit intermediate overflows for fewer than 2^75 nanoseconds between refills |
| Egress.BeforeIsTotal | crates/gateway-domain/src/credential.rs:563-567 | The cross-multiplied order is a strict total order on eligible candidates with distinct identifiers |
| Egress.LeastIsMinimum | crates/gateway-domain/src/credential.rs:544-561 | A candidate is chosen exactly when one is eligible, and no eligible one comes before it |
| Egress.ChoiceIs | crates/gateway-domain/src/credential.rs:540-561 | Only the direct policy goes direct; any other chooses an eligible proxy whose load no eligible one undercuts, nor equals with a smaller identifier, and waits exactly without an eligible one |
| Egress.EligibleIff | crates/gateway-domain/src/credential.rs:544-553 | What makes a proxy eligible |
| Egress.ChoiceIsOrderFree | crates/gateway-domain/src/credential.rs:540-561 | The decision does not depend on the order, nor on repetitions, of the list |
| Egress.StepIsFair | crates/gateway-domain/src/credential.rs:540-561 | One decision keeps the balance and binds unless all capacity is used |
| Egress.RunIsFair | crates/gateway-domain/src/credential.rs:540-561 | Over every run from zero: no maximum is exceeded, (a - 1) m' <= a' m for all usable pairs, and exactly as many bindings exist as decisions or capacity allow |
| Egress.WaitsOnlyWhenFull | crates/gateway-domain/src/credential.rs:556-561 | Waiting for egress is decided exactly when every usable proxy is full, which is after as many decisions as there is capacity |
| Archetype.CollectEligible | crates/gateway-domain/src/credential.rs:582-591 | The filter keeps the eligible candidates in order |
| Archetype.TotalWeight | crates/gateway-domain/src/credential.rs:592-594 | The saturating sum of the weights |
| Archetype.Walk | crates/gateway-domain/src/credential.rs:598-606 | The walk finds the candidate whose share holds the point |
| Archetype.Choose | crates/gateway-domain/src/credential.rs:581-607 | Nothing is returned exactly when nobody is eligible; otherwise the candidate whose share holds the seed's residue |
| Archetype.ShareIsWeight | crates/gateway-domain/src/credential.rs:592-606 | Exactly as many residues select a candidate as it has weight, unless the 64-bit total saturates before its share ends |
| Archetype.ResidueDecides | crates/gateway-domain/src/credential.rs:598-606 | A seed selects what its residue selects, and one candidate only |
| SessionCache.ClientOsSessionCache.constructor | crates/gateway-api/src/data.rs:446-454 | A capacity of zero counts as one |
| SessionCache.ClientOsSessionCache.Prune | crates/gateway-api/src/data.rs:488-491 | Pruning keeps exactly the entries seen within the time to live |
| SessionCache.ClientOsSessionCache.Remember | crates/gateway-api/src/data.rs:456-470 | Storing prunes, makes room by dropping one of the entries seen longest ago only for a new digest in a full cache, and stores |
| SessionCache.ClientOsSessionCache.Resolve | crates/gateway-api/src/data.rs:472-479 | Resolving prunes, and touches what it finds |
| SessionCache.StepKeepsInv | crates/gateway-api/src/data.rs:456-491 | Every operation keeps the simulation of the unbounded cache, with time never going back |
| SessionCache.PrunedIs | crates/gateway-api/src/data.rs:488-491 | An entry is kept exactly while no more than the time to live has passed since it was seen |
| SessionCache.UnboundedAnswers | crates/gateway-api/src/data.rs:456-491 | Over every run: the unbounded cache answers exactly if the digest was remembered and, ever since, named again each time within the time to live, and then with the operating system remembered last; said by the operations alone |
| SessionCache.AgreesWithUnbounded | crates/gateway-api/src/data.rs:456-491 | Over every run: the size stays within the capacity; a hit is what was remembered last, within the time to live; a miss of what is alive means at least `capacity` other digests were stored or served since, by the clock |
| SessionCache.MissCountedInOperations | crates/gateway-api/src/data.rs:456-491 | Counted in operations: a miss the unbounded cache would not have means that the digests touched by operations after the last touch and those touched before it at the same instant are at least `capacity`; without such ties the operations after it alone account for that many |
| SessionCache.TiedClockEvictsEarly | crates/gateway-api/src/data.rs:460-468 | For every capacity above one, a run whose clock stands still ends in a miss that the unbounded cache would not have, although operations after the last touch touched one other digest only |
| SessionCache.OldestExists | crates/gateway-api/src/data.rs:462-466 | A full cache always has an entry to drop |
| ModelsPaging.StaticModelCatalog.constructor | crates/gateway-api/src/data.rs:250-254 | Publishing by a sorting and a deduplicating loop leaves strictly rising identifiers and, of all models with one identifier, exactly the first listed |
| ModelsPaging.SortStably | crates/gateway-api/src/data.rs:251 | The sorting loop puts every model before the first one whose identifier is not smaller |
| ModelsPaging.DropRepeated | crates/gateway-api/src/data.rs:252 | The deduplicating loop drops a model exactly when the one kept last has its identifier |
| ModelsPaging.CatalogIs | crates/gateway-api/src/data.rs:250-254 | The catalog rises strictly by identifier and holds, of all models listed with one identifier, exactly the first |
| Text.LessIs | crates/gateway-api/src/data.rs:251-251 | Identifiers are compared at the first character in which they differ |
| ModelsPaging.SeenUnlessShadowed | crates/gateway-api/src/edge.rs:544-551 | A listed model is visible exactly when the grant covers it and no earlier model has its identifier |
| ModelsPaging.ShadowedAcrossProviders | crates/gateway-api/src/data.rs:250-254 | The earlier model may belong to another provider |
| ModelsPaging.AskAnswers | crates/gateway-api/src/edge.rs:580-598 | A query is refused exactly for a limit out of 1 to 100 or a cursor that is not visible; otherwise its page is the stretch behind the cursor up to the limit, with its ends named and whether there is more |
| ModelsPaging.WalkCollects | crates/gateway-api/src/edge.rs:584-598 | What a walk has collected is the start of the visible list as far as its limits reach, and there is more exactly while they fall short |
| ModelsPaging.WalkListsEverythingOnce | crates/gateway-api/src/edge.rs:580-598 | A walk over pages never fails, lists the visible models once and in order, says there is no more exactly at the end, and takes no more pages than there are models |
| Attempt.AttemptState.DoBeginConnection | crates/gateway-scheduler/src/attempt.rs:70-78 | Connecting is refused after the end and after three connections |
| Attempt.AttemptState.DoConnectionEstablished | crates/gateway-scheduler/src/attempt.rs:80-84 | Allowed only while connecting |
| Attempt.AttemptState.DoFirstRequestByte | crates/gateway-scheduler/src/attempt.rs:87-96 | Allowed only when connected, and counts a message |
| Attempt.AttemptState.DoRequestUploadComplete | crates/gateway-scheduler/src/attempt.rs:98-102 | Allowed only while uploading |
| Attempt.AttemptState.DoCommitStreamingResponse | crates/gateway-scheduler/src/attempt.rs:104-110 | Allowed while uploading or waiting for headers |
| Attempt.AttemptState.DoBufferComplete | crates/gateway-scheduler/src/attempt.rs:112-118 | Allowed while uploading or waiting for headers |
| Attempt.AttemptState.DoObserveUsage | crates/gateway-scheduler/src/attempt.rs:121-128 | Knowledge is taken over only if it does not fall |
| Attempt.AttemptState.DoCompleteDelivery | crates/gateway-scheduler/src/attempt.rs:130-140 | Delivery ends the request |
| Attempt.AttemptState.DoCancel | crates/gateway-scheduler/src/attempt.rs:142-197 | Cancelling ends the request and says by phase what the transport has to do |
| Attempt.StepKeepsInv | crates/gateway-scheduler/src/attempt.rs:70-197 | Every operation keeps the accounting invariant |
| Attempt.SucceedsIff | crates/gateway-scheduler/src/attempt.rs:70-229 | Each operation succeeds exactly when its phase allows it, and a connection while fewer than three were begun |
| Attempt.CancelAsksFor | crates/gateway-scheduler/src/attempt.rs:142-197 | What a cancellation asks of transport, lease, buffer and delivered prefix, phase by phase and protocol by protocol |
| Attempt.RunIsAccounted | crates/gateway-scheduler/src/attempt.rs:70-197 | On every run: messages <= connections <= 3, strictly while connecting or connected; the counters count what succeeded; usage is absent exactly while nothing was sent, until the end; one ending at most, and one exactly when terminal |
| Attempt.MessagesBudgetUnreachable | crates/gateway-scheduler/src/attempt.rs:87-92 | The messages budget is never the reason for an error |
| Attempt.FailureChangesNothing | crates/gateway-scheduler/src/attempt.rs:70-229 | A failing operation changes nothing, and the only successful one that leaves everything as it was repeats what is known of usage |
| Attempt.TerminalAbsorbs | crates/gateway-scheduler/src/attempt.rs:214-229 | After the end nothing changes any more, whatever follows |
| Attempt.UsageGrowsUnlessForgotten | crates/gateway-scheduler/src/attempt.rs:28-36 | Usage knowledge falls exactly on the steps that `Forgets` names |
| Attempt.CancelForgetsCompleteUsage | crates/gateway-scheduler/src/attempt.rs:142-197 | A run on which complete usage becomes unknown again |

## Left out

- The scheduler's engine and actor: their behaviour behind the channel is not part of this model.
- HTTP routing, streaming, WebSockets, headers, authentication, limiters over floating point, and the
  management and probe endpoints: input and output around the cores.
- SHA-256 and the fingerprint derived from it: the fingerprint is a parameter of three lower-case
  hexadecimal digits, and value digests in the change log are modelled by the values themselves.
- Parsing and printing JSON text, the strict schema mode and the portability classification.
- The selection of the first user text and of the `cch` variant for a client version: finite lookups.
- Dynamic sections, environment fields and parser flags other than the malformed billing flag: nothing
  modelled here depends on them.
- Retry, readiness and the credential state tables: finite case tables.
- FairQueue.QueueNode.PopRunnable: the runnable predicate is a pure function of the entry, while the
  source allows one that changes with each call.
- FairQueue.QueueNode.Push: the four node types of the source are one class with a depth, and the four
  kinds of identifier one string type, because their code is the same.
- Singleflight.StepInv: the protocol is modelled on values as a step system, so lock poisoning and
  panicking workers are not in it; dropping a waiting caller and cutting a worker off are.
- Capability.MergeRules: floating-point numbers are exact reals, so rounding, NaN and negative zero are
  not modelled.
- CapabilityValidation.Validate: diagnostics are a set, which the source lists sorted and without
  repetitions.
- SessionCache.ClientOsSessionCache.Remember: which of several entries seen longest ago is dropped is
  left open, as it is by the source's hash map.
- Transferred breakpoints may swap their order when they collide, so no such order is stated.
- Egress.RunIsFair: eligibility apart from capacity stays fixed during the run and bindings are not
  given back.
- ModelsPaging.WalkListsEverythingOnce: the catalog and the grant stay fixed during the walk, query
  strings are taken as parsed, and the grants of the other provider, whose whole list is sent without
  paging, are walked here as well.
