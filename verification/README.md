# Verified model of the gateway's core

A Dafny model of five parts of the AI gateway, with proofs about every input, every run or every
reachable state:

- **Account egress** (`Egress`, `EgressMachine`, `EgressRuntime`): versioned snapshots of nodes and
  routes are installed into a proxy controller whose failed apply may still have taken effect; node
  records are shared between the node map, the routes and the live tunnels.
- **Credential generations** (`Credentials`, `CredentialSessions`, `CredentialStore`): chunks first,
  manifest last, with a compare-and-set against the session's baseline; every keyring command may fail
  after taking effect, and the process may stop at any of them.
- **Admission and slots** (`AccountSlots`, `AccountProgram`, `AccountMachine`, `AccountManager`,
  `Metering`, `Rates`, `DailyQuota`, `Limiter`): counters checked, taken and returned in separate critical
  sections of interleaved requests, each request running its own program.
- **Money and prices** (`Decimals`, `Rounding`, `Costs`, `DecimalOrder`, `Pricing`, `AnthropicUsage`):
  exact decimals, one rounding, conservative fallback prices, cumulative usage snapshots.
- **Two-hop streaming** (`CliProtocol`, `ClientCall`, `Bridge`, `Sse`, `Gateway`, `GeminiUsage`,
  `GeminiContents`, `EndToEnd`, `LongAnswer`): the CLI parser, the bridge and the gateway as three automata, composed
  into one statement about what the client receives.

Code that changes things step by step is a class or a method with loops, proved equal to a function on
values (`View() == Step(old(View()), …)`); runs are folds over arbitrary step sequences, and what holds
of them is proved as an invariant. Concurrency is the choice of the step sequence: each critical section
is one step. A method with several critical sections, `AccountManager.RunStream` and
`Limiter.Limiter.Acquire`, lets the other requests act between them. `Text`, `Sets` and `Int64` hold the
string, set and 64-bit helpers.

Parameters stand for what the program gets from outside: digests, route tokens and JSON decoding are
functions; the ends of controller, keyring and network operations, clocks, windows and selector answers
are arguments. The JSON decoder needs one property, that only text opening with a brace can be a tool
call (`ClientCall.OnlyObjects`); the digest needs none except in `EgressMachine.RepeatIsIdentical`.

Findings about the code, each with its exact condition:

- An answer the CLI completes can be lost on the way to the client. A tool call whose id holds a C1
  control character (U+0080 to U+009F) passes the bridge (`internal/antigravity/gemini.go:176-186`) and is
  refused by the gateway (`internal/proxy/gemini.go:313`); an empty plain answer is completed by the bridge
  and refused by the gateway; and an answer told in so many pieces that its frames pass 16 MiB is within
  the parser's limits and past the gateway's (`internal/proxy/gemini_stream.go:197-234`).
  `EndToEnd.AnswerArrives` proves that, with no write failing, these and malformed calls are the only
  answers lost: the client gets a terminal object if and only if the answer is deliverable and its frames
  fit. `EndToEnd.C1IdIsRefused` gives such an id, and `LongAnswer.ToldTooFinely` a family of answers of
  115705 to 162000 letters, each of which is lost when told letter by letter.
- Text in a code fence whose opening line ends in a carriage return is withheld as a possible tool call
  (`internal/antigravity/gemini_stream.go:26`), but such a fence is never opened
  (`internal/antigravity/server.go:354`): a call in it reaches the client as prose, and prose in it that opens
  with a brace is not streamed. `ClientCall.WithheldExactly` proves that this is the only text withheld that
  cannot become a call, and that no text that can is let through.
- The requests-per-window limit can be passed, since `internal/limit/limiter.go:102-103` reads the clock
  before the lock is taken and a counter turned to another window forgets its count. What matters is not
  that windows go back but that one is returned to. `Rates.LimitHolds` proves the limit, for every run with
  its rollbacks and releases, in each window that is not returned to or that no more requests ask for than
  the limit; `Rates.LimitHoldsExactly` proves that for new requests arriving in any windows, under any
  limit, this condition is necessary too; and under a limit of one it is that no window is returned to
  (`Rates.OneEachExactly`).

## Model

| member | source | states |
|---|---|---|
| `Egress.NodeKeyInjective` | cmd/account-egress/runtime.go:74 | equal node keys mean equal id and revision, for any ids, even with slashes in them |
| `Egress.RouteNamesOneNode` | cmd/account-egress/runtime.go:123-130 | a route of an accepted snapshot names exactly one node: the one with its id and revision |
| `Egress.FreePort` | cmd/account-egress/runtime.go:168-175 | the scan returns the lowest free port at or above its start, or one past the range when all are taken |
| `Egress.PlanSound` | cmd/account-egress/runtime.go:150-178 | held and kept nodes keep their entry, new ports are in range, distinct, and used by no listener of the old map; the plan holds nothing else |
| `Egress.PlanNames` | cmd/account-egress/runtime.go:157-178 | every node of the snapshot is planned with exactly its own settings |
| `Egress.RefusedExactlyWhenFull` | cmd/account-egress/runtime.go:168-175 | without a revision conflict, refusal for capacity if and only if old listeners and new nodes together exceed the 40001 ports |
| `Egress.ConflictIsReal` | cmd/account-egress/runtime.go:161-164 | a revision conflict is reported only when some node is in the map with other settings |
| `Egress.PlanTakesLowest` | cmd/account-egress/runtime.go:165-178 | the ports taken for the new nodes of a plan are the lowest that no listener of the old map uses, one for each new node |
| `EgressMachine.AlwaysInv` | cmd/account-egress/runtime.go:133-274 | in every reachable state: exact reference counts, placed listeners, desired and held nodes served when ready, and version, routes, desired nodes with their settings, and fingerprint those of the last installed snapshot |
| `EgressMachine.ReadyMeansServed` | cmd/account-egress/runtime.go:133-274 | after any run, when ready every route's node and every held node is in the map and in the controller's configuration at its unchanged listener; held nodes stay in the map even when not ready |
| `EgressMachine.VersionNeverDecreases` | cmd/account-egress/runtime.go:140-149 | the applied version at any point of a run is at most that at any later point |
| `EgressMachine.RollbackRestores` | cmd/account-egress/runtime.go:192-214 | a failed apply followed by a good rollback leaves the state as it was, with every listener configured again |
| `EgressMachine.RepeatIsIdentical` | cmd/account-egress/runtime.go:143-148 | a repeated version is accepted only for the very snapshot installed, when digests do not collide |
| `EgressMachine.PruneLeavesNeeded` | cmd/account-egress/runtime.go:250-274 | after a successful prune the map holds exactly the desired and the held nodes, unchanged |
| `EgressMachine.InstalledExactly` | cmd/account-egress/runtime.go:133-235 | in any state a snapshot is installed if and only if it is acceptable, newer or of the same version while not ready, agrees with the revisions in the map, its new nodes fit the free ports, the controller takes the new configuration and every port given to a new node answers; then exactly the held and the wanted nodes are in the map, the present ones unchanged, and all of them configured |
| `EgressMachine.RefusedExactly` | cmd/account-egress/runtime.go:133-214 | every other verdict has its condition and leaves the state as it was; after a failed apply the runtime is ready if and only if it was before, the rollback was applied and every listener of the map answered it |
| `EgressMachine.PrunedExactly` | cmd/account-egress/runtime.go:250-274 | a node leaves the map if and only if the runtime is ready, the smaller configuration is applied, and the node is neither desired nor held; nothing else changes but the configuration in doubt |
| `EgressMachine.TunnelExactly` | cmd/account-egress/runtime.go:400-410 | in every run a tunnel is let through if and only if the runtime is ready and the snapshot in force has that route with that token |
| `EgressMachine.ProbeExactly` | cmd/account-egress/runtime.go:482-493 | in every run a probe holds a node if and only if the runtime is ready and the node is of the snapshot in force |
| `EgressMachine.RouteInForce` | cmd/account-egress/runtime.go:400-410 | in every run each route of the snapshot in force has its own token and leads to the node it names by id and revision; while ready a tunnel of it is let through and dials a listener the controller serves with exactly the settings the snapshot gives that node |
| `EgressRuntime.ValidateSnapshot` | cmd/account-egress/runtime.go:100-131 | accepts exactly snapshots within the size limits whose nodes are valid and distinct and whose routes are distinct, carry their token and name a node |
| `EgressRuntime.ScanPort` | cmd/account-egress/runtime.go:168-171 | the scanning loop finds the lowest free port |
| `EgressRuntime.Runtime.Candidates` | cmd/account-egress/runtime.go:150-178 | the candidate map realises the plan, sharing the present records and allocating new ones only for new keys |
| `EgressRuntime.Runtime.ProbeAll` | cmd/account-egress/runtime.go:183-190 | probing in any order until a failure succeeds exactly when no port is dead |
| `EgressRuntime.Runtime.Configure` | cmd/account-egress/runtime.go:179-205 | one attempt leaves the controller with the old or the new configuration as its end says, probes just the listeners not skipped, and reports success if and only if the configuration was marshalled and applied and all of those answered |
| `EgressRuntime.Runtime.Install` | cmd/account-egress/runtime.go:133-235 | install on shared records is the machine's install step, of which `EgressMachine.InstalledExactly` and `RefusedExactly` say when and how it succeeds and fails: same verdict, same state, links kept, tunnels untouched |
| `EgressRuntime.Runtime.Prune` | cmd/account-egress/runtime.go:250-274 | prune is the machine's prune step and drops no record a tunnel or route points to |
| `EgressRuntime.Runtime.OpenTunnel` | cmd/account-egress/runtime.go:400-410 | returns and holds the route's own record exactly when ready, known and the token fits |
| `EgressRuntime.Runtime.OpenProbe` | cmd/account-egress/runtime.go:482-493 | holds the node's record exactly when ready, applied and desired |
| `EgressRuntime.Runtime.Close` | cmd/account-egress/runtime.go:410 | the deferred decrement, whenever it comes, is the machine's close step on the record that was taken |
| `Credentials.JoinedWhole` | internal/antigravity/credentials.go:250-265 | storing ceil(size/6000) parts and joining them gives back the data |
| `Credentials.HeldIsRestored` | internal/antigravity/credentials.go:239-280 | what a complete generation holds is what Restore returns, with its generation and digest as baseline |
| `Credentials.RestoredIsHeld` | internal/antigravity/credentials.go:239-280 | Restore returns a credential only if all parts are there with the right sizes and digest |
| `Credentials.SaveIsAtomic` | internal/antigravity/credentials.go:282-357 | wherever a save fails or stops, the keyring holds the new credential if the manifest store took effect and otherwise exactly what it held |
| `Credentials.CommittedHolds` | internal/antigravity/credentials.go:282-357 | a save that reports success has stored the data whole under the new generation, left no part of the earlier one, and kept the new generation and digest as baseline |
| `Credentials.SaveReports` | internal/antigravity/credentials.go:282-357 | a save reports success if and only if the file is valid, the keyring readable, the session may write and every command ends well; it reports the first failure or stop otherwise, and a save that may not write changes nothing |
| `Credentials.FailedSaveLeavesNothing` | internal/antigravity/credentials.go:331-343 | a save that fails while storing parts, and clears up, leaves every record as it was |
| `CredentialSessions.RestoreReturnsLastCommit` | internal/antigravity/credentials.go:239-357 | after any interleaving of sessions Restore returns exactly the bytes of the last committed save, and never finds a damaged credential |
| `CredentialSessions.NoLostUpdate` | internal/antigravity/credentials.go:302-324 | every commit from a baseline directly follows the commit that baseline names and changes its bytes, and no two replace the same one |
| `CredentialSessions.StaleSaveIsSilent` | internal/antigravity/credentials.go:314-324 | a save from an unchanged or outdated baseline leaves every record as it is |
| `CredentialStore.KeyringCredentials.Restore` | internal/antigravity/credentials.go:239-280 | the part loop returns the contents of the records, or reports the lookup that failed |
| `CredentialStore.KeyringCredentials.Save` | internal/antigravity/credentials.go:282-357 | the store loop, commit, clears and baseline write have exactly the specified effect and report for every way the commands can end; `Credentials.SaveReports` and `CommittedHolds` say what that report means |
| `AccountMachine.SlotsAreExact` | internal/antigravity/accounts.go:389-477 | after any interleaving of any number of requests every counter is the number of requests holding it, with no zero entries, and distinct conversations plus unattributed requests stay within the account's limit |
| `AccountMachine.RequestsBehave` | internal/antigravity/accounts.go:308-387 | in every interleaving each request holds at most one reservation, takes and gives back no account's slot twice, tries no more accounts than there are, has all its output from the account recorded last, and once returned holds exactly the slot it handed over |
| `AccountProgram.ReplayKept` | internal/antigravity/accounts.go:308-387 | the same of the log of one request, for any sequence of its acts, whatever happens in between |
| `AccountProgram.RetriedExactly` | internal/antigravity/accounts.go:376-386 | an attempt is followed by another if and only if nothing was sent, the request is neither cancelled nor direct, and it failed with 429, 401, 403 or 503; after any other end no account is taken and nothing sent again |
| `AccountSlots.ReserveBounded` | internal/antigravity/accounts.go:39-53 | an admitted reservation keeps the slots within the limit and any larger bound |
| `AccountSlots.ReleaseBounded` | internal/antigravity/accounts.go:55-64 | a release never adds a slot |
| `AccountSlots.ReserveRepresents` | internal/antigravity/accounts.go:43-53 | counters that are exact stay exact when one reservation is added |
| `AccountSlots.ReleaseRepresents` | internal/antigravity/accounts.go:55-64 | and when one is given back |
| `AccountManager.ManagedAccount.TryReserve` | internal/antigravity/accounts.go:466-475 | the last critical section reserves exactly when the account can still be acquired |
| `AccountManager.ManagedAccount.Release` | internal/antigravity/accounts.go:55-64 | the counters after a release are those of the specification |
| `AccountSlots.ReleaseUndoes` | internal/antigravity/accounts.go:43-64 | a release undoes its reservation exactly, the map entry included |
| `AccountManager.Reservation.Call` | internal/antigravity/accounts.go:337-341 | the wrapped release acts on the first call and does nothing afterwards |
| `AccountManager.RunDeferred` | internal/antigravity/accounts.go:342-348 | the deferred releases give back the latest reservation and repeat no earlier one |
| `AccountManager.OtherRequests.Act` | internal/antigravity/accounts.go:349-375 | whatever other requests do meanwhile, the counters are what they hold and what this request holds, and slots within a limit that all moves respect stay within it |
| `AccountManager.Acquire` | internal/antigravity/accounts.go:466-476 | a reservation is returned if and only if the pick is chosen and fit, known, not tried before and has a positive limit, and at that moment the conversation has a slot on the account or fewer slots are in use than the limit; it is counted exactly, and slots within a limit the pick respects stay within it |
| `AccountManager.RunStream` | internal/antigravity/accounts.go:308-387 | with other requests acting between any two of its critical sections the call runs the request's program to its end: no account twice, at most as many attempts as accounts, each attempt but the last one that leads to another, output of the last attempt only, which failure is reported, and on return the counters are what the others hold, and one slot on the account recorded last if it is handed over, all within any limit that picks and moves respect; with no other request acting, it gives up only if the next pick cannot be taken |
| `Metering.FlightsAreExact` | internal/limit/limiter.go:138-236 | after any interleaving the key, user and global concurrency counts are those of the live requests, both maps add up to the global count, and all limits hold |
| `Metering.NeverUnderflows` | internal/limit/limiter.go:222-236 | whenever a live request is released or rolled back all three counts are at least one |
| `Rates.LimitHolds` | internal/limit/limiter.go:138-207 | after any interleaving a window that is not returned to, or that no more requests ask for than the limit, has no more bookings than the limit; if not returned to, its counter is exact |
| `Rates.LimitHoldsExactly` | internal/limit/limiter.go:138-187 | for every limit and every sequence of windows of new requests, bookings stay within the limit if and only if the window is never returned to or no more requests ask for it than the limit |
| `Rates.OneEachExactly` | internal/limit/limiter.go:138-187 | under a limit of one, one booking in every window if and only if no window is returned to |
| `Rates.RatesAreExact` | internal/limit/limiter.go:138-207 | in particular, with windows in order every counter is exact and every window within the limit |
| `Rates.RefusedExactly` | internal/limit/limiter.go:138-175 | after any interleaving in which the window is not returned to, a request is refused if and only if as many requests of its key or user as the limit allows are booked in the window or in flight, or as many in all; the refusal names the first such limit in order |
| `Rates.BackwardsIsFine` | internal/limit/limiter.go:177-187 | windows that only go back never pass the limit |
| `Rates.LateRequestPassesLimit` | internal/limit/limiter.go:102-103 | for any two windows, a request returning to the first after the second passes a limit of one there |
| `Metering.ActivateTurns` | internal/limit/limiter.go:177-187 | the counter of the window asked for keeps its count or starts at zero, and no other id is touched |
| `Limiter.Limiter.ReserveLocal` | internal/limit/limiter.go:138-175 | all checks in order and all increments, or none but the turn of the window |
| `Limiter.Limiter.RollbackLocal` | internal/limit/limiter.go:191-207 | takes back the window counts of its own window and the concurrency counts |
| `Limiter.Limiter.ReleaseConcurrent` | internal/limit/limiter.go:222-236 | the three counts go down, entries at one are removed |
| `Limiter.Limiter.Acquire` | internal/limit/limiter.go:94-136 | with other requests in between, an acquisition is the machine's reserve step and then its admission or, if the day refuses or the store fails, its rollback; the day is counted exactly if admitted, and an admitted request gets a release of its own |
| `Limiter.DailyExactly` | internal/limit/limiter.go:238-253 | the day admits a request if and only if neither its key nor its user is at a limit of its own; then the count of each that is limited goes up by one and no other changes |
| `Limiter.DailyNames` | internal/limit/limiter.go:238-253 | a refusal names the key before the user, with its limit and its count |
| `Limiter.ReleaseHandle.Call` | internal/limit/limiter.go:209-220 | the release counts down on the first call and does nothing afterwards |
| `Limiter.Traffic.Step` | internal/limit/limiter.go:138-236 | each critical section of the limiter is the machine's step for that request |
| `Limiter.RollbackUndoesReserve` | internal/limit/limiter.go:138-207 | with nothing in between a rollback restores every count, only the windows are turned |
| `Limiter.MemoryDailyStore.Validate` | internal/limit/daily.go:163-180 | the loop with its seen set reports the first fault in order |
| `Limiter.MemoryDailyStore.ReserveRequests` | internal/limit/daily.go:79-119 | the two passes check everything before anything is counted |
| `DailyQuota.ValidateExactly` | internal/limit/daily.go:163-180 | accepted exactly if all entries are valid and no two count the same thing |
| `DailyQuota.AllOrNothing` | internal/limit/daily.go:79-119 | on success each counter named goes up by one and no other changes; otherwise none changes |
| `DailyQuota.ReservedExactly` | internal/limit/daily.go:98-111 | a call succeeds if and only if its entries are sound and each is below its limit and below the 64-bit maximum |
| `DailyQuota.RefusalNamesFirst` | internal/limit/daily.go:98-111 | a refused call names the first entry that cannot be counted, over quota or at the 64-bit maximum |
| `DailyQuota.UsageIsSuccesses` | internal/limit/daily.go:79-119 | over any calls usage equals the successful calls naming it, fits 64 bits, and never passes a fixed limit |
| `Decimals.ParseAcceptsExactly` | internal/billing/amount.go:49-90 | which strings are accepted, in terms of shape, scale, integer digits, sign and zero |
| `Decimals.ParsePreservesValue` | internal/billing/amount.go:49-90 | the canonical string has the value of the input |
| `Decimals.ParseEqualExactly` | internal/billing/amount.go:49-90 | equal results if and only if equal values |
| `Decimals.ParseIdempotent` | internal/billing/amount.go:49-90 | parsing a canonical string gives it back |
| `Decimals.CanonicalUnique` | internal/billing/amount.go:49-90 | a value has one canonical string |
| `Rounding.RoundNearest` | internal/billing/amount.go:206-222 | within half a unit of the value, and away from zero at exactly half |
| `Rounding.NearestUnique` | internal/billing/amount.go:206-222 | only one integer is nearest in that sense |
| `Rounding.RoundMonotone` | internal/billing/amount.go:206-222 | a larger value never rounds to a smaller one |
| `Rounding.RoundReducesFreely` | internal/billing/amount.go:206-222 | rounding depends on the value only, not on the fraction that represents it |
| `Rounding.PrintExact` | internal/billing/amount.go:224-235 | the printed string has exactly the value q/10^scale, with its sign |
| `Rounding.RoundAmountExactly` | internal/billing/amount.go:198-204 | fails exactly when the rounded magnitude needs more than 18 integer digits; otherwise the result re-parses to the rounded value |
| `Rounding.RoundAmountMonotone` | internal/billing/amount.go:198-204 | a smaller non-negative value is in range when a larger one is, and not charged more |
| `Costs.ParsePrices` | internal/billing/amount.go:116-139 | succeeds exactly if every price parses, with their exact values |
| `Costs.MultiplyCostAndRound` | internal/billing/amount.go:189-196 | one exact division and multiplication, one rounding |
| `Costs.CalculateCostWithMultiplier` | internal/billing/amount.go:116-139 | equals the closed form over integer units, errors included |
| `Costs.CalculateCostV2WithMultiplier` | internal/billing/amount.go:151-187 | equals the closed form over integer units, errors included |
| `Costs.CalculateCostV2TTLWithMultiplier` | internal/billing/amount.go:241-282 | equals the closed form over integer units, errors included |
| `Costs.SettleIsNearest` | internal/billing/amount.go:189-222 | a charge is the nearest representable amount to the exact product, or that amount is out of range |
| `Costs.BasicPerToken` | internal/billing/amount.go:116-139 | nothing costs nothing, and one more ordinary, cached or output token adds exactly its own price |
| `Costs.CategoryPerToken` | internal/billing/amount.go:151-187 | the same, and a cache write adds its own price when separate and the input price when included |
| `Costs.TtlPerToken` | internal/billing/amount.go:241-282 | the same, and a cache write adds the price of its lifetime, or the dearer of the two where the split is unknown |
| `Costs.CategoryChargeMonotone` | internal/billing/amount.go:151-187 | under prices at least as high in every component the charge is at least as high |
| `Costs.TtlChargeMonotone` | internal/billing/amount.go:241-282 | the same with cache writes split by lifetime |
| `Costs.MissingSplitIsConservative` | internal/billing/amount.go:241-282 | the charge without a lifetime split is at least that for any split of the same total |
| `DecimalOrder.SortKeyOrder` | internal/config/pricing.go:529-544 | padded strings compare as the numbers do, for a space or a zero as left pad |
| `DecimalOrder.MaxDecimalIsMaximum` | internal/config/pricing.go:529-544 | the result is the true maximum as a canonical string, whatever the pad |
| `Pricing.ValidateV2ModelPricing` | internal/config/pricing.go:235-307 | accepts exactly the valid rules |
| `Pricing.ComponentMaximum` | internal/config/pricing.go:498-527 | the loop computes the componentwise maximum |
| `Pricing.ComponentMaxIsMaximum` | internal/config/pricing.go:498-527 | every component is the maximum over the published prices and is reached by one of them |
| `Pricing.MaximumUnique` | internal/config/pricing.go:475-527 | that maximum is one string per component, so the order of iteration does not matter |
| `Pricing.MaxPublishedForContext` | internal/config/pricing.go:475-483 | the maximum over the prices published for the context, present exactly if there are any |
| `Pricing.MaxPublished` | internal/config/pricing.go:485-496 | the maximum over all published prices, always present for a valid rule |
| `Pricing.FallBack` | internal/config/pricing.go:437-466 | which published prices the fallback price is the maximum of |
| `Pricing.Select` | internal/config/pricing.go:398-466 | on a valid rule succeeds exactly for a non-negative input count, with the exact price where published and otherwise the fallback |
| `Pricing.TierExactly` | internal/config/pricing.go:361-372 | a value names a tier if and only if, but for case and surrounding space, it is one of that tier's spellings |
| `Pricing.SelectsSpelledTier` | internal/config/pricing.go:398-436 | whatever its spelling, the price published for the tier and the size of the request is the one selected, with no fallback reason |
| `Pricing.FallbackIsConservative` | internal/config/pricing.go:398-527 | the charge under a selected price is never below the charge under any published price it stands in for |
| `AnthropicUsage.AdvanceIsCumulative` | internal/proxy/anthropic.go:121-175 | an accepted snapshot replaces each count it reports, keeps the others, and stays sound |
| `AnthropicUsage.AdvanceRefusesExactly` | internal/proxy/anthropic.go:121-175 | for well-formed fields, refusal if and only if the total overflows or the lifetime split does not add up |
| `AnthropicUsage.AdvanceExactly` | internal/proxy/anthropic.go:121-175 | a snapshot is accepted if and only if it is an object, its counts are in range, its totals fit 64 bits, and its lifetime split adds up to cache writes that were reported |
| `AnthropicUsage.ForwardStream` | internal/proxy/anthropic.go:260-358 | on every stream exactly the frames up to the first that ends it or cannot follow are consumed; ordinary input, cache reads, cache writes and output are each the count of the last consumed frame that reports it, the lifetime split that of the last that settles it, on failure too; and it succeeds if and only if the last frame consumed is a message_stop that was written |
| `AnthropicUsage.UsageIsTold` | internal/proxy/anthropic.go:260-358 | the same of the fold, with which frames can follow which said on the frames |
| `AnthropicUsage.LatestIsLast` | internal/proxy/anthropic.go:121-175 | the latest count of a category is that of a frame that reports it with none reporting it after, or zero if none does |
| `AnthropicUsage.LastDeltaCounts` | internal/proxy/anthropic.go:300-323 | the output charged for a completed stream is that of its last message_delta |
| `AnthropicUsage.StreamUsageIsChargeable` | internal/proxy/anthropic.go:121-323 | for every stream the usage keeps cached and written within input, an exact or empty split, and 64 bits |
| `AnthropicUsage.ChargeNeverRefusesCounts` | internal/billing/amount.go:241-257 | for every stream the cost function never rejects its token counts |
| `AnthropicUsage.CompleteShape` | internal/proxy/anthropic.go:278-323 | a completed stream has one start before a delta before the stop |
| `AnthropicUsage.OutputNeverRegresses` | internal/proxy/anthropic.go:121-175 | output tokens never go down over a stream |
| `GeminiUsage.NormalizeAcceptsExactly` | internal/antigravity/protocol.go:63-76 | accepted exactly if the report is consistent and its grand total fits 64 bits |
| `GeminiUsage.ValidateAcceptsExactly` | internal/proxy/gemini.go:322-331 | the gateway accepts metadata of any sender if and only if it is consistent and its total fits 64 bits, and takes it as it is |
| `GeminiUsage.UsageRoundTrip` | internal/proxy/gemini.go:322-331 | what the bridge accepts and encodes the gateway accepts and decodes to the same counts |
| `GeminiContents.AcceptedExactly` | internal/antigravity/gemini.go:288-392 | accepted if and only if responses and earlier calls correspond one to one by id or name and no call id repeats |
| `GeminiContents.PartMeans` | internal/antigravity/gemini.go:305-358 | a part is text, a call or a response if and only if it has that one kind of content, well formed, in a role that may have it, signed only if it is a call |
| `GeminiContents.AcceptedPairs` | internal/antigravity/gemini.go:288-392 | an accepted history has such a one-to-one correspondence, with no call unanswered |
| `GeminiContents.PairedIsAccepted` | internal/antigravity/gemini.go:288-392 | a history with one is accepted |
| `GeminiContents.DecodeContents` | internal/antigravity/gemini.go:288-392 | the loops over contents and parts accept exactly the acceptable histories |
| `CliProtocol.ParseStreamUpdates` | internal/antigravity/protocol.go:87-196 | the scanning loop computes the automaton: updates, result and failure, the limits on a line and on the stream included |
| `CliProtocol.ParsedExactly` | internal/antigravity/protocol.go:87-196 | of any lines exactly those before the first the protocol does not allow there, or whose update is not taken, are read; that line decides the failure, and with none a result line at the end is the result; the updates are those of the lines read |
| `CliProtocol.AcceptResult` | internal/antigravity/protocol.go:156-192 | the checks on a result line, in order |
| `CliProtocol.UpdatesSpellText` | internal/antigravity/protocol.go:147-175 | after any lines the updates spell the text so far, within the limit, and a result extends it |
| `CliProtocol.SuccessEndsWithResult` | internal/antigravity/protocol.go:155-196 | success means the only result is the last line, with its usage normalized |
| `ClientCall.WithheldWhilePossible` | internal/antigravity/gemini_stream.go:21-36 | every prefix of a text that decodes as a call, plain or fenced, is withheld |
| `ClientCall.WithheldExactly` | internal/antigravity/gemini_stream.go:21-36 | text is withheld if and only if some continuation of it opens an object where a call is looked for, or it is in a fence whose first line ends in a carriage return, which none does |
| `ClientCall.FencedBody` | internal/antigravity/server.go:350-358 | text in a fence, tagged or not, is decoded without it |
| `ClientCall.BodyExactly` | internal/antigravity/server.go:350-358 | any other text is decoded as it is, but for the space around it |
| `ClientCall.WrittenIsDecoded` | internal/antigravity/server.go:350-358 | a text written bare or in a fence, with any space around, is decoded as the text itself |
| `Bridge.ServeGeminiStream` | internal/antigravity/gemini_stream.go:118-203 | the event loop computes the fold over updates, ticks and completion, of which `Bridge.SendsWhatIsDue` says what each input sends |
| `Bridge.SendsWhatIsDue` | internal/antigravity/gemini_stream.go:118-203 | after any inputs each is answered at once with the events due for it and no others: an update with all text so far as soon as some prefix of the updates cannot become a call, a tick with a heartbeat once anything was sent, the result with one terminal event that is the call or the whole text, or an error if anything was sent; and the loop goes on until a write fails, withheld text is too long, or the result is in |
| `Bridge.RunIsFaithful` | internal/antigravity/gemini_stream.go:118-160 | while a run lasts the wire spells all updates once prose is recognised, and nothing before |
| `Bridge.CallIsNeverStreamed` | internal/antigravity/gemini_stream.go:134-178 | no text of a call is streamed, so the failure for prose turning into a call cannot occur |
| `Bridge.LimitNeverCuts` | internal/antigravity/gemini_stream.go:134-139 | the bridge's own limit never cuts a stream the parser let through |
| `Sse.ReadGeminiEvents` | internal/proxy/gemini_stream.go:196-236 | the line loop dispatches the events of the wire text and tells whether it ended cleanly |
| `Sse.FramesRoundTrip` | internal/antigravity/gemini_stream.go:113 | framed payloads are read back as they were |
| `Sse.BlockIsJoined` | internal/proxy/gemini_stream.go:202-228 | several data lines make one event of as many lines |
| `Sse.ReturnIsDropped` | internal/proxy/gemini_stream.go:198-203 | a carriage return before a line end changes nothing |
| `Sse.ForeignFieldFails` | internal/proxy/gemini_stream.go:217-222 | any other field spoils the stream, whatever comes before and after |
| `Sse.TruncatedFrameFails` | internal/proxy/gemini_stream.go:229-235 | a stream cut inside its last frame does not end cleanly |
| `Gateway.ForwardGeminiStream` | internal/proxy/gemini_stream.go:22-194 | the callbacks and the ending compute the fold: what is sent, and the usage on success |
| `Gateway.DeliveredExactly` | internal/proxy/gemini_stream.go:22-194 | a stream is delivered if and only if it ends cleanly, is progress of one response within the size limit and then one terminal event of it with acceptable parts and usage that extend the text, and no write fails; then the client has each progress text and the rest, and nothing else |
| `Gateway.TerminalExactlyOnSuccess` | internal/proxy/gemini_stream.go:79-193 | for any events the client sees a terminal object exactly on success; it is the only one, the last thing sent, and stands for the last event of a cleanly ended stream |
| `Gateway.FailureIsAnnounced` | internal/proxy/gemini_stream.go:49-77 | after any events and any end without success the client has seen progress and at most one error after it; and if no write failed and anything was sent, the error is there |
| `Gateway.SuccessSpellsTerminal` | internal/proxy/gemini_stream.go:164-187 | on success everything sent spells the terminal object's own text |
| `EndToEnd.AnswerArrives` | internal/proxy/gemini_stream.go:22-236 | on the wire as framed and scanned, for every chunking and any ticks, the client succeeds if and only if the answer is deliverable and its frames fit the size limit; then its text is the CLI's answer exactly, a call arrives whole and alone, and the usage is the reported one |
| `EndToEnd.AnswerForwarded` | internal/proxy/gemini_stream.go:22-194 | event by event, an answer is forwarded if and only if it is deliverable, and then completely |
| `LongAnswer.ToldTooFinely` | internal/proxy/gemini_stream.go:197-234 | every answer of 115705 to 162000 letters told one by one is parsed, completed and deliverable, and still lost to the size limit |
| `EndToEnd.BridgeCompletes` | internal/antigravity/gemini_stream.go:165-203 | with no write failing the bridge ends with exactly one terminal event unless the call is malformed |
| `EndToEnd.CallIsSent` | internal/antigravity/gemini_stream.go:165-203 | a response that spells a call, bare or in a fence, ends with the terminal event that carries exactly that call, and none of it is streamed |
| `EndToEnd.IdsAgreeExceptC1` | internal/antigravity/gemini.go:176-186 | of the call ids the bridge accepts the gateway refuses exactly those with C1 control characters |
| `EndToEnd.C1IdIsRefused` | internal/proxy/gemini.go:312-315 | such an id exists |
| `EndToEnd.FramingIsTransparent` | internal/proxy/gemini_stream.go:196-236 | sending the events as server-sent events changes nothing up to the size limit, and past it no terminal object reaches the client |

## Left out

- Sse.ReadGeminiEvents: for a body over the size limit the model lists the events of the whole body, though the reader may stop earlier; the end is unclean either way. A body of exactly the limit that is one unterminated comment line is clean in the model and too long for the scanner.
- Pricing.Select: the fallback reasons are a set; joining them into a sorted string is not modelled.
- AccountManager.Acquire: the order in which groups, and accounts already serving the conversation, are offered to the selector is not modelled; its answer is an argument, checked again before the slot is taken.
- AccountManager.RunStream: a runner that panics is a step of AccountMachine only; the cooldown, quota and readiness marks it leaves on an account are not modelled; the selector's view of them is an argument.
- EgressRuntime.Runtime.OpenProbe: the pool of four probe slots and the TLS exchange are not modelled.
- EgressRuntime.ValidateSnapshot: the checks on a node's server, port, cipher and password are one flag of the node.
- CredentialSessions.NoLostUpdate: a restore that fails ends its session, as internal/antigravity/runner.go:175-177 does; the keyring's search and locking checks are part of whether a command succeeds.
- Limiter.Limiter.Acquire: a durable store that reports failure after its transaction has committed is not modelled.
- CliProtocol.ParseStreamUpdates: a carriage return the scanner drops from a line is not counted towards the line limit.
- Gateway.ForwardGeminiStream: HTTP headers, timings, byte counts, the model name and the error body are not modelled; an event that does not decode is a foreign event.
- The status report of the egress runtime, MultiplyToAmount, DeleteBefore, Usage and Snapshot: they would only add easy members.
- SQL stores, HTTP handlers, authentication, WebAuthn, OIDC and cryptography: plumbing and library calls.
- Process spawning, file systems, D-Bus and TLS: only how they end is modelled.
- Wall-clock formatting, day strings and time zones: instants, windows and days are integers.
- Configuration parsing, model catalogs, model scoring, single-use token stores, scripts and deployment files.
