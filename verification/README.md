# AnchorBell verification

A Dafny model of the deterministic core of the AnchorBell trading engine, with proofs about
whole runs, every input and every interleaving. Each module models one component; a value-level
specification comes first, the class or method that works in place is proved against it, and the
promises of the component are lemmas about the specification.

`dafny verify dfyconfig.toml` checks the project.

| files | component |
|---|---|
| `Topology`, `Health`, `Readiness`, `Capabilities`, `RegistryRuns`, `SystemRegistry` | the system registry: dependency graph, health table, readiness, capabilities, policy replacement |
| `OrderBook`, `BookProgress`, `BookHistory`, `BookCrossing`, `LocalOrderBook` | the sequence-validated order book: what it accepts on raw ids and levels, against its own history, and when it can be left crossed |
| `DepthResync`, `DepthViews`, `DepthLoop` | the depth-event and depth-resync branches of the batch event loop, and the per-symbol machine they refine |
| `EvidenceRecords`, `Evidence`, `EvidenceAccumulator` | evidence records, bounded evidence queues, multi-horizon flushing, running sums |
| `Reconciliation` | order reconciliation and its convergence |
| `FundingDecision` | the funding-aware entry decision in saturating fixed point |
| `DecimalTicks` | decimal parsers and printers of the live and testnet runners |
| `SessionCheckpoint` | session checkpoints and their order-sensitive saturating sums |
| `RequestCoordinator` | the request rate coordinator |
| `GateStatistics`, `GateFigures`, `CandidateRanking`, `Ranks` | candidate gates over out-of-sample folds, the promotion policy, and the ranking and selection of candidates |
| `ClusterBootstrap`, `Survival` | the clustered bootstrap and the drawdown of an equity path |
| `Retention` | the dry run of archive retention |
| `Machine`, `SaturatedMeans`, `Text`, `Outcomes` | fixed-width arithmetic, means over saturating counters, Rust strings and sorted keys, result types |

Conventions: `i64` and `u64` are range-limited integers with every saturating, wrapping and truncating
operator written out; `BTreeMap` is a finite map iterated through `Text.SortedKeys`; metrics that the code
requires to be finite are reals; `Instant` is a natural number; clocks, network answers and the
acceptance of a snapshot by a ledger are parameters of the step that uses them.

## Findings

Where the code does less than a first reading suggests, the exact condition is proved.

- Replay and live application agree if and only if the snapshot id is not the last `u64` and every
  update before the first bridge is covered by the snapshot (`OrderBook.ReplayMatchesLive`,
  `OrderBook.LiveMatchesReplay`, counterexamples in `OrderBook.ReplayAndLiveCanDisagree`).
- Two errors that a caller may ignore leave a book valid and crossed: a bad level of a live update, whose
  earlier levels stay written, and a crossed bridge, whose book stays valid although all its levels are good
  (`BookCrossing.TwoBrokenBooks`). Which updates can do this is read off their ids and levels: a live update if
  and only if it is not harmless (`BookCrossing.DiffBreaksExactly`), a bridge under a wider condition
  (`BookCrossing.BridgeBreaksExactly`). Runs of harmless operations never do, whatever errors they ignore
  (`BookCrossing.HarmlessRunsBreakNothing`).
- A successful resync consumes its whole buffer, so the replay queue of the event loop stays empty in
  every run (`DepthResync.EveryInterleavingIsOk`). After an install the shared book stands at
  the snapshot that the ledgers are given if and only if nothing was replayed or the id is the last `u64`;
  otherwise it is ahead, and what was replayed is never forwarded
  (`DepthResync.InstallsStandAtTheSnapshotOrAhead`, reached in `DepthResync.ReplayedInstallsHappen`).
- The gate on the share of positive out-of-sample folds can never be the one that rejects a candidate
  (`GateStatistics.PositiveShareNeverFails`); between two promoted candidates neither this share nor eligibility nor
  stage decides anything (`CandidateRanking.PromotedCandidatesCompare`).
- The risk-adjusted score divides by the drawdown whatever the sign of the lower quartile. For a gain less drawdown
  ranks higher; for a loss, which a policy may tolerate, the deeper drawdown does
  (`CandidateRanking.DrawdownCountsByTheSign`, reached in `CandidateRanking.DeeperLoserIsSelected`).
- Halving an odd spread rounds down, so an admitted entry can meet the exact threshold without exceeding
  it; for a given spread this is impossible exactly when the spread is even or too large to be covered at all
  (`FundingDecision.StrictExactlyForEvenSpreads`). A higher fee never admits an entry except from a negative fee
  (`FundingDecision.DearerFeesNeverAdmit`).
- Beyond eighteen places the printers differ, and text no longer reads back for large values
  (`DecimalTicks.LiveRoundTrip`, `DecimalTicks.CappedRoundTrip`, `DecimalTicks.PrintersAgree`).
- The recorded improvement of an evidence record is exact unless a positive residual falls, or a negative one
  rises, by more than an `i64` holds (`EvidenceRecords.ImprovementIsExact`). For points born from readings this takes a
  residual within ten thousand basis points of the end of the range, at the start or at the end of the horizon
  (`Accumulator.ReadingsOverflowAtTheExtremes`); both cases are reached between two readings
  (`Accumulator.ImprovementsCanOverflow`).
- A mean over a saturating counter stays within the bounds of its values for every sum they can have if and only
  if the counter has not missed too many of them (`SaturatedMeans.MeansStayWithinExactly`). It misses none up to
  the last `u64`, so it takes more values than that to leave the bounds (`Evidence.MeanStaysInRange`,
  `ClusterBootstrap.SummaryWithinTheRecords`).
- The scope check on consumed capabilities is exactly what readiness needs
  (`Capabilities.ScopeIsExactlyWhatReadinessNeeds`), and a policy replacement does not repeat it. An accepted
  replacement can leave a system ready without a capability it consumes
  (`RegistryRuns.ReplacementsCanLoseCapabilities`); none is lost if and only if the scopes hold in the catalog that
  the replacement would leave (`RegistryRuns.ReplacementHonoursCapabilities`).
- Dearer costs never admit an entry (`FundingDecision.DearerCostsNeverAdmit`), but a larger figure is not always a
  dearer cost: a pico figure above zero replaces the one in whole basis points. Raising it from zero admits some
  refused entry if and only if it stays below what it replaces and can be covered at all
  (`FundingDecision.FinerFiguresAdmitExactly`).

## Model

| member | source | states |
|---|---|---|
| Topology.ReachesIsTransitive | engine/src/platform.rs:498-514 | Walks along dependencies compose, so a provider's closure lies inside its dependent's. |
| Topology.LayersNeverRise | engine/src/platform.rs:912-930 | With edges checked, every system reachable from one is registered and its layer does not come later among the eight layers in order. |
| Topology.SettleOne | engine/src/platform.rs:955-959 | A node whose dependencies are all in the finished, cycle-free part of the search can join it. |
| Topology.AllSettledIsAcyclic | engine/src/platform.rs:931-936 | When the search has finished every system, no walk of one or more dependencies returns to its start. |
| Registry.SystemRegistry.Visit | engine/src/platform.rs:939-961 | Terminates; fails only if a real cycle exists; on success restores the path set and leaves a finished part that is closed under dependencies and free of cycles. |
| Registry.SystemRegistry.ValidateEdges | engine/src/platform.rs:913-930 | Passes exactly when all dependencies are registered and on no higher layer; an error names an edge that breaks this. |
| Registry.SystemRegistry.ValidateTopology | engine/src/platform.rs:912-937 | Passes exactly when dependencies are registered, layers respected and the graph acyclic; each error names a defect that is really there. |
| Registry.SystemRegistry.DependencyClosure | engine/src/platform.rs:498-514 | The worklist ends and returns exactly the set reachable from the id; it fails exactly when something reachable is unregistered, and names it. |
| Readiness.NoBlockersMeans | engine/src/platform.rs:762-806 | On any graph, cyclic ones included, a visit reports nothing exactly when every reachable system is healthy, off the path and off every cycle. |
| Readiness.ReadyMeansClosureHealthy | engine/src/platform.rs:634-637 | In a valid topology a system is ready exactly when every system in its closure has a tradable and fresh report. |
| Readiness.ReadyInFigures | engine/src/platform.rs:634-637 | The same in figures: everything reachable is registered and its last report is ready, not stale, without failed invariants and no older than its positive interval. |
| Readiness.ReadinessIsInherited | engine/src/platform.rs:762-806 | If a system is ready, so is everything it depends on, directly or not. |
| Readiness.BlockersAreTraced | engine/src/platform.rs:768-796 | Every reported blocker spells out a real dependency walk and a true defect of the system at its end. |
| Registry.SystemRegistry.ReadinessVisit | engine/src/platform.rs:762-806 | The recursion with its pushed and popped path set ends, restores the set, and returns the specified blockers in order. |
| Registry.SystemRegistry.ReadinessAt | engine/src/platform.rs:634-637 | Ready if and only if the whole closure is healthy at that time. |
| Registry.SystemRegistry.ReadinessForCapability | engine/src/platform.rs:651-697 | Ready exactly when some registered provider is; selects the first ready provider in id order; otherwise lists the blockers of every provider. |
| Capabilities.WellNamedMeans | engine/src/platform.rs:437-441 | A capability or system name is accepted exactly if it is not empty and holds no whitespace at all. |
| Capabilities.ReadySystemFindsItsCapabilities | engine/src/platform.rs:444-459 | With admissible contracts, a ready system finds every capability it consumes ready, whatever the health table holds. |
| Capabilities.ScopeIsExactlyWhatReadinessNeeds | engine/src/platform.rs:444-459 | A ready system finds a capability ready in every health table and at every time if and only if a provider of it lies in its closure, which is what admission checks. |
| RegistryRuns.CapabilitiesFollowReadiness | engine/src/platform.rs:651-697 | The same after every run of health updates, explicit reports included. |
| Registry.AcceptedRegistriesHonourCapabilities | engine/src/platform.rs:373-470 | The same from the registrations on: any registry they are accepted into, any run, any consumed capability. |
| Registry.SystemRegistry.ValidateContract | engine/src/platform.rs:426-461 | Passes exactly when the contract matches its descriptor, names are well formed and every consumed capability has a provider in the closure; each error states a true defect. |
| Registry.SystemRegistry.ValidateRegistrationContracts | engine/src/platform.rs:420-470 | Passes exactly when all contracts are admissible and every system is bound to an implementation; each error states a true defect. |
| Registry.SystemRegistry.ValidateDescriptor | engine/src/platform.rs:525-544 | Accepts exactly well-named descriptors with a positive interval and no self or duplicate dependency; the error names the defect. |
| Registry.SystemRegistry.FromCatalog | engine/src/platform.rs:515-552 | Succeeds exactly for acceptable catalogs, with every descriptor filed under its id; errors name real defects. |
| Registry.SystemRegistry.Bind | engine/src/platform.rs:380-407 | Binds every contract and signal of the registrations in order, and fails exactly on a blank implementation. |
| Registry.SystemRegistry.Subscribe | engine/src/platform.rs:400-406 | One registration is added under each signal it listens to, and under no other. |
| Registry.SystemRegistry.SortSignals | engine/src/platform.rs:412-415 | Each signal ends up with exactly its systems, in id order and without repetition. |
| Registry.SystemRegistry.FromRegistered | engine/src/platform.rs:373-418 | Succeeds exactly for acceptable registrations with an empty health table; errors name a defect of the catalog, a binding or a contract. |
| Registry.SystemRegistry.ReportHealth | engine/src/platform.rs:808-826 | Files the report, or refuses it without change when the system is unknown or the time goes backwards; another system's report is never touched. |
| Registry.SystemRegistry.BeatOne | engine/src/platform.rs:830-850 | A heartbeat is refused for unknown systems and for times before the report; otherwise the report has that time, is not stale, and is ready for trading if and only if the system was not halted, draining and had no failed invariants; other systems and all telemetry stay as they are. |
| Registry.SystemRegistry.HeartbeatSignal | engine/src/platform.rs:852-866 | Beats the subscribed systems in order; the first error stops it and what was done before stays done; on success every subscriber has the time of the signal and is ready for trading unless it was halted, draining or had failed invariants. |
| Registry.SystemRegistry.MarkStaleAt | engine/src/platform.rs:614-631 | Expires exactly the reports that are not fresh, and returns exactly the systems whose report changed, in id order. |
| Registry.SystemRegistry.MarkSystem | engine/src/platform.rs:616-629 | One round of the expiry loop changes one report at most and says whether it did. |
| Registry.SystemRegistry.BootstrapHealth | engine/src/platform.rs:605-611 | Every system gets a report; reports already there are untouched. |
| Health.HeartbeatAchieves | engine/src/platform.rs:830-850 | Over the tables: a heartbeat succeeds exactly for a registered system whose report is not later; afterwards that report has its time, is not stale, has lost its expiry notes and no others, and can trade if and only if it was not halted, draining or failing invariants; a degraded system with failures stays degraded. |
| Health.HeartbeatAllAchieves | engine/src/platform.rs:852-866 | The same for every system of a signal whose beats all succeed, repeated ids included. |
| Health.HeartbeatUndoesExpiry | engine/src/platform.rs:834-838 | A heartbeat after an expiry files what it would have filed without it. |
| Health.BootstrapMeans | engine/src/platform.rs:605-611 | Bootstrap adds to the table exactly the registered systems without a report, with a stale report that cannot trade, and changes no other. |
| Health.MarkStaleMeaning | engine/src/platform.rs:614-631 | Expiry marks exactly the reports that are from the future, older than their interval or of a system without one; it sets the stale flag, notes it once, keeps everything else and touches no other report. |
| RegistryRuns.HealthRunContinues | engine/src/platform.rs:605-631 | Over any run of heartbeats, signals, expiry, bootstrap and reports on other systems each report keeps its system, its telemetry and any halt or drain, and its time never falls. |
| RegistryRuns.BeatsBringReadiness | engine/src/platform.rs:830-866 | After one beat at a moment of everything a system depends on, it is ready at that moment if and only if none of it was halted, draining or failing invariants. |
| RegistryRuns.FirstSignalBringsReadiness | engine/src/platform.rs:605-611 | After bootstrap nothing is ready; the first signal that reaches everything a system depends on makes it ready. |
| RegistryRuns.UnheardSystemsStayUnready | engine/src/platform.rs:605-631 | Over any run, a system without a report or with an expired one cannot trade, and nothing that depends on it is ready, until a beat, signal or report of its own; bootstrap, expiry and news of others do not help. |
| RegistryRuns.TimestampsNeverRegress | engine/src/platform.rs:815-823 | No run, with explicit reports among its steps, loses a report or moves its time backwards. |
| RegistryRuns.QuarantineIsPermanent | engine/src/platform.rs:830-850 | A halted, draining or invariant-broken system that nobody files a new report for never becomes tradable, and no system that depends on it becomes ready. |
| RegistryRuns.ExpiryIsSilent | engine/src/platform.rs:614-631 | Expiry at a time is idempotent and leaves the systems ready at that time unchanged. |
| Registry.SystemRegistry.ReplacePolicy | engine/src/platform.rs:874-910 | Accepts exactly replacements that keep the identity of a system outside the immutable core and leave a valid topology; a refusal restores the catalog and names its reason. |
| RegistryRuns.ReplacementsKeepTopology | engine/src/platform.rs:874-910 | Every catalog reachable by replacement requests has a valid topology and the same systems, and immutable ones never change. |
| RegistryRuns.ReplacementsHonourCapabilities | engine/src/platform.rs:874-910 | After any replacement requests every ready system finds what it consumes ready, in all health tables, if and only if each consumed capability still has a provider in scope. |
| RegistryRuns.ReplacementHonoursCapabilities | engine/src/platform.rs:874-910 | The same as a guard on one request, judged on the catalog it would leave. |
| RegistryRuns.ReplacementsCanLoseCapabilities | engine/src/platform.rs:874-910 | Admissible contracts and an accepted replacement after which a system can be ready while a capability it consumes is not. |
| OrderBook.ReplayMatchesLive | engine/src/orderbook.rs:85-112 | A successful replay consumes the whole buffer; the bare snapshot followed by the same updates gives the identical book if and only if nothing uncovered precedes the bridge and the id is not the last one. |
| OrderBook.LiveMatchesReplay | engine/src/orderbook.rs:162-203 | Live runs without error that apply something are exactly those that replay reproduces under that guard, with the same book. |
| OrderBook.ReplayAndLiveCanDisagree | engine/src/orderbook.rs:74-81 | Two concrete buffers on which replay succeeds and live application does not follow it. |
| OrderBook.CoveredUpdatesAreDuplicates | engine/src/orderbook.rs:169-171 | Updates that the snapshot covers leave the book as it is. |
| OrderBook.GapFreezesTheBook | engine/src/orderbook.rs:166-189 | After a sequence gap every book in any further series of updates, errors ignored, is the one before the gap, invalidated. |
| BookProgress.SnapshotVerdict | engine/src/orderbook.rs:139-160 | A snapshot is refused for its levels or for crossing exactly when they are invalid or meet, and otherwise the book holds what it mentions last at each price, stands at its id and awaits an update. |
| BookProgress.SnapshotIsRequired | engine/src/orderbook.rs:166-168 | Without a valid book every update is refused and changes nothing. |
| BookProgress.DiffVerdict | engine/src/orderbook.rs:162-203 | On a valid book, by raw ids and levels: duplicate exactly if the last id is covered; gap exactly if it is not and the update does not follow, by its predecessor or, right after a snapshot, by its first id; refused for levels or crossing exactly if it follows and they are at fault; otherwise applied, with every price holding what was mentioned last. |
| BookProgress.BridgeVerdict | engine/src/orderbook.rs:114-137 | The bridge of a replay, at the last `u64` id included: a gap with its ids exactly if it does not reach over the snapshot, which invalidates the book; otherwise refused for levels or crossing exactly if they are at fault, which leaves it valid, or applied. |
| BookProgress.LiveRunsApplyExactly | engine/src/orderbook.rs:162-203 | A live run applies every update if and only if each follows the one before it with valid levels that leave the sides, by what was mentioned last, uncrossed; it ends at the last id with the quantities mentioned last. |
| BookProgress.LiveRunsSucceedExactly | engine/src/orderbook.rs:162-203 | A run in which updates are offered twice or late succeeds if and only if what is new in it does, with the same book and that many applied. |
| BookProgress.LiveRunsBreakExactly | engine/src/orderbook.rs:177-189 | A run of new updates ends in a gap if and only if the first update at fault is one that does not follow, and so carries its ids. |
| BookProgress.ReplaysSucceedExactly | engine/src/orderbook.rs:85-112 | A replay succeeds if and only if the snapshot is sound and the updates from the first bridging one on, without what is not new, follow one another with valid uncrossed levels; its book is the snapshot followed by exactly those. |
| BookProgress.ReplaysBreakExactly | engine/src/orderbook.rs:85-112 | A replay of a sound snapshot ends in a gap if and only if nothing bridges it or the first update at fault is one that does not follow; without a bridge the error names the id after the snapshot and the first buffered update. |
| BookHistory.WritingKeepsLastMention | engine/src/orderbook.rs:241-255 | Writing any levels leaves at each price the last quantity mentioned before the first invalid level, zero if it was deleted. |
| BookHistory.NoteIsGood | engine/src/orderbook.rs:85-203 | One operation, refused or not, keeps the book equal to its history, its levels positive and a valid clean book uncrossed, and does to the book what the operation does. |
| BookHistory.BookMatchesItsHistory | engine/src/orderbook.rs:227-230 | After any run of snapshots, replays and updates, errors included, quantities are the last ones written since the snapshot; a valid book is uncrossed too, unless an update was refused for its levels. |
| BookHistory.IgnoredLevelErrorCrossesTheBook | engine/src/orderbook.rs:190-199 | A run of a snapshot and one live update with a bad level, whose error is ignored, ends with a valid crossed book. |
| BookHistory.AppliedAdvances | engine/src/orderbook.rs:169-202 | The last id strictly grows on every applied update and is moved by nothing else. |
| BookCrossing.WritingKeeps | engine/src/orderbook.rs:241-255 | A price is on a side after levels were written exactly if what they leave behind has it, or it was there and no level before the first invalid one mentions it. |
| BookCrossing.DiffBreaksExactly | engine/src/orderbook.rs:162-203 | A live update leaves no sound book valid and crossed if and only if it can never be accepted, has only valid levels, or leaves nothing that may cross; any other update breaks a snapshot of at most one level. |
| BookCrossing.BridgeBreaksExactly | engine/src/orderbook.rs:114-137 | A bridge leaves no sound book valid and crossed if and only if it can never be accepted or leaves nothing that may cross; valid levels do not help, and any other bridge breaks the replay of a snapshot of at most one level. |
| BookCrossing.OneSidedUpdatesCross | engine/src/orderbook.rs:190-199 | For updates that write one side only, something may cross exactly if the levels before the first invalid one leave anything positive. |
| BookCrossing.TwoBrokenBooks | engine/src/orderbook.rs:114-137 | The two failures in numbers: a bad level met live, and a bridge of good levels that crosses. |
| BookCrossing.HarmlessRunsBreakNothing | engine/src/orderbook.rs:85-203 | Over any run of snapshots, replays and updates that are harmless by their ids and levels the book is never valid and crossed, whatever errors are ignored. |
| BookCrossing.HarmlessRunsMatchTheirHistory | engine/src/orderbook.rs:85-203 | From the start such a run holds exactly what was written since its last snapshot and is uncrossed while valid, even after ignored errors. |
| LocalBook.ValidateCrossed | engine/src/orderbook.rs:257-270 | Comparing the two best prices decides whether any bid reaches any ask. |
| LocalBook.LocalOrderBook.LoadSnapshot | engine/src/orderbook.rs:139-160 | Replaces the book only if all levels are valid and no bid reaches an ask, and then holds exactly what the snapshot mentions last; otherwise it is untouched, with the error that applies. |
| LocalBook.LocalOrderBook.ApplyBridge | engine/src/orderbook.rs:114-137 | In place, the specified bridge step, partial writes on an error included. |
| LocalBook.LocalOrderBook.ApplyDiff | engine/src/orderbook.rs:162-203 | In place, partial writes and invalidation included: on a valid book an update is a duplicate exactly if its last id is covered, a gap exactly if it is new and does not follow by its raw ids, and applied exactly if it follows with valid levels that leave the book uncrossed. |
| LocalBook.LocalOrderBook.LoadSnapshotAndReplay | engine/src/orderbook.rs:85-112 | In place, snapshot, first bridge and the rest of the buffer; succeeds exactly if some update bridges a sound snapshot and what is new from there on follows one another with valid uncrossed levels, and then holds exactly those updates. |
| LocalBook.LocalOrderBook.BestBid | engine/src/orderbook.rs:213-218 | The greatest bid price with its quantity, or none if there are no bids. |
| LocalBook.LocalOrderBook.BestAsk | engine/src/orderbook.rs:220-225 | The least ask price with its quantity, or none if there are no asks. |
| LocalBook.LocalOrderBook.QuantityAt | engine/src/orderbook.rs:227-230 | The stored quantity at a price of either side, zero where there is none. |
| DepthResync.ReplayIsSound | engine/src/simulation_batch.rs:1226-1308 | A resync consumes the whole buffer into a valid uncrossed book, ends halted at a gap, or stops the loop. |
| DepthResync.EveryInterleavingIsOk | engine/src/simulation_batch.rs:1098-1335 | Over every interleaving a valid book has an empty buffer and no pending retry, no buffer exceeds its limit or holds foreign updates, nothing is re-injected, and the updates forwarded since an install form an unbroken chain of ids. |
| DepthResync.ForwardedUpdatesFormAChain | engine/src/simulation_batch.rs:1098-1160 | The same from the start of the loop, for every symbol. |
| DepthResync.ForwardedIsAccepted | engine/src/simulation_batch.rs:1120-1141 | Whatever is forwarded to the ledgers was accepted by a valid shared book, as new or as a duplicate. |
| DepthResync.ForwardedUpdatesFollowTheChain | engine/src/simulation_batch.rs:1120-1141 | In any run a forwarded update is new exactly if it continues the chain of everything forwarded since the last install, and a duplicate exactly if it does not reach beyond the end of that chain. |
| DepthResync.RequestsAreSpaced | engine/src/simulation_batch.rs:1142-1158 | Unanswered snapshot requests of one symbol are at least a minute apart. |
| DepthResync.InstallsStandAtTheSnapshotOrAhead | engine/src/simulation_batch.rs:1309-1325 | Every install gives the ledgers its snapshot id; the shared book stands there, awaiting an update, if and only if nothing was replayed, and is otherwise strictly ahead unless the id is the last one, with nothing queued to catch up. |
| DepthResync.ReplayedInstallsHappen | engine/src/simulation_batch.rs:1226-1325 | From the start of the loop, an event and a snapshot answer after which the book is two ids ahead of the ledgers and nothing has been forwarded. |
| DepthViews.EventIsReceived | engine/src/simulation_batch.rs:1098-1160 | An event does to its symbol what the view says: a live symbol forwards what is old or follows, halts with any other as the first arrival, and stops the loop for levels that are invalid or cross; a halted one puts it behind all earlier arrivals up to the limit, and asks for a snapshot exactly when no deadline lies ahead. |
| DepthViews.SnapshotIsAnswered | engine/src/simulation_batch.rs:1199-1335 | An answer does to its symbol what the view says: an install is the snapshot followed by exactly the arrivals that are new to it, and every failure keeps or clears the arrivals and moves the deadline as specified. |
| DepthViews.ContinuousEventsAreForwarded | engine/src/simulation_batch.rs:1120-1158 | In any run an event for a valid book is a duplicate exactly if the end of the forwarded chain covers it, forwarded as new exactly if it follows that end with levels that may be written, stops the loop exactly if it follows without them, and asks for a snapshot exactly otherwise; it is never held. |
| DepthViews.TheLoopIsItsViews | engine/src/simulation_batch.rs:1098-1335 | From the start, over every interleaving, the loop refines one small machine per symbol: book contents, arrivals in order, deadlines, and the reaction to whatever comes next are those of the views. |
| DepthLoop.EventLoop.HandleEvent | engine/src/simulation_batch.rs:1098-1159 | The depth branch in place is the specified event step; its reaction is the one the views of the symbols so far ask for, and the loop stays where its history leads. |
| DepthLoop.EventLoop.HandleSnapshot | engine/src/simulation_batch.rs:1199-1335 | The resync branch in place is the specified snapshot step, its three ways out of a gap included; its reaction is the one the views ask for, and the loop stays where its history leads. |
| DepthLoop.EventLoop.DrainBuffer | engine/src/simulation_batch.rs:1317-1324 | Dropping the consumed front one by one and draining the rest empties the buffer into the replay queue. |
| DepthLoop.EventLoop.KeepsTheProtocol | engine/src/simulation_batch.rs:1098-1335 | At any time between calls the fields of the loop satisfy the protocol invariant, each buffer is exactly what arrived for its symbol since it was last emptied, in order of arrival, and each symbol's forwarded updates form an unbroken chain that ends at its book. |
| DepthLoop.EventLoop.ReactsAsItShould | engine/src/simulation_batch.rs:1098-1335 | At any time between calls the fields are where the views of the symbols are, so the next step reacts as they say. |
| Evidence.PushBalances | engine/src/analytics_evidence.rs:182-193 | Enqueueing a point keeps the account of every point and horizon balanced. |
| Evidence.EmitBalances | engine/src/analytics_evidence.rs:243-263 | Emitting a due record and noting its horizon keeps the account balanced, so no pair is emitted twice or early. |
| Evidence.FlushBalances | engine/src/analytics_evidence.rs:229-272 | A whole flush emits exactly what it returns, each record stating what its point and these prices make of it, evicts nothing and keeps the account balanced. |
| Evidence.TrimBalances | engine/src/analytics_evidence.rs:194-196 | The cap evicts exactly the oldest points beyond it, none if the queue is short enough, and files what each had been served. |
| Evidence.TrimEvictsByCap | engine/src/analytics_evidence.rs:194-196 | Trimming keeps the rule that no point is evicted before as many later points of its symbol were queued as the cap allows. |
| Evidence.FewPointsLoseNothing | engine/src/analytics_evidence.rs:194-196 | Under that rule a symbol with no more points than the cap allows has lost none. |
| Evidence.FlushServesAll | engine/src/analytics_evidence.rs:230-265 | After a flush no queued point has a due horizon left. |
| Evidence.EvidenceIsConserved | engine/src/analytics_evidence.rs:178-272 | For each horizon the points ever accepted are exactly the samples, the queued points still lacking it and the points that the cap pushed out before they had served it, with no overlap. |
| Evidence.EachServedOnce | engine/src/analytics_evidence.rs:232-236 | The number of emissions for a horizon equals the number of distinct points served. |
| Evidence.FlushSums | engine/src/analytics_evidence.rs:273-280 | Gathering a flush apart and merging it keeps the stored sums those of all records ever returned. |
| Evidence.CountsAreNatural | engine/src/analytics_evidence.rs:244-247 | Improved never exceeds samples. |
| Evidence.MeanStaysInRange | engine/src/analytics_evidence.rs:339-345 | The truncating mean of a horizon lies within the range of everything recorded for it up to the last `u64` of records, and beyond whenever its saturating counter has not missed too much. |
| Evidence.EqualRecordsMean | engine/src/analytics_evidence.rs:339-345 | Equal records average to their value if and only if the counter has not missed too much. |
| EvidenceRecords.ImprovementIsExact | engine/src/analytics_evidence.rs:237-238 | The recorded improvement is the exact one if and only if a positive residual did not fall, nor a negative one rise, by more than an `i64` holds, judged from residual, price and anchor. |
| EvidenceRecords.BasisIsBounded | engine/src/analytics_evidence.rs:347-353 | A positive price never has a basis below minus ten thousand, so taking its absolute value is safe. |
| EvidenceRecords.RecordStates | engine/src/analytics_evidence.rs:237-242 | On the raw prices of point and flush each basis is the exact ratio truncated toward zero and held within an `i64`, the price-index change is that of price against index, and the index-anchor change that of index against anchor. |
| EvidenceRecords.BasisIsUnique | engine/src/analytics_evidence.rs:347-353 | There is only one such basis, so a record has no other values. |
| EvidenceRecords.NothingChanged | engine/src/analytics_evidence.rs:239-242 | An unchanged index gives no index-anchor change; an unchanged price with it gives no change at all. |
| EvidenceRecords.ChangesAreClose | engine/src/analytics_evidence.rs:239-242 | Below the clamp both changes are within two basis points of the exact movement of the ratios. |
| Accumulator.ReadingsOverflowAtTheExtremes | engine/src/analytics_evidence.rs:178-238 | For points born from readings the improvement is lost only if the residual falls from the top of the range below zero or rises from below zero to the top. |
| Accumulator.ImprovementsCanOverflow | engine/src/analytics_evidence.rs:237-238 | Two pairs of readings, the second taken when the horizon of the first is due, a crash and a surge, whose improvement is recorded negative although it is positive. |
| Accumulator.SortDedup | engine/src/analytics_evidence.rs:105-106 | The horizons in ascending order, without repetition. |
| Accumulator.EvidenceAccumulator.constructor | engine/src/analytics_evidence.rs:103-121 | Normalised horizons, a thousand milliseconds if none is given, and a balanced empty account. |
| Accumulator.EvidenceAccumulator.Observe | engine/src/analytics_evidence.rs:129-198 | Keeps the account balanced, every queue within its cap, and quotes, anchors and counters those of everything seen; returns nothing unless the symbol can be read; a reading with a residual beyond the threshold adds one point with the raw prices of the reading, and only the points beyond the cap are evicted. |
| Accumulator.EvidenceAccumulator.Read | engine/src/analytics_evidence.rs:135-177 | There is a reading exactly if the symbol has a positive anchor, a last book with a mid price and a positive last index; its price is half of bid plus ask, capped; only the event's own quote changes, and no quote time falls. |
| Accumulator.ReadingMeans | engine/src/analytics_evidence.rs:160-177 | Quotes that follow what was seen give a reading exactly when the last book, the last index and the anchor do, with half of the last bid plus ask as its price, which is at most half of the largest `i64`. |
| Accumulator.PointIsTaken | engine/src/analytics_evidence.rs:178-193 | The point of a reading holds its raw price and index, the anchor price, time and source, and starts without any horizon served. |
| Accumulator.QuotesKeepUp | engine/src/analytics_evidence.rs:200-218 | One more event keeps each quote equal to the last book, last index and latest time of its symbol in everything seen. |
| Accumulator.AnchorsKeepUp | engine/src/analytics_evidence.rs:149-158 | One more event keeps the anchors those seen last, and the violations the number of times an anchor changed its price without its time, up to saturation. |
| Accumulator.EvidenceAccumulator.Enqueue | engine/src/analytics_evidence.rs:182-196 | Appends the point; the queue keeps its newest points, at most as many as configured but at least one, and exactly those beyond are filed as evicted. |
| Accumulator.EvidenceAccumulator.FlushDue | engine/src/analytics_evidence.rs:219-282 | Emits every due record of the symbol once, each with bases that are the exact ratios truncated toward zero and changes that are theirs, retires complete points, evicts nothing and updates the sums. |
| Accumulator.EvidenceAccumulator.ServeDue | engine/src/analytics_evidence.rs:230-265 | The nested loops over points and horizons yield the specified records, marks and sums. |
| Accumulator.EvidenceAccumulator.MergeUpdates | engine/src/analytics_evidence.rs:273-280 | The sums of a flush are added horizon by horizon. |
| Accumulator.EvidenceAccumulator.Summary | engine/src/analytics_evidence.rs:284-308 | Each row carries the counts and means of all records ever returned for its horizon, each of which states what its point and the prices of its flush make of it; the state tells whether anything was observed or eligible. |
| Accumulator.EvidenceAccumulator.AccountAddsUp | engine/src/analytics_evidence.rs:178-282 | For each horizon the eligible observations are its samples, its waiting points and the points the cap pushed out before they had served it, read off the fields of the accumulator. |
| Reconciliation.DistinctCount | engine/src/execution/reconciliation.rs:174-190 | A list of ids is without repetition exactly when its set is as large as the list. |
| Reconciliation.Reconcile | engine/src/execution/reconciliation.rs:65-172 | The pushing loops with their early exits produce the specified actions in order. |
| Reconciliation.CompareOne | engine/src/execution/reconciliation.rs:113-156 | Halts exactly on a conflicting pair or a negative quantity, returns nothing exactly for a settled pair, and otherwise returns actions whose execution leaves the local order as the exchange has it. |
| Reconciliation.ActionsAreNamed | engine/src/execution/reconciliation.rs:113-156 | A fill is exactly the quantity missing locally, a status is applied exactly when an open order has ended without being filled, and each halt names its conflict. |
| Reconciliation.AdjustmentsAreExact | engine/src/execution/reconciliation.rs:157-167 | A round adjusts the position exactly when the two differ; local position plus adjustment is the remote position unless an `i64` cannot hold the difference. |
| Reconciliation.DifferencesMean | engine/src/execution/reconciliation.rs:93-167 | On well-formed snapshots a round halts exactly on a conflict and is empty exactly on agreement. |
| Reconciliation.ContinueMeansAgreement | engine/src/execution/reconciliation.rs:168-171 | The answer is Continue alone if and only if the snapshots are well formed and agree on ids, symbols, quantities, status and position; it halts if and only if they are malformed or conflict. |
| Reconciliation.RoundResult | engine/src/execution/reconciliation.rs:93-167 | Carrying out the actions of a round without halt updates exactly the matched orders, drops the orphans and adopts the position. |
| Reconciliation.OneRoundSuffices | engine/src/execution/reconciliation.rs:65-172 | After a round without halt the next round is exactly Continue. |
| FundingDecision.CostsAreClamped | engine/src/m8.rs:180-196 | The saturating chain of costs is one clamp of the unbounded sum, unless the spread is clamped before it is halved. |
| FundingDecision.NetBeatsSafety | engine/src/m8.rs:198-208 | The saturating comparison of net edge and safety margin is one exact comparison with unclamped costs. |
| FundingDecision.SignalIsExact | engine/src/m8.rs:110-117 | The side is long exactly below the anchor and short exactly above it, and the edge is the clamped rounded-down distance in units of the mid. |
| FundingDecision.EdgeIsRoundedDown | engine/src/m8.rs:110-117 | The edge lies less than one pico basis point below the exact ratio, unless it is held at the last `i64`. |
| FundingDecision.CarryIsExact | engine/src/m8.rs:120-127 | The division in the carry is exact: the carry is one clamp of minus the funding rate, signed by the position, or without one by the side of the mid that the anchor lies on. |
| FundingDecision.EntryIsExact | engine/src/m8.rs:129-304 | An entry is admitted exactly when the input is usable, anchor and mid differ visibly, no held position meets special funding, and the exact comparison holds, its carry signed by position or raw prices. |
| FundingDecision.EntryIsConservative | engine/src/m8.rs:129-304 | Every admitted entry satisfies the unbounded inequality over exact ratios, strictly unless the spread is odd. |
| FundingDecision.StrictExactlyForEvenSpreads | engine/src/m8.rs:192-196 | For a given spread every admitted entry is strict if and only if the spread is even or too large for any entry. |
| FundingDecision.BorderlineMeetsTheThreshold | engine/src/m8.rs:268-286 | For every other spread, an admitted entry that only meets the exact threshold. |
| FundingDecision.DearerFeesNeverAdmit | engine/src/m8.rs:147-163 | If a fee admits an entry, every lower fee does, except a negative one, which is refused. |
| FundingDecision.DearerCostsNeverAdmit | engine/src/m8.rs:147-196 | If higher costs of any kind admit an entry, lower ones do if and only if none of them is given as a negative number. |
| FundingDecision.FinerFiguresAdmitExactly | engine/src/m8.rs:171-196 | A volatility in pico basis points above zero admits some entry refused with the one in whole basis points if and only if it is smaller and its double plus the margin is below the largest `i64`. |
| FundingDecision.DecisionIsConsistent | engine/src/m8.rs:209-304 | The side is the sign of the position, or of anchor minus mid without one; action, admission, reduce-only flag and figures agree with each other and with it. |
| FundingDecision.ActionIsExact | engine/src/m8.rs:209-304 | Each action, and with it the reduce-only flag and the reason, has its exact condition on position, figures, funding time and special rates. |
| FundingDecision.FiguresAreThose | engine/src/m8.rs:171-208 | Edge, carry, cost, net edge and safety margin are one clamp each of their exact values on the raw input. |
| FundingDecision.RefusalIsExact | engine/src/m8.rs:129-170 | An input is refused exactly for a missing price, limit, funding time or rate or a negative cost, and then shows the extreme cost and net edge and zeros elsewhere. |
| FundingDecision.FiguresAreRounded | engine/src/m8.rs:171-208 | Each displayed figure is within half a basis point of its exact figure if and only if the input is usable. |
| FundingDecision.PicoToBpsRounds | engine/src/m8.rs:76-88 | Rounding is within half a basis point for every value and symmetric in sign. |
| DecimalTicks.StrictIsExact | engine/src/bin/anchorbell_live.rs:1940-1968 | The parser accepts exactly well-formed text with a fraction within the scale and a value in range; no overflow check on the way refuses a value that fits. |
| DecimalTicks.ParseDecimalTicks | engine/src/bin/anchorbell_testnet.rs:692-736 | The accumulator and padding loop accept exactly well-formed text whose digits beyond the scale are zeros, with the exact value. |
| DecimalTicks.LenientExtendsStrict | engine/src/bin/anchorbell_testnet.rs:704-710 | The testnet parser agrees on all the live parser accepts, and accepts more exactly when zeros follow beyond the scale; it accepts exactly digits around one optional point with nothing but zeros beyond the scale and a value in range. |
| DecimalTicks.LiveRoundTrip | engine/src/bin/anchorbell_live.rs:1970-1986 | Printed text reads back as the value if and only if the scale is at most eighteen, or at most thirty-eight for small values; the least `i64` is included. |
| DecimalTicks.CappedRoundTrip | engine/src/bin/anchorbell_testnet.rs:742-760 | The same with the bound of the capped divisor. |
| DecimalTicks.PrintersAgree | engine/src/execution/binance_wire.rs:212-232 | The printers agree exactly up to eighteen places or for values below the eighteenth power of ten. |
| DecimalTicks.PrintedReads | engine/src/bin/anchorbell_live.rs:1979-1985 | Printed sign, whole part and padded fraction read back as the numbers they were printed from. |
| Checkpoints.PrefixedKeysInOrder | engine/src/bin/anchorbell_live.rs:1734-1736 | Prefixing every symbol leaves the order of iteration unchanged. |
| Checkpoints.BuildLiveCheckpoint | engine/src/bin/anchorbell_live.rs:1719-1758 | For all positions the checkpoint passes validation exactly when the session id is not blank; its schema, detail, order ids, sums and event time are those of the session. |
| Checkpoints.ValidationIsExact | engine/src/execution/session_checkpoint.rs:62-94 | A checkpoint is valid exactly for schema two, a session id that is not blank, the net sum of its detail and a gross position that is the sum of magnitudes, or that of the net outside a portfolio; the first two errors are named exactly. |
| Checkpoints.AddPositions | engine/src/bin/anchorbell_live.rs:1727-1737 | The loop leaves the order-sensitive saturating sums over the prefixed keys. |
| Checkpoints.LatestEvent | engine/src/bin/anchorbell_live.rs:1742-1753 | The latest time of any book or mark, zero if there is none. |
| Checkpoints.GrossDecidesExactness | engine/src/execution/session_checkpoint.rs:72-84 | The gross fold is one clamp of the exact sum, and below the clamp the net fold is exact. |
| Checkpoints.UnsaturatedCheckpointsAreExact | engine/src/execution/session_checkpoint.rs:62-94 | A valid portfolio checkpoint with an unsaturated gross position carries exact sums. |
| Checkpoints.NetDependsOnOrder | engine/src/execution/session_checkpoint.rs:72-76 | The same three positions have different saturating sums in different orders. |
| RateLimit.RequestCoordinator.TryAcquire | engine/src/network.rs:363-377 | One pass under the lock grants or returns the wait, as specified, and adds the grant to a history that stays spaced. |
| RateLimit.RequestCoordinator.Observe | engine/src/network.rs:386-404 | Records the status; 418 and 429 extend the cooldown to the asked delay, or to the penalty of the class without one, and never shorten it; every other status leaves it alone. |
| RateLimit.AttemptKeeps | engine/src/network.rs:363-377 | One attempt keeps every bucket in step with the history of its grants, whatever the clock shows. |
| RateLimit.GrantsAreSpaced | engine/src/network.rs:361-384 | In any interleaving, with clock readings out of order, grants of a class are at least its spacing apart. |
| RateLimit.CooldownHolds | engine/src/network.rs:398-403 | No later grant precedes a recorded cooldown deadline. |
| RateLimit.WindowHoldsFewGrants | engine/src/network.rs:303-312 | Any window holds at most its length divided by the spacing, rounded up. |
| RateLimit.ClassesDoNotInterfere | engine/src/network.rs:366-371 | The grants and the bucket of a class are those of its own steps alone. |
| RateLimit.WaitIsExact | engine/src/network.rs:369-376 | Undisturbed, a retry succeeds exactly from the returned wait on. |
| RateLimit.AttemptsAreAnsweredExactly | engine/src/network.rs:361-404 | After any run an attempt is granted exactly from the latest of last grant plus spacing, first clock reading and cooldown deadlines on, all read off the steps, and is told exactly how long is left before that; a new class is granted at once. |
| RateLimit.CountersAreExact | engine/src/network.rs:370-397 | The counters of a class are its grants, its 418 and 429 answers, saturating, and its last status. |
| RateLimit.GrantsPerSecond | engine/src/network.rs:303-312 | No second holds more than fifty public, forty order, ten other or one user-stream grant. |
| RateLimit.RequestsCountGrants | engine/src/network.rs:370-373 | The request counter counts grants, up to saturation. |
| GateStatistics.PercentileIsOrderStatistic | engine/src/oos_validation.rs:64-72 | The percentile is one of the samples, reaches a value exactly when enough samples do, and stays below one exactly when enough samples do. |
| Ranks.RankIndexIsExact | engine/src/oos_validation.rs:70-71 | The index of a rank is that many millionths of the steps from the first sample to the last, rounded down. |
| GateStatistics.PercentilesAreOrdered | engine/src/oos_validation.rs:64-76 | A larger rank never gives a smaller value. |
| GateStatistics.MadIgnoresOrder | engine/src/oos_validation.rs:78-88 | The median absolute deviation does not depend on the order of the samples. |
| GateStatistics.EvaluateRobustCandidate | engine/src/oos_validation.rs:90-233 | Eligible exactly when the folds are admitted one by one and by rank; the unreachable gate is never its reason; an eligible one counts exactly its out-of-sample and stress folds and has floor, lower quartile and median in order. |
| GateStatistics.EvaluationIgnoresOrder | engine/src/oos_validation.rs:90-233 | The whole evaluation, reason and statistics included, does not depend on the order of the folds. |
| GateStatistics.PositiveShareNeverFails | engine/src/oos_validation.rs:213-216 | The gate on the share of positive folds is unreachable. |
| GateStatistics.EligibleMeansAdmitted | engine/src/oos_validation.rs:209-230 | A candidate is eligible exactly when its folds meet the requirements one by one and enough of them reach each ranked floor. |
| GateStatistics.EligibleEvaluationsAreSound | engine/src/oos_validation.rs:181-194 | An eligible candidate has a full positive share, and floor, worst return, lower quartile and median in ascending order. |
| GateStatistics.ShareReaches | engine/src/oos_validation.rs:179-193 | A share in parts per million reaches a floor exactly when the exact fraction does. |
| GateStatistics.PromotionIsExact | engine/src/promotion_policy.rs:109-148 | A policy promotes a candidate exactly when its thresholds are sound and its folds are admitted, and then reports a full positive share and ordered returns. |
| GateStatistics.ReasonsThatCannotOccur | engine/src/promotion_policy.rs:50-81 | A valid policy never fails on its own constraints, and the unreachable gate is never a reason. |
| GateStatistics.InsufficientEvidenceMeans | engine/src/promotion_policy.rs:182-203 | Evidence is called insufficient exactly when folds, trades or ratios are missing. |
| GateStatistics.PromotionIgnoresOrder | engine/src/promotion_policy.rs:109-148 | The promotion does not depend on the order of the folds. |
| GateFigures.RankIsUnique | engine/src/oos_validation.rs:64-76 | At most one figure of the folds has a given rank, counted from both sides. |
| GateFigures.FiguresAreOfTheFolds | engine/src/oos_validation.rs:144-209 | Counts, survival share, deepest drawdown and all six order statistics of an evaluation, the median absolute deviation included, are those of the out-of-sample or stress folds themselves; a candidate turned away before them shows zeros. |
| GateFigures.ReasonIsTheFirstDefect | engine/src/oos_validation.rs:94-231 | On raw folds and constraints: the reason of an evaluation is the first of six defects or, without one, the first of eight unmet requirements; it is eligible exactly when there are none. |
| GateFigures.PolicyInFigures | engine/src/promotion_policy.rs:50-100 | Each threshold of a policy reaches the constraint of the same name, and a policy is valid exactly for schema one, a name that is not blank and sensible constraints. |
| GateFigures.PromotionInFigures | engine/src/promotion_policy.rs:109-148 | A promoted candidate reports the least of its out-of-sample returns and a full share; its score times its deepest drawdown, or one if that is less, is its lower quartile; every other candidate reports zeros. |
| GateFigures.ScoresCompare | engine/src/promotion_policy.rs:130 | With a gain in the lower quartile, more gain or less drawdown never lowers the score; between equal quartiles the deeper drawdown has the lower score if and only if the quartile is a gain, and the higher one if and only if it is a loss. |
| CandidateRanking.ComparisonMeans | engine/src/promotion_policy.rs:206-246 | Candidates compare by the first of eight merits in which they differ, more being better, less drawdown and less spread counting as more. |
| CandidateRanking.StagesDecide | engine/src/promotion_policy.rs:206-212 | A promoted candidate is ahead of every other, and one with missing evidence ahead of every rejected one. |
| CandidateRanking.PromotedCandidatesCompare | engine/src/promotion_policy.rs:206-246 | Between promoted candidates eligibility, stage and positive share decide nothing; score, stress survival, median Sharpe ratio, drawdown and spread do, in this order. |
| CandidateRanking.MissingEvidenceTies | engine/src/promotion_policy.rs:206-246 | Candidates with missing evidence never rank above one another. |
| CandidateRanking.DrawdownCountsByTheSign | engine/src/promotion_policy.rs:130 | Of two promoted candidates with the same lower quartile the one with the deeper drawdown ranks below for a gain and above for a loss. |
| CandidateRanking.DeeperLoserIsSelected | engine/src/promotion_policy.rs:130 | Two candidates and a policy under which the deeper drawdown is selected. |
| CandidateRanking.SelectionIsBest | engine/src/bin/anchorbell_oos_select.rs:98-112 | The sort and search select exactly the eligible candidate that is ahead of every other, by merit or, between equals, by id; nothing is selected exactly when none is eligible. |
| CandidateRanking.SelectionIgnoresOrder | engine/src/bin/anchorbell_oos_select.rs:98-112 | Ranking and selection depend neither on the order in which candidates are listed nor on the order of their folds. |
| ClusterBootstrap.SeedsStayAlive | engine/src/analytics_validation.rs:175-181 | From any seed the generator never reaches the dead state zero, which is reached from zero alone. |
| ClusterBootstrap.GeneratorInFigures | engine/src/analytics_validation.rs:178-181 | The shifts are those of the generator: its first three states after one are the known ones. |
| ClusterBootstrap.StreamInFigures | engine/src/analytics_validation.rs:175-181 | A stream starts at its seed, at one for seed zero, and goes on from state to state. |
| ClusterBootstrap.DrawsAreConsecutive | engine/src/analytics_validation.rs:175-186 | Replicates are consecutive stretches of one stream: draw k of replicate r is the cluster that the state at its own position of the stream selects, and no two draws share a position. |
| ClusterBootstrap.GroupByCluster | engine/src/analytics_validation.rs:158-164 | Each cluster holds the improvements of its records in order. |
| ClusterBootstrap.DrawReplicate | engine/src/analytics_validation.rs:178-192 | One replicate with its nested loops and saturating counter is the specified mean. |
| ClusterBootstrap.Bootstrap | engine/src/analytics_validation.rs:153-208 | The whole summary is the specified one; no division by zero, no index out of range. |
| ClusterBootstrap.SummaryInFigures | engine/src/analytics_validation.rs:194-207 | The bounds are two of the means: counted in steps, at most two and a half percent lie below the lower and above the upper one, rounded as the index is; the mean is the truncated mean of all. |
| ClusterBootstrap.SummaryWithinTheRecords | engine/src/analytics_validation.rs:194-207 | Lower is at most upper for every input; lower, mean and upper lie within the range of the recorded improvements while clusters times records fit a `u64`, and beyond whenever the draw counter cannot miss too much. |
| ClusterBootstrap.OneClusterIsExact | engine/src/analytics_validation.rs:178-192 | For one cluster of equal records every replicate is exactly their value if and only if the draw counter has not missed too much. |
| ClusterBootstrap.SumsFitI128 | engine/src/analytics_validation.rs:178-187 | While the counter cannot fill up, the wide sums cannot overflow. |
| ClusterBootstrap.BootstrapIgnoresOrder | engine/src/analytics_validation.rs:153-208 | Permuting the records changes nothing. |
| SaturatedMeans.MeanWithin | engine/src/analytics_evidence.rs:339-345 | A truncating mean over a saturating counter stays within the bounds of its values whenever the counter has not missed too much. |
| SaturatedMeans.MeansStayWithinExactly | engine/src/analytics_evidence.rs:339-345 | For any bounds every sum that so many values can have gives a mean within them if and only if the counter has not missed too much. |
| SaturatedMeans.EqualValuesMean | engine/src/analytics_evidence.rs:339-345 | In particular equal values are their own mean if and only if that holds. |
| Survival.EvaluateSurvival | engine/src/analytics_validation.rs:568-596 | The one-pass drawdown is the deepest saturating fall between any earlier and later point, the initial equity included; ruin, terminal equity and the unavailable case are exact. |
| Retention.Maintain | scripts/simulation_retention.py:72-125 | The dry run plans exactly the shortest prefix, oldest first, whose removal relieves pressure and leaves no overdue archive, with the totals and status that follow from the limits in bytes and seconds; negative limits are refused. |
| Retention.PlanInOrder | scripts/simulation_retention.py:75-120 | The loop over the sorted archives plans the shortest sufficient prefix and keeps its totals. |
| Retention.PlanInFigures | scripts/simulation_retention.py:72-120 | Archives are taken oldest first, by path within a time, as long as the next is old enough and called for by an age limit, too many bytes or too little free space; what is left follows from their sizes. |
| Retention.PlanIsGreedyAndSafe | scripts/simulation_retention.py:75-120 | Nothing below the minimum age is planned, no overdue archive is left, and pressure remains only if every eligible archive is planned. |
| Retention.PlanIgnoresListingOrder | scripts/simulation_retention.py:75 | The plan is unique and does not depend on the order in which directories list the archives. |
| Retention.PlanningAgainPlansNothing | scripts/simulation_retention.py:75-81 | Once the planned archives are gone, a second planning finds nothing to do. |

## Left out

- Network, filesystem, process, dashboard, HTTP and credential code, and all of `simulation_batch.rs` and `anchorbell_live.rs` outside the cited lines: foreign calls and orchestration.
- The ledgers' own order books: only what is forwarded to them is stated, and whether they accept a snapshot is a parameter of the step.
- Runtime profiles, their roots and their expansion, `readiness_for_role`, manifests and the inventory that collects registrations (its sorted result is the parameter): they would only add members like those for capabilities.
- Contract metadata after a policy replacement: the code checks only the topology there, so the capability results cover health updates alone; what the scope check guards is stated by `Capabilities.ScopeIsExactlyWhatReadinessNeeds`.
- `recovery_for`, `compare_robust_candidates` (unused outside its tests), policy files, digests and the merging of fold bundles: small per-branch functions and I/O.
- NaN, negative zero and rounding of `f64`: fold metrics, archive ages and limits are reals, so the finiteness checks have nothing to check.
- The order-book error that leaves partial levels behind is modelled, the discarded buffer contents in log messages are not.
- EvidenceRecords.ImprovementIsExact: models the wrap-around of release builds; a checked build would stop instead where the exact value does not fit.
- Evidence.MeanStaysInRange: sums are unbounded integers, so overflow of the `i128` sums of the running statistics is not modelled.
- ClusterBootstrap.SummaryWithinTheRecords: sums are unbounded integers, so overflow of the wide sums is not modelled (`ClusterBootstrap.SumsFitI128` says when there is none); `usize` is taken to be 64 bits wide.
- Accumulator.EvidenceAccumulator.Summary: the fixed descriptive strings of the summary and its authority flag are not modelled.
- DecimalTicks.ParseDecimalTicks: the texts of its error messages are not modelled, only whether it refuses; widths beyond what the formatter supports are not modelled either.
- RateLimit.RequestCoordinator.TryAcquire: the sleep between attempts is not modelled; each attempt of the loop is a step of its own, so the results hold for any sleep.
- Retention.Maintain: apply mode, with its audit trail and crash behaviour, and the scan that collects the archives are not modelled.
- Checkpoints.BuildLiveCheckpoint: writing the file is not modelled, validation before it is.
- DepthResync.EveryInterleavingIsOk: the log output and the parsing of a snapshot are not modelled; an unparsable snapshot stops the loop as in the code.
