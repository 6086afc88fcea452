# Seemirai: a verified model of its core

This project models the deterministic core of Seemirai, a cost-first trading system, in Dafny 4.11 and proves what that
core is relied on for. `dafny verify dfyconfig.toml` checks all of it.

| module | models |
|---|---|
| `AlertFingerprint`, `AlertCooldown`, `AlertProtocol`, `AlertSpacing`, `AlertHistory`, `FailureLock` | alert fingerprints and retry payloads; the in-memory cooldown store as a class; any number of dispatches interleaved at their await points; the promise-chain lock around `failureState` |
| `PaperFill` | the order book walk of the paper fill simulator and its time-in-force decisions |
| `ExitOrders`, `ExitRuntime` | exit sizing, submission and requoting; the exit workflow against ports that may answer anything or throw |
| `Calendar`, `DecimalText`, `MarketTimestamp`, `KstWindow` | proleptic Gregorian date arithmetic as in section 21.4.1 of ECMA-262; the nanosecond timestamp parser and printer; Korean day windows |
| `MarketReplay`, `JsonText`, `FeatureOrder`, `FeatureValues`, `FeatureMeaning` | event order and replay; payload keys as JSON text; validated feature input; buckets, features and their snapshot, and what each is worth in terms of the events |
| `DailyPnl`, `BacktestReport`, `BacktestConsistency`, `DecisionLedger`, `LedgerMeaning` | the accounting folds |
| `Sequences`, `Reals` | sums, filters, sorting and products that the others share |

Conventions. Decimals are exact reals. Instants are integers, in milliseconds or nanoseconds as the code has them. Texts are
sequences of characters. Exceptions are `Result` values or explicit outcomes. `localeCompare` is an arbitrary
fixed order passed as a parameter; where the code needs it to be total, that is the stated precondition. Clocks, the
provider, the broker and every other port are nondeterministic: proofs hold for all their behaviours.

Where the code departs from what one would expect of it, the exact condition is proved:

- leases are exclusive in every run if and only if they are no longer than the cooldown (`ExclusiveIffLeaseFits`), and
  deliveries are a cooldown apart in every run if and only if the provider answers within the lease
  (`SpacedIffWithinLease`);
- sorting does not depend on the arrival order if and only if no timestamp straddles, that is, holds a text between two
  digit strings against their numeric order (`TransitiveIffNoStraddle`, `SortsAlikeIffNoStraddle`,
  `OrderIndependentIff`, `MixedSequencesCycle`);
- printed timestamps parse back if and only if the year is 0 to 9999 (`RoundTripIff`), and outside those years instants
  of one minute share a text (`FormatSameIff`, `NormalizeCollision`);
- report dates of the years 0 to 99 are refused, and the window of 9999-12-31 ends in a label that is not a date
  (`ReportDateOfInstantIff`, `LastWindowEndLabel`);
- profit and loss scopes are covered exactly once if and only if uncovered positions do not repeat (`ExactCoverIff`,
  `RepeatedPositionExample`);
- ledger flow keys are distinct if and only if no frame yields two strategy-less flows (`FlowKeysDistinctIff`), and
  the dedupe keys of two frames can coincide exactly when one key head is a prefix of the other (`FramesCollideIff`,
  `FramesCollideExample`);
- retry idempotency keys coincide for different alerts exactly where a dedupe segment moves into the time text
  (`RetryKeyExact`);
- a consistency report matches exactly the consistent lists, except that keys which name members of the JavaScript
  object prototype are miscounted (`MatchesIff`, `MatchMeansConsistent`, `ConstructorExample`, `ProtoExample`).

## Model

| member | source | states |
|---|---|---|
| `AlertProtocol.LeaseExclusivity` | src/application/alerts/index.ts:336-442 | in every interleaving of any number of dispatches, if leases are no longer than their cooldowns or deliveries come back within their leases, at most one in-flight sender per fingerprint holds an unexpired lease, and the store refuses everyone else meanwhile |
| `AlertProtocol.RaceBranchUnreachable` | src/application/alerts/index.ts:351-372 | in every run, whatever the leases and latencies, the second reservation and the race branch are never reached |
| `AlertProtocol.ExclusiveIffLeaseFits` | src/application/alerts/index.ts:755-823 | for one severity and one lease length, exclusivity holds in all runs if and only if the lease is no longer than the cooldown |
| `AlertProtocol.OverlapRunOverlaps` | src/application/alerts/index.ts:807-812 | for every longer lease, a concrete run in which a late `recordSent` wipes a newer lease and two senders overlap |
| `AlertProtocol.ReleaseOwnership` | src/application/alerts/index.ts:785-806 | in every state that such runs reach, a late release, although it compares timestamps only, never clears the lease of another unexpired sender and leaves that sender guarded |
| `AlertProtocol.StepKeepsInvariant` | src/application/alerts/index.ts:336-442 | each atomic step, other than a late delivery while some lease is longer than its cooldown, keeps the guard, ordering and timing invariant of all senders |
| `AlertSpacing.ReservationSpacing` | src/application/alerts/index.ts:992-1016 | in every run, whatever the leases, a reservation that follows a recorded delivery of its fingerprint follows it by at least one cooldown |
| `AlertSpacing.DeliverySpacing` | src/application/alerts/index.ts:391-410 | if provider calls that deliver end within their leases, recorded deliveries of one fingerprint are at least one cooldown apart over the whole run, whatever the lease lengths |
| `AlertSpacing.SpacedIffWithinLease` | src/application/alerts/index.ts:391-410 | for one severity, one lease length and a bound on the provider latency, deliveries are spaced in every run if and only if the bound is below the lease |
| `AlertSpacing.LateDeliveryBreaksSpacing` | src/application/alerts/index.ts:391-410 | for every lease, a run in which a delivery that comes back when its lease is over is recorded in the same millisecond as another |
| `AlertProtocol.DefaultLeaseFits` | src/application/alerts/index.ts:303-314 | the default lease is positive and no longer than any default cooldown |
| `AlertCooldown.InMemoryCooldownStore.constructor` | src/application/alerts/index.ts:755-756 | the store starts empty |
| `AlertCooldown.InMemoryCooldownStore.FindByFingerprint` | src/application/alerts/index.ts:759-761 | the answer decides, for every severity and time, whether a reservation would be refused |
| `AlertCooldown.InMemoryCooldownStore.ReserveDelivery` | src/application/alerts/index.ts:762-784 | check-and-set: refused exactly when the state blocks, a refusal changes nothing and its returned state explains it |
| `AlertCooldown.InMemoryCooldownStore.ReleaseDeliveryReservation` | src/application/alerts/index.ts:785-806 | clears the lease exactly on timestamp equality and keeps delivery and skip times; what that gives back over runs is `AlertHistory.FailureFreesAlert` |
| `AlertCooldown.InMemoryCooldownStore.RecordSent` | src/application/alerts/index.ts:807-812 | the new map: delivery time set, lease cleared, skip kept |
| `AlertCooldown.InMemoryCooldownStore.RecordSkipped` | src/application/alerts/index.ts:813-823 | the new map: latest skip time, delivery and lease kept |
| `AlertHistory.RefusedIff` | src/application/alerts/index.ts:755-823 | over whole runs, a reservation is refused if and only if a recorded delivery of the alert is less than a cooldown old, or a reservation of it is unexpired and neither replaced nor cleared by a later delivery or a failure of its owner |
| `AlertHistory.FailureFreesAlert` | src/application/alerts/index.ts:391-416 | after a failed delivery whose sender still holds the lease, with no cooldown running, a reservation of the alert at that same time succeeds; delivery and skip times are kept |
| `AlertHistory.StoreReflectsRun` | src/application/alerts/index.ts:755-823 | in every reachable state delivery time, latest skip and lease of each fingerprint are those of the run's events |
| `AlertHistory.LeaseInIffHeld` | src/application/alerts/index.ts:762-812 | a lease is in force exactly if its reservation was neither replaced nor cleared since |
| `AlertHistory.RefusalExplained` | src/application/alerts/index.ts:992-1016 | a running cooldown is named first, with its end, then the lease; otherwise the alert is open |
| `AlertHistory.ReserveDecides` | src/application/alerts/index.ts:336-390 | in every reachable state a reservation starts sending with its own lease, or goes on to record a skip at that time |
| `FailureLock.MutualExclusionInOrder` | src/application/alerts/index.ts:833-856 | in every run of the promise chain at most one call is between entering and releasing, and calls pass in arrival order, despite the conditional map deletion |
| `FailureLock.FailureStateIsFold` | src/application/alerts/index.ts:459-485 | in every reachable state outside a critical section, `failureState` is the sequential fold of the finished prefix of calls in arrival order |
| `FailureLock.FailureStateMeaning` | src/application/alerts/index.ts:665-725 | once all calls finished, the state is the length and the ends of the failure run since the last delivery; skips and throwing dispatches changed nothing |
| `FailureLock.LockMakesProgress` | src/application/alerts/index.ts:833-856 | no deadlock: while a call is unfinished some call can move or some promise can settle |
| `FailureLock.LockDrains` | src/application/alerts/index.ts:833-856 | once arrivals stop, the number of further steps is bounded by the work left, and where none can follow every call has finished |
| `FailureLock.StepKeepsInvariant` | src/application/alerts/index.ts:833-856 | each arrival, settlement, entry, write, abort and release keeps the chain invariant |
| `FailureLock.FoldSummary` | src/application/alerts/index.ts:665-713 | counting outcome by outcome equals summarising the current failure run |
| `FailureLock.ReviewExactly` | src/application/alerts/index.ts:665-713 | manual review is asked for exactly when the failure run has three members or spans 600000 ms |
| `AlertFingerprint.FingerprintExact` | src/application/alerts/index.ts:277-295 | two requests share a fingerprint if and only if their normalised dimensions agree, absent market or strategy reading as "global" |
| `AlertFingerprint.SplitJoin` | src/application/alerts/index.ts:277-295 | joined segments free of the separator are split back uniquely, whatever their number |
| `AlertFingerprint.UnescapeEscape` | src/application/alerts/index.ts:1091-1095 | the separator escape of a canonical segment can be undone |
| `AlertFingerprint.NormalizeInjective` | src/application/alerts/index.ts:1091-1095 | normalised segments are equal exactly when the canonical texts are |
| `AlertFingerprint.CollapseKeepsIff` | src/application/alerts/index.ts:1091-1095 | a trimmed lower-case text is left alone if and only if it consists of a-z, 0-9, underscore, colon and hyphen |
| `AlertFingerprint.CollapseOneRun` | src/application/alerts/index.ts:1091-1095 | each maximal run of other characters becomes one underscore |
| `AlertFingerprint.RestorePlan` | src/application/alerts/index.ts:537-602 | a planned retry payload restores if and only if its texts are non-blank and its severity durable, and then to the same request |
| `AlertFingerprint.RetryFixpoint` | src/application/alerts/index.ts:537-626 | however many retries fail, every later plan has the idempotency key, payload and fingerprint of the first |
| `AlertFingerprint.RetryKeyExact` | src/application/alerts/index.ts:537-565 | exactly when two retries share an idempotency key: the same event at the same time text, or one event without the other's dedupe key and with a time text that repeats that segment |
| `AlertFingerprint.FailedDispatchPlanIs` | src/application/alerts/index.ts:411-442 | a failed dispatch plans at most three attempts, at the alert's own time or else the reservation's, under a key of fingerprint and time |
| `PaperFill.CalculateExecutableDepth` | src/application/execution/paper-fill-simulator.ts:266-331 | the loop with its running totals computes the specified walk over the sorted levels |
| `PaperFill.FilledIsMinimum` | src/application/execution/paper-fill-simulator.ts:266-331 | the filled quantity is the minimum of the request and the total size within the limit, whatever the level order |
| `PaperFill.GreedyIsOptimal` | src/application/execution/paper-fill-simulator.ts:266-331 | no other allocation of the filled quantity over levels within the limit costs a buyer less or earns a seller more |
| `PaperFill.DualBound` | src/application/execution/paper-fill-simulator.ts:266-331 | weak duality: at any unit price, no feasible allocation beats the dual bound |
| `PaperFill.GreedyAttainsDual` | src/application/execution/paper-fill-simulator.ts:266-331 | the greedy walk attains the dual bound at the price it stops on |
| `PaperFill.TotalsPermutation` | src/application/execution/paper-fill-simulator.ts:397-403 | permuting the snapshot levels changes neither quantity, notional nor fee |
| `PaperFill.FeeIsRate` | src/application/execution/paper-fill-simulator.ts:266-331 | the total fee is the rate applied once to the total notional |
| `PaperFill.SlippageNeverPositive` | src/application/execution/paper-fill-simulator.ts:405-414 | signed slippage is never positive, and absent exactly when nothing filled |
| `PaperFill.TakerCheckAgrees` | src/application/execution/paper-fill-simulator.ts:252-264 | where the taker check sees nothing to take, the depth walk takes nothing |
| `PaperFill.OutcomeConservation` | src/application/execution/paper-fill-simulator.ts:109-231 | over all paths filled plus open plus canceled is the request; FOK is all or nothing; post-only never fills under either policy; the fee is notional times basis points over 10000 |
| `PaperFill.SelectedIsFirst` | src/application/execution/paper-fill-simulator.ts:233-250 | the chosen snapshot is the first one not before submission plus latency |
| `PaperFill.MatchedOutcome` | src/application/execution/paper-fill-simulator.ts:143-212 | for a limit order on a matching book that is not stopped: filled is the lesser of request and size on offer within the limit, or all or nothing for FOK; a GTC remainder is open, an IOC or FOK remainder canceled; each status if and only if its case, with its order status and reason |
| `PaperFill.EmptyOrderOutcome` | src/application/execution/paper-fill-simulator.ts:143-212 | an order for nothing or less never fills, and how it settles under each policy |
| `PaperFill.PostOnlyOutcome` | src/application/execution/paper-fill-simulator.ts:214-231 | a post-only order is pending or rejected if and only if some level crosses its limit, by the policy, with nothing filled |
| `PaperFill.UnmatchedOutcomes` | src/application/execution/paper-fill-simulator.ts:109-141 | market orders, missing, foreign and empty snapshots: status, reason, and what stays open or is canceled |
| `PaperFill.TakesIffCrosses` | src/application/execution/paper-fill-simulator.ts:252-264 | the best level is within the limit if and only if some level is |
| `PaperFill.FillsAreReal` | src/application/execution/paper-fill-simulator.ts:266-331 | fill by fill: the levels from the best price on, one fill a level, within limit and size, at its price, with notional and fee |
| `PaperFill.AverageAndSlippage` | src/application/execution/paper-fill-simulator.ts:405-414 | average times filled is the notional; slippage is its signed distance from the limit in basis points, or absent when nothing filled |
| `PaperFill.SelectedIff` | src/application/execution/paper-fill-simulator.ts:233-250 | a snapshot is chosen if and only if it is the first one due |
| `PaperFill.LatencyMeaning` | src/application/execution/paper-fill-simulator.ts:436-443 | latency in whole nanoseconds, cut down; none if not positive |
| `ExitOrders.SizingExact` | src/application/exit-engine/sizing.ts:31-227 | sizing is valid if and only if scopes agree, numbers parse, policy and prices are sound, the price is on the tick, price times quantity reaches the minimum, and the position left is none or above dust and sellable at the current price; it passes the quantity through unchanged, or nothing is executable and there is a rejection |
| `ExitOrders.OnTickIsMultiple` | src/application/exit-engine/sizing.ts:31-227 | a price on the tick is an integer number of ticks |
| `ExitOrders.MultipleIsOnTick` | src/application/exit-engine/sizing.ts:31-227 | every integer number of ticks is on the tick |
| `ExitOrders.RejectionMeaning` | src/application/exit-engine/sizing.ts:31-227 | every rejection names a fault that the request has |
| `ExitOrders.SubmissionExact` | src/application/exit-engine/submission.ts:67-189 | a submission exists if and only if the sizing is valid, the decision REDUCE or EXIT, the key present, price and quantity positive, and for EXIT the quantity the whole position; all its fields |
| `ExitOrders.RequoteChainConserves` | src/application/exit-engine/remaining-intent.ts:65-180 | after any number of partial fills and requotes, fills plus the live intent equal the sized quantity and never exceed the position; EXIT intents equal their scope, REDUCE intents stay within it; all idempotency keys are distinct |
| `ExitOrders.ChainEndConserves` | src/application/exit-engine/remaining-intent.ts:65-127 | also where a chain ends, the fills of all rounds and the remainder of the last order make up the sized quantity, requoted or not |
| `ExitOrders.PlayKeepsInvariant` | src/application/exit-engine/remaining-intent.ts:129-180 | each further round keeps the chain invariant, extends the intents and only adds fills |
| `ExitOrders.KeysGrow` | src/application/exit-engine/remaining-intent.ts:129-180 | idempotency keys grow strictly along a chain |
| `ExitOrders.PlayKeepsEffect` | src/application/exit-engine/submission.ts:67-168 | a chain never changes between EXIT and REDUCE |
| `ExitOrders.ChainStopsIff` | src/application/exit-engine/remaining-intent.ts:65-180 | a round yields a new intent if and only if the remainder is positive and above dust and the price to quote, replaced or old, is a positive number |
| `ExitRuntime.RunExitPaperRuntime` | src/application/exit-engine/runtime.ts:136-427 | for every behaviour of the ports: submit, cancel and persist at most once and only when allowed; the writer called once, last, with the returned list; status, cancelled order and requote exactly as the answers determine; the whole evidence list is the one the answers call for; failures carry manual review; it raises exactly on invalid dates |
| `ExitRuntime.RunByStatus` | src/application/exit-engine/runtime.ts:136-290 | by name: submit is called if and only if the decision is REDUCE or EXIT with a valid sizing and a submission; cancel if and only if the accepted order is SUBMITTED, ACCEPTED or PARTIALLY_FILLED with a positive or unreadable remainder, so none is left without a cancel attempt; persist if and only if accepted and configured; EXECUTION_REJECTED and NO_EXIT_INTENT if and only if their cases |
| `ExitRuntime.RunByCancel` | src/application/exit-engine/runtime.ts:291-427 | by name: the cancel fails the run if and only if it throws or is not CANCELED with nothing left; a requote exists if and only if it is confirmed and the remainder readable, above dust and worth the minimum; the whole requote record |
| `ExitRuntime.RunWithoutCancel` | src/application/exit-engine/runtime.ts:136-290 | without a cancel there is neither a cancelled order nor a requote |
| `ExitRuntime.RunPersists` | src/application/exit-engine/runtime.ts:741-770 | what is persisted is the cancel's answer if there is one, else the submitted order |
| `ExitRuntime.EffectsInOrder` | src/application/exit-engine/runtime.ts:136-427 | submit first, cancel after nothing but submit and its alerts, persist once, evidence written last |
| `ExitRuntime.ReportAgrees` | src/application/exit-engine/runtime.ts:772-832 | the reported status for each broker status, and the quantities and position reported with it |
| `ExitRuntime.ConfirmedReport` | src/application/exit-engine/runtime.ts:635-703 | the evidence of a confirmed cancel, with the dust or below-minimum item exactly where the thresholds say |
| `ExitRuntime.RefusedReport` | src/application/exit-engine/runtime.ts:705-722 | the review evidence of a cancel that threw or was not confirmed |
| `ExitRuntime.AfterAcceptance` | src/application/exit-engine/runtime.ts:229-290 | the accepted-order part: effects, result and evidence list for every answered status and remainder |
| `ExitRuntime.CancelAndRequote` | src/application/exit-engine/runtime.ts:291-427 | the cancel part: a requote exists if and only if the cancel is confirmed with nothing left and the remainder is worth quoting |
| `ExitRuntime.Finish` | src/application/exit-engine/runtime.ts:724-770 | every path ends by persisting the final snapshot, if any, and then writing the returned evidence |
| `ExitRuntime.PersistSafely` | src/application/exit-engine/runtime.ts:741-770 | one attempt; a failure becomes manual-review evidence |
| `ExitRuntime.WriteEvidenceSafely` | src/application/exit-engine/runtime.ts:724-739 | called once when configured, with the returned list |
| `ExitRuntime.AtMostOnce` | src/application/exit-engine/runtime.ts:136-427 | in a disciplined history a port with lasting effects occurs at one place only |
| `ExitRuntime.RequoteIsJustified` | src/application/exit-engine/runtime.ts:847-879 | a requote is for a confirmed cancel, above dust, at or above the minimum notional, and together with the fill makes up the submitted quantity |
| `ExitRuntime.RequoteIffWorth` | src/application/exit-engine/runtime.ts:847-862 | the three runtime checks together mean: readable, above dust, not below the minimum notional |
| `ExitRuntime.EvidenceConservesQuantity` | src/application/exit-engine/runtime.ts:794-832 | for every answer, reported filled and remaining quantities add up to the request if and only if the order was refused or its remainder is readable, and the reported position is what the fill leaves, never negative |
| `MarketTimestamp.RoundTripIff` | src/application/backtest/backtest-report.ts:666-690 | parsing the printed text returns the instant if and only if its UTC year is 0 to 9999 |
| `MarketTimestamp.ParseFormat` | src/application/backtest/backtest-report.ts:670-690 | every nanosecond instant of those years, also before 1970, survives printing and parsing |
| `MarketTimestamp.ParseFormatOutside` | src/domain/market-event.ts:206-235 | outside those years the printed text is refused by the pattern |
| `MarketTimestamp.FormatSameIff` | src/application/backtest/backtest-report.ts:670-690 | exactly when two instants print alike: they are equal, or both lie outside the years 0 to 9999, in one minute and at one fraction, because the cut to nineteen characters drops the seconds there |
| `MarketTimestamp.NormalizeSameIff` | src/application/backtest/backtest-report.ts:666-690 | the same for any two accepted texts, whatever their offset and padding; normalising again changes nothing if and only if the year is 0 to 9999 |
| `MarketTimestamp.NormalizeCollision` | src/application/backtest/backtest-report.ts:666-690 | "9999-12-31T23:59:00-00:01" and "9999-12-31T23:59:01-00:01" are accepted, a second apart, and normalise to one text |
| `MarketTimestamp.AcceptedInRange` | src/domain/market-event.ts:192-235 | every accepted text denotes an instant that a Date can hold |
| `MarketTimestamp.NormalizeCanonical` | src/application/backtest/backtest-report.ts:666-690 | where one of two accepted texts denotes an instant of the years 0 to 9999, they normalise alike if and only if they denote the same instant |
| `MarketTimestamp.FormatInjective` | src/application/backtest/backtest-report.ts:670-690 | an instant of the years 0 to 9999 shares its text with no other instant |
| `MarketTimestamp.ParseMeaning` | src/domain/market-event.ts:192-235 | a text parses if and only if it matches, names a real date and time and an offset within range; its value is the wall clock less the offset plus the fraction |
| `MarketTimestamp.ParseWritten` | src/domain/market-event.ts:206-235 | every wall clock of the years 0 to 9999 with any fraction and any zone is accepted if and only if date, time and zone exist, and denotes the instant at which that clock shows in that zone |
| `MarketTimestamp.FractionValue` | src/domain/market-event.ts:206-235 | a fraction of k digits counts units of the k-th decimal place |
| `Calendar.EpochDay` | src/domain/market-event.ts:297-328 | days are counted from 1970-01-01 |
| `MarketTimestamp.PartsAcceptedIff` | src/domain/market-event.ts:297-328 | the setter read-back test accepts exactly the dates and times that exist, and yields their instant |
| `KstWindow.WindowsPartitionTime` | src/application/daily-report/window.ts:15-44 | the date printed for an instant has a window that contains it, and no other accepted date has |
| `KstWindow.WindowsAbut` | src/application/daily-report/window.ts:15-35 | consecutive windows abut exactly, across months, leap days and centuries, and the end label names the next date |
| `KstWindow.WindowOfDate` | src/application/daily-report/window.ts:15-35 | the window of a date starts 32400000 ms before its UTC midnight and lasts 86400000 ms, with its labels |
| `KstWindow.CreateWindowAcceptsIff` | src/application/daily-report/window.ts:46-73 | a text is accepted if and only if it is the ten-character form of a real date of the years 100 to 9999 |
| `KstWindow.ReportDateAcceptedIff` | src/application/daily-report/window.ts:46-73 | the read-back test accepts exactly the real dates from year 100 on, because `Date.UTC` reads two-digit years as 19xx |
| `KstWindow.ContainsIffKstDay` | src/application/daily-report/window.ts:15-35 | a window contains exactly the instants of its Korean day |
| `KstWindow.LastWindowEndLabel` | src/application/daily-report/window.ts:15-35 | the end label of the last four-digit day is not an accepted date |
| `KstWindow.ReportDateOfInstantIff` | src/application/daily-report/window.ts:15-73 | the date printed for an instant is accepted if and only if its Korean year is 100 to 9999 |
| `KstWindow.SignedDateRejected` | src/application/daily-report/window.ts:37-44 | outside the Korean years 0 to 9999 the printed date is malformed |
| `KstWindow.ShortYearRejected` | src/application/daily-report/window.ts:46-73 | in the Korean years 0 to 99 the printed date is well formed and refused as a calendar date |
| `MarketReplay.TransitiveIffNoStraddle` | src/domain/market-event.ts:121-149 | the comparator is total, and transitive on a set of events if and only if no timestamp has a non-digit sequence lexically between two digit strings in the wrong order |
| `MarketReplay.HomogeneousNoStraddle` | src/domain/market-event.ts:237-260 | timestamps whose sequences are all digit strings, or all not, have no such straddle |
| `MarketReplay.MixedSequencesCycle` | src/domain/market-event.ts:237-260 | "9" before "10" before "5x" before "9" |
| `MarketReplay.DigitsCompareByValue` | src/domain/market-event.ts:237-285 | digit strings of any length compare by integer value, then by text |
| `MarketReplay.LessExact` | src/domain/market-event.ts:262-268 | text order: after a common front, one text ends or has the smaller character |
| `MarketReplay.CompareEventsLaws` | src/domain/market-event.ts:121-149 | zero exactly when the order keys coincide, and antisymmetric |
| `MarketReplay.EventOrderExact` | src/domain/market-event.ts:121-146 | an event comes first if and only if its time is earlier, then its sequence, by number where both are digits, then its tie-break key, exchange and market, no market reading as "*" |
| `MarketReplay.AssertUniqueOrderKeys` | src/domain/market-event.ts:161-184 | reports a duplicate if and only if keys repeat, and then the first key that repeats |
| `MarketReplay.ReplayOrderUnique` | src/domain/market-event.ts:151-159 | when no timestamp straddles, a fixture with unique keys has one sorted order, produced from every permutation by every sort |
| `MarketReplay.SortsAlikeIffNoStraddle` | src/domain/market-event.ts:121-159 | a fixture with unique keys sorts alike from every arrival order if and only if no timestamp straddles |
| `MarketReplay.SortedInTime` | src/domain/market-event.ts:121-159 | sorted events are in time order for every fixture, straddles included |
| `MarketReplay.FixtureHistoricalEventSource.constructor` | src/application/backtest/fixture-historical-event-source.ts:23-28 | the source keeps the sorted events |
| `MarketReplay.FixtureHistoricalEventSource.Replay` | src/application/backtest/fixture-historical-event-source.ts:30-51 | yields the matching events in order, cut at the limit; a negative limit is refused |
| `MarketReplay.ReplayedExactly` | src/application/backtest/fixture-historical-event-source.ts:82-105 | unlimited replay yields an event as often as the fixture holds it if exchange, source, market and closed time range let it through, and no other |
| `MarketReplay.CreateSource` | src/application/backtest/fixture-historical-event-source.ts:26-28 | construction fails exactly on duplicate keys |
| `MarketReplay.AdjacentRangesConcatenate` | src/application/backtest/fixture-historical-event-source.ts:82-105 | for every fixture, unlimited replay of two adjacent ranges concatenates to replay of the whole range |
| `MarketReplay.LimitIsPrefix` | src/application/backtest/fixture-historical-event-source.ts:30-51 | a limit only cuts the stream short |
| `FeatureOrder.ValidateSingleMarketBoundary` | src/application/features/feature-calculator.ts:958-980 | accepts exactly the inputs of one exchange and at most one market |
| `FeatureOrder.ValidateDuplicateOrderKeys` | src/application/features/feature-calculator.ts:982-1008 | accepts exactly the inputs whose equal order keys carry equal payloads, although timestamps that occur once are skipped |
| `FeatureOrder.SortAndValidateEvents` | src/application/features/feature-calculator.ts:857-878 | returns the sorted candidates of an acceptable input, or the rejection |
| `FeatureOrder.ValidatedIff` | src/application/features/feature-calculator.ts:857-1045 | input is refused if and only if an order text is empty or unusable, there is a second exchange or market, or two events of one order key differ in content |
| `FeatureOrder.OrderKeyMeaning` | src/application/features/feature-calculator.ts:865-899 | the order key: own texts where given, else the fallback sequence by kind and a tie break that tells contents apart |
| `FeatureOrder.DefaultTradeOrder` | src/application/features/feature-calculator.ts:888-899 | trades of one timestamp without own sequences are ordered by their ids as texts |
| `JsonText.StringifyInjective` | src/application/features/feature-calculator.ts:901-948 | the JSON text of texts, integers and nested arrays determines the value |
| `FeatureOrder.PayloadTextExact` | src/application/features/feature-calculator.ts:901-952 | two events have the same payload key if and only if they agree in every field the payload lists |
| `FeatureOrder.OrderIndependence` | src/application/features/feature-calculator.ts:857-863 | when the input is rejected or no timestamp straddles, permuting it changes neither verdict, reason, nor the sequence of views the features read |
| `FeatureOrder.OrderIndependentIff` | src/application/features/feature-calculator.ts:857-863 | every arrival order reads alike if and only if the input is rejected or no timestamp straddles |
| `FeatureOrder.GivenDigitsOrdered` | src/application/features/feature-calculator.ts:888-899 | if every given sequence is a digit string no timestamp straddles, because fallback sequences start with a letter |
| `FeatureOrder.HomogeneousOrdered` | src/application/features/feature-calculator.ts:1286-1333 | per-timestamp homogeneity makes the candidate comparator consistent |
| `FeatureValues.SnapshotOrderIndependent` | src/application/features/feature-calculator.ts:120-191 | when the input is rejected or no timestamp straddles, permuting it changes neither the status of the snapshot, nor a value, nor a failure reason of the modelled features |
| `FeatureValues.FeaturesOrderIndependent` | src/application/features/feature-calculator.ts:120-191 | when the input is rejected or no timestamp straddles, whatever else is computed from the sorted views does not depend on the input order |
| `FeatureValues.SnapshotWithin` | src/application/features/feature-calculator.ts:120-191 | for every input and options, imbalance lies in [-1, 1], session score in [0, 1], volume spike is not negative and VWAP deviation is above -10000 bps |
| `FeatureMeaning.SnapshotImbalance` | src/application/features/feature-calculator.ts:360-386 | the reported imbalance times the directional quantity is bid less ask quantity over the input events of the window; positive if and only if bids outweigh asks, 1 if and only if there is no ASK trade, -1 if and only if there is no BID trade |
| `FeatureMeaning.SnapshotVwapDeviation` | src/application/features/feature-calculator.ts:325-353 | the reported deviation compares a latest trade price of the window with notional over quantity of its events |
| `FeatureMeaning.SnapshotFailsClosed` | src/application/features/feature-calculator.ts:120-191 | the snapshot is ok if and only if all features have values; rejected events or options, and blocking data inside the longest lookback, fail every feature, each with its reason |
| `FeatureMeaning.StaleIffBlocked` | src/application/features/feature-calculator.ts:1047-1077 | data is stale if and only if an event of the longest lookback says STALE, RECONNECTING or DISCONNECTED |
| `FeatureMeaning.TradesAreEvents` | src/application/features/feature-calculator.ts:120-191 | the features read exactly the trades of the accepted input |
| `FeatureMeaning.BooksAreEvents` | src/application/features/feature-calculator.ts:120-191 | and exactly its order books, level by level |
| `FeatureMeaning.SumOverEvents` | src/application/features/feature-calculator.ts:857-863 | sums over the sorted trades are sums over the input events |
| `FeatureMeaning.VolumeSpikeMeaning` | src/application/features/feature-calculator.ts:263-280 | the spike times the median of the earlier bucket notionals is the last one |
| `FeatureMeaning.SessionScoreMeaning` | src/application/features/feature-calculator.ts:433-469 | the least of volume and depth over their medians, cut at one, and the weight of the hour |
| `FeatureMeaning.SessionWeightTable` | src/application/features/feature-calculator.ts:1364-1376 | the weight of each Korean hour |
| `FeatureMeaning.DepthMeaning` | src/application/features/feature-calculator.ts:688-698 | depth is the notional of the first five bids and asks |
| `FeatureMeaning.LastBookMeaning` | src/application/features/feature-calculator.ts:611-636 | the book of a slot is the last one in it |
| `FeatureMeaning.BaselineMeaning` | src/application/features/feature-calculator.ts:433-469 | a full baseline has the book of every earlier slot, in order |
| `FeatureMeaning.BucketSpans` | src/application/features/feature-calculator.ts:582-609 | which trades a bucket holds, by its start and length |
| `FeatureValues.BuildTradeBuckets` | src/application/features/feature-calculator.ts:582-609 | bucket i holds exactly the trades of slot i, in order |
| `FeatureValues.BuildOrderbookBuckets` | src/application/features/feature-calculator.ts:611-636 | bucket i holds the last book of slot i |
| `FeatureValues.BucketsPartitionWindow` | src/application/features/feature-calculator.ts:582-609 | the buckets laid end to end are exactly the trades of the window, once each and in order |
| `FeatureValues.ValidatedBuckets` | src/application/features/feature-calculator.ts:857-863 | for every accepted input, straddles included, the sorted trades are in time order and the buckets partition the window |
| `FeatureValues.BucketNotionalsConserved` | src/application/features/feature-calculator.ts:680-686 | bucket notionals sum to the window notional, or fail on the same trade |
| `FeatureValues.VwapWithin` | src/application/features/feature-calculator.ts:325-343 | the average price lies between any bounds on the trade prices |
| `FeatureValues.CalculateImbalance` | src/application/features/feature-calculator.ts:360-386 | the loop computes the specified imbalance of the directional trades, within [-1, 1]; its meaning is `FeatureMeaning.ImbalanceMeaning` |
| `FeatureMeaning.ImbalanceMeaning` | src/application/features/feature-calculator.ts:360-386 | from the trades: the imbalance exists if and only if some trade has a side and all such are readable; it times their quantity is bid less ask quantity, with its sign and both extremes |
| `FeatureMeaning.ImbalanceFailsIff` | src/application/features/feature-calculator.ts:360-386 | each failure reason if and only if its cause comes first: no directional trade, an unreadable quantity, one that is not positive |
| `FeatureMeaning.VwapDeviationMeaning` | src/application/features/feature-calculator.ts:325-353 | from the trades: the deviation exists if and only if there are trades and all are readable, and compares the last price with notional over quantity |
| `FeatureValues.MedianWithin` | src/application/features/feature-calculator.ts:1342-1355 | the median lies between any bounds on the values |
| `FeatureValues.MedianPermutation` | src/application/features/feature-calculator.ts:1342-1355 | the median does not depend on the order of the values |
| `FeatureMeaning.MedianMeaning` | src/application/features/feature-calculator.ts:1342-1355 | the midpoint of two values of the input, one if their number is odd, with at most half of the others on either side |
| `FeatureValues.SessionScoreWithin` | src/application/features/feature-calculator.ts:433-469 | a reported session liquidity score lies in [0, 1] |
| `DailyPnl.SelectLatest` | src/application/daily-report/aggregator.ts:206-243 | selects, once each, exactly the snapshots that win their strategy and market scope by time and then by the fixed collation |
| `DailyPnl.WinnerIsLatest` | src/application/daily-report/aggregator.ts:232-243 | a winner is as recent as any snapshot of its scope, and is the only winner of it |
| `DailyPnl.WinnerExists` | src/application/daily-report/aggregator.ts:206-243 | every scope with a snapshot has a winner |
| `DailyPnl.ExcludeCoveredMembers` | src/application/daily-report/aggregator.ts:105-120 | keeps strategy-wide snapshots and the market snapshots of strategies without one |
| `DailyPnl.SnapshotCoverage` | src/application/daily-report/aggregator.ts:172-198 | the two lookup tables cover a position if and only if some snapshot does |
| `DailyPnl.AggregatePnl` | src/application/daily-report/aggregator.ts:35-43 | the pipeline reports an arrangement of exactly the reported winners and the uncovered positions, and sums both metrics over it; which amounts those are is `DailyPnl.MetricsFromRows` |
| `DailyPnl.MetricsFromRows` | src/application/daily-report/aggregator.ts:35-43 | an available realized value is the sum of `realized` over the reported snapshots and uncovered positions, the estimate that of `unrealized`; the sample count is the number of those rows and the source names their kinds |
| `DailyPnl.ExactCoverIff` | src/application/daily-report/aggregator.ts:105-198 | every scope of the input is covered by exactly one fact if and only if no two uncovered positions share strategy and market; every scope is covered at least once and no fact covers nothing |
| `DailyPnl.RepeatedPositionExample` | src/application/daily-report/aggregator.ts:129-163 | two positions of one strategy and market without a snapshot cover their scope twice and are both added |
| `DailyPnl.ReportOrderIndependent` | src/application/daily-report/aggregator.ts:515-545 | permuting snapshots and positions changes neither the facts, the totals nor the source labels |
| `DailyPnl.AvailableIff` | src/application/daily-report/aggregator.ts:77-96 | the metrics are unavailable exactly when there is no row at all |
| `BacktestReport.CreateRunReport` | src/application/backtest/backtest-report.ts:146-181 | totals are the tally of all candidates and there is one summary per strategy, the tally of its candidates |
| `BacktestReport.RecordCandidate` | src/application/backtest/backtest-report.ts:265-291 | adds exactly one candidate's contribution |
| `BacktestReport.RecordFillResult` | src/application/backtest/backtest-report.ts:293-322 | adds exactly the contribution of a fill |
| `BacktestReport.RecordEstimatedPnl` | src/application/backtest/backtest-report.ts:324-339 | gross and cost move by what their rates take of the notional, net keeps its distance from gross less cost, and no other field changes |
| `BacktestReport.TotalsAreSum` | src/application/backtest/backtest-report.ts:146-181 | run totals equal the sum of the strategy summaries, field by field, in any order |
| `BacktestReport.CountsMeaning` | src/application/backtest/backtest-report.ts:265-322 | over the whole run, candidates are simulated or rejected, and fills are complete, partial or empty |
| `BacktestReport.FillCountsMeaning` | src/application/backtest/backtest-report.ts:293-322 | complete, partial and empty fills and slippage samples are counted by what each fill says |
| `BacktestReport.AmountsMeaning` | src/application/backtest/backtest-report.ts:293-339 | quantity, notional, fee and slippage are sums over the fills; gross and cost are sums of notional times basis points over 10000 |
| `BacktestReport.NetIsGrossLessCost` | src/application/backtest/backtest-report.ts:324-339 | over the whole run, net is gross less cost |
| `BacktestReport.CreatePerStrategyDelta` | src/application/backtest/backtest-report.ts:596-619 | one delta per strategy of either report |
| `BacktestReport.DeltasSumToTotal` | src/application/backtest/backtest-report.ts:576-615 | per-strategy deltas sum to the delta of the totals, also where a strategy occurs in only one run; each delta leads from the zero-cost figures to the cost-aware ones |
| `BacktestReport.LookupIsTally` | src/application/backtest/backtest-report.ts:596-619 | reading an unlisted strategy as empty is right |
| `BacktestConsistency.CreateConsistencyReport` | src/application/backtest/backtest-report.ts:217-263 | the mismatch list, in order, holds exactly the justified mismatches and each once; it matches if and only if the lists are consistent as counted; the matched count is the size of the key intersection |
| `BacktestConsistency.AllMismatchesExact` | src/application/backtest/backtest-report.ts:217-263 | the list is repeated keys, then key by key missing paper candidates and differing fields, then missing backtest candidates: each justified mismatch once, no other |
| `BacktestConsistency.MatchesIff` | src/application/backtest/backtest-report.ts:217-263 | no mismatch is justified if and only if no key is an inherited member name, keys are unique on both sides but for "__proto__", key sets are equal and the first records of a key agree in everything but the strategy |
| `BacktestConsistency.MatchMeansConsistent` | src/application/backtest/backtest-report.ts:217-263 | for all other keys that is: keys unique on both sides, key sets equal, records of a key agreeing in all fourteen fields |
| `BacktestConsistency.ConstructorExample` | src/application/backtest/backtest-report.ts:638-640 | equal single candidates keyed "constructor" are reported as duplicates |
| `BacktestConsistency.ProtoExample` | src/application/backtest/backtest-report.ts:638-640 | a repeated "__proto__" key is not reported |
| `BacktestConsistency.FieldsDecide` | src/application/backtest/backtest-report.ts:433-450 | agreement on the fourteen compared fields is equality up to the strategy |
| `BacktestConsistency.CompareFields` | src/application/backtest/backtest-report.ts:433-465 | the mismatches of the differing fields in field order |
| `BacktestConsistency.FieldMismatchesExact` | src/application/backtest/backtest-report.ts:433-465 | one mismatch for each differing field, and no other |
| `BacktestConsistency.CreateCandidateMap` | src/application/backtest/backtest-report.ts:467-478 | the first record of each key, keys in first-seen order |
| `BacktestConsistency.DuplicateKeys` | src/application/backtest/backtest-report.ts:480-502 | the keys of the plain count record whose value is not at most one, with that value, in collation order |
| `BacktestConsistency.DuplicatesExact` | src/application/backtest/backtest-report.ts:480-502 | a key is listed once if it occurs twice, or occurs and is an inherited member name, and never if it is "__proto__" |
| `BacktestConsistency.CompareKeys` | src/application/backtest/backtest-report.ts:231-246 | walking the backtest keys yields, key by key, the missing-paper mismatch or the field mismatches, and counts the keys that both sides have |
| `BacktestConsistency.MissingBacktest` | src/application/backtest/backtest-report.ts:248-257 | walking the paper keys yields the missing-backtest mismatches in order |
| `DecisionLedger.EvidenceExactlyOnce` | src/application/decision-ledger/frame-builder.ts:481-503 | across all flows the evidence items come from the evidence-bearing records of the trace, each exactly once; duplicated context and the cash aggregate add none |
| `DecisionLedger.MetricsConserved` | src/application/decision-ledger/frame-builder.ts:665-716 | per-flow cost, risk and execution rejections, submissions and fills sum to those of the whole trace |
| `DecisionLedger.DownstreamCountsConserved` | src/application/decision-ledger/frame-builder.ts:513-578 | the same for any condition on stages after the strategy decision |
| `DecisionLedger.EvidencePositionsDistinct` | src/application/decision-ledger/frame-builder.ts:481-499 | (stage, occurrence index) identifies an item within its flow |
| `DecisionLedger.EvidenceRecords` | src/application/decision-ledger/frame-builder.ts:481-499 | a flow has one item per evidence-bearing record, in order |
| `DecisionLedger.FlowKeysDistinctIff` | src/application/decision-ledger/frame-builder.ts:537-578 | (frame, strategy) flow keys are distinct if and only if no frame gets both the strategy-less record flow and the cash aggregate |
| `DecisionLedger.SharedKeyExample` | src/application/decision-ledger/frame-builder.ts:563-575 | two holding strategies and a hold without strategy: a frame with two flows of the same key |
| `DecisionLedger.DedupeKeyExact` | src/application/decision-ledger/frame-builder.ts:894-900 | for frame ids without a colon, dedupe keys coincide exactly for equal frame and strategy, or for a strategy really named "no-strategy" |
| `DecisionLedger.FramesCollideIff` | src/application/decision-ledger/frame-builder.ts:894-900 | in general two frames have strategies whose dedupe keys coincide if and only if the key head of one is a prefix of the other's |
| `DecisionLedger.FramesCollideExample` | src/application/decision-ledger/frame-builder.ts:894-900 | frame "x" with strategy "y:strategy:z" and frame "x:strategy:y" with strategy "z" share a key |
| `DecisionLedger.GroupTrace` | src/application/decision-ledger/frame-builder.ts:513-530 | the grouping loop computes the flows of every frame in first-seen order |
| `DecisionLedger.GroupSingleFrame` | src/application/decision-ledger/frame-builder.ts:537-578 | the flows of one frame: one per strategy, then the strategy-less flow, then the cash aggregate |
| `DecisionLedger.CollectStrategyIds` | src/application/decision-ledger/frame-builder.ts:638-648 | strategies in first-seen order |
| `DecisionLedger.ComputeGroupMetric` | src/application/decision-ledger/frame-builder.ts:665-716 | the counters are the numbers of records that meet each condition |
| `DecisionLedger.BuildEvidence` | src/application/decision-ledger/frame-builder.ts:481-499 | the stage counters number the records of each stage of the flow |
| `LedgerMeaning.StrategyFlowExact` | src/application/decision-ledger/frame-builder.ts:538-560 | a frame has a flow of a strategy if and only if a record names it; the flow takes up that strategy's records, the received-frame records and, if no other strategy is named, all records without one |
| `LedgerMeaning.StrategylessFlowExact` | src/application/decision-ledger/frame-builder.ts:562-565 | a strategy-less flow exists if and only if no strategy is named, or several are and a later record names none; it takes up exactly the records without strategy |
| `LedgerMeaning.CashFlowExact` | src/application/decision-ledger/frame-builder.ts:585-631 | the cash aggregate exists if and only if a strategy is named, every record receives or holds, and every named strategy held; it takes up the whole frame and no evidence |
| `LedgerMeaning.EvidenceMeaning` | src/application/decision-ledger/frame-builder.ts:132-161 | which records bear evidence and the kind of each item |
| `LedgerMeaning.MetricOfRecord` | src/application/decision-ledger/frame-builder.ts:905-935 | what one record adds to each metric, by stage, status and flags |
| `LedgerMeaning.MetricsAdd` | src/application/decision-ledger/frame-builder.ts:665-716 | metrics add up over consecutive parts of a trace |

## Left out

- Rounding: decimal.js keeps 20 significant digits; the model is exact, so equalities of sums and products are those of exact arithmetic.
- The PostgreSQL cooldown store and a `failureStateOwner` that differs from the options object: their code or protocol is not part of this model.
- A clock that goes back, and Date inputs that are invalid where the code only passes them on.
- Alert audit entries, retry queue receipts and notification texts: copied or formatted only.
- SHA-256 digests: evidence fingerprints and hashed keys stop at the text that is hashed.
- `JSON.stringify` of order keys: modelled as the tuple itself; payload keys are modelled as text, with integer lag and reconnect counts.
- Sorting under a straddle: ECMA-262 leaves the result to the engine when a comparator is inconsistent; the model then follows a stable insertion sort.
- `trim` and lower-casing in fingerprints: arbitrary functions, so every result holds for any of them.
- Characters outside the basic multilingual plane: JavaScript compares and escapes them by UTF-16 units, the model by character.
- Exit workflow: whether an order that is CANCELED or EXPIRED at submit really filled what its remainder suggests, live-operations alert content, `requoteAfterCancel: false`, and the sanitising of lineage texts supplied by callers.
- Feature values of candles, realised volatility, depth slope and change, spread, market regime, session state and cost inputs: `FeaturesOrderIndependent` covers them as an arbitrary function of the sorted views.
- Timestamps of feature events that do not parse: events carry parsed instants.
- Daily report: fee totals, counts, averages, audit summaries and numeric text that does not parse.
- Backtest report: status, fill-status and rejection-reason count maps, fill rate and average slippage, and how candidate records are built from orders; summaries are values in a map rather than shared objects.
- Decision ledger: frame category, reason counts, intent classification and the copied payloads.
- PostgreSQL, Upbit, Telegram, Fastify, configuration schemas, redaction and command line code: input and output, or declarative tables.
- Lifecycle state-machine tables, the linear cost sums, the aggregation of exit rules into a decision, and the classification of markets into a universe: tables and per-item tests.
