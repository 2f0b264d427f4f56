# Verification of the BEL matching, fact, close and cutover rules

This project models, in Dafny 4.11, the parts of BEL that decide who gets what: which contract an invoice or payment is matched to, which revision of a fact is current, which accrual an invoiced quantity reverses, whether a cutover agrees with its baseline, and a handful of guards around them. For each it proves what holds of every input, every run or every reachable state. `dafny verify dfyconfig.toml` checks all of it.

## What is modelled

- **Matching (M001)**: `MatchingRules` holds the records, keys, candidate pools, cohorts, the capacity arithmetic, the canonical pairing and one subject's decision. `MatchingTheorems` proves the capacity rules of one pass and `MatchingOutcomes` what the pass decides; `MatchingDecisions` and `MatchingRecords` say of the stored rows alone when each decision is taken, what it records and when a human's confirmation is accepted. `MatchingSystem` runs passes, human confirmations and arrivals in any order. `MatchingEngine` is the pass as it executes, with its lazily filled capacity table, blocked set, canonical map and counters, proved equal to the rules.
- **Fact revisions**: `FactRevisionRules` is the append-only chain behind ContractItem and Contract facts. A supplement or correction is split into the read that prepares it and the compare-and-swap that installs it, so any number of writers may interleave; the ledger import adds Contracts without asking whether one of that identity exists. `FactRevisionTheorems` proves what every interleaving keeps, `FactRevisionReplay` what a call on record is answered in every later state, and `FactRevisionIntents` what each command may change and when it is accepted; `FactRevisionStore` holds the rows and runs the commands.
- **Period close**: `Rounding` and `PeriodCloseRules` give the balances and one item's outcome in exact rationals; `PeriodCloseTheorems`, `PeriodCloseGuarantees` and `PeriodCloseOrder` prove the arithmetic, the shared-quantity rule and independence from listing order; `NewAccrualRules`, `NewAccrualTheorems` and `NewAccrualOrder` do the same for new accruals, where the listing can matter; `PeriodCloseMeanings` says what their terms mean of the stored rows; `PeriodCloseEngine` computes the preview with index tables and loops.
- **Cutover reconciliation**: `Values` is normalization and value equality, `Snapshots` the two-pass snapshot builder, `Reconciliation` the validation and the four-loop comparison; `ValueMeaning` and `ReconciliationMeaning` say field by field what agreement, a pass and each finding mean.
- **Smaller cores**: `PaymentBackfill` (identity-aware bank rows), `ItemAllocations`, `ItemAllocationTheorems`, `AllocationDecisions`, `CloseFactTrace`, `CloseFactReimport`, `AllocationBalances`, `LineReversals` and `AllocationDesk` (the allocation guard, its four writers, what a close-fact pack books and when its entries may come again, what reversals take from allocations and lines), `LinkProtocol`, `LinkProtocolTheorems` and `LinkAcceptance` (the one-current-link trigger between concurrent transactions), `MigrationImmutability` (the commit-by-commit checker).
- `Options`, `Strings`, `Sequences` and `Keys` are shared helpers.

Ids are natural numbers, dates integers, matched amounts whole cents, quantities and costs of the period close exact rationals. Repositories are sequences or maps; reads see the writes made before them.

Where the code and its comments part, the model follows the code:

- A ContractItem correction may turn a known field back into an unknown one; only Contract facts guard against it (`ItemFieldMayBeForgotten`, and exactly when in `ItemFieldSurvives`).
- A contract whose complete items are all guarded by open accruals is reported as missing its basis although one is recorded; the comment says there is nothing to do (`GuardedItemReportedWithoutBasis`, and exactly when in `NoBasisDespiteBasis`). A contract whose only basis is for an incomplete item is not mentioned at all (`IncompleteItemNotMentioned`, and exactly when in `SilentExactly`).
- A Contract's number and counterparty are not unique, and the ledger import adds an anchor a row. So a create call that was a replay is refused as ambiguous once a ledger row names its identity (`LedgerRowMakesCreateAmbiguous`, and exactly when in `ContractCreateReplayedUntilImported`). The import reports only conflicts among its own rows, so it may report none.
- The import of reversals checks neither their sign nor their size, so an allocation can be overdrawn (`ReversalNeverRefused`). It stays within its quantity exactly when each reversal booked fits (`WithinThroughout`, `ImportWithinExactly`), and over every run whose imports fit (`RunWithin`); that is what the preview's own guarantee starts from.
- Superseding an item allocation keeps the line's current allocations within its quantity, but the reversals stay with the superseded row: what they had consumed is offered again, exactly as much (`SupersessionOffersConsumedAgain`). A line's quantity is reversed at most once over every run whose imports fit and whose supersessions retire only what nothing was reversed against (`LineReversedOnce`).
- A close-fact file is never read twice. The passes over its entries are meant to be repeatable, since each skips what it finds: the same entries in another file are always accepted, and they change nothing exactly when each reversal is already booked against the allocation its line and item lead to by then (`ReimportIdleExactly`, `FileAgain`). So they are idle unless something was superseded in between (`ReimportIdleWithoutSupersession`); after a supersession the reversal may be booked a second time (`ReversedTwiceAroundReplacement`).
- Of several bases of an item the one listed last counts, of several oldest bases and of several earliest cost facts the one listed first, and no listing is ordered (`LastBasisCounts`). The needs of a period forget the listing exactly when no such tie matters (`NeedsForgetExactly`).
- A manual request repeated verbatim is refused for ever; written with another number of decimal places it is another payload (`RewrittenRequestPasses`).
- The `WHERE NOT EXISTS` guard inside the link insert is not enough between concurrent PostgreSQL transactions; the trigger's lock is what makes the rule hold (`GuardAloneFails` against `OneCurrentLinkAlways`).
- The period close counts a contract-level purchase allocation of any confirmation type when it asks for an item match, and only confirmed ones when it suppresses a new accrual; `ContractInvoiced` and `Suppressed` keep that difference.

## Model

| member | source | states |
|---|---|---|
| MatchingOutcomes.DecisionAlone | src/bel/application/matching.py:324-543 | In any interleaved subject list each unresolved subject gets the decision, status and contract that the pass gives it when run on its (counterparty, amount) cohort alone |
| MatchingOutcomes.LeftAlone | src/bel/application/matching.py:275-281 | At every point of the pass the capacity left on a cohort's contracts is what its own members alone would have left |
| MatchingTheorems.TakenByOwnCohort | src/bel/application/matching.py:149-162 | A contract's own counterparty and gross amount fix the only cohort that can take it |
| MatchingTheorems.PartnersBijective | src/bel/application/matching.py:382-387 | The canonical pairing is a bijection between the members and the pool |
| MatchingTheorems.ReservedUntilUsed | src/bel/application/matching.py:349-387 | No other subject of any cohort takes a contract that the canonical pairing reserves |
| MatchingTheorems.CanonicalHasExactCapacity | src/bel/application/matching.py:419-421 | When the canonical branch, which does not re-check capacity, is reached, its contract has exactly the subject's amount left |
| MatchingTheorems.ConfirmationFits | src/bel/application/matching.py:396-543 | Every confirmation, canonical or greedy, fits what its contract has left at that moment |
| MatchingTheorems.PassWithin | src/bel/application/matching.py:275-281 | A pass that starts within the gross amounts stays within them after every decision |
| MatchingOutcomes.UndefinedButInterchangeable | src/bel/application/matching.py:329-421 | An undefined chronology that may be canonicalised confirms every member, one contract each, covers the whole pool and leaves nothing on any contract |
| MatchingOutcomes.UndefinedAndBlocked | src/bel/application/matching.py:422-541 | An undefined chronology that may not be canonicalised confirms no member, sends each to a human and moves no capacity of the pool |
| MatchingOutcomes.CasesListTheirPool | src/bel/application/matching.py:283-291 | To the end of the pass a case left to a human lists its whole static pool, a confirmed one its contract, an unmatched one nothing |
| MatchingOutcomes.GreedyClosedForm | src/bel/application/matching.py:432-509 | In a dated cohort of positive amount the i-th member gets the i-th initially viable contract by (date, number, id), or capacity exceeded beyond them |
| MatchingOutcomes.GreedyCount | src/bel/application/matching.py:432-509 | Of m members against n viable contracts exactly min(m, n) are confirmed |
| MatchingDecisions.DecisionExactly | src/bel/application/matching.py:324-543 | Said of contracts, subjects and confirmed sums alone: exactly when a subject has no candidate, is over capacity, is left to a human, is paired canonically, and otherwise which contract with room it gets and under which label |
| MatchingDecisions.LoneSubject | src/bel/application/matching.py:498-541 | A subject without competitors is left to a human exactly when several corresponding contracts have room and it or one of them has no date |
| MatchingDecisions.PartnersInOrder | src/bel/application/matching.py:382-387 | In the canonical pairing the identity that comes first gets the contract whose (number, counterparty) comes first |
| MatchingRecords.ParticipantsExactly | src/bel/application/matching.py:256-303 | A pass takes exactly the procurement subjects of its kind whose counterparty some contract has and that no case names |
| MatchingRecords.ProcessingOrder | src/bel/application/matching.py:165-206 | Subjects are decided dated first, by date, business key or bank reference, and id; contracts listed dated first, by date, number and id |
| MatchingRecords.IdentityTells | src/bel/application/matching.py:209-225 | Invoices are identified by the first usable business key, payments by account, date, direction, amount and reference together, none missing |
| MatchingRecords.EveryDecisionOnRecord | src/bel/application/matching.py:396-580 | To the end of a pass each subject has its case with its status, and the allocation, capacity task or event its decision calls for |
| MatchingRecords.FirstListedIsFirst | src/bel/application/matching.py:456-465 | A capacity task names the corresponding contract listed before all others |
| MatchingRecords.CountersCount | src/bel/application/matching.py:256-261 | Each counter of the summary is the number of subjects so decided, and its ids are theirs in order |
| MatchingSystem.EveryRunKeepsInv | src/bel/application/matching.py:583-846 | Through any sequence of arrivals, passes, proposed sales cases and human confirmations the case, allocation and capacity invariant holds |
| MatchingSystem.NeverOverAllocated | src/bel/application/matching.py:786-822 | In every run the confirmed allocations of one subject kind on a contract never exceed its gross amount |
| MatchingSystem.OneCaseOneAllocation | src/bel/application/matching.py:435-580 | In every run a subject has at most one case; a settled case owns exactly one allocation of the subject's full amount, any other case none |
| MatchingSystem.ApplyEvolves | src/bel/application/matching.py:758-838 | The only status change an action makes is from pending to resolved, and allocations are only appended |
| MatchingSystem.RunEvolves | src/bel/application/matching.py:758-838 | Over a whole run earlier cases stay, or were pending and are resolved; earlier allocations stay |
| MatchingSystem.SecondPassWritesNothing | src/bel/application/matching.py:298-303 | A later pass over the same contracts and subjects, whatever confirmations and passes came between, writes nothing |
| MatchingSystem.ListingDoesNotMatter | src/bel/application/matching.py:165-225 | Any permutation of what the repositories list gives the same pass and the same ledger |
| MatchingSystem.SummaryPartitions | src/bel/application/matching.py:256-261 | The counters partition the eligible subjects and agree with the cases, allocations and tasks written |
| MatchingRecords.ConfirmedExactly | src/bel/application/matching.py:755-838 | A human confirmation is accepted exactly when its case is pending, its subject a stored procurement row and the contract stored with room for the whole amount; then it resolves that case and adds that one allocation |
| MatchingRecords.RefusedExactly | src/bel/application/matching.py:755-822 | And otherwise exactly why a confirmation of a pending case is refused |
| MatchingRecords.LeftToHumanCanBeConfirmed | src/bel/application/matching.py:786-822 | Whoever a pass leaves to a human can be confirmed on any corresponding contract that has room afterwards |
| MatchingRecords.BlockedCanBeConfirmed | src/bel/application/matching.py:422-430 | Every member of a blocked cohort can be confirmed on any corresponding contract with exactly its amount left |
| MatchingEngine.Engine.Remaining | src/bel/application/matching.py:275-281 | A cached capacity always equals the one recomputed from the stored allocations |
| MatchingEngine.Engine.ViableCandidates | src/bel/application/matching.py:340 | Finds exactly the candidates that can still take the amount, through the cache |
| MatchingEngine.Engine.Pair | src/bel/application/matching.py:377-387 | Sorting members and contracts by identity yields the canonical pairing, however the candidate set is enumerated |
| MatchingEngine.Engine.PlanCohort | src/bel/application/matching.py:331-387 | Decides exactly whether a cohort's chronology is undefined and whether it may be canonicalised |
| MatchingEngine.Engine.GroupCohorts | src/bel/application/matching.py:324-327 | Groups the unresolved subjects by (counterparty, amount), each cohort in processing order |
| MatchingEngine.Engine.SnapshotCohort | src/bel/application/matching.py:329-387 | Blocks or pairs exactly the subjects of one cohort and leaves every other plan as it was |
| MatchingEngine.Engine.Choose | src/bel/application/matching.py:419-509 | Takes the decision of the rules from the blocked set, the canonical map and the cached capacity |
| MatchingEngine.Engine.Record | src/bel/application/matching.py:435-580 | Appends the rows of a decision and charges the cache so that it stays exact |
| MatchingEngine.Engine.RunMatchPass | src/bel/application/matching.py:228-580 | The loops compute the specified pass and its summary |
| MatchingEngine.Engine.MatchInvoices | src/bel/application/matching.py:583-665 | Matching invoices runs the specified pass over the PURCHASE invoices in business order |
| MatchingEngine.Engine.MatchPayments | src/bel/application/matching.py:668-736 | Matching payments runs the specified pass over the OUT payments in business order |
| MatchingEngine.Engine.ConfirmByHuman | src/bel/application/matching.py:739-846 | A confirmation either makes the specified change or reports its reason and changes nothing |
| FactRevisionTheorems.StepKeepsInv | src/bel/application/contract_item_facts.py:435-490 | Each step of any writer, commits of stale preparations included, keeps one linear chain per anchor |
| FactRevisionTheorems.EveryRunKeepsInv | src/bel/application/contract_facts.py:292-337 | Under any interleaving of writers and ledger imports every anchor has one linear chain and each fragment backs at most one of its revisions |
| FactRevisionTheorems.OneHeadOneTail | migrations/postgresql_versions/f5796c006707_postgresql_baseline.py:308-315 | Each anchor has exactly one INITIAL and exactly one current revision |
| FactRevisionTheorems.NoForks | src/bel/application/contract_item_facts.py:473-486 | No two revisions are superseded by the same one, and a superseding revision is of the same anchor and never INITIAL |
| FactRevisionTheorems.SnapshotIsFold | src/bel/application/contract_item_facts.py:435-490 | Every stored snapshot is the last-writer-wins fold of the fields asserted along its chain |
| FactRevisionTheorems.AppendExtendsChain | src/bel/application/contract_item_facts.py:473-486 | An installed revision becomes the new tail of its anchor's chain |
| FactRevisionTheorems.AppendKeepsPending | src/bel/application/contract_item_facts.py:435-490 | Installing one writer's revision leaves every other prepared revision sound |
| FactRevisionIntents.IntentsKept | src/bel/application/contract_item_facts.py:435-462 | Over every run, a SUPPLEMENT repeats all its predecessor knew, and a CORRECTION differs only in fields that were known there |
| FactRevisionIntents.PreparedExactly | src/bel/application/contract_facts.py:256-319 | A supplement or correction is prepared exactly when it is well formed, its evidence is new to the anchor, its base is current, and it only adds, or only replaces, what is known |
| FactRevisionIntents.PreparedStates | src/bel/application/contract_facts.py:315-327 | What is prepared states the asserted fields as asserted and the others as the base has them |
| FactRevisionIntents.AnsweredExactly | src/bel/application/contract_item_facts.py:412-462 | Which answer a well-formed call gets when it is not prepared: replay, conflict of intent or content, stale base, already known, nothing to correct |
| FactRevisionIntents.IllFormedExactly | src/bel/application/contract_facts.py:253-273 | And why an ill-formed one is rejected |
| FactRevisionIntents.CreatedExactly | src/bel/application/contract_facts.py:137-196 | A create call makes an anchor that knows exactly what it states, or is answered by comparing its content and evidence with the INITIAL revision of the one anchor that bears its identity |
| FactRevisionReplay.WrittenIsRecorded | src/bel/application/contract_item_facts.py:412-470 | A prepared call that commits is on record from then on, whatever steps came in between |
| FactRevisionReplay.InstallRecords | src/bel/application/contract_item_facts.py:286-303 | A create call that creates its anchor is on record from then on |
| FactRevisionReplay.RecordedIsReplay | src/bel/application/contract_item_facts.py:412-433 | A recorded supplement or correction can only be answered as a replay and prepares nothing |
| FactRevisionReplay.ReplayForEver | src/bel/application/contract_item_facts.py:174-209 | Exact replay is stable in every later state of every run |
| FactRevisionReplay.LedgerRowRecords | src/bel/application/contract_facts.py:90-104 | A ledger row, which records no field names, answers a create call with its known fields as if it had been created by it |
| FactRevisionReplay.ItemCreateIsReplay | src/bel/application/contract_item_facts.py:261-284 | A ContractItem create call on record is a replay answered by its own anchor: the contract and key identify it |
| FactRevisionReplay.CreateReplayForEver | src/bel/application/contract_item_facts.py:261-284 | A ContractItem create call that once created its anchor is a replay in every later state and writes nothing |
| FactRevisionReplay.CreateRecordedAnswer | src/bel/application/contract_facts.py:146-178 | A create call on record is a replay exactly when one anchor bears its identity and ambiguous exactly when several do |
| FactRevisionReplay.BearersCounted | src/bel/application/import_contract_ledger.py:146-160 | Once an identity is borne, only ledger rows add bearers, one each |
| FactRevisionReplay.ContractCreateReplayedUntilImported | src/bel/application/contract_facts.py:146-178 | Over any run a Contract create call on record stays a replay exactly as long as one anchor bears its identity and no ledger row names it, and is ambiguous for ever after |
| FactRevisionReplay.LedgerRowMakesCreateAmbiguous | src/bel/application/import_contract_ledger.py:146-160 | A concrete run in which one ledger row makes a replayed create call ambiguous while the import reports no conflict |
| FactRevisionTheorems.ContractAmountsStayKnown | src/bel/application/contract_facts.py:256-267 | A Contract's gross amount and currency are known in every revision of every run |
| FactRevisionTheorems.ItemFieldSurvives | src/bel/application/contract_item_facts.py:306-369 | A known ContractItem field stays known exactly when the call does not assert it as NULL |
| FactRevisionTheorems.ItemFieldMayBeForgotten | src/bel/application/contract_item_facts.py:149-158 | A concrete correction that turns a known unit into an unknown one |
| FactRevisionStore.FactStore.CreateFact | src/bel/application/contract_facts.py:113-196 | The create command makes exactly the specified transition, the ambiguous outcome included, and keeps the chains |
| FactRevisionStore.FactStore.ImportContractLedger | src/bel/application/import_contract_ledger.py:143-165 | Every row becomes a new Contract with its INITIAL revision, and the numbers several rows bear are reported with exactly their anchors |
| FactRevisionStore.BearersConflict | src/bel/application/import_contract_ledger.py:162-165 | A number has several new anchors exactly when two of the import's rows bear it |
| FactRevisionIntents.LedgerRecorded | src/bel/application/import_contract_ledger.py:146-160 | Every ledger row is recorded under an anchor of its own with its number, counterparty, buyer and amount, in CNY and undated |
| FactRevisionStore.FactStore.Read | src/bel/application/contract_item_facts.py:392-470 | The read half answers or prepares as specified |
| FactRevisionStore.FactStore.AppendRevision | src/bel/application/contract_item_facts.py:473-486 | Retire-then-insert happens only while the base is current and otherwise writes nothing |
| FactRevisionStore.FactStore.ReviseFact | src/bel/application/contract_item_facts.py:392-490 | A supplement or correction answers or installs exactly one revision, as specified, and keeps the chains |
| FactRevisionStore.FactStore.ListRevisions | src/bel/infrastructure/persistence/repositories.py:900-921 | Walking the successors from the INITIAL revision lists the whole chain in order |
| Rounding.QuantizeNearest | src/bel/application/period_close.py:166-167 | Rounding gives whole cents at most half a cent away, a tie away from zero |
| Rounding.QuantizeMonotone | src/bel/application/period_close.py:166-167 | Rounding never reverses an order |
| PeriodCloseTheorems.ReversalOrigin | src/bel/application/period_close.py:320-369 | A previewed reversal comes from an item's only open accrual and its only allocation with quantity unclaimed |
| PeriodCloseTheorems.ReversalConserves | src/bel/application/period_close.py:352-369 | Already reversed, previewed and projected remaining add up to the original, for quantity and cost; a full clear leaves nothing |
| PeriodCloseGuarantees.PartialCostNearShare | src/bel/application/period_close.py:357-359 | A partial reversal costs its pro-rata share to within half a cent |
| PeriodCloseGuarantees.DifferenceNearShare | src/bel/application/period_close.py:361-399 | The actual cost is the invoice's share to the cent and the difference is actual less reversed, exactly so for whole cents |
| PeriodCloseGuarantees.FreshCostWithinEstimate | src/bel/application/period_close.py:352-359 | On a fresh accrual with a cent-grid estimate the reversal cost lies between zero and the estimate |
| PeriodCloseGuarantees.PreviewExtendsChain | src/bel/application/period_close.py:320-369 | A previewed reversal, once recorded, extends the accrual's chain of reversals as previewed |
| PeriodCloseGuarantees.DriftBounded | src/bel/application/period_close.py:357-359 | k partial reversals recorded as previewed drift at most k half-cents from the pro-rata share |
| PeriodCloseGuarantees.FinalClearIsExact | src/bel/application/period_close.py:353-356 | After any such chain a clearing reversal makes the total exactly the estimated cost |
| PeriodCloseGuarantees.NoZeroDivision | src/bel/application/period_close.py:358-365 | With no negative reversal on record the preview never divides by zero |
| PeriodCloseGuarantees.BlockerMeansRealChoice | src/bel/application/period_close.py:332-346 | The multiple-allocations blocker implies at least two allocations with unclaimed quantity |
| PeriodCloseGuarantees.OutcomeExactly | src/bel/application/period_close.py:276-346 | Exactly when an item yields nothing, which blocker, or a reversal; the check for an empty balance never fires |
| PeriodCloseGuarantees.ReversalFitsAllocation | src/bel/application/period_close.py:291-352 | What is consumed of the funding allocation plus the reversal stays within its quantity |
| PeriodCloseGuarantees.NoAllocationFundsTwo | src/bel/application/period_close.py:251-399 | No allocation funds two previewed reversals and no item is reversed twice |
| PeriodCloseGuarantees.SharedQuantityNeverDoubleSpent | src/bel/application/period_close.py:291-305 | Recording everything a preview asks for keeps every allocation within its quantity |
| PeriodCloseMeanings.OpenMeans | src/bel/application/period_close.py:251-254 | Open is an accrual of which its reversals leave some quantity and some cost |
| PeriodCloseMeanings.QualifyingMeans | src/bel/application/period_close.py:258-275 | An allocation qualifies exactly when it is of the item and its line belongs to a purchase invoice dated within the period |
| PeriodCloseMeanings.UnclaimedMeans | src/bel/application/period_close.py:291-305 | Unclaimed is what no recorded reversal of any accrual has taken |
| PeriodCloseMeanings.ContractInvoicedMeans | src/bel/application/period_close.py:276-290 | An item match is asked for whatever the confirmation of the allocation that ties such an invoice to the contract |
| PeriodCloseMeanings.ReversalTakes | src/bel/application/period_close.py:347-369 | A reversal takes as much as the only open accrual and the only allocation with anything unclaimed both have, and all remaining cost if it clears |
| PeriodCloseMeanings.SharesMean | src/bel/application/period_close.py:355-380 | A pro-rata share is to the whole as the part is to the quantity |
| PeriodCloseTheorems.PreviewMembers | src/bel/application/period_close.py:256-399 | The preview holds exactly what some item with open accruals yields |
| PeriodCloseOrder.OrderDoesNotMatter | src/bel/application/period_close.py:251-399 | Relisting accruals, reversals and allocations in any order gives the same reversals, differences and blockers |
| PeriodCloseOrder.DecideForgets | src/bel/application/period_close.py:276-346 | One item's outcome does not depend on listing order |
| NewAccrualTheorems.RequiredExactly | src/bel/application/period_close.py:408-448 | An item is required exactly when its contract is recognised and not yet invoiced, and it is complete, without an open accrual and with a basis |
| NewAccrualTheorems.OutcomeExactly | src/bel/application/period_close.py:450-479 | When each of requirements, contract-level candidate and missing basis arises |
| NewAccrualTheorems.NoBasisDespiteBasis | src/bel/application/period_close.py:453-479 | Exactly when a missing basis is reported although a basis is recorded |
| NewAccrualTheorems.GuardedItemReportedWithoutBasis | src/bel/application/period_close.py:478-479 | A concrete contract, guarded by an open accrual and with a basis, reported as missing it |
| NewAccrualTheorems.IncompleteItemNotMentioned | src/bel/application/period_close.py:453-479 | A concrete contract, due and with a basis recorded for its one incomplete item, that no list mentions |
| NewAccrualTheorems.SilentExactly | src/bel/application/period_close.py:453-479 | Exactly when a recognised, uninvoiced contract is not mentioned at all |
| NewAccrualTheorems.OneKindPerContract | src/bel/application/period_close.py:408-479 | No contract appears in two of requirements, candidates and missing bases |
| NewAccrualTheorems.RequiredNeverReversed | src/bel/application/period_close.py:402-432 | Required items have no open accrual, so none is an item the same preview reverses |
| NewAccrualTheorems.RequiredOnce | src/bel/application/period_close.py:430-448 | No item is required twice |
| NewAccrualTheorems.RequirementTraced | src/bel/application/period_close.py:425-447 | A requirement states the quantity and cost of a recorded basis for that item and names the earliest cost fact |
| NewAccrualTheorems.CandidateTraced | src/bel/application/period_close.py:464-477 | A candidate states the cost of the contract's oldest basis and names the earliest cost fact |
| NewAccrualTheorems.SuppressedForEver | src/bel/application/period_close.py:215-237 | A contract silenced by a confirmed purchase invoice stays silent at every later period end |
| PeriodCloseMeanings.SuppressedMeans | src/bel/application/period_close.py:215-237 | A new accrual is suppressed exactly by a confirmed allocation of a purchase invoice dated within the period |
| NewAccrualOrder.OutcomeForgetsExactly | src/bel/application/period_close.py:425-464 | A contract's outcome is the same under every relisting exactly when no tie between its bases or cost facts matters to it |
| NewAccrualOrder.NeedsForgetExactly | src/bel/application/period_close.py:402-479 | The needs of a period are the same under every relisting of the facts exactly when no contract has such a tie |
| NewAccrualOrder.LastBasisCounts | src/bel/application/period_close.py:425 | Two bases of one item, listed both ways, require two different costs |
| NewAccrualRules.Earliest | src/bel/application/period_close.py:427 | The recognition fact chosen is one of the facts and none is earlier |
| PeriodCloseEngine.IndexOpenAccruals | src/bel/application/period_close.py:251-254 | The table lists each item's open accruals, and its keys come in the order they are first met |
| PeriodCloseEngine.ConsumptionOf | src/bel/application/period_close.py:291-303 | The consumption table is right for every qualifying allocation and its values sum to all that is consumed |
| PeriodCloseEngine.PeriodClosePreview.ReverseItem | src/bel/application/period_close.py:256-399 | The loop body emits exactly one item's outcome |
| PeriodCloseEngine.PeriodClosePreview.ReverseAll | src/bel/application/period_close.py:244-399 | The reversal half is the specified preview, failing exactly when some item divides by zero |
| PeriodCloseEngine.PeriodClosePreview.RequireContract | src/bel/application/period_close.py:408-479 | One contract's part of the new-accrual loop is its specified outcome |
| PeriodCloseEngine.PeriodClosePreview.Compute | src/bel/application/period_close.py:179-481 | The whole computation is the specified preview followed by the specified needs |
| Values.AgreeIsEquivalence | src/bel/application/cutover_reconciliation.py:188-213 | Agreement after normalization is an equivalence |
| ValueMeaning.AgreeExactly | src/bel/application/cutover_reconciliation.py:188-213 | Dictionaries agree only with the same keys and, field by field, the identical text, the same number, null with null, and the same through objects and lists; without lists exactly then |
| ValueMeaning.ListsAgreeExactly | src/bel/application/cutover_reconciliation.py:202-203 | Lists whose elements print alike just when equal agree exactly when they match one to one in some order |
| ValueMeaning.ZerosMatterInTexts | src/bel/application/cutover_reconciliation.py:204-209 | Leading zeros tell contract numbers apart and not amounts |
| Values.DifferingExplains | src/bel/application/cutover_reconciliation.py:541-546 | The differing fields reported are none exactly when the two values agree |
| Values.ListOrderDoesNotMatter | src/bel/application/cutover_reconciliation.py:202-203 | A list normalizes the same in any order if what prints alike is alike |
| Snapshots.LandingsApart | src/bel/application/cutover_reconciliation.py:282-301 | Two entries share a snapshot key only when they are repeats of a key that legally collapse: nothing else is overwritten |
| Snapshots.ObservationsAgree | src/bel/application/cutover_reconciliation.py:262-301 | Every observation agrees with what the snapshot holds under its key |
| Snapshots.NoMarkers | src/bel/application/cutover_reconciliation.py:282-301 | The snapshot has no `unresolved:` key exactly when no entry is one and every repeat collapses |
| Snapshots.DigitsDiffer | src/bel/application/cutover_reconciliation.py:257-260 | Different ordinals never write the same marker key |
| Snapshots.SnapshotBuilder.AddUnresolved | src/bel/application/cutover_reconciliation.py:257-260 | A marker is appended under a key no earlier or later marker has |
| Snapshots.SnapshotBuilder.DedupeEligible | src/bel/application/cutover_reconciliation.py:262-280 | Finds exactly the repeated keys that may collapse |
| Snapshots.SnapshotBuilder.Build | src/bel/application/cutover_reconciliation.py:282-301 | The second pass yields the specified snapshot |
| Reconciliation.ValidateBaseline | src/bel/application/cutover_reconciliation.py:159-176 | Accepts exactly the well-shaped baselines; an empty entries list is legal |
| Reconciliation.ReportedOnce | src/bel/application/cutover_reconciliation.py:480-562 | Every key that is no marker is reported exactly once if the snapshot or the baseline has it |
| Reconciliation.PassesExactly | src/bel/application/cutover_reconciliation.py:486-562 | Nothing is unresolved exactly when there is no marker, baseline keys are distinct and adjudicable, key sets coincide and values agree |
| Reconciliation.PassesExactlyOnObservations | src/bel/application/cutover_reconciliation.py:262-567 | A run passes exactly when every single observation, repeats included, agrees with the baseline and repeats only where that is legal |
| ValueMeaning.PassStatesEveryField | src/bel/application/cutover_reconciliation.py:532-546 | In a passing run every observation has exactly the fields its baseline entry expects, each text identical and each amount the same number |
| ReconciliationMeaning.ReportSays | src/bel/application/cutover_reconciliation.py:475-562 | What the one finding about a key says: named twice, not at all, not adjudicated, not observed, different and in which fields, or as recorded |
| ReconciliationMeaning.RepeatMarked | src/bel/application/cutover_reconciliation.py:282-301 | An illegal or contradictory repeat leaves for each of its observations a marker that names the key |
| ReconciliationMeaning.ManyToOneMeans | src/bel/application/cutover_reconciliation.py:100-104 | Repeats are legal in three namespaces |
| ReconciliationMeaning.ShapedMeans | src/bel/application/cutover_reconciliation.py:159-176 | What a baseline must look like, field by field |
| ReconciliationMeaning.EntriesMean | src/bel/application/cutover_reconciliation.py:473-530 | Each baseline entry is read as it stands |
| Reconciliation.Reconcile | src/bel/application/cutover_reconciliation.py:457-567 | The four loops report exactly the specified findings, once each and sorted, and pass exactly when snapshot and baseline fit |
| Reconciliation.RunReconciliation | src/bel/application/cutover_reconciliation.py:457-567 | Validation, snapshot and comparison together: passed means every raw observation agrees |
| LinkProtocolTheorems.OneCurrentLinkAlways | migrations/postgresql_versions/f5796c006707_postgresql_baseline.py:52-77 | In every interleaving at most one committed current link exists per (procurement, sales) pair and no link is superseded twice |
| LinkAcceptance.InsertedExactly | migrations/postgresql_versions/f5796c006707_postgresql_baseline.py:52-77 | With its lock free and its id new, a link is entered exactly when the transaction sees no current link of the pair; otherwise the insert fails |
| LinkAcceptance.InsertWaits | migrations/postgresql_versions/f5796c006707_postgresql_baseline.py:52-77 | While another transaction holds the lock an insert waits |
| LinkAcceptance.CorrectedExactly | migrations/postgresql_versions/f5796c006707_postgresql_baseline.py:547-560 | A correction is entered exactly when no other of its link is committed or under way and both links it names are seen |
| LinkAcceptance.EndedExactly | migrations/postgresql_versions/f5796c006707_postgresql_baseline.py:52-77 | A commit publishes exactly what the transaction wrote, an abort nothing |
| LinkProtocolTheorems.StepKeepsInv | migrations/postgresql_versions/f5796c006707_postgresql_baseline.py:52-77 | Each lock, check, insert, correction, savepoint rollback, commit and abort keeps the protocol's invariant |
| LinkProtocolTheorems.OneCurrentMerged | migrations/postgresql_versions/f5796c006707_postgresql_baseline.py:55-68 | A commit leaves every other transaction seeing at most one current link per pair |
| LinkProtocolTheorems.CommitKeepsLineage | migrations/postgresql_versions/f5796c006707_postgresql_baseline.py:547-560 | Committing corrections never forks the lineage |
| LinkProtocolTheorems.GuardAloneFails | src/bel/infrastructure/persistence/repositories.py:1562-1602 | Without the trigger's lock two transactions that both check first leave two current links of one pair |
| MigrationImmutability.CleanExactlyWhenFrozen | tools/check_migration_immutability.py:114-162 | The history check reports nothing exactly when every commit leaves all watched files of its parent as they were |
| MigrationImmutability.ReportedExactly | tools/check_migration_immutability.py:114-162 | The history check reports exactly what some commit does to a watched file it must not touch, with the reason |
| MigrationImmutability.WatchedMeans | tools/check_migration_immutability.py:51-64 | Watched are the Python files under either directory of migrations |
| MigrationImmutability.FrozenForEver | tools/check_migration_immutability.py:114-162 | In a clean history every tree extends every earlier one |
| MigrationImmutability.CheckStaged | tools/check_migration_immutability.py:87-100 | The staged check is clean exactly when the index extends the head, and reports each offending file with its status |
| MigrationImmutability.CheckHistory | tools/check_migration_immutability.py:130-162 | The nested loops report what the history's own trees say, re-additions only for files of the merge base |
| MigrationImmutability.CheckBoth | tools/check_migration_immutability.py:87-162 | Every commit of a range passed its staged check exactly when the history check passes |
| MigrationImmutability.FinalDiffHidesEdit | tools/check_migration_immutability.py:33-42 | Adding a file and editing it in the next commit is reported although the range's own diff shows one addition |
| PaymentBackfill.IdentitiesStayUnique | src/bel/application/cutover_backfill.py:763-803 | A run adds a payment only under an identity that has none |
| PaymentBackfill.EveryRowAccountedFor | src/bel/application/cutover_backfill.py:712-805 | Every row leaves one fragment and exactly one of excluded, created, replayed or task |
| PaymentBackfill.StepSettles | src/bel/application/cutover_backfill.py:712-803 | Whatever a row meets, afterwards it would change nothing |
| PaymentBackfill.DispositionExactly | src/bel/application/cutover_backfill.py:756-803 | What becomes of a row that bears an identity: created, replayed, conflicting or ambiguous, by the payments on record under it |
| PaymentBackfill.NamelessExactly | src/bel/application/cutover_backfill.py:724-755 | A row is excluded, or kept as a task for want of an identity, or bears one |
| PaymentBackfill.TaskKeysTell | src/bel/application/cutover_backfill.py:734-758 | Rows without an identity share a task only if they agree in all that is there and in their place |
| PaymentBackfill.RerunIsIdle | src/bel/application/cutover_backfill.py:176-199 | Running the same rows again creates no payment and no new open task |
| PaymentBackfill.PaidExactly | src/bel/application/cutover_backfill.py:712-803 | After a run an identity has a payment exactly when it had one before or a row bears it that is neither out of scope nor incomplete |
| PaymentBackfill.AddedFromRows | src/bel/application/cutover_backfill.py:516-529 | Every payment a run adds states one admitted row's identity and content and cites that row's fragment; a payment out names no party or one some contract has, unless there is no contract |
| PaymentBackfill.ResolveDecisions | src/bel/application/cutover_backfill.py:630-648 | The confirmed decisions apply only if each names exactly one row, and then all of them |
| PaymentBackfill.Backfill.FindOrCreateTask | src/bel/application/cutover_backfill.py:176-199 | Reuses the open task of the same kind and key, else appends one |
| PaymentBackfill.Backfill.BackfillRows | src/bel/application/cutover_backfill.py:671-805 | The row loop makes the specified transitions and its counters are right |
| ItemAllocationTheorems.AllocationKeepsSound | src/bel/application/item_allocation.py:63-103 | What the guard lets through keeps every line within its quantity and inside a confirmed contract |
| ItemAllocationTheorems.RefusedWouldBreak | src/bel/application/item_allocation.py:63-103 | What the guard refuses would break the line or the rules for one allocation |
| ItemAllocationTheorems.EveryRunIsSound | src/bel/application/import_close_facts.py:468-651 | Over any sequence of requests, supersessions and packs lines, allocations, their lineage, accruals, reversals and statuses stay sound |
| ItemAllocationTheorems.LineCapacityAlways | src/bel/application/item_allocation.py:93-103 | After any sequence of the four writers a line's current allocations sum to at most its quantity, each inside a contract confirmed for the invoice |
| AllocationDecisions.RequestedExactly | src/bel/application/allocate_invoice_item.py:64-179 | A manual request is accepted exactly when it names a line and an item on record, is new and fits, and then records one allocation that states it |
| AllocationDecisions.EntryExactly | src/bel/application/import_close_facts.py:546-581 | A pack's entry is accepted exactly when its pair is already placed or it fits, and records an allocation only in the second case |
| AllocationDecisions.ReplacedExactly | src/bel/application/whole_fact_supersession.py:273-339 | A replacement is accepted exactly when its target is current, its evidence another's and it fits beside the rest of the line |
| ItemAllocationTheorems.ImportCloseKeeps | src/bel/application/import_close_facts.py:468-651 | A close-fact pack keeps one accrual per item and period, one reversal per accrual and allocation, and statuses that match balances |
| CloseFactTrace.ImportStatesItsEntries | src/bel/application/import_close_facts.py:484-637 | After an accepted import every new accrual, allocation and reversal has the figures, item, period and line of some entry of the pack, and what was there before is as it was but for statuses |
| CloseFactTrace.EveryEntryBooked | src/bel/application/import_close_facts.py:484-637 | And every entry has its accrual, its current allocation, or a reversal that joins the two |
| CloseFactTrace.ImportRestates | src/bel/application/import_close_facts.py:639-648 | An accrual that gained a reversal is reversed, partially reversed or active by what is left of its quantity; any other keeps its status |
| CloseFactTrace.AccrualsAcceptedExactly | src/bel/application/import_close_facts.py:484-497 | Accrual entries are accepted exactly when each has an item and a period |
| CloseFactTrace.ReversalsAcceptedExactly | src/bel/application/import_close_facts.py:587-618 | Reversal entries are accepted exactly when the pack names the accrual and the allocation of each |
| ItemAllocationTheorems.CloseImportIsIdempotent | src/bel/application/import_close_facts.py:484-651 | The entries of a close-fact pack imported again at once change nothing |
| CloseFactReimport.ReimportIdleExactly | src/bel/application/import_close_facts.py:484-637 | In any later state the entries of an imported pack are accepted, and change nothing exactly when each reversal is booked by its accrual against the allocation found for its line and item then |
| CloseFactReimport.ReimportIdleWithoutSupersession | src/bel/application/import_close_facts.py:484-637 | Unless something is superseded in between, the entries of an imported pack change nothing in any later state |
| CloseFactReimport.FileAgain | src/bel/application/import_close_facts.py:278-285 | A file that was read is never read again; another file with its entries leaves only its digest exactly when it is known itself or all reversals are settled |
| ItemAllocationTheorems.FactPackIsIdempotent | src/bel/application/cutover_fact_pack.py:474-520 | Importing a fact pack's allocations again changes nothing |
| ItemAllocationTheorems.RepeatedRequestRefused | src/bel/application/allocate_invoice_item.py:110-120 | A manual request once recorded is refused as a duplicate in every later state of every run |
| ItemAllocationTheorems.SupersessionKeepsSound | src/bel/application/whole_fact_supersession.py:273-339 | A supersession keeps every line within its quantity over what is current, and the lineage does not fork |
| ItemAllocationTheorems.RefusedReplacementWouldBreak | src/bel/application/whole_fact_supersession.py:309-328 | A replacement the guard refuses would break the line or the rules for one allocation |
| AllocationBalances.WithinThroughout | src/bel/application/import_close_facts.py:613-637 | After every entry the allocations are within their quantity exactly when each reversal booked fits what is then unclaimed |
| AllocationBalances.ImportWithinExactly | src/bel/application/import_close_facts.py:468-651 | An import that fits overdraws no allocation; without negative quantities one that does not fit overdraws one |
| AllocationBalances.RunWithin | src/bel/application/import_close_facts.py:613-637 | Over a run whose imports all fit no allocation is ever overdrawn |
| AllocationBalances.ReversalNeverRefused | src/bel/application/import_close_facts.py:613-637 | A concrete run in which a reversal of any size and sign is recorded, overdrawing its allocation exactly when it exceeds it |
| AllocationBalances.SupersessionOffersConsumedAgain | src/bel/application/whole_fact_supersession.py:309-339 | A supersession changes what a line offers to reversals by the change in quantity and all that the superseded allocation had consumed |
| AllocationBalances.ReversedTwiceAroundReplacement | src/bel/application/import_close_facts.py:546-637 | A concrete run in which two files with the same entries, and a like-for-like supersession between them, reverse twice a line's quantity |
| LineReversals.LineReversedOnce | src/bel/application/import_close_facts.py:583-637 | Over every run whose imports fit and whose supersessions retire only what nothing is reversed against, all that is reversed against a line's allocations, current and superseded, stays within the line's quantity |
| LineReversals.ReversedByAllocation | src/bel/application/period_close.py:291-303 | Summed by reversal or by allocation, what is reversed against a line is the same |
| AllocationDesk.Desk.AllocateManually | src/bel/application/allocate_invoice_item.py:64-179 | A manual request is recorded, or refused for the first reason that holds with nothing changed |
| AllocationDesk.Desk.SupersedeAllocation | src/bel/application/whole_fact_supersession.py:273-339 | The replacement is inserted and the old allocation marked, or it is refused for the first reason that holds with nothing changed |
| AllocationDesk.Desk.ImportFactPack | src/bel/application/cutover_fact_pack.py:474-520 | A fact pack's allocations are all recorded, or none |
| AllocationDesk.Desk.ImportCloseFacts | src/bel/application/import_close_facts.py:274-651 | A known file is answered as such; otherwise the passes with their tables make the specified import, or leave everything as it was |
| AllocationDesk.Desk.RestateStatuses | src/bel/application/import_close_facts.py:639-648 | Exactly the accruals that gained a reversal get the status of their balance |

## Left out

- Counterparty normalization: a normalized name is a field beside the raw one; nothing is assumed of it.
- Decimal context precision, NaN and the exponent of a Decimal: amounts are whole cents or exact rationals, and numbers compare by value.
- Sessions, flush order, identifiers, hashes, clocks, evidence documents, and the parsing of workbooks, statements, JSON files and period strings.
- Contract gross amounts are fixed while allocations exist; corrections to them are not part of the matching model.
- Sales-side matching: a sales case appears only as one a procurement confirmation must refuse.
- Matching candidates are held as contracts rather than ids, and the comparison of the members' candidate sets, which cannot fail within a cohort, is not repeated.
- Event payloads beyond subject, contract and amount, and the order of events between two runs.
- The task that flags dependents of a corrected ContractItem, and revisions a migration carried over from before field names were recorded.
- Serialized writers are one atomic step each; only the fact revisions and the link protocol interleave.
- The order in which the period close visits contracts and their items, which decides nothing but the order of its lists.
- The historical accrual facts' own table: an imported accrual carries the fact it is given.
- Selectors of fact packs are resolved before an entry reaches the model; an unresolved one rejects the pack.
- Repository-level conflict answers around link inserts (replay, corroboration, ambiguity tasks) and deadlocks between lock holders.
- Transactions run at READ COMMITTED, where a statement sees what was committed before it began.
- The identity key of a backfill task is written out by a function of its parts; no two parts are assumed to read differently.
- Merge commits, quoting of unusual path names, and the resolution of the merge base.
- The digest that makes a repeated ledger file idle: a repeated file is no step. Two payloads of manual requests are assumed to have different digests, and no file the digest of one.
- Supersession of cost, basis and historical accrual facts, and the closed set of confirmation types.
- ItemAllocations.Find: of several current allocations of one line and item it returns the first, where the query has no order and may return any of them.
- Read-only projections, exports, the command line and the web application.
