# Chronolog DB, modelled in Dafny

Chronolog orders signed transactions by their author's timestamp and replays late arrivals, so nearly
everything it promises has the form "the same result however we got here". This project models the
parts of the system that carry those promises and proves them over every input, every run and every
reachable state.

The parts, and the files that hold them:

- **The materializer** (`Replay`, `Repository`, `MaterializerChecks`, `Materializer`, `MaterializerRuns`). A
  class with the database's branches and commits, the published reader, log, order and checkpoint list as fields. A
  call replays from a checkpoint on a scratch branch and publishes by moving one head ref; a `Plan` says
  where the environment interrupts it. The SQL engine is one deterministic step function in which a
  rejection keeps the application state. The reference is the fold of that step from genesis. Runs are
  scripts of submissions, faults, kills and restarts.
- **The control store** (`ControlStoreModel`, `ControlStoreLaws`, `ControlStoreSteps`, `ControlStore`, `Node`). The
  store as a value with one function for each operation, what each of them does, the laws of every run, and the
  mutable class with its binary search, proved to make exactly those steps. `Node` joins it to the materializer.
- **Closing history** (`Watermark`, `Cutoffs`, `ClosedHistory`, `ValidatorRecords`). The two watermark forms against
  one specification; the cutoff journal under crashes and failed writes; and validators as a state machine
  over their suspension points, run over that journal.
- **Admission** (`Policy`, `PolicySolver`, `Admission`, `AdmissionCloses`). Dynamic programming over capped
  states against the optimum over all subsets, and what an admitted transaction means for closed history.
- **The capability log** (`Capabilities`, `CapabilitySteps`, `CapabilityLaws`). Revisions and threshold recoveries as
  steps over a snapshot, and who is authorized after any log.
- **Codecs** (`BigEndian`, `Utf8`, `Cbor`, `CborLaws`, `CborCanonical`, `CborNormal`, `CborDecoder`,
  `CborWire`, `LogicalValue`, `LogicalWire`): deterministic CBOR as sections 3.4.3, 4.2.1 and 4.2.3 of RFC 8949 describe it, and the
  logical values on top of it.
- **The ordered-mutation rewrite** (`SqlLexer`, `SqlPieces`, `SqlRewrite`, `SqlTemplates`, `OrderedPlan`): the scanner,
  the placeholder numbering, and both templates as lists of pieces.
- **Kernels** (`Decimal`, `DecimalText`, `DecimalCodec`, `JsonText`, `JsonGrammar`, `JsonDocument`, `JsonLaws`,
  `JsonEquality`, `JsonTidy`, `JsonParser`, `JsonPatch`, `JsonChange`): exact rounding, canonical JSON against the
  grammar of RFC 8259, merge patches (RFC 7396) and patches (RFC 6902).

`Bytes`, `TextOrder`, `Sequences` and `Sorting` hold what the others share.

Hypotheses are stated where they are used: the transaction encoding is injective, the sixteen-digit
order digest has no collisions, moving the head ref and renaming a file are atomic, commits are never
collected, and, for what a restarted materializer accepts, a run uses a transaction id for one
transaction only. Hashes and signatures are opaque functions. Host strings are modelled by well-formed UTF-8
bytes or by Unicode scalar values; the host's decoder drops a leading byte order mark, and every result
says where that matters.

Where a promise turns out to be conditional, the exact condition is proved next to a concrete case
outside it:

- Checkpoint retention keeps max(2, retain) checkpoints: with a setting of one, genesis and the newest.
- Equal order keys make the store's order depend on arrival, and its own snapshot is then refused on
  restore. Keys that carry the transaction id, as the node builds them, are distinct.
- The restore check notices neither an admissible candidate missing from the order nor a number missing
  inside the delta run.
- A materializer call that fails behind the head move, or whose cleanup fails, can block later calls of
  the same process: the submitted order itself while its marker stands, and orders whose replay would
  start from a checkpoint that no longer fits. A restart clears both.
- Heartbeats are published from a timer and attestations from ingestion, with awaits between signing
  and publishing, so a heartbeat can overtake an attestation it covers. Every closed-history result
  holds for signing order. The feed is closed at every moment of a run exactly when every heartbeat
  waits for the attestations it covers; publishing in signing order is one way to wait.
- A negative cutoff, or a cutoff under an empty id, is acknowledged, but no later start reads the journal it is
  written to. A start succeeds exactly when the journal can be read and its own write, if one is due, goes
  through.
- One validator may hold two counted capabilities. A selection then has fewer validators than its size, and
  the closed-history threshold counts validators.
- A membership document may set an admission threshold below the watermark threshold; history is closed
  exactly when it does not.
- A recovery key whose first signature in a record is invalid does not count, whatever follows.
- A capability revision revokes before it grants, so it may bring in a validator below the floor of the
  ones it retires.
- The policy solver depends on evidence order only when two different items could represent one
  capability.
- A JSON array [3, x, y] shares its encoding with a decimal.
- A rewritten segment misreads a placeholder of the form $name(...) followed by a digit, and trimming a
  segment that ends in a line comment lets the comment run on.
- `parseDecimal` refuses "-0" and reads "-0.0".
- JSON strings and keys that start with a byte order mark lose it in their text, so two values have one text
  exactly when they agree up to that mark; a patch brings in such a key exactly by adding under it.

## Model

| member | source | states |
|---|---|---|
| `Bytes.CompareBytes` | packages/canonical/src/bytes.ts:36-44 | the index loop is the lexicographic order, and it is zero exactly on equal strings |
| `Bytes.ByteOrderTransitive` | packages/canonical/src/bytes.ts:36-44 | the byte order is transitive |
| `Bytes.Lexicographic` | packages/canonical/src/bytes.ts:36-44 | it is the order of the first differing byte, a prefix before what it begins |
| `Order.KeysTotallyOrdered` | packages/protocol/src/messages.ts:180 | order keys are totally ordered, and compare equal exactly when all four fields agree |
| `Order.KeysTransitive` | packages/protocol/src/messages.ts:180 | the transaction order is transitive across its four fields |
| `Order.TimestampFirst` | packages/protocol/src/messages.ts:180 | the earlier author timestamp comes first; author, feed sequence and id decide, in this order, only between equal ones |
| `Replay.ReplayInTwoParts` | packages/materializer-doltlite/src/materializer.ts:324-327 | replaying a list is replaying its start and then the rest from there |
| `Replay.FoldPrefix` | packages/materializer-doltlite/src/materializer.ts:428-522 | the fold over a prefix exists and its log is a prefix of the whole fold's log: later transactions never change earlier outcomes |
| `Replay.FoldMeans` | packages/materializer-doltlite/src/materializer.ts:428-522 | a list folds exactly when every rejection on the way has a registered code; the application state is then the one that runs of the completed transactions, in order from genesis, leave, and each row says what happened to its transaction on the state before it: accepted with its result, or rejected in the phase that refused it |
| `Replay.LogGenuine` | packages/materializer-doltlite/src/materializer.ts:716-743 | in the fold of a valid list every row carries the fields of a well-formed transaction, no id occurs twice and author timestamps ascend |
| `Replay.IdentityMeans` | packages/materializer-doltlite/src/materializer.ts:800-808 | a row identifies a transaction exactly when it is the row that would be written for it at that place with that outcome |
| `Replay.AnyVerifiedBaseGivesTheFold` | packages/materializer-doltlite/src/materializer.ts:767-776 | a genuine state whose log identifies the first n transactions is the fold of exactly those, so replaying the rest on it gives the fold from genesis |
| `Replay.CheckpointAboveChangeIsDead` | packages/materializer-doltlite/src/materializer.ts:338-340 | a checkpoint above the first change holds a neighbour pair that the new order has broken up |
| `Replay.SurvivingCheckpointNeverMatches` | packages/materializer-doltlite/src/materializer.ts:374-382 | such a checkpoint is a prefix of no later order that keeps the earlier ones in place |
| `Repository.SameIdsSameRows` | packages/materializer-doltlite/src/checkpoints.ts:150-165 | two genuine states with the same transaction ids have the same log, so an order digest without collisions identifies content |
| `MaterializerChecks.ValidateTransaction` | packages/materializer-doltlite/src/materializer.ts:720-733 | accepts exactly well-formed transactions |
| `MaterializerChecks.ValidateTransactionSet` | packages/materializer-doltlite/src/materializer.ts:716-743 | accepts exactly the lists that are well-formed, strictly ordered by order key and free of repeated ids |
| `MaterializerChecks.EnsureMonotonicSet` | packages/materializer-doltlite/src/materializer.ts:758-765 | the greedy scan accepts exactly when the earlier order is a subsequence of the later one |
| `MaterializerChecks.ValidateExistingIdentities` | packages/materializer-doltlite/src/materializer.ts:745-756 | accepts exactly when every recorded transaction is submitted again with its recorded identity |
| `MaterializerChecks.EarliestDifference` | packages/materializer-doltlite/src/materializer.ts:837-841 | nothing exactly when the orders are equal, else their first difference |
| `MaterializerChecks.CheckpointAtOrBefore` | packages/materializer-doltlite/src/materializer.ts:528-535 | a checkpoint at or below the position, with none closer; nothing only when all are above |
| `MaterializerChecks.ShouldCheckpoint` | packages/materializer-doltlite/src/materializer.ts:810-817 | due exactly when the interval since the newest retained checkpoint has passed |
| `MaterializerChecks.VerifyReplayBase` | packages/materializer-doltlite/src/materializer.ts:767-776 | accepts a base exactly when its log identifies the prefix transaction by transaction |
| `MaterializerChecks.VerifyDesiredLog` | packages/materializer-doltlite/src/materializer.ts:791-798 | accepts a log exactly when it identifies the whole order at consecutive positions |
| `MaterializerChecks.CalculateOutcomeChanges` | packages/materializer-doltlite/src/materializer.ts:819-835 | reports a transaction once exactly when what readers see of it differs, with the old and the new outcome |
| `MaterializerChecks.LooksTheSame` | packages/materializer-doltlite/src/materializer.ts:819-835 | a transaction both logs have is not reported exactly when its two outcomes are alike to a reader |
| `MaterializerChecks.LooksNew` | packages/materializer-doltlite/src/materializer.ts:819-835 | one that only the later log has always differs |
| `MaterializerChecks.ChangeTells` | packages/materializer-doltlite/src/materializer.ts:819-835 | a reported change names the outcome each log records and the codes of rejections |
| `Materializer.SelectRetained` | packages/materializer-doltlite/src/materializer.ts:537-545 | keeps max(2, retain) checkpoints, or all when there are no more: the longest ones, with genesis in the place of one of them |
| `Materializer.DueIsTaken` | packages/materializer-doltlite/src/materializer.ts:810-817 | a checkpoint that is due is there after the call |
| `Materializer.NeverFarBehind` | packages/materializer-doltlite/src/materializer.ts:810-817 | after an undisturbed publication a kept checkpoint lies less than one interval behind the end of the order |
| `Materializer.DeterministicMaterializer.ApplyTransaction` | packages/materializer-doltlite/src/materializer.ts:428-522 | one transaction in its savepoint is the step whose meaning `Replay.FoldMeans` gives: the new application state and an accepted row, or the old state and a logged rejection; an unregistered failure leaves nothing |
| `Materializer.DeterministicMaterializer.ReplaySuffix` | packages/materializer-doltlite/src/materializer.ts:319-331 | a completed replay on any genuine base holds the fold of the whole order, and the base recorded its start; without faults a recorded base completes |
| `Materializer.DeterministicMaterializer.BuildCandidate` | packages/materializer-doltlite/src/materializer.ts:317-336 | a committed candidate is the fold of the order; only the scratch branch and one commit were added |
| `Materializer.DeterministicMaterializer.CreateRefs` | packages/materializer-doltlite/src/checkpoints.ts:72-109 | the revision marker and, when due, the checkpoint ref of the candidate, exactly when neither name is taken; on failure only fresh refs remain |
| `Materializer.DeterministicMaterializer.MoveHead` | packages/materializer-doltlite/src/checkpoints.ts:118-120 | the head resolves to the marker's commit and revision, nothing else moves |
| `Materializer.DeterministicMaterializer.PruneCheckpoints` | packages/materializer-doltlite/src/materializer.ts:537-545 | removes only checkpoint refs, keeps the head and genesis, and bounds the list when it completes |
| `Materializer.DeterministicMaterializer.CleanUp` | packages/materializer-doltlite/src/checkpoints.ts:128-148 | removes only scratch and superseded refs wherever it stops, and none remain when it completes |
| `Materializer.DeterministicMaterializer.PublishCandidate` | packages/materializer-doltlite/src/materializer.ts:336-382 | success shows the fold; a failure before the head moved leaves reader, order, log, checkpoints and every old branch; a death leaves the old or the new head |
| `Materializer.DeterministicMaterializer.TryMaterialize` | packages/materializer-doltlite/src/materializer.ts:306-382 | a success is the fold of the submitted order whatever base was chosen; without faults it succeeds exactly when the base records the start of the order, the fold exists and the names are free |
| `Materializer.DeterministicMaterializer.Materialize` | packages/materializer-doltlite/src/materializer.ts:289-418 | published content is the fold from genesis over the submitted order, with the true first change and a report that lists each transaction whose visible outcome changed once, and no other; replay starts at the nearest remembered checkpoint, and an undisturbed call leaves the checkpoints the retention rule gives; a call that throws changes nothing visible or has moved the head to the new fold; without faults an undisturbed object accepts exactly the orders that may follow, and any other object publishes exactly when the selected checkpoint still fits and no ref of a failed attempt is in the way |
| `Materializer.DeadBaseRefused` | packages/materializer-doltlite/src/materializer.ts:767-776 | the base check refuses every remembered checkpoint that went dead, for every later order |
| `Materializer.ValidateCheckpointRefs` | packages/materializer-doltlite/src/materializer.ts:612-645 | drops exactly the checkpoint refs that do not describe a sound prefix of the published log |
| `Materializer.Open` | packages/materializer-doltlite/src/materializer.ts:132-183 | from any repository an interrupted run can leave, recovers exactly the revision of the head, with every sound checkpoint and genesis; they are prefix states when an id names one transaction in all commits |
| `MaterializerRuns.Drive` | packages/materializer-doltlite/src/materializer.ts:132-418 | over any run of submissions, faults at any publication point, kills and restarts: after each command readers see the fold of one submitted order, the last published one or a later one; every acknowledged order is a subsequence of it; no transaction ever disappears; and from the start or a restart on, undisturbed calls succeed exactly on the orders that may follow |
| `MaterializerRuns.CommitsIdentify` | packages/materializer-doltlite/src/materializer.ts:289-418 | when the run uses an id for one transaction, so do all commits it leaves, so checkpoints that survive a restart are prefix states |
| `Materializer.Replicate` | packages/materializer-doltlite/src/materializer.ts:289-418 | any fault-free history of arrivals ends in the fold of the last order, for every checkpoint interval and retention |
| `ControlStoreLaws.PutCandidateGood` | packages/control-store/src/control-store.ts:123-145 | a candidate is accepted exactly when it is new or identical in identity, and the store stays sound |
| `ControlStoreLaws.SetStateGood` | packages/control-store/src/control-store.ts:219-264 | every state change the transition rule admits keeps the store sound and never meets a duplicate order entry |
| `ControlStoreLaws.InsertOrderKeeps` | packages/control-store/src/control-store.ts:549-572 | inserting at the searched position keeps the order sorted, duplicate-free and complete, and the earlier order a subsequence |
| `ControlStoreLaws.RunGood` | packages/control-store/src/control-store.ts:123-314 | every run keeps the order sorted, duplicate-free and equal to the admissible candidates, the delta log contiguous and bounded, and admitted candidates admitted |
| `ControlStoreLaws.EarlierOrderSurvives` | packages/control-store/src/control-store.ts:549-572 | every earlier order of a run is a subsequence of every later one |
| `ControlStoreLaws.StrictExactlyWhenKeysDistinct` | packages/control-store/src/control-store.ts:549-572 | the order is strictly sorted exactly when no two admissible candidates share an order key |
| `ControlStoreLaws.SameAdmissionsSameOrder` | packages/control-store/src/control-store.ts:549-572 | two reachable stores that admitted the same candidates, in whatever interleaving, list them identically |
| `ControlStoreLaws.EqualKeysFollowArrival` | packages/control-store/src/control-store.ts:549-572 | for any reachable store with two admissible candidates under one key, a run that admits the same candidates and lists them in another order |
| `ControlStoreLaws.AdmissionsDetermineOrder` | packages/control-store/src/control-store.ts:549-572 | the admitted candidates and their keys determine the order exactly when the keys are distinct |
| `ControlStoreLaws.FollowerStaysCurrent` | packages/control-store/src/control-store.ts:516-521 | whoever took order and states at any moment of a run and applies the changes since then holds the order and every candidate's state of any later moment; the store refuses exactly when it has dropped some of those changes |
| `ControlStoreSteps.TransitionsExact` | packages/control-store/src/control-store.ts:717-735 | waiting for payload, then for validation, then admitted or invalid; admitted and invalid are final; each error has its exact transitions |
| `ControlStoreSteps.PutMeans` | packages/control-store/src/control-store.ts:123-145 | a new candidate is stored as it is and ordered exactly when it is admissible; a repeated one changes nothing; a conflicting one is refused |
| `ControlStoreSteps.SetMeans` | packages/control-store/src/control-store.ts:219-264 | the state, the proof and the reason of one candidate change and nothing else; it enters the order exactly when it becomes admissible; each refusal has its condition |
| `ControlStoreSteps.EvaluateMeans` | packages/control-store/src/control-store.ts:197-217 | a pending candidate is admissible afterwards exactly when the evaluator, asked with it and exactly its attestations, admits it; then it is in the order with the proof it was given, and otherwise the order stays |
| `ControlStoreSteps.AttestMeans` | packages/control-store/src/control-store.ts:156-186 | an attestation under a new id is added, the same one again changes nothing, a different one under its id is refused |
| `ControlStoreSteps.HeartbeatMeans` | packages/control-store/src/control-store.ts:282-314 | a heartbeat takes the place of an earlier one on its feed with no lower cutoff; older ones are ignored; each refusal has its condition |
| `ControlStoreSteps.InOrderExactly` | packages/control-store/src/control-store.ts:123-264 | after any run a transaction is in the order exactly when some operation of it put it as admissible, set it admissible, or had it admitted by the evaluator |
| `ControlStoreSteps.OrderByTimestamp` | packages/control-store/src/control-store.ts:549-572 | the order of every reachable store ascends by author timestamp, whatever arrived when |
| `ControlStoreSteps.HeldAttestations` | packages/control-store/src/control-store.ts:156-186 | after any run the store holds exactly the attestations that were put and accepted |
| `ControlStoreSteps.HeldHeartbeat` | packages/control-store/src/control-store.ts:282-314 | after any run it holds for each validator and revision the accepted heartbeat that lies furthest on the feed |
| `ControlStoreSteps.HeartbeatsAdvance` | packages/control-store/src/control-store.ts:282-314 | what is held for a validator and revision only moves forward, in feed sequence and in cutoff |
| `ControlStore.ControlStore.Insert` | packages/control-store/src/control-store.ts:549-572 | the binary search splices at the position that keeps the keys sorted and logs the matching append or insert delta |
| `ControlStore.ControlStore.PutCandidate` | packages/control-store/src/control-store.ts:123-145 | the store object makes exactly the modelled step and keeps its invariant |
| `ControlStore.ControlStore.PutAttestation` | packages/control-store/src/control-store.ts:156-186 | records an attestation once, refuses a different one under its id |
| `ControlStore.ControlStore.SetCandidateState` | packages/control-store/src/control-store.ts:219-264 | the store object makes exactly the modelled transition, or reports the conflict and changes nothing |
| `ControlStore.ControlStore.EvaluateAdmission` | packages/control-store/src/control-store.ts:197-217 | the store object makes exactly the step that `ControlStoreSteps.EvaluateMeans` describes, or reports its error and changes nothing |
| `ControlStore.ControlStore.RecordHeartbeat` | packages/control-store/src/control-store.ts:282-314 | heartbeats only advance per validator and revision; a regression or a conflict is refused |
| `ControlStore.ControlStore.TrimDeltas` | packages/control-store/src/control-store.ts:679-684 | keeps the newest deltas within the bound and raises the floor to the last one dropped |
| `ControlStore.ControlStore.Restore` | packages/control-store/src/control-store.ts:596-628 | loads the snapshot as `ControlStore.LoadedMeans` says and accepts exactly when its order verifies |
| `ControlStore.LoadedMeans` | packages/control-store/src/control-store.ts:596-628 | of any snapshot, also one that repeats itself, exactly what is listed last under each name is held |
| `ControlStore.ControlStore.VerifyRestoredOrder` | packages/control-store/src/control-store.ts:630-660 | accepts exactly when the order is strictly sorted, repeats nothing and lists only admissible candidates, and the delta numbers increase from one above the floor to the sequence |
| `ControlStore.ControlStore.TakeSnapshot` | packages/control-store/src/control-store.ts:523-541 | the snapshot lists exactly what the store holds |
| `ControlStore.OwnSnapshotRestores` | packages/control-store/src/control-store.ts:523-541 | a store's own snapshot loads back as the same store with its log cut to the bound, and is accepted exactly when order keys are distinct |
| `ControlStore.RestoredSound` | packages/control-store/src/control-store.ts:630-660 | an accepted snapshot gives a sound store exactly when its order also leaves out no admissible candidate and no number of the delta run is missing |
| `ControlStore.MissingFromOrderPasses` | packages/control-store/src/control-store.ts:630-660 | an admissible candidate that the order does not list is not noticed |
| `ControlStore.GapInDeltasPasses` | packages/control-store/src/control-store.ts:630-660 | a missing number inside the delta run is not noticed |
| `Node.HandoverValid` | packages/node-core/src/node.ts:643-656 | the list a node hands to the materializer is always a valid transaction set |
| `Node.MaterializableKeys` | packages/node-core/src/node.ts:643-656 | when every ordered candidate yields a well-formed transaction with its id and order key, order keys are distinct |
| `Node.HandoverMonotonic` | packages/node-core/src/node.ts:643-656 | the list handed over earlier is a subsequence of every later one |
| `Node.HandoversAreArrivals` | packages/node-core/src/node.ts:643-656 | any moments of any store run are arrivals the materializer accepts: it never rejects a store order as a removal or as not strict |
| `Node.SameHandovers` | packages/node-core/src/node.ts:643-656 | stores that admitted the same candidates with the same identities hand over the same list |
| `Node.ReplicasConverge` | packages/node-core/src/node.ts:643-656 | two nodes, any store runs, any handover points, any checkpoint settings: the same admissions show the same application state and log |
| `Watermark.WatermarkUnique` | packages/control-store/src/control-store.ts:316-365 | at most one cutoff is the greatest that every proof of a family meets |
| `Watermark.KthLowestIsWatermark` | packages/control-store/src/control-store.ts:391-421 | the k-th lowest cutoff, missing feeds lowest, is the greatest cutoff every k-subset meets |
| `Watermark.ThresholdWatermark` | packages/control-store/src/control-store.ts:367-422 | the sorted selection computes that cutoff and names exactly the validators that passed it and the heartbeats it rests on |
| `Watermark.AlternativesWatermark` | packages/control-store/src/control-store.ts:316-365 | the best-of-each-proof loop computes the watermark of its alternatives and names the heartbeats of a proof that reaches it |
| `Watermark.BothForms` | packages/control-store/src/control-store.ts:316-422 | on all k-subsets the two forms give the same cutoff and the same explanation |
| `Watermark.GapsCountForNothing` | packages/control-store/src/control-store.ts:316-422 | a heartbeat with a gap in its feed counts as none |
| `Watermark.HeartbeatFor` | packages/control-store/src/control-store.ts:662-677 | with a revision its heartbeat, without one a heartbeat of the validator with the highest feed sequence |
| `Cutoffs.JournalRoundTrip` | packages/control-store/src/persistence.ts:222-253 | a written journal reads back as the same cutoffs exactly when none is negative and no id empty, and otherwise fails to read |
| `Cutoffs.ValidatorCutoffs.SaveValidatorCutoff` | packages/control-store/src/persistence.ts:146-163 | saves exactly when the cutoff does not regress and is already there or its write goes through; the file is rewritten exactly when the rename happened, and then reads as the new cutoffs |
| `Cutoffs.ValidatorCutoffs.PersistValidatorCutoff` | packages/control-store/src/control-store.ts:101-121 | acknowledges exactly when the store runs, the cutoff does not regress and the journal has it; memory and file follow the model of the run |
| `Cutoffs.Start` | packages/control-store/src/control-store.ts:54-75 | gives exactly the error of the first check that fails, and otherwise a store with the journal and snapshot cutoffs merged; a corrupt journal always refuses, a damaged snapshot beside a journal never does |
| `Cutoffs.DriveCutoffs` | packages/control-store/src/persistence.ts:99-163 | over any run of persists, crashes, failed writes, saved and damaged snapshots, the cutoffs in memory after each happening are exactly those of the modelled run |
| `Cutoffs.MergeMeans` | packages/control-store/src/control-store.ts:54-75 | a start takes the higher of the two files for every validator |
| `Cutoffs.StartMeans` | packages/control-store/src/control-store.ts:54-75 | each refusal of a start has its exact condition, and a store that starts holds the merged cutoffs, on disk too |
| `Cutoffs.PersistMeans` | packages/control-store/src/control-store.ts:101-121 | an acknowledged cutoff is just the one asked for and no other changes; a call that fails leaves memory as it was |
| `Cutoffs.SavedMeans` | packages/control-store/src/control-store.ts:588-594 | a saved snapshot holds just the cutoffs in memory |
| `Cutoffs.NothingInvented` | packages/control-store/src/persistence.ts:99-163 | whatever cutoff the files or the running store hold at any moment of a run was asked for |
| `Cutoffs.AcknowledgedIsKept` | packages/control-store/src/control-store.ts:101-121 | a cutoff acknowledged at any moment of a run is a lower bound of what the running store and the journal hold at every later moment |
| `Cutoffs.StartsAgain` | packages/control-store/src/control-store.ts:54-75 | beside a journal a start succeeds exactly when the journal can be read and either covers the snapshot or its own write goes through |
| `Cutoffs.NegativeCutoffIsFatal` | packages/control-store/src/persistence.ts:222-253 | after any newly acknowledged negative cutoff, or cutoff under an empty id, no start succeeds again, whatever follows |
| `Cutoffs.LegibleRunsRestart` | packages/control-store/src/persistence.ts:99-163 | in a run that persists no such cutoff, a start whose write goes through succeeds at every moment exactly when there is a journal or the snapshot is undamaged |
| `ClosedHistory.RunInv` | packages/node-core/src/node.ts:477-524 | in every run of a validator, a counted attestation signed after a heartbeat lies above that heartbeat's cutoff |
| `ClosedHistory.LateOnlyWhenOvertaken` | packages/node-core/src/node.ts:215-248 | when a counted attestation follows a heartbeat that covers it on the feed, it was signed before that heartbeat: the heartbeat overtook it |
| `ClosedHistory.WaitsExactly` | packages/node-core/src/node.ts:215-248 | at every moment of a run no counted attestation stands, or is still to come, behind a heartbeat on the feed that covers it, exactly when each heartbeat is published after the attestations it covers |
| `ClosedHistory.InOrderWaits` | packages/node-core/src/node.ts:477-524 | publishing in signing order waits |
| `ClosedHistory.HeartbeatCanOvertake` | packages/node-core/src/node.ts:155-158 | a run over a working journal in which the heartbeat timer overtakes an attestation that ingestion has signed |
| `ClosedHistory.RecoverCutoff` | packages/node-core/src/node.ts:826-856 | the highest of the start value and the own records read back |
| `ValidatorRecords.CutoffMoves` | packages/node-core/src/node.ts:477-524 | a running validator's cutoff only rises, to what the step proposes or the observed record carries |
| `ValidatorRecords.CheckAccepts` | packages/node-core/src/node.ts:477-524 | a candidate goes on to its other checks exactly when the cutoff became durable and its timestamp is above it and not beyond the future limit |
| `ValidatorRecords.SignSigns` | packages/node-core/src/node.ts:477-524 | an attestation is signed once for the checked candidate, with the cutoff in force |
| `ValidatorRecords.AnnounceSigns` | packages/node-core/src/node.ts:215-248 | a heartbeat is signed for every announcement whose cutoff became durable, with the cutoff in force |
| `ValidatorRecords.PublishMoves` | packages/node-core/src/node.ts:215-248 | publishing moves one record to the end of the feed; a crash loses what is not on it |
| `ValidatorRecords.FeedGrows` | packages/node-core/src/node.ts:215-248 | the feed of a run is only ever extended |
| `ValidatorRecords.RecordsJustified` | packages/node-core/src/node.ts:477-524 | every record of a run goes back to the check or announcement that led to it |
| `ValidatorRecords.SignedOnlyWhatCame` | packages/node-core/src/node.ts:477-524 | over any journal, crashes and failed writes, attestations are signed only for candidates that came within the limits, and heartbeats only from ticks, never below the lagging clock |
| `ClosedHistory.DriveValidator` | packages/node-core/src/node.ts:857-860 | over the real journal, with any crashes and write failures, the validator after a script is exactly that of the modelled process: whether each cutoff is persisted follows from the script |
| `ClosedHistory.ProcessRefines` | packages/node-core/src/node.ts:857-860 | that process only makes the steps of the protocol, and its journal holds what it acknowledged |
| `ClosedHistory.BootBacked` | packages/node-core/src/node.ts:826-860 | a restart never comes back below an acknowledged cutoff |
| `ClosedHistory.PersistsExactly` | packages/node-core/src/node.ts:857-860 | in every run a cutoff is persisted exactly when the process runs and has it already or its write goes through: the journal never refuses it as a regression |
| `ClosedHistory.HistoryClosed` | packages/control-store/src/control-store.ts:367-422 | any proof of at least k validators at or below the k-of-n watermark has a member that signed before the heartbeat counted for it, and published before it when its heartbeats wait |
| `ClosedHistory.ClosesExactly` | apps/chronologd/src/static-membership.ts:65-68 | two valid thresholds close history for all groups whose heartbeats wait exactly when admission asks for at least as many validators as the watermark |
| `ClosedHistory.LowThresholdReopens` | apps/chronologd/src/static-membership.ts:65-68 | for every lower admission threshold, runs of validators whose heartbeats wait in which a transaction below the watermark is admitted by late attestations only |
| `Policy.MissingConstraints` | packages/capabilities/src/policy.ts:4-17 | the loops list the shortfalls that `Policy.MissingExact` and `Policy.MissingInOrder` describe |
| `Policy.MissingExact` | packages/capabilities/src/policy.ts:4-17 | an entry is listed exactly when that requirement is unmet, with how much is short |
| `Policy.MissingInOrder` | packages/capabilities/src/policy.ts:4-17 | validators before classes before organizations, and these by name, whatever order the policy has |
| `Policy.NothingMissing` | packages/capabilities/src/policy.ts:4-17 | nothing is listed exactly when the policy is met |
| `Policy.StateKeyExact` | packages/capabilities/src/policy.ts:28-38 | two selections share the key text exactly when they are in the same capped state, whatever characters class names hold |
| `Policy.SameStateExtends` | packages/capabilities/src/policy.ts:28-38 | selections in one capped state stay in one state under any further evidence |
| `PolicySolver.Deduplicate` | packages/capabilities/src/policy.ts:45-56 | one item for each capability: the one with the least validator id, the earliest of equals |
| `PolicySolver.BestExtends` | packages/capabilities/src/policy.ts:64-69 | the selection kept for a state may stand for every other selection with that key, whatever follows |
| `PolicySolver.SelectionMeans` | packages/capabilities/src/policy.ts:19-26 | a selection is better when it has fewer members, or as many and the smaller capability id at the first difference |
| `PolicySolver.Extend` | packages/capabilities/src/policy.ts:63-71 | one round over the states, in any order, keeps each state the best selection of the items so far |
| `PolicySolver.EvaluateValidationPolicy` | packages/capabilities/src/policy.ts:40-76 | the fewest members and then the lexicographically least list among all subsets that meet the policy; unsatisfied exactly when none does; the final invariant never fires |
| `PolicySolver.EverySubsetIsPicked` | packages/capabilities/src/policy.ts:59-71 | the selections compared are all subsets of the deduplicated evidence |
| `PolicySolver.SameEvidenceSameEvaluation` | packages/capabilities/src/policy.ts:40-76 | the evaluation does not depend on order or repetition of evidence that has no conflicting representatives |
| `PolicySolver.ConflictMakesOrderMatter` | packages/capabilities/src/policy.ts:45-53 | with two different items that could both represent a capability, swapping them changes the evaluation |
| `Admission.AssembleAdmissionProof` | packages/capabilities/src/admission.ts:70-98 | satisfied exactly when the capabilities that counted attestations vouch with, by their grants, meet the policy; what it selects meets it, and no fewer would; otherwise it lists exactly what those grants are short of; every attestation that does not count gets its reason |
| `Admission.SatisfiedProofMeans` | packages/capabilities/src/admission.ts:43-68 | a satisfied proof rests on the required number of different active validator capabilities, each with an attestation above its own cutoff |
| `Admission.VouchesForOne` | packages/capabilities/src/admission.ts:43-68 | an attestation counts for no other transaction, content, time, group or membership revision |
| `AdmissionCloses.SelectionProves` | packages/capabilities/src/admission.ts:43-98 | the selection behind a satisfied proof, from published attestations, is a proof in the sense of closed history by the validators of its capabilities; it has as many validators as capabilities exactly when no validator holds two of them |
| `AdmissionCloses.AdmittedBelowWatermark` | packages/control-store/src/control-store.ts:367-422 | then a transaction admitted at or below the watermark of no more validators than the policy asks for has a selected validator that signed before the heartbeat counted for it |
| `Capabilities.CurrentFloor` | packages/capabilities/src/reducer.ts:123-128 | the maximum author-timestamp floor of the standing validators |
| `Capabilities.ApplyCapabilityRevision` | packages/capabilities/src/reducer.ts:101-151 | the checks and the three copy-and-update loops compute the step that `CapabilitySteps.RevisedMeans` describes |
| `Capabilities.VerifyRecoveryRecord` | packages/capabilities/src/recovery.ts:40-59 | accepts exactly when the record extends this snapshot and enough key indices have a valid first signature |
| `Capabilities.ApplyRecoveryRecord` | packages/capabilities/src/recovery.ts:61-106 | the loops compute the step that `CapabilitySteps.RecoveredMeans` describes |
| `Capabilities.ReduceCapabilityLog` | packages/capabilities/src/reducer.ts:59-99 | genesis and then the revisions in revision order, up to the first that is refused |
| `CapabilitySteps.RevisedMeans` | packages/capabilities/src/reducer.ts:101-151 | a revision is accepted exactly when it extends this snapshot and revokes, grants and installs consistently; then every grant stands under its id from this revision on, unrevoked, what it revokes ends here, policies are added, the root and feed follow their successors, and nothing else changes |
| `CapabilitySteps.RevisedErrors` | packages/capabilities/src/reducer.ts:101-112 | a refused revision gets the error of the first requirement it fails |
| `CapabilitySteps.RecoveredMeans` | packages/capabilities/src/recovery.ts:61-106 | a recovery is accepted exactly when enough first signatures are valid, the floor is held and its grants are consistent; then it ends every validator and the old root's capabilities, brings in its own validators and sets the new root |
| `CapabilitySteps.FoundedMeans` | packages/capabilities/src/reducer.ts:59-88 | genesis gives exactly its own grants and policies |
| `CapabilitySteps.InForce` | packages/capabilities/src/reducer.ts:153-157 | after a step its grants are in force until their own end, what it ended is not, and everything else is as before |
| `CapabilitySteps.AuthorizedExactly` | packages/capabilities/src/reducer.ts:153-157 | after any log a grant is in force at a revision exactly when genesis or an accepted step gave it, it has begun and not run out, and no accepted step at or before that revision ended it |
| `CapabilitySteps.RunKeyed` | packages/capabilities/src/reducer.ts:59-151 | every capability of a reachable snapshot stands under its own id |
| `CapabilityLaws.RunExtends` | packages/capabilities/src/reducer.ts:101-151 | every run of revisions and recoveries keeps all grants, policies and revocations, and dates every change after the revision already reached |
| `CapabilityLaws.HistoryIsImmutable` | packages/capabilities/src/reducer.ts:153-157 | whoever was authorized at a revision already reached is exactly who is authorized at it in every later state |
| `CapabilityLaws.RevocationsAreFinal` | packages/capabilities/src/reducer.ts:113-119 | a revoked capability is never active again |
| `CapabilityLaws.RecoveryEndsValidators` | packages/capabilities/src/recovery.ts:80-87 | from the recovery revision on no earlier validator and no capability of the old root key is active, whatever follows |
| `CapabilityLaws.CountedExactly` | packages/capabilities/src/recovery.ts:40-59 | a key counts exactly when its first signature in the record is valid |
| `CapabilityLaws.AllSignersCount` | packages/capabilities/src/recovery.ts:32-59 | every key with a valid signature counts exactly when no valid signature stands behind an invalid first one of its key |
| `CapabilityLaws.BadSignatureHidesGood` | packages/capabilities/src/recovery.ts:52-57 | a bad signature hides a later good one of the same key, and not an earlier one |
| `CapabilityLaws.LogOrderIrrelevant` | packages/capabilities/src/reducer.ts:90-99 | every permutation of a log reduces to the same snapshot, or none reduces |
| `CapabilityLaws.ReducesExactly` | packages/capabilities/src/reducer.ts:90-99 | a log reduces exactly when its revisions can be arranged so that each is accepted after those before it, and then to what that arrangement gives |
| `CapabilityLaws.FloorKept` | packages/capabilities/src/reducer.ts:120-130 | an accepted revision brings in a validator at or above the floor exactly when it is at or above the floors of the validators it revokes |
| `CapabilityLaws.FloorFollowsTheStanding` | packages/capabilities/src/reducer.ts:113-130 | revoking some capabilities and granting a validator is accepted exactly at or above the floor of the validators that remain |
| `BigEndian.MagnitudeBytes` | packages/canonical/src/cbor.ts:42-48 | the shift loop gives the minimal big-endian bytes |
| `BigEndian.MinimalOfValue` | packages/canonical/src/cbor.ts:106-121 | bytes without a leading zero are the minimal bytes of their value |
| `CborWire.MostSignificantFirst` | packages/canonical/src/cbor.ts:29-48 | big-endian: a byte in front counts 256 to the number of bytes behind it |
| `Utf8.BomIsCharacter` | packages/canonical/src/bytes.ts:18-24 | a leading byte order mark neither makes nor breaks well-formed UTF-8 |
| `Utf8.ValidExactly` | packages/canonical/src/bytes.ts:18-24 | the bytes taken as text are exactly the UTF-8 forms of sequences of Unicode scalar values |
| `CborLaws.HeadParses` | packages/canonical/src/cbor.ts:29-40 | every head is read back with what follows it |
| `CborLaws.HeadSound` | packages/canonical/src/cbor.ts:96-105 | every argument the decoder accepts is in shortest form |
| `CborLaws.ParseEncoded` | packages/canonical/src/cbor.ts:64-79 | every encoding of a normal value within the limits is read back as that value, in front of anything |
| `CborCanonical.BignumCheckRedundant` | packages/canonical/src/cbor.ts:116-119 | a minimal magnitude of more than eight bytes always exceeds 64 bits, so the comparison at line 119 never decides |
| `CborCanonical.ParseSound` | packages/canonical/src/cbor.ts:122-154 | what the decoder reads without dropping a byte order mark is normal, within the limits and encodes to the bytes read; with one dropped the encoding is shorter or fails |
| `CborCanonical.DecodeExact` | packages/canonical/src/cbor.ts:81-157 | decoding succeeds without dropping a mark exactly on the encodings of normal values within the limits: the inline checks suffice |
| `CborCanonical.ReencodingCatches` | packages/canonical/src/cbor.ts:158-162 | comparing with a fresh encoding rejects exactly the inputs that lost a byte order mark |
| `CborCanonical.AcceptsExactly` | packages/canonical/src/cbor.ts:158-162 | the strict decoder returns a value exactly when the input is the encoding of that normal value within the limits |
| `CborCanonical.BomTextDecodes` | packages/canonical/src/cbor.ts:136 | an input the decoder alone accepts and the strict decoder refuses |
| `CborNormal.NormalizeEncodes` | packages/canonical/src/cbor.ts:72-77 | putting the entries of every map in canonical order keeps the encoding |
| `CborNormal.AcceptsEncodings` | packages/canonical/src/cbor.ts:158-162 | the strict decoder accepts exactly the encodings of values within the limits, whatever their map order, and returns their normal form |
| `CborWire.WireSound` | packages/canonical/src/cbor.ts:122-154 | bytes that denote a value by the initial byte, length and content rules of RFC 8949, in its shortest and ordered form, are its encoding |
| `CborWire.WireComplete` | packages/canonical/src/cbor.ts:29-79 | the encoding of a value denotes it by those rules |
| `CborWire.AcceptsWire` | packages/canonical/src/cbor.ts:158-162 | the strict decoder accepts exactly the bytes that denote some value within the limits, and returns that value |
| `CborDecoder.Decoder.ReadArgument` | packages/canonical/src/cbor.ts:96-105 | reads the argument the grammar reads and leaves the offset behind it |
| `CborDecoder.Decoder.Bignum` | packages/canonical/src/cbor.ts:106-121 | the same for bignums, with the magnitude loop |
| `CborDecoder.Decoder.ReadValue` | packages/canonical/src/cbor.ts:122-154 | the offset-moving decoder agrees with the grammar on value, error and rest |
| `CborDecoder.Decoder.ReadItems` | packages/canonical/src/cbor.ts:137-140 | the array loop agrees with the grammar |
| `CborDecoder.Decoder.ReadEntries` | packages/canonical/src/cbor.ts:141-152 | the map loop, with its key comparison, agrees with the grammar |
| `CborDecoder.DecodeCanonicalCbor` | packages/canonical/src/cbor.ts:157 | agrees with the grammar and refuses trailing bytes |
| `CborDecoder.AssertCanonicalCbor` | packages/canonical/src/cbor.ts:158-162 | accepts exactly when some normal value within the limits encodes to the input |
| `LogicalValue.JsonFromCbor` | packages/ir/src/codec.ts:447-467 | the decoder with its loops computes the JSON value or refuses |
| `LogicalValue.JsonRoundTrip` | packages/ir/src/codec.ts:437-467 | a valid JSON value comes back exactly when it holds no three-element array starting with the integer 3 |
| `LogicalValue.LogicalRoundTrip` | packages/ir/src/codec.ts:84-147 | a valid logical value comes back exactly when its text has no leading byte order mark and its JSON no such array |
| `LogicalValue.ArrayBecomesDecimal` | packages/ir/src/codec.ts:459-465 | the array [3, 5, 0] comes back as the decimal 5 |
| `LogicalValue.DecodedEncodesBack` | packages/ir/src/codec.ts:84-147 | whatever is decoded from a normal CBOR value is encoded as that value again |
| `LogicalValue.LogicalBytesRoundTrip` | packages/ir/src/codec.ts:202-211 | through encoding and strict decoding of bytes a value within the limits comes back exactly when neither loss occurs and its objects list their members in canonical order |
| `LogicalWire.LogicalBytes` | packages/ir/src/codec.ts:84-147 | the first two bytes of each kind of logical value, and what its payload denotes |
| `LogicalWire.JsonShape` | packages/ir/src/codec.ts:437-445 | the CBOR value of a JSON value follows it item for item and member for member; no other value stands for it |
| `Decimal.PowerTable.Lookup` | packages/kernels/src/decimal.ts:11-17 | the table is only extended, and gives the power up to ten thousand |
| `Decimal.RoundedQuotientRounds` | packages/kernels/src/decimal.ts:72-90 | for every sign combination the result is rounded as its mode says; it fails only for a zero divisor, or in exact mode when the division is not exact |
| `Decimal.RoundsUnique` | packages/kernels/src/decimal.ts:72-90 | each mode admits one quotient |
| `Decimal.DecimalRescale` | packages/kernels/src/decimal.ts:92-96 | scaling up is exact, scaling down rounds the coefficient; each error has its exact condition |
| `Decimal.DecimalDiv` | packages/kernels/src/decimal.ts:98-104 | the whole quotient, in units of the last place, is rounded as the mode says although powers of ten were cancelled; each of the four errors has its exact condition |
| `Decimal.DividesWhole` | packages/kernels/src/decimal.ts:98-104 | cancelling powers of ten does not change whether the division is exact |
| `DecimalCodec.FormatParses` | packages/kernels/src/decimal.ts:24-46 | every decimal is read back from its text with its scale |
| `DecimalCodec.ParseFormats` | packages/kernels/src/decimal.ts:24-46 | a text that is read is written back unchanged exactly when it is not a minus sign with zero digits only |
| `DecimalCodec.SignedZeroSlipsThrough` | packages/kernels/src/decimal.ts:24-35 | -0.0 is read, and written as 0.0 |
| `DecimalCodec.SpelledIsRead` | packages/kernels/src/decimal.ts:24-35 | sign, whole digits and fraction digits are read as their place value, with as many places as fraction digits; only minus zero without a fraction is refused |
| `DecimalCodec.OnlySpelledIsRead` | packages/kernels/src/decimal.ts:24-35 | nothing else is read |
| `DecimalCodec.JoinedDigits` | packages/kernels/src/decimal.ts:24-35 | digits in front count for ten to the number of digits behind them |
| `DecimalCodec.OneDigit` | packages/kernels/src/decimal.ts:24-35 | each digit character counts for its number |
| `SqlLexer.PiecesExact` | packages/compiler-sqlite/src/sql-compiler.ts:677-740 | a list of pieces is what the scanner reads from its text exactly when each piece ends where the scanner ends it |
| `SqlLexer.PieceLooks` | packages/compiler-sqlite/src/sql-compiler.ts:677-740 | how far the scanner looks behind a piece that is no placeholder |
| `SqlLexer.DigitOnlyAfterParenthesis` | packages/compiler-sqlite/src/sql-compiler.ts:717-735 | only the form $name(...) can be directly followed by a digit |
| `SqlPieces.PieceKinds` | packages/compiler-sqlite/src/sql-compiler.ts:677-740 | the first character, and one more for comments, decides what kind of piece it is; anything else is a piece of one character |
| `SqlPieces.RunsAreLongest` | packages/compiler-sqlite/src/sql-compiler.ts:677-740 | words, numbers, names and line comments go exactly as far as their characters do |
| `SqlPieces.BlockGoesToFirstEnd` | packages/compiler-sqlite/src/sql-compiler.ts:677-740 | a block comment goes to its first end, or to the end of the text |
| `SqlPieces.ClosedQuote` | packages/compiler-sqlite/src/sql-compiler.ts:677-740 | a quoted text with doubled inner quotes ends at its closing quote |
| `SqlPieces.OpenQuote` | packages/compiler-sqlite/src/sql-compiler.ts:677-740 | one that is never closed goes to the end |
| `SqlPieces.QuoteForms` | packages/compiler-sqlite/src/sql-compiler.ts:677-740 | whatever follows an opening quote is of one of these two forms |
| `SqlPieces.DollarEnds` | packages/compiler-sqlite/src/sql-compiler.ts:717-735 | a dollar placeholder is a name, all ::name parts behind it, and a parenthesis to its first end if one opens there and ends at all |
| `SqlRewrite.ScanSql` | packages/compiler-sqlite/src/sql-compiler.ts:677-740 | the index loop splits the text into exactly its pieces |
| `SqlRewrite.NumberMeans` | packages/compiler-sqlite/src/sql-compiler.ts:633-653 | a bare placeholder takes one more than the highest number so far, ?n takes n, a name takes the number of its first use or the next one; the numbering exists exactly when all lie in 1 to 32766, is the only one, and its maximum is the highest |
| `SqlRewrite.ParameterOccurrences` | packages/compiler-sqlite/src/sql-compiler.ts:633-653 | finds every placeholder with its offsets and the number `SqlRewrite.NumberMeans` gives it, or fails when a number is out of range |
| `SqlRewrite.SameBinding` | packages/compiler-sqlite/src/sql-compiler.ts:633-653 | numbering the rewritten pieces gives the numbers of the source: the same values are bound in the same places |
| `SqlRewrite.RewriteSourceSegment` | packages/compiler-sqlite/src/sql-compiler.ts:655-665 | the loop writes the segment with each placeholder in numbered form and all else unchanged |
| `SqlRewrite.SegmentExact` | packages/compiler-sqlite/src/sql-compiler.ts:655-665 | the written segment is read as those pieces exactly when no placeholder in it is directly followed by a digit |
| `SqlTemplates.TrimmedContinues` | packages/compiler-sqlite/src/sql-compiler.ts:585-597 | a trimmed segment followed by template text keeps its meaning, and the text its own, exactly when the segment does not end in a line comment |
| `SqlTemplates.TrimEndMeans` | packages/compiler-sqlite/src/sql-compiler.ts:585-597 | trimming cuts off white space only, and all of it |
| `SqlTemplates.TrimStartMeans` | packages/compiler-sqlite/src/sql-compiler.ts:585-597 | the same at the front |
| `SqlTemplates.SelectionReads` | packages/compiler-sqlite/src/sql-compiler.ts:580-590 | the words of the selection template around its segments |
| `SqlTemplates.MutationReads` | packages/compiler-sqlite/src/sql-compiler.ts:593-604 | the words of the mutation template |
| `OrderedPlan.MutationExact` | packages/compiler-sqlite/src/sql-compiler.ts:593-604 | the mutation template is read as exactly the rewritten pieces of the source up to WHERE, the target predicate and the rewritten RETURNING clause, trimmed, exactly when the source up to WHERE does not end in a line comment and no $name(...) there is directly followed by a digit |
| `OrderedPlan.MutationBinds` | packages/compiler-sqlite/src/sql-compiler.ts:593-604 | then its placeholders take, in order, the numbers the source gives those placeholders |
| `OrderedPlan.SelectionExact` | packages/compiler-sqlite/src/sql-compiler.ts:580-590 | the selection template is read as exactly its own words around the rewritten pieces of the WHERE, ORDER BY and LIMIT expressions, exactly when the first two do not end in a line comment and no $name(...) is directly followed by a digit |
| `OrderedPlan.SelectionBinds` | packages/compiler-sqlite/src/sql-compiler.ts:590-592 | then its placeholders take, in order, the numbers the source gives them, and the recorded maximum is the highest of these |
| `OrderedPlan.BuildOrderedMutationPlan` | packages/compiler-sqlite/src/sql-compiler.ts:571-610 | scanning, numbering and rewriting give those two templates and that maximum; each of the two failures has its exact condition |
| `SqlTemplates.QuotedIsOnePiece` | packages/compiler-sqlite/src/sql-compiler.ts:748 | a quoted table name is one piece, whatever the name |
| `SqlTemplates.GluedExample` | packages/compiler-sqlite/src/sql-compiler.ts:717-735 | $a(b)5 with number 1 becomes placeholder 15 |
| `SqlTemplates.CommentExample` | packages/compiler-sqlite/src/sql-compiler.ts:587 | an ORDER BY segment ending in a comment swallows what follows it |
| `JsonLaws.QuotedParses` | packages/kernels/src/json.ts:217-232 | every string is read back from its escaped text |
| `JsonLaws.NumberParses` | packages/kernels/src/json.ts:234-240 | every reduced number is read back from its text |
| `JsonGrammar.CharReads` | packages/kernels/src/json.ts:79-134 | each form of a string character in RFC 8259 is read as that character, surrogate pairs included |
| `JsonGrammar.ReadIsChar` | packages/kernels/src/json.ts:79-134 | nothing else is read as one |
| `JsonGrammar.NumberReads` | packages/kernels/src/json.ts:136-157 | sign, whole digits, fraction and exponent are read as the one reduced number of that value, unless over the limit |
| `JsonGrammar.ReadNumber` | packages/kernels/src/json.ts:136-157 | nothing else is read as a number |
| `JsonGrammar.WorthUnique` | packages/kernels/src/json.ts:152-155 | a value has one reduced form |
| `JsonDocument.ParsesExactly` | packages/kernels/src/json.ts:65-215 | the parser gives a value exactly when the text is a JSON document with blanks around it, within the limits, that means this value: arrays item by item, objects by their distinct names in key order |
| `JsonDocument.ParseOfText` | packages/kernels/src/json.ts:65-215 | the text of any document with distinct names is refused only for a limit, and only when it exceeds one |
| `JsonDocument.RefusedIsNoDocument` | packages/kernels/src/json.ts:65-215 | a text refused for its form or a repeated name is not the text of any such document |
| `JsonLaws.ParseWritten` | packages/kernels/src/json.ts:205-251 | the text of a tidy value within the limits is refused when an object has two keys with one text, and is otherwise read as the value without its leading byte order marks |
| `JsonLaws.ParseSerialize` | packages/kernels/src/json.ts:205-251 | a tidy value within the limits comes back from its text exactly when no string or key in it starts with a byte order mark |
| `JsonEquality.EqualTextsExactly` | packages/kernels/src/json.ts:284-286 | two tidy values have one text exactly when they agree up to a leading byte order mark in each string and key |
| `JsonEquality.EqualTexts` | packages/kernels/src/json.ts:284-286 | comparing texts is equality of canonical values |
| `JsonEquality.BomStringsCollide` | packages/kernels/src/json.ts:242-251 | with a leading byte order mark two different strings have one text |
| `JsonTidy.ParsedIsTidy` | packages/kernels/src/json.ts:136-202 | every parse result has reduced numbers and sorted unique keys |
| `TextOrder.TextMeans` | packages/kernels/src/json.ts:177-201 | a key comes before those it begins and those with a greater character at the first difference |
| `JsonParser.Reduce` | packages/kernels/src/json.ts:154 | the loop takes out the factors of ten |
| `JsonParser.Parser.ReadString` | packages/kernels/src/json.ts:79-116 | the index-moving reader agrees with the grammar on strings |
| `JsonParser.Parser.ReadNumber` | packages/kernels/src/json.ts:136-157 | the same for numbers |
| `JsonParser.Parser.ReadArray` | packages/kernels/src/json.ts:159-175 | the same for arrays |
| `JsonParser.Parser.ReadObject` | packages/kernels/src/json.ts:177-201 | the same for objects, with duplicate keys refused and entries sorted |
| `JsonParser.Parser.ReadValue` | packages/kernels/src/json.ts:65-77 | the parser agrees with the grammar on value, error, rest and node count |
| `JsonParser.ParseCanonicalJson` | packages/kernels/src/json.ts:205-215 | parses as the grammar says and returns tidy values |
| `JsonPatch.JsonMergePatch` | packages/kernels/src/json.ts:288-299 | the recursive loops compute the merge |
| `JsonPatch.MergeMeans` | packages/kernels/src/json.ts:288-299 | for any values, each member of the merge is the target's last one of that name, gone, or merged, as the patch entries of that name say in turn (section 2 of RFC 7396); keys come out distinct |
| `JsonPatch.MergeMeansCanonical` | packages/kernels/src/json.ts:288-299 | for canonical values each member is the target's, gone, or merged with the patch's one entry of that name |
| `JsonPatch.MergeTidy` | packages/kernels/src/json.ts:288-299 | merging tidy values gives a tidy value |
| `JsonPatch.MergeCanonical` | packages/kernels/src/json.ts:288-299 | merging canonical values gives a canonical value |
| `JsonPatch.ChangeCanonical` | packages/kernels/src/json.ts:312-351 | a change that is carried out keeps a canonical document canonical exactly when what it puts in is canonical and it adds under no key that starts with a byte order mark |
| `JsonPatch.ReplacedIsFound` | packages/kernels/src/json.ts:267-282 | what was put at a path is found there |
| `JsonChange.ChangeExact` | packages/kernels/src/json.ts:312-351 | a change is carried out exactly as RFC 6902 describes it, one token after the other: the member put in, replaced or taken out, the items behind an index shifted; and it is refused exactly when there is no such result |
| `JsonChange.Landed` | packages/kernels/src/json.ts:312-351 | what was added or replaced is found where it landed |
| `JsonChange.Elsewhere` | packages/kernels/src/json.ts:312-351 | whatever stood elsewhere in a canonical document stays, at the path the change moved it to |
| `JsonChange.RemovedComesBack` | packages/kernels/src/json.ts:312-351 | adding back what was removed gives the document again |
| `JsonChange.OperationMeans` | packages/kernels/src/json.ts:353-380 | each of the six operations does exactly what it says of the value at its path, and fails exactly when it cannot |
| `JsonPatch.ApplyJsonPatch` | packages/kernels/src/json.ts:353-380 | the operations are applied in order up to the first that fails |
| `JsonPatch.TestExact` | packages/kernels/src/json.ts:360-361 | a test passes exactly when the value found agrees with the given one up to leading byte order marks; for canonical values, exactly when it equals it |
| `JsonPatch.PatchCanonical` | packages/kernels/src/json.ts:353-380 | a patch that is carried out keeps a canonical document canonical throughout exactly when none of its operations brings in such a value or key |
| `JsonPatch.BomTokenBreaks` | packages/kernels/src/json.ts:312-351 | adding under a token with a leading byte order mark puts in a key that is not canonical |

## Left out

- SQL execution, the authorizer and DoltLite internals: taken as one deterministic step function; interrupting the first initialization of an empty repository is not modelled.
- Envelope checks on logged results beyond registered rejection codes, stored content hashes, branch-name text, reentrancy and closed flags, and subscriber callbacks of the materializer.
- Control-store members that only append a delta without touching the order (materialized heads, stored checkpoints, history reopenings), the attestation index by transaction, `settlementEvidence`, and failures of the coalesced snapshot write.
- ControlStore.ControlStore.Restore: attestations and heartbeats of a snapshot are loaded without checks, as the source does; the snapshot's text encoding is not modelled.
- Transport, feed-fork detection and envelope encryption: feed contiguity is the flag the store keeps; receivers other than the validator itself are represented by the attestations and heartbeats they count.
- ClosedHistory.DriveValidator: clock values are parameters; other awaited checks of a candidate only decide whether it is signed at all.
- Capabilities.VerifyRecoveryRecord: that encoding a malformed payload throws is modelled where the record is applied.
- Capability and policy codecs, snapshot digests, reader scopes and role queries: opaque schema predicates or easy members.
- Policy shortfalls are values, not the rendered texts; class and organization names are compared by code point, which is UTF-8 byte order.
- Strings with unpaired surrogates: encoders and the JSON parser refuse them, and the model's strings cannot hold them.
- The sqlite3-parser syntax tree, the allow-list checks, `completeOrderedResultSql` and the choice of segment boundaries: a segment is any run of whole pieces of the statement.
- Path text (RFC 6901): paths are token lists, and the check against moving a value into itself is on tokens.
- JsonLaws.ParseSerialize: on text; reading bytes first drops a byte order mark at the start of the document.
- `parseDecimal` with a declared scale, `formatDecimal` without trailing zeros, decimal sums, remainders and precision checks; entropy, int64, text and vector kernels.
- Ed25519, HPKE, AES-GCM, SHA-256, key stores, daemon, CLI, RPC, React hooks, chaos and release tools.
