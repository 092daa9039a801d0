# Verified model of the node's event log, projection, stores and compute pipeline

This project models, in Dafny, the parts of the repository whose correctness rests on an argument
rather than on reading one function, and proves that argument for every input, run or reachable state.

| part | modules | what is modelled |
|---|---|---|
| crash-safe event log | `Bytes`, `Frames`, `Inspection`, `InspectionFaults`, `Recovery`, `TornIndex`, `EventLogs` | the bytes of the active segment and of its index, startup inspection, tail recovery, appends and reads, and a state machine that may stop after any byte |
| event-sourced projection | `Rewards`, `E3Ids`, `Projection`, `ProjectionRuns`, `Lifecycle`, `FailureOrder`, `LastWord`, `Traces`, `Compaction` | the projection object, its chain view and its E3 view, reward claims, the status machine, the trace, payload compaction |
| refresh | `Refresh` | cursor pagination against an event store that grows, splits pages as it likes and times out |
| persistence and stores | `Persistables`, `Trees`, `Stores`, `SequenceIndexes` | containers with staging, the disk and the in-memory key-value store, both sequence indexes |
| compute pipeline | `Policies`, `MerkleTrees`, `Compute` | leaves, selection, tree, journal and published ciphertext under any input policy |
| aggregator start | `Aggregators` | the order-independent start of the plaintext aggregator |
| feature containment | `FeatureReach`, `FeatureContainment` | the worklist over Cargo features and the search of dependency tables |

Code that changes state is modelled by classes and loops; each method's contract ties the new state to
a specification function, and the theorems are lemmas about those functions. What the program takes
from libraries is a parameter: checksum, serialization, decimal and address parsing, hashes, commitment.
A hypothesis about such a parameter is always written out (`RoundTrips`, `Faithful`, `Lawful`).

## What the proofs found

- A crash right after recovery has truncated the segment loses every whole record that had no index
  entry yet: the payloads to append again exist only in memory (`Recovery.CrashAfterTruncationDropsTail`,
  `Recovery.TailLossIsReachable`; `Recovery.TailLossFromEmptyLog` gives a run from an empty log).
  Indexed records are never lost.
- An index entry of which only some bytes were written is harmless exactly if what is there reads as an
  empty slot or as the whole entry; otherwise the log refuses to open (`TornIndex.TornEntryIsExact`), as
  with a cut between number and position behind any indexed record (`TornIndex.HalfEntryRefused`).
- A read from 0 is labelled from 1 by the durable log and from 0 by the in-memory one
  (`EventLogs.ReadsAgree`); behind zero-based labels a refresh would deliver an event again
  (`Refresh.ZeroBasedLabelsRedeliver`).
- A refresh that succeeds takes the first page of an aggregate that is not full for the last one, whatever
  remains. It has caught up exactly when that page held the rest
  (`Refresh.DashboardState.RefreshAggregate`), which is always so for a store that fills its pages
  (`Refresh.DashboardState.RefreshAll`). Nothing is lost or repeated either way.
- An E3's status depends on the order of its events exactly when both a failing and a completing one are
  among them (`Lifecycle.StatusIsOrderFreeExactly`). The size of its committee depends on the order exactly
  when finalized committees differ in size, an empty one is finalized beside a published one, or none is
  finalized and published ones differ in size (`Lifecycle.CommitteeIsOrderFreeExactly`). With failures the
  current phase depends on the order too, and exactly when is `FailureOrder.PhaseIsOrderFreeExactly`: for
  instance always when failed stages go back to different phases.
- The honest roster is checked for emptiness before the aggregator starts, the committee roster is not
  (`Aggregators.EmptyCommitteeCanStart`). An aggregator starts with an empty committee exactly when the
  last step that wrote a roster named no member (`Aggregators.EmptyCommitteeExactly`).
- The in-memory key-set check is right for every store exactly when no expected key is repeated
  (`Stores.CountDecidesExactly`, `Stores.RepeatedKeyFoolsCount`), and the message constructor repeats none
  (`Stores.MessageKeysDecide`).
- A root binds the leaves of equally many ciphertexts, but not their number: where a leaf of a lower tree
  is an inner node of a higher one, both have one root (`Compute.RootBindsLeaves`), and there are such
  runs, for a program that publishes its leaves (`Compute.TwoCountsOneRoot`).
- A value whose encoding is the single byte 0 is lost by a container (`Persistables.ZeroByteValuesAreLost`);
  a container made from a default disagrees with its store when the first save is refused, and no error
  says so (`Persistables.Persistable.LoadOrDefault`).

## Model

| member | source | states |
|---|---|---|
| Frames.EncodedFrameReads | crates/data/src/commit_log_event_log.rs:391-444 | an encoded record found at any position of a segment reads as complete, with its own offset, payload and end |
| Frames.TornFrameIncomplete | crates/data/src/commit_log_event_log.rs:391-407 | every strict prefix of an encoded record at the end of the file is incomplete, whatever checksum function the reader has |
| Frames.CompleteIffEncoded | crates/data/src/commit_log_event_log.rs:391-444 | a position reads as complete if and only if the bytes there are the encoding of one valid record |
| Inspection.InspectActiveTail | crates/data/src/commit_log_event_log.rs:187-389 | the loops over index, indexed records and tail compute the inspection function, error cases included |
| Inspection.ScanIndex | crates/data/src/commit_log_event_log.rs:253-281 | the index loop computes the parse: consecutive entries, then only empty slots, else the error of the first slot at fault |
| Inspection.CheckIndexedRecords | crates/data/src/commit_log_event_log.rs:304-338 | the loop over indexed records computes the check of positions, checksums, offsets and decoding |
| Inspection.CollectUnindexed | crates/data/src/commit_log_event_log.rs:340-376 | the tail loop ends and computes the list of whole records before the first incomplete one |
| Inspection.LayoutAccepted | crates/data/src/commit_log_event_log.rs:304-388 | indexed records, then whole records without entry, then a torn rest: inspection accepts and plans to recover exactly those whole records |
| Inspection.AcceptedHasLayout | crates/data/src/commit_log_event_log.rs:253-388 | accepted files have that layout: entry i has number i and position 2 plus the sizes before it, and only empty slots follow |
| Inspection.AcceptanceIsExact | crates/data/src/commit_log_event_log.rs:253-388 | inspection succeeds on exactly the files with that layout |
| Inspection.NothingToRecover | crates/data/src/commit_log_event_log.rs:378-388 | for accepted files there is nothing to recover if and only if the indexed records end the file |
| InspectionFaults.FaultsInOrder | crates/data/src/commit_log_event_log.rs:246-302 | a bad index length comes first, then the index, then a missing or wrong header; every accepted segment starts with two bytes 255 |
| InspectionFaults.MisplacedSlot | crates/data/src/commit_log_event_log.rs:253-272 | behind any numbered slots and some empty ones, a full slot is named misplaced |
| InspectionFaults.GapInNumbers | crates/data/src/commit_log_event_log.rs:253-281 | behind any numbered slots, a full slot with another number is named a gap |
| InspectionFaults.IndexedRecordAtFault | crates/data/src/commit_log_event_log.rs:304-338 | behind any sound records, an indexed record is refused for its position, its damage, its offset or its content, whichever comes first |
| InspectionFaults.UnindexedRecordAtFault | crates/data/src/commit_log_event_log.rs:340-376 | behind any sound records, damage ends the tail, while a wrong offset or undecodable content is refused |
| InspectionFaults.LittleEndianByte | crates/data/src/commit_log_event_log.rs:253-257 | byte i of an encoded number is its i-th digit to base 256, the lowest first |
| Recovery.ReopeningRecovers | crates/data/src/commit_log_event_log.rs:340-388 | stopped after any byte, reopening accepts the files and plans exactly the wholly written records after the indexed ones |
| Recovery.StepKeeps | crates/data/src/commit_log_event_log.rs:61-106 | append, byte write, index entry, crash and reopening each keep the invariant on the two files |
| Recovery.StepRefinesList | crates/data/src/commit_log_event_log.rs:61-106 | against the log as a list: append adds one record, writes and reopening change nothing, a crash takes exactly the records not wholly written |
| Recovery.RunsKeepIndexedRecords | crates/data/src/commit_log_event_log.rs:61-106 | on every run with any number of crashes, indexed records stay at the front unchanged, the log is submitted records in order without repeats, and every state can be inspected |
| Recovery.InterruptedRecoveryKeepsPrefix | crates/data/src/commit_log_event_log.rs:84-99 | crashes and reopenings without appends, any number of times, leave the indexed records followed by a prefix of the rest |
| Recovery.CrashAfterTruncationDropsTail | crates/data/src/commit_log_event_log.rs:446-471 | a crash between truncation and re-append leaves the indexed records alone; nothing is lost exactly if nothing was to be recovered |
| Recovery.TailLossIsReachable | crates/data/src/commit_log_event_log.rs:84-99 | from every stopped state that keeps the invariant and has a whole record without entry, two steps lose it |
| Recovery.TailLossFromEmptyLog | crates/data/src/commit_log_event_log.rs:84-99 | for every acceptable payload there is a run from an empty log that appends it, holds it when stopped, and has lost it after recovery and a second stop |
| Recovery.CutFrames | crates/data/src/commit_log_event_log.rs:340-376 | any number of written bytes of a batch is some whole frames and a rest that reads as incomplete |
| TornIndex.TornEntryIsExact | crates/data/src/commit_log_event_log.rs:253-281 | an index entry cut after k bytes is accepted if and only if its slot reads as empty or as the whole entry |
| TornIndex.HalfEntryRefused | crates/data/src/commit_log_event_log.rs:253-281 | with records indexed already, an entry cut after its number is always refused |
| EventLogs.CommitLogEventLog.Open | crates/data/src/commit_log_event_log.rs:61-106 | success exactly when inspection, re-append and read-back succeed, and the error of the first that does not; then the log holds the indexed and the recovered records, a second inspection finds nothing, and validation changes no byte |
| EventLogs.CommitLogEventLog.Restore | crates/data/src/commit_log_event_log.rs:84-99 | the re-append loop adds all recovered payloads in order at consecutive offsets, or reports failure exactly when space runs out |
| EventLogs.CommitLogEventLog.AppendBytes | crates/data/src/commit_log_event_log.rs:108-115 | success exactly if the record is not too large and there is space; then one record more at the end with the next sequence number, else the error that applies and no change |
| EventLogs.CommitLogEventLog.Append | crates/data/src/commit_log_event_log.rs:474-477 | success exactly if the serialized event is not too large and there is space; then a log that held a list of events holds that list and the new event |
| EventLogs.CommitLogEventLog.ReadFromCheckedWithLimit | crates/data/src/commit_log_event_log.rs:130-184 | however the library splits its batches, the result is the decoded window of the log, and it fails exactly as that window does |
| EventLogs.CommitLogEventLog.Head | crates/data/src/commit_log_event_log.rs:502-505 | the head is the number of records |
| EventLogs.DecodedExactly | crates/data/src/commit_log_event_log.rs:130-184 | a read succeeds if and only if every record of its window is readable, and labels each with its position plus one |
| EventLogs.InMemEventLog.Append | crates/data/src/in_mem_event_log.rs:61-64 | the event becomes the last, and its number is the length |
| EventLogs.InMemEventLog.ReadFrom | crates/data/src/in_mem_event_log.rs:27-42 | the window from a start on, labelled from that start |
| EventLogs.InMemEventLog.ReadFromBounded | crates/data/src/in_mem_event_log.rs:43-60 | the same window cut at the limit |
| EventLogs.ReadsAgree | crates/data/src/in_mem_event_log.rs:27-60 | for every start and limit the two logs answer alike if and only if the start is at least 1 or the answer is empty |
| EventLogs.OpenAfterCrash | crates/data/src/commit_log_event_log.rs:61-106 | files left by a crash at any byte can be restored, and the reopened log is the indexed records and every wholly written one |
| EventLogs.CrashedLogReadsAsList | crates/data/src/commit_log_event_log.rs:126-184 | a log with any earlier segments, crashed at any byte and reopened, answers every read from 1 on as an in-memory log of the earlier and the surviving events |
| Rewards.MarkClaimedRewards | crates/dashboard/src/projection.rs:837-878 | marks all unclaimed matching credits if their amounts parse and sum to the claim exactly, and otherwise none, overflow of 256 bits included |
| Rewards.ClaimThenSelect | crates/dashboard/src/projection.rs:384-397 | claiming on the credits of one E3 within the chain's list is claiming on that E3's list |
| Rewards.SelectThroughClaim | crates/dashboard/src/projection.rs:486-501 | filtering commutes with a claim if the filter keeps every credit the claim matches |
| Rewards.ClaimConserves | crates/dashboard/src/projection.rs:837-878 | a claim moves exactly its amount from unclaimed to claimed or nothing, and resets no flag |
| Rewards.ClaimIsExact | crates/dashboard/src/projection.rs:837-878 | a claim marks exactly the unclaimed credits to its account in its token if their amounts are legible and add up to it, and nothing otherwise |
| Rewards.ClaimOnPartIsExact | crates/dashboard/src/projection.rs:384-397 | the same within the credits of one E3, and no credit of another is touched |
| Rewards.SpellingsOfOneAddress | crates/dashboard/src/projection.rs:833-835 | two spellings name one address if and only if they differ in the case of ASCII letters only |
| E3Ids.PrintedIdsAreUnique | crates/events/src/e3id.rs:18-30 | two identifiers print alike if and only if they are equal, so the printed form can be a key |
| E3Ids.PrintedChain | crates/dashboard/src/projection.rs:402-410 | the chain read from a printed identifier is the one it was printed from |
| Projection.TelemetryProjection.Apply | crates/dashboard/src/projection.rs:248-255 | one event has exactly its effect on the events, the E3s and the chains |
| Projection.TelemetryProjection.ApplyOperatorState | crates/dashboard/src/projection.rs:311-400 | exactly the step on the chains that the run lemmas of `LastWord` and `ProjectionRuns` are about, and no field but the chains changes |
| Projection.TelemetryProjection.ApplyE3State | crates/dashboard/src/projection.rs:402-505 | exactly its effect on its own E3, and no field but the E3s changes |
| LastWord.RegisteredExactly | crates/dashboard/src/projection.rs:311-326 | on every stream a node is registered on a chain if and only if some event adds it there and no later one removes it |
| LastWord.ActiveExactly | crates/dashboard/src/projection.rs:311-336 | on every stream a node is active on a chain if and only if some event activates it there and no later one deactivates or removes it |
| LastWord.ChainShowsLastWords | crates/dashboard/src/projection.rs:337-364 | on every stream balance, bond, owner and exit time of a chain are those of the operator's last such events |
| LastWord.LastSaidIsLast | crates/dashboard/src/projection.rs:311-505 | the last word on a topic is that of an event with none on it afterwards, and there is none exactly if no event speaks |
| LastWord.E3IsToldByEvents | crates/dashboard/src/projection.rs:426-501 | after any stream committee, tickets, expelled members, scores, allocations, failure and failed phase of an E3 are told by its own events |
| LastWord.EventsAreKept | crates/dashboard/src/projection.rs:248-255 | every event is kept in order with its own time, source, E3, phase and severity |
| LastWord.OwnEventsAreKept | crates/dashboard/src/projection.rs:503-505 | an E3 keeps exactly its own events, in order |
| LastWord.PhasesOfEvents | crates/dashboard/src/projection.rs:547-661 | exactly the operator events have no phase, and a request failing in a stage counts as failed at the work that follows it |
| LastWord.SeveritiesOfEvents | crates/dashboard/src/projection.rs:663-684 | only failures are errors, only an expulsion is a warning, and only what has no phase is of no interest |
| ProjectionRuns.RewardViewsAgree | crates/dashboard/src/projection.rs:365-501 | on every stream and for every E3, the chain's credits of that E3 equal the E3's credits of the operator, in order and with the same flags |
| ProjectionRuns.ClaimsAreConserved | crates/dashboard/src/projection.rs:486-501 | on every stream the flagged total is the sum of the accepted claims and never exceeds the credited total |
| ProjectionRuns.CreditsAreNeverTakenBack | crates/dashboard/src/projection.rs:486-501 | between any two points of a stream credits are only added at the end and flags only set |
| ProjectionRuns.SameClaimsAccepted | crates/dashboard/src/projection.rs:384-397 | on every stream the chain view accepts a claim of the operator exactly when the E3 view does |
| ProjectionRuns.ChainClaimsAreConserved | crates/dashboard/src/projection.rs:365-397 | on every stream and for every chain, the flagged total of the chain view is the sum of the operator's claims that the E3 views accepted, and never exceeds the operator's credits |
| ProjectionRuns.ChainCreditsAreNeverTakenBack | crates/dashboard/src/projection.rs:365-397 | in the chain view too, credits are only added at the end and flags only set |
| ProjectionRuns.E3ListsItsCredits | crates/dashboard/src/projection.rs:486-501 | on every stream an E3 lists exactly its credits with account, token and amount, in order; only the claimed flags differ |
| ProjectionRuns.ChainListsItsCredits | crates/dashboard/src/projection.rs:365-397 | and a chain exactly the operator's credits on it, each under its E3 |
| Lifecycle.StateIsFoldOfOwnEvents | crates/dashboard/src/projection.rs:402-505 | an E3's state after any stream is the fold of its own events, and exists exactly if there are any |
| Lifecycle.SummaryIsOrderFree | crates/dashboard/src/projection.rs:739-760 | two streams with the same events of an E3 up to order, none a failure, give it the same summary; the committee size is included if the events are steady |
| Lifecycle.CommitteeOfRun | crates/dashboard/src/projection.rs:426-433 | the size of the committee after any stream is told by the finalizing and publishing events alone |
| Lifecycle.CommitteeIsOrderFreeExactly | crates/dashboard/src/projection.rs:426-433 | the size of the committee is the same for every order if and only if the events are steady |
| Lifecycle.TimesAndCountsAreOrderFree | crates/dashboard/src/projection.rs:739-760 | seen times and event, error and warning counts never depend on the order, failures included |
| Lifecycle.TimesOfRun | crates/dashboard/src/projection.rs:402-430 | first and last seen are the least and greatest timestamps of the E3's events |
| Lifecycle.PhaseOfRun | crates/dashboard/src/projection.rs:402-470 | without failures the current phase is the largest phase seen, and the status is complete exactly if a completing event occurred |
| Lifecycle.PhaseIsOrderFree | crates/dashboard/src/projection.rs:402-470 | without failures status and phase do not depend on the order |
| Lifecycle.StatusIsOrderFreeExactly | crates/dashboard/src/projection.rs:440-485 | the status is the same for every order if and only if the events do not hold both a failing and a completing one |
| FailureOrder.MarkOfRun | crates/dashboard/src/projection.rs:417-475 | after any stream the current phase and whether the E3 counts as failed are told by phases, failures and completions alone |
| FailureOrder.PhaseIsOrderFreeExactly | crates/dashboard/src/projection.rs:417-475 | failures included, the current phase is the same for every order if and only if the events are steady: failed stages agree on a phase that nothing can lift; without failed stages and completions every failure is as far as any event; with completions only, they outnumber the failures below the last phase |
| Traces.TraceHasOneHead | crates/dashboard/src/projection.rs:762-790 | every trace is complete phases, one head marked as the status says, then pending phases; the head is the failed phase of a failed E3, if known, and otherwise the current one |
| Traces.HeadOfRun | crates/dashboard/src/projection.rs:762-790 | after any stream the head of a failed E3 is where its last failure puts it |
| Traces.PhaseCountsAreExact | crates/dashboard/src/projection.rs:770-812 | each phase counts exactly its own events, by source and by severity |
| Traces.MembersOfRun | crates/dashboard/src/projection.rs:815-826 | after any stream each member has its place and score, and is marked expelled if and only if some event expels it, however it is spelled |
| Traces.SummaryOfRun | crates/dashboard/src/projection.rs:739-760 | after any stream every field of the summary is told by the E3's own events |
| Traces.TraceCountsEveryEvent | crates/dashboard/src/projection.rs:762-831 | over the phases, events, errors and warnings add up to those of the summary, less the ones without a phase |
| Compaction.SafeBoundary | crates/dashboard/src/projection.rs:731-737 | the loop finds the last character boundary at or below the limit |
| Compaction.CompactionSettles | crates/dashboard/src/projection.rs:698-729 | every compacted value is within 96 elements and 512 bytes at any depth, compacting twice is compacting once, and exactly the values within bounds are unchanged |
| Compaction.StringPreview | crates/dashboard/src/projection.rs:712-737 | the preview of a long valid string is a valid prefix cut between characters, at most three bytes short of 512 |
| Compaction.ArrayPreview | crates/dashboard/src/projection.rs:700-712 | a long array is shown by its length and its first twelve elements, each compacted |
| Compaction.PreviewsRead | crates/dashboard/src/projection.rs:698-729 | a reader of a preview finds its kind, the full length, the preview and the mark under their keys |
| Compaction.PartsAreCompacted | crates/dashboard/src/projection.rs:713-719 | in a short array and in any object each part is compacted at its own place |
| Compaction.CompactIsLegible | crates/dashboard/src/projection.rs:698-737 | where every string and key of a value is valid text, so is every one of the compacted value |
| Compaction.PayloadIsBounded | crates/dashboard/src/projection.rs:686-696 | every payload is shown within bounds and settled, without the variant name around it if that is its only key, and otherwise whole |
| Compaction.CutAtBoundary | crates/dashboard/src/projection.rs:731-737 | valid text cut at a boundary gives two valid texts |
| Compaction.BoundaryIsNear | crates/dashboard/src/projection.rs:731-737 | in valid text a boundary is at most three bytes below any position |
| Refresh.DashboardState.RefreshAll | crates/dashboard/src/lib.rs:117-143 | whatever pages, growth and timeouts occur, each aggregate's events up to its cursor have been applied once each in order; success splits the answers between the aggregates, for each full pages and then one that is not full; failure is a timeout or the end of the answers and nothing else |
| Refresh.DashboardState.RefreshAggregate | crates/dashboard/src/lib.rs:121-141 | the same for one aggregate; success consumes full pages and then one that is not full, ends right behind it, and has caught up if and only if that page held the rest; failure means no answer or a timeout |
| Refresh.DashboardState.DeliverAll | crates/dashboard/src/lib.rs:128-138 | a page is applied whole and the cursor moves behind its last event |
| Refresh.EventStoreReader.FetchPage | crates/dashboard/src/lib.rs:145-162 | an answer is a contiguous piece of the log from the cursor on, of the length the store chose, or an error, while the log may grow |
| Refresh.PageExtends | crates/dashboard/src/lib.rs:117-143 | a page after the cursor extends exactly-once delivery to the new cursor |
| Refresh.ZeroBasedLabelsRedeliver | crates/events/src/eventstore.rs:121-145 | with labels that start at zero the next page begins with the last delivered event |
| Persistables.Store.TrySend | crates/data/src/data_store.rs:383-397 | an accepted message takes effect behind those before it, a refused one has no effect |
| Persistables.Store.Deliver | crates/data/src/in_mem.rs:55-62 | handling the oldest message changes nothing that a read queued behind the mailbox will find |
| Persistables.Persistable.Load | crates/data/src/persistable.rs:134-167 | the container holds what the store reads back, and an undecodable entry is an error |
| Persistables.Persistable.LoadOrDefault | crates/data/src/persistable.rs:140-144 | takes the stored value or the default and writes it to the store if it encodes and the send is accepted; agrees with the store exactly if the value was stored or that save was accepted |
| Persistables.Persistable.WriteValueToStore | crates/data/src/persistable.rs:169-187 | writes only outside staging, and an error leaves the store as it was |
| Persistables.Persistable.TryMutate | crates/data/src/persistable.rs:219-233 | value, context, staging flag, store and outcome are those of the mutation step, whose effect and failures the lemmas below state |
| Persistables.Persistable.SetValue | crates/data/src/persistable.rs:236-246 | the new value shows only if its write was accepted or the container is staged |
| Persistables.Persistable.ClearValue | crates/data/src/persistable.rs:249-260 | value and entry go together, or neither goes |
| Persistables.Persistable.CommitStaged | crates/data/src/persistable.rs:280-291 | the staged value is written and staging ends, or staging stays on |
| Persistables.StepAgrees | crates/data/src/persistable.rs:169-291 | every operation keeps container and store in agreement, and one that fails changes neither value nor store |
| Persistables.SucceedsExactly | crates/data/src/persistable.rs:169-291 | which operations succeed: by what the container holds, whether it is staged, whether the value encodes and the send is accepted |
| Persistables.MutationTakesEffect | crates/data/src/persistable.rs:219-233 | a mutation that succeeds has the mutated value in memory and, outside staging, in the store |
| Persistables.MutationFails | crates/data/src/persistable.rs:219-233 | why a mutation fails, each cause in its place, with the new context all the same |
| Persistables.RunIsFoldOfSuccesses | crates/data/src/persistable.rs:169-291 | after any run value, staging flag and context are those of the operations that succeeded, one after the other |
| Persistables.RunsAgree | crates/data/src/persistable.rs:159-291 | on every run of operations with every pattern of refused sends, outside staging the store reads back the value in memory |
| Persistables.OtherKeysUntouched | crates/data/src/data_store.rs:383-397 | no run of a container changes another key |
| Persistables.StagingIsPrivate | crates/data/src/persistable.rs:280-291 | while staged, nothing but clear and commit reaches the store |
| Persistables.ZeroByteValuesAreLost | crates/data/src/persistable.rs:159-167 | a written value reads back if and only if its encoding is not the single byte 0, and else as none |
| Stores.SledDb.InsertBatch | crates/data/src/sled_db.rs:38-48 | the tree is the map with the whole batch inserted in order |
| Stores.SledDb.InsertBatchIfAbsent | crates/data/src/sled_db.rs:51-71 | same new contents and same answer as the shared conditional-batch specification |
| Stores.SledDb.HasExactKeys | crates/data/src/sled_db.rs:95-114 | true if and only if the stored keys are the expected set, although at most one surplus key is looked at |
| Stores.SledDb.Remove | crates/data/src/sled_db.rs:73-78 | exactly that key is gone |
| Stores.SledDb.Get | crates/data/src/sled_db.rs:80-88 | the value under the key, or none |
| Stores.InMemKvStore.Insert | crates/data/src/in_mem_kv_store.rs:48-55 | the map is updated, and the operation is recorded only if capturing |
| Stores.InMemKvStore.HandleInsertBatch | crates/data/src/in_mem.rs:64-76 | the map with the whole batch inserted in order, and each insert recorded if capturing |
| Stores.RecordedBatchRepeats | crates/data/src/in_mem.rs:64-76 | carrying out what a batch was recorded as does to any store what the batch does |
| Stores.InMemKvStore.HandleInsertBatchIfAbsent | crates/data/src/in_mem.rs:94-114 | same new contents and same answer as the shared conditional-batch specification, and nothing recorded if it is refused |
| Stores.InMemKvStore.HasExactKeys | crates/data/src/in_mem_kv_store.rs:77-83 | equal counts and every expected key present; for distinct expected keys that is equality of key sets |
| Stores.InMemKvStore.Dump | crates/data/src/in_mem_kv_store.rs:91-94 | the dump depends only on the contents: it is that of the one sorted entry list with these contents |
| Stores.InMemKvStore.FromDump | crates/data/src/in_mem_kv_store.rs:97-109 | the rebuilt store holds the decoded entries inserted in order, whatever they are, and an empty operation log |
| Stores.ReplayedLast | crates/data/src/in_mem_kv_store.rs:97-109 | of several decoded entries with one key the last one counts |
| Stores.DumpRoundTrip | crates/data/src/in_mem_kv_store.rs:91-109 | a store rebuilt from its dump has the same contents, for a format that reads back what it writes |
| Stores.ConditionalBatchIsAtomic | crates/data/src/sled_db.rs:51-71 | all or nothing: no stored value changes, and every key of the batch is new or none is added |
| Stores.MessageKeysDecide | crates/data/src/data_store.rs:46-56 | with the keys as the message constructor normalizes them, the in-memory check decides equality of key sets |
| Stores.CountDecidesExactly | crates/data/src/in_mem_kv_store.rs:77-83 | for a list of expected keys the in-memory check decides equality of key sets in every store if and only if no key is repeated |
| Stores.RepeatedKeyFoolsCount | crates/data/src/in_mem_kv_store.rs:77-83 | for any two keys, a repeated expectation passes for a different key set |
| Stores.SortDedupMembers | crates/data/src/data_store.rs:46-56 | normalizing gives the same keys in strictly ascending order |
| Bytes.BigEndianPreservesOrder | crates/data/src/sled_sequence_index.rs:39-55 | keys of one width compare as bytes exactly as their numbers do |
| SequenceIndexes.SeekIsLeast | crates/data/src/in_mem_sequence_index.rs:30-32 | the recursive seek answers from the least key at or after the target, and nothing exactly if there is none |
| SequenceIndexes.SeekIsDetermined | crates/data/src/in_mem_sequence_index.rs:30-32 | indexes with the same entries have one answer to a seek |
| SequenceIndexes.IndexesAgree | crates/data/src/sled_sequence_index.rs:39-55 | after any insertions, overwriting ones included, both indexes answer every seek alike |
| SequenceIndexes.SledSequenceIndex.SeekAt | crates/data/src/sled_sequence_index.rs:46-55 | the scan over encoded keys answers from the least number at or after the target, and its values always decode |
| SequenceIndexes.SledSequenceIndex.Get | crates/data/src/sled_sequence_index.rs:31-37 | the number under the key, or none, never a decoding error |
| SequenceIndexes.SledSequenceIndex.Insert | crates/data/src/sled_sequence_index.rs:39-44 | the tree stays the encoding of an ordered map, now with the number under the key |
| SequenceIndexes.InMemSequenceIndex.Get | crates/data/src/in_mem_sequence_index.rs:39-41 | the number under the key, or none |
| SequenceIndexes.InMemSequenceIndex.SeekAt | crates/data/src/in_mem_sequence_index.rs:30-32 | the number under the least key at or after the target, and none exactly if there is no such key |
| Policies.HexRoundTrip | crates/compute-provider/src/compute_input.rs:144-145 | decoding hexadecimal text gives back the bytes it was made from |
| Policies.HexDigits | crates/compute-provider/src/compute_input.rs:144-145 | hexadecimal text has two lower-case digits a byte, the high half first |
| Compute.MatchingSelectionIsBound | crates/compute-provider/src/policy.rs:55-61 | under a policy that selects matching inputs only, every ciphertext computed over has the commitment published for it, if one was |
| MerkleTrees.DepthIsLeast | crates/compute-provider/src/merkle_tree_builder.rs:27-34 | the depth is the least one of at least 1 that has room for the leaves |
| MerkleTrees.TextTreeIsElementTree | crates/compute-provider/src/merkle_tree_builder.rs:111-126 | hashing through hexadecimal text, with prefixes trimmed, computes the tree over field elements, whose inner nodes are 32-byte texts |
| MerkleTrees.NodeBindsLeaves | crates/compute-provider/src/merkle_tree_builder.rs:128-144 | equal nodes, of one height or of two, have equal leaves below them, a leaf of the lower tree standing for the node at its place of the higher, or there is a collision between the two trees |
| MerkleTrees.RefinedNodeIsEqual | crates/compute-provider/src/merkle_tree_builder.rs:128-144 | conversely, trees related in that way have equal nodes, whatever the hash |
| MerkleTrees.DigestLeafIsReadable | crates/compute-provider/src/policy.rs:115-118 | the leaf of any digest is taken by the tree and stands for the digest modulo the field order |
| MerkleTrees.MerkleTreeBuilder.ComputeLeafHashes | crates/compute-provider/src/merkle_tree_builder.rs:55-109 | one leaf per input in order whatever is selected, the error of the first input without a leaf, else the selected ciphertexts or the first index out of range |
| MerkleTrees.MerkleTreeBuilder.BuildTree | crates/compute-provider/src/merkle_tree_builder.rs:128-144 | a tree with room for its leaves is never full: it is built of exactly them, or the library refuses an unreadable one |
| MerkleTrees.SortDedupMembers | crates/compute-provider/src/merkle_tree_builder.rs:97-99 | the selection is strictly increasing and has the indices the policy named |
| Compute.Run | crates/compute-provider/src/compute_input.rs:96-149 | the imperative run over the builder computes the run specification that the lemmas below are about |
| Compute.AcceptedRun | crates/compute-provider/src/compute_input.rs:96-149 | for every policy the root is that of all leaves, the processor sees exactly the selected ciphertexts in increasing order, and the journal describes the returned ciphertext |
| Compute.RunSucceedsExactly | crates/compute-provider/src/compute_input.rs:96-149 | only accepted inputs give a result, and an accepted one fails only if the processed bytes are no ciphertext |
| Compute.RunErrors | crates/compute-provider/src/compute_input.rs:101-115 | undecodable parameters, then mispaired published entries, then the first input the policy has no leaf for, each with its own error |
| Compute.RunRefusals | crates/compute-provider/src/merkle_tree_builder.rs:97-109 | with all leaves there, the least selected index beyond the end is the error; otherwise the process ends exactly if the hash library cannot read a leaf |
| Compute.EntriesArePaired | crates/compute-provider/src/merkle_tree_builder.rs:67-91 | entry i has ciphertext i, its recomputed commitment and, if entries are published, commitment and metadata i |
| Compute.DefaultRootIsOfCommitments | crates/compute-provider/src/policy.rs:80-104 | under the default policy every ciphertext has a commitment and the root is the tree root over these commitments |
| Compute.RootIsOfAllLeaves | crates/compute-provider/src/compute_input.rs:112-119 | the journal's root is the tree root over one leaf per ciphertext |
| Compute.RootIgnoresSelection | crates/compute-provider/src/compute_input.rs:121-127 | other selections, processors and on-chain indices over the same published bytes leave the root unchanged |
| Compute.RootBindsLeaves | crates/compute-provider/src/compute_input.rs:77-81 | two runs have one root if and only if their trees are the same, the lower one's leaves standing for nodes of the higher, but for a collision between the trees; over equally many ciphertexts that means all leaves are equal |
| Compute.TwoCountsOneRoot | crates/compute-provider/src/compute_input.rs:112-119 | any four ciphertexts with published leaves, and any two with the hashes of the pairs of these leaves, give two successful runs with one root |
| Compute.SelectionIsASet | crates/compute-provider/src/merkle_tree_builder.rs:97-108 | order and repetition in a policy's selection never change the outcome of a run |
| Compute.DefaultSeesEverything | crates/compute-provider/src/policy.rs:80-108 | under the default policy the processor sees every ciphertext in order |
| Compute.DefaultNamesTheUndecodable | crates/compute-provider/src/policy.rs:96-104 | under the default policy the error names index k if and only if k is the first ciphertext that does not decode |
| Compute.StartPublishesWhatIsProved | crates/compute-provider/src/compute_manager.rs:57-61 | with a provider that proves the run, the returned ciphertext is the one whose hash and commitment the journal carries, for every policy |
| Compute.StartFollowsRun | crates/compute-provider/src/compute_manager.rs:57-61 | the manager answers exactly when the run does, with the run's ciphertext or its error |
| Aggregators.PlaintextExtension.TryStartPlaintext | crates/aggregator/src/ext.rs:256-343 | the context after one attempt; the answer is yes exactly if the keyshare is ready and an aggregator runs |
| Aggregators.PlaintextExtension.HandleEvent | crates/aggregator/src/ext.rs:573-638 | the context after one event, the retry with a waiting ciphertext included |
| Aggregators.RunsAreSound | crates/aggregator/src/ext.rs:256-343 | on every run, from a new or a recovered context, the aggregator starts at most once, only with a nonempty honest roster, and nothing known is unset |
| Aggregators.AttemptExactly | crates/aggregator/src/ext.rs:256-343 | an attempt starts the aggregator if and only if it can and none runs, and with which values; when it reports an error and when it saves the state |
| Aggregators.StartedWithLastKnown | crates/aggregator/src/ext.rs:256-343 | on every run the started aggregator has the last ciphertext, the size of the last metadata, the activity last told and the rosters known at the start, and nothing changes it later |
| Aggregators.PublishedHonest | crates/aggregator/src/ext.rs:508-554 | a published committee is the honest roster too if it has the size asked for; else a known roster stays and an unknown one is recovered from party numbers |
| Aggregators.RostersReported | crates/aggregator/src/ext.rs:573-638 | without a waiting ciphertext, exactly unreadable or unusable rosters and attempts that cannot succeed are reported |
| Aggregators.SizesOfCommittees | crates/zk-helpers/src/ciphernodes_committee.rs:37-50 | a known size is that of a committee of 3, 9 or 19, and asks for one honest member more than half |
| Aggregators.ParsedInOrder | crates/aggregator/src/committee.rs:16-23 | node strings are addresses if and only if each parses, and each gives its own |
| Aggregators.ArrivalOrderDoesNotMatter | crates/aggregator/src/ext.rs:573-638 | a ciphertext and a usable public-key event in either order, with any steps between, end with exactly one started aggregator if keyshare and metadata precede the later one |
| Aggregators.BothOrdersStartTheSame | crates/aggregator/src/ext.rs:573-638 | in a context waiting only for the two, both orders end in the same state |
| Aggregators.EmptyCommitteeCanStart | crates/aggregator/src/ext.rs:256-343 | with an empty committee and a nonempty honest roster the aggregator starts |
| Aggregators.CommitteeIsLastWritten | crates/aggregator/src/ext.rs:573-638 | the known committee roster is the one the last step to write one has written |
| Aggregators.EmptyCommitteeExactly | crates/aggregator/src/ext.rs:256-343 | the started aggregator has an empty committee if and only if the last step that wrote a roster, up to the start, named no member |
| Aggregators.CommitteeIsNonempty | crates/aggregator/src/ext.rs:256-343 | on every run without a step that names no member, a started aggregator has a nonempty committee |
| Aggregators.HonestRecovery | crates/aggregator/src/ext.rs:433-455 | recovery works if and only if the party numbers are some and all in range; entry i is the address of the i-th number, and from a committee without repeats the roster has none and keeps the committee's order |
| Aggregators.RosterTellsParties | crates/aggregator/src/ext.rs:433-455 | two sets of party numbers of a committee without repeats give one roster only if they are equal |
| FeatureReach.ReachesTarget | scripts/check-cargo-feature-containment.py:26-40 | the worklist ends and answers true if and only if a chain from the default features leads to the target |
| FeatureReach.NormalizedForms | scripts/check-cargo-feature-containment.py:32 | the mark of a dependency is dropped once and only at the front |
| FeatureReach.HitForms | scripts/check-cargo-feature-containment.py:33-34 | the target is hit by its own name and as a feature of a dependency, and by nothing else |
| FeatureContainment.DependencyTables | scripts/check-cargo-feature-containment.py:43-62 | the loops and the recursion into targets compute the list of tables |
| FeatureContainment.TablesFound | scripts/check-cargo-feature-containment.py:43-62 | a table is in that list if and only if a dependency path of the manifest, targets nested to any depth, leads to it |
| FeatureContainment.EnabledOnDependency | scripts/check-cargo-feature-containment.py:65-73 | true if and only if some dependency in some such table lists the feature by name |
| FeatureContainment.ListsPlainName | scripts/check-cargo-feature-containment.py:67-72 | a dependency lists the feature if and only if its features are an array with the plain name among the items |

## Assumptions

- The segment format is the one the reading code expects: a 20-byte little-endian header with the offset,
  the body size, a checksum of the body, two bytes that are not interpreted, and the metadata size. The
  `commitlog` crate that writes it is not part of this model; its append and read are given this format,
  and a full segment makes an append fail (`SegmentFull`) instead of starting a new one.
- The index is 8-byte entries of number and position, unused ones zero. On a run of the crash model an
  entry appears whole; entries cut short are the subject of `TornIndex`.
- The event store returns a contiguous piece of an aggregate's log and an empty one only at its end.
- Containers are wired to one store actor whose mailbox keeps its order.
- Poseidon hashes are below the field order and hexadecimal text below it reads as its number
  (`Lawful`); libraries like that exist (`MerkleTrees.LawfulIsPossible`).

## Left out

- Segment files other than the active one, rolling to a new one, directory listing and fsync: only the bytes of the active segment and its index are modelled; earlier segments are a list of records.
- EventLogs.CommitLogEventLog.Open: the re-append's comparison of the returned with the planned offset is asserted in the loop instead of being an error branch, since it cannot fail here.
- EventLogs.CommitLogEventLog.Restore: recovered payloads are framed anew without metadata, as the code does; a tail record's metadata is not carried over.
- Base offsets that make a record number exceed 64 bits: an append fails there instead of wrapping.
- Projection.TelemetryProjection.Apply: producers, identifiers and payload text of a view, the overview counts and the sorting of summaries are left out: each is computed from one event or one state alone.
- MerkleTrees.DepthIsLeast: the logarithm is exact; the source computes it in floating point, which rounds for leaf counts of about 2^48 and more.
- MerkleTrees.MerkleTreeBuilder.BuildTree: the tree crate is a mathematical tree of fixed depth with zero leaves; its errors on construction and a missing root do not occur.
- Compute.AcceptedRun: a processor that does not return is not modelled.
- Aggregators.PlaintextExtension.TryStartPlaintext: building the actor, its parameters and its cipher is one step; hydration from a snapshot and the public-key extension are left out.
- Persistables.RunsAgree: the wiring through the snapshot buffer, where inserts and removes take different recipients, is left out.
- Stores.SledDb.InsertBatchIfAbsent: one transaction at a time; conflicts and retries inside the disk store are left out, as are its errors.
- FeatureContainment.EnabledOnDependency: reading and decoding manifest files, the choice of manifests and the report are left out.
- Checksums, Poseidon, Keccak, BFV encryption and serialization formats are uninterpreted functions.
- Actors, mailbox scheduling, locks, RPC, EVM providers, configuration, HTTP routes and command-line tools.
