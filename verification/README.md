# Astra sync core: a verified model

A Dafny model of the replicated-state core of the Astra retail system: how kiosks
elect a leader, stamp events with hybrid logical clocks, keep state in CRDTs (in
the Rust daemon and in its TypeScript twin), frame messages on byte streams, and
hand events and offline payments to the cloud. Two self-contained algorithms, box
suppression and baggage headers, are included. `dafny verify dfyconfig.toml`
checks the whole project.

Most results are about whole runs: any number of kiosks, messages lost, repeated
and reordered, clocks that run backward, streams cut anywhere, relays that crash
between any two steps. A run is a sequence of states; the network is a set of
everything ever sent, so any of it can arrive never, late or often. Code that
updates objects in place is modelled by classes and loops, each proved against a
pure specification function; the run theorems are about those functions.

## Main results

- **Elections** (`Raft`, `Election`). Terms never fall and votes never move within
  a term. No term has two leaders in any run *if and only if* the cluster has fewer
  than twice the majority of `known_peers`: counting against the true cluster size
  is safe, and the daemon's constant `known_peers == 1` is safe only for a lone
  kiosk; otherwise a run with two leaders is constructed.
- **Clocks** (`Hlc`, `ClockRuns`). In every run of a fleet that mixes Rust and
  TypeScript kiosks, happens-before implies `dominates` and stamps are unique;
  stamps lead physical time by at most one millisecond per tick of a Rust kiosk,
  reach that bound, and never lead it in a fleet without Rust.
- **CRDTs.** The OR-set, PN-counter, LWW register, LWW element set and multi-value
  register are each shown to hold, in every run or merge tree, exactly what the set
  of absorbed operations determines, down to the fields the code stores. Where
  that fails (reused tags, ties, backward stamps, a stamp written twice) the exact
  condition is proved and a failing input given. The two LWW element sets answer
  alike without ties and backward stamps; after a tie the Rust replicas differ
  for good, however they exchange their sets.
- **Framing** (`Streaming`, `WireProtocol`, `SyncFrames`). Chunking never changes
  what is decoded; any sequence of frames, cut anywhere, arrives as sent; strict
  prefixes wait; resynchronisation after garbage costs one error per byte, but a
  damaged header of a peer-to-peer frame swallows the frames its lengths cover.
- **Delivery** (`Outbox`, `OfflineQueue`). Rows are marked only after the broker's
  acknowledgement, nothing is lost, effects happen once, and queues drain in exactly
  ceil(n/100) passes and ceil(n/1000) flushes. Messages are never delivered twice
  *if and only if* at most one relay runs and no fault strikes between delivery and
  mark. Queueing a token again is safe *if and only if* the token is harmless, a
  condition on the acknowledgements, the row and the flush in progress.
- **Algorithms** (`Nms`, `Baggage`). Greedy suppression computes the one kernel of
  its order; every baggage header that fits decodes to a stated list of entries, and
  to exactly its own entries under an exact condition.

## Where the code and its comments differ

The model follows the code.

- `crdt/mod.rs:8-10` promises a tie-break by node id; `LwwElementSet` uses
  `dominates`, which has none. `LwwSet.MergedCommutesIff` and
  `LwwAgreement.RustConvergesIff` give the exact conditions.
- `crdt/hlc.rs:55-57` promises that a tick shows the later of clock and reading; the
  code adds one millisecond (`Hlc.TickShowsMaxIff`, `ClockRuns.DriftReached`).
- `crdt.ts:36-39` lets an add win over older removes; the code overwrites a held add
  whatever its stamp (`LwwAgreement.BackwardDisagrees`, `LwwSet.LocalOpsAscendIff`).
- `crdt.ts:143-146` promises all concurrent values; all survivors of a merge share one
  stamp (`MvRegister.TsSurvivorsShareStamp`, `MvRegister.TsDropsConcurrent`).
- `storage/sqlite.rs:349-354` keeps `flushed` when a token id is queued again, so a
  payment can be lost, after its flush (`OfflineQueue.RequeueLosesPayment`) or in
  the middle of it (`OfflineQueue.RequeueMidFlushLosesPayment`).
- `outbox.go:116-118` says relays do not publish twice. The SELECT runs outside a
  transaction, so they do (`Outbox.RacingRelaysDuplicate`).
- `crdt.ts:4-8` says both sides apply the same rules; `compareHlc` orders node ids by
  UTF-16 units and the daemon by UTF-8 bytes (`Hlc.CompareHlcIsCompareTotalIff`).

## Hypotheses

- Elections: nothing in the daemon counts vote responses, so `Election.CountVote`
  is an added step: distinct voters, matching term, only while Candidate, and only
  by the candidate the vote was given to. `RaftVoteResponse` names neither voter nor
  candidate, so all of that must come from the transport. All nodes share one value
  of `known_peers`. No term passes the largest `u64`.
- `ClockRuns.ClockCondition` and `StampsUnique` are about runs in which no clock
  saturates; `Hlc.TickDominatesIff`, `ReceiveDominatesIff` and `TsMovesDominateIff`
  say exactly which steps do. A kiosk receives only stamps its number types can hold.
- `LwwAgreement.Agreement` and the results on the TypeScript set in trees assume
  `NeverBackward`: no local add (remove) is stamped behind an add (remove) of its key
  that the replica holds. `NeverBackwardIff` shows what that is equivalent to,
  `AddAgreesIff` and `RemoveAgreesIff` when one operation breaks the agreement.
- OR-set: `ObservedRemove` assumes fresh tags, as the source documents them;
  `LenCountsElementsIff` does not.
- LWW register: kiosks do not restart, and no Lamport counter passes a `u64`.
- Multi-value register: `ReadConvergesIff` assumes that values with equal debug text are
  equal, as for strings and numbers. Equal stamps carry equal values.
- Outbox: the published payload identifies its event, as the consumers' key needs.
- Bincode is a parameter with `deserialize(serialize(m)) == m`.

## Model

| member | source | states |
|---|---|---|
| Common.StrLessTransitive | astra-service/sync-daemon/src/sync/crdt.rs:96-98 | the string order that breaks ties is transitive |
| Common.StrLessTotal | astra-service/sync-daemon/src/sync/crdt.rs:96-98 | it decides every pair of different strings |
| Common.JsLessIsUtf16 | astra-service/packages/shared-types/src/hlc.ts:25-27 | the JavaScript order is the lexicographic order of UTF-16 code units |
| Common.OrdersDifferIff | astra-service/packages/shared-types/src/hlc.ts:25-27 | Rust and JavaScript order two strings differently exactly when their first difference is between a character beyond U+FFFF and one from U+E000 to U+FFFF |
| Raft.RaftStateMachine.constructor | astra-service/sync-daemon/src/raft/mod.rs:91-100 | a node starts as a follower of term 0 that knows one peer |
| Raft.RaftStateMachine.ElectionTick | astra-service/sync-daemon/src/raft/mod.rs:156-211 | when an election starts, with which term, vote, tally and leader; that a kiosk becomes leader exactly as a candidate with a majority; that nothing else changes |
| Raft.MajorityIsHalf | astra-service/sync-daemon/src/raft/mod.rs:179-181 | the majorities are exactly the counts above half of the known peers, at least one |
| Raft.RaftStateMachine.HandleAppendEntries | astra-service/sync-daemon/src/raft/mod.rs:234-264 | a stale heartbeat changes nothing; any other sets term and leader, makes a follower without votes, and clears the vote exactly in a newer term |
| Raft.RaftStateMachine.HandleRequestVote | astra-service/sync-daemon/src/raft/mod.rs:267-298 | granted if and only if the term is not stale and no other candidate has the vote in it; a newer term makes a follower of it with exactly the granted vote; a refusal changes nothing |
| Raft.RaftStateMachine.StopLoop | astra-service/sync-daemon/src/raft/mod.rs:212-219 | shutdown demotes a leader, clears its leader id, and changes nothing else |
| Election.StepEffect | astra-service/sync-daemon/src/raft/mod.rs:136-298 | every step touches one node, never lowers its term, and records the votes it casts |
| Election.StepKeepsInv | astra-service/sync-daemon/src/raft/mod.rs:136-298 | every step keeps: one ballot per voter and term, tallies backed by ballots, heartbeats only from the elected |
| Election.TermsAndVotes | astra-service/sync-daemon/src/raft/mod.rs:162-195 | over any stretch of any run a term never falls, and a vote stays while its term does |
| Election.ElectionSafety | astra-service/sync-daemon/src/raft/mod.rs:177-188 | with intersecting quorums, two leaders of one term at any two moments are the same kiosk |
| Election.HeartbeatsAgree | astra-service/sync-daemon/src/raft/mod.rs:136-155 | all heartbeats of a term name the same leader, also the one leading it |
| Election.TwoLeaders | astra-service/sync-daemon/src/raft/mod.rs:98-98 | without intersecting quorums some run elects two leaders of term 1 |
| Election.ElectionSafeIff | astra-service/sync-daemon/src/raft/mod.rs:177-188 | elections are safe in all runs if and only if the cluster is smaller than two majorities |
| Election.SafePeerCounts | astra-service/sync-daemon/src/raft/mod.rs:98-98 | the true cluster size is a safe `known_peers`; 1 is safe only for at most one kiosk |
| Hlc.Create | astra-service/sync-daemon/src/crdt/hlc.rs:34-46 | a clock exists exactly for a non-empty node id, and shows the reading with counter zero |
| Hlc.HybridClock.constructor | astra-service/sync-daemon/src/crdt/hlc.rs:41-45 | a new clock shows the reading with counter zero |
| Hlc.HybridClock.Tick | astra-service/sync-daemon/src/crdt/hlc.rs:58-70 | a reading ahead is shown with counter zero, otherwise both parts move on by one up to their limits; the stamp dominates the old one exactly unless saturated |
| Hlc.HybridClock.Send | astra-service/sync-daemon/src/crdt/hlc.rs:75-77 | a send is a tick |
| Hlc.HybridClock.Receive | astra-service/sync-daemon/src/crdt/hlc.rs:87-105 | the new stamp from local, remote and physical time |
| Hlc.TickValue | astra-service/sync-daemon/src/crdt/hlc.rs:58-70 | the value of every tick, saturation included |
| Hlc.ReceiveValue | astra-service/sync-daemon/src/crdt/hlc.rs:87-105 | the latest of the three times, counter zero if only the reading shows it, else one more than the greatest counter of the sides that do; the node stays |
| Hlc.TickDominatesIff | astra-service/sync-daemon/src/crdt/hlc.rs:58-70 | a tick is strictly newer if and only if it does not saturate |
| Hlc.TickShowsMaxIff | astra-service/sync-daemon/src/crdt/hlc.rs:55-68 | a tick shows the later of clock and reading if and only if the reading is ahead or the clock is full |
| Hlc.ReceiveDominatesIff | astra-service/sync-daemon/src/crdt/hlc.rs:87-105 | a receive is strictly newer than both causes if and only if it does not saturate |
| Hlc.DominatesOrder | astra-service/sync-daemon/src/crdt/hlc.rs:115-143 | `dominates` is a strict weak order that leaves exactly the ties open |
| Hlc.DominatesMeans | astra-service/sync-daemon/src/crdt/hlc.rs:141-143 | `dominates` compares wall clocks, then counters, never nodes |
| Hlc.TieBreaks | astra-service/sync-daemon/src/crdt/hlc.rs:135-138 | among ties the greater node id wins, in each language by its order of strings |
| Hlc.CompareTotalOrder | astra-service/sync-daemon/src/crdt/hlc.rs:135-138 | `compare_total` is a total order on stamps that extends `dominates` |
| Hlc.CompareHlcIsCompareTotalIff | astra-service/packages/shared-types/src/hlc.ts:18-29 | the TypeScript comparison is the Rust total comparison if and only if the stamps do not tie or UTF-16 and UTF-8 order their node ids alike |
| Hlc.CompareHlcDiffers | astra-service/packages/shared-types/src/hlc.ts:25-27 | two tied stamps of which each language picks another winner |
| Hlc.CompareHlcOrder | astra-service/packages/shared-types/src/hlc.ts:18-29 | it is total, antisymmetric and transitive |
| Hlc.TsMovesDominateIff | astra-service/packages/shared-types/src/hlc.ts:35-64 | increment and merge are strictly newer than their causes if and only if the counter has not reached 2^53 |
| Hlc.TsMoveValues | astra-service/packages/shared-types/src/hlc.ts:35-64 | the wall clock, counter and node of an increment and of a merge |
| ClockRuns.NewStampDominates | astra-service/sync-daemon/src/crdt/hlc.rs:58-105 | in either language an unsaturated step's stamp dominates the clock and the received stamp |
| ClockRuns.ClockCondition | astra-service/sync-daemon/src/crdt/hlc.rs:58-143 | in every unsaturated run of a mixed fleet, happens-before implies `dominates` |
| ClockRuns.StampsUnique | astra-service/sync-daemon/src/crdt/hlc.rs:131-138 | no two events of such a run compare as equal |
| ClockRuns.DriftBound | astra-service/sync-daemon/src/crdt/hlc.rs:58-105 | in a mixed fleet a stamp exceeds the largest reading by at most the number of ticks of Rust kiosks; without Rust it never does |
| ClockRuns.DriftReached | astra-service/sync-daemon/src/crdt/hlc.rs:60-68 | k ticks against a stopped clock put the Rust clock exactly k ahead |
| ClockRuns.TiesHappen | astra-service/sync-daemon/src/crdt/hlc.rs:111-114 | a run in which two kiosks' stamps tie |
| OrSet.JoinIsLub | astra-service/sync-daemon/src/sync/crdt.rs:246-267 | merge is the least upper bound of a partial order |
| OrSet.JoinLaws | astra-service/sync-daemon/src/sync/crdt.rs:246-267 | merge is commutative, associative and idempotent |
| OrSet.OperationsAscend | astra-service/sync-daemon/src/sync/crdt.rs:214-227 | add and remove only move up that order; a removed element is gone |
| OrSet.StoreAddMeans | astra-service/sync-daemon/src/sync/crdt.rs:214-220 | what `add` does to the stored vectors is the abstract add, and keeps storage clean |
| OrSet.StoreRemoveMeans | astra-service/sync-daemon/src/sync/crdt.rs:223-227 | what `remove` does to the stored vectors is the abstract remove |
| OrSet.RemoveCleanIff | astra-service/sync-daemon/src/sync/crdt.rs:223-227 | a remove leaves clean storage clean if and only if no other entry stores one of the tags it removes |
| OrSet.RemoveLenIff | astra-service/sync-daemon/src/sync/crdt.rs:223-271 | after a remove from any storage `len()` is right if and only if every other entry stores a tag that is neither tombstoned nor removed |
| OrSet.ORSet.Add | astra-service/sync-daemon/src/sync/crdt.rs:214-220 | the stored fields, the live pair unless its tag is tombstoned, and that clean storage stays clean |
| OrSet.ORSet.Remove | astra-service/sync-daemon/src/sync/crdt.rs:223-227 | the stored fields, all tags of the element dead, and the exact conditions for clean storage and a right `len()` |
| OrSet.ORSet.Contains | astra-service/sync-daemon/src/sync/crdt.rs:230-234 | true exactly for elements with a live tag |
| OrSet.ORSet.ListElements | astra-service/sync-daemon/src/sync/crdt.rs:237-243 | every present element once |
| OrSet.ORSet.Len | astra-service/sync-daemon/src/sync/crdt.rs:269-271 | counts elements exactly when every entry has a live tag |
| OrSet.ORSet.Merge | astra-service/sync-daemon/src/sync/crdt.rs:246-267 | the three loops compute the join and leave clean storage |
| OrSet.ORSet.MergeTombstones | astra-service/sync-daemon/src/sync/crdt.rs:248-252 | union of the tombstones |
| OrSet.ORSet.MergeEntries | astra-service/sync-daemon/src/sync/crdt.rs:254-261 | union of the pairs, without the other side's tombstoned ones |
| OrSet.ORSet.Retain | astra-service/sync-daemon/src/sync/crdt.rs:263-266 | drops exactly the tombstoned pairs and the empty entries |
| OrSetRuns.Convergence | astra-service/sync-daemon/src/sync/crdt.rs:214-267 | in every run a state is a function of the absorbed operations; equal histories give equal states |
| OrSetRuns.ObservedRemove | astra-service/sync-daemon/src/sync/crdt.rs:192-196 | with fresh tags an element is present exactly when some add of it was observed by no remove of it |
| OrSetRuns.TagsNotShared | astra-service/sync-daemon/src/sync/crdt.rs:194-194 | with fresh tags no two elements of a replica share a tag |
| OrSetRuns.LenCountsElementsIff | astra-service/sync-daemon/src/sync/crdt.rs:223-271 | in any run, whatever the tags, `len()` is right at every replica and moment if and only if no remove strands another entry |
| OrSetRuns.CleanIff | astra-service/sync-daemon/src/sync/crdt.rs:214-267 | in any run all storage is clean at every moment if and only if no remove takes a tag that another entry stores |
| OrSetRuns.LenCountsElements | astra-service/sync-daemon/src/sync/crdt.rs:237-271 | with fresh tags both always hold |
| OrSetRuns.SharedTagMiscounts | astra-service/sync-daemon/src/sync/crdt.rs:223-227 | a run in which a reused tag makes `len()` count an absent element |
| PnCounter.JoinLaws | astra-service/sync-daemon/src/crdt/mod.rs:417-428 | merge is commutative, associative and idempotent |
| PnCounter.PNCounter.Increment | astra-service/sync-daemon/src/sync/crdt.rs:136-139 | the origin's positive count grows, saturating |
| PnCounter.PNCounter.Decrement | astra-service/sync-daemon/src/sync/crdt.rs:142-145 | the origin's negative count grows, saturating |
| PnCounter.PNCounter.Value | astra-service/sync-daemon/src/sync/crdt.rs:149-153 | the saturating difference of the two wrapping sums, in any order of the entries |
| PnCounter.ReadingWraps | astra-service/sync-daemon/src/sync/crdt.rs:149-153 | counts that pass a `u64` together wrap |
| PnCounter.PNCounter.Merge | astra-service/sync-daemon/src/sync/crdt.rs:156-165 | both loops compute the pointwise maximum |
| PnCounter.NoOverestimate | astra-service/sync-daemon/src/sync/crdt.rs:136-165 | in every run no replica overestimates any kiosk |
| PnCounter.ReachedKnows | astra-service/sync-daemon/src/sync/crdt.rs:156-165 | a replica reached by a state, directly or through others, knows at least what that state did |
| PnCounter.KnowsNoMore | astra-service/sync-daemon/src/sync/crdt.rs:136-165 | and of each kiosk no more than the states of it that have reached it |
| PnCounter.UnreachedIsZero | astra-service/sync-daemon/src/sync/crdt.rs:136-165 | a replica that no state of a kiosk has reached holds nothing for it |
| PnCounter.EntryIsLatest | astra-service/sync-daemon/src/sync/crdt.rs:136-165 | otherwise it holds exactly what the kiosk itself held at the latest moment that has reached it |
| PnCounter.Convergence | astra-service/sync-daemon/src/sync/crdt.rs:156-165 | replicas reached by the same states of a kiosk, at any times, hold the same for it |
| PnCounter.Conservation | astra-service/sync-daemon/src/crdt/mod.rs:382-428 | a replica that every kiosk's last change has reached, at any times and by any ways, reads all increments minus all decrements, at least zero |
| LwwRegister.BeatsOrder | astra-service/sync-daemon/src/sync/crdt.rs:96-98 | dominance is a strict order that decides every pair with different (timestamp, origin) |
| LwwRegister.KeepMeans | astra-service/sync-daemon/src/sync/crdt.rs:80-98 | the later timestamp wins, of equal ones the greater origin, and an equal pair changes nothing |
| LwwRegister.LWWRegister.Write | astra-service/sync-daemon/src/sync/crdt.rs:68-78 | accepted exactly when dominant, and then stored |
| LwwRegister.LWWRegister.Merge | astra-service/sync-daemon/src/sync/crdt.rs:81-93 | keeps the dominant register |
| LwwRegister.LamportClock.Tick | astra-service/sync-daemon/src/sync/crdt.rs:308-311 | the counter plus one, wrapping |
| LwwRegister.LamportClock.Update | astra-service/sync-daemon/src/sync/crdt.rs:314-317 | the maximum plus one, wrapping |
| LwwRegister.UniqueWrites | astra-service/sync-daemon/src/sync/crdt.rs:308-317 | in every run (timestamp, origin) identifies a write |
| LwwRegister.LocalWriteAccepted | astra-service/sync-daemon/src/sync/crdt.rs:68-78 | in every run a local write beats the register it meets |
| LwwRegister.GreatestWriteWins | astra-service/sync-daemon/src/sync/crdt.rs:80-98 | in every run a replica holds the greatest write absorbed; equal histories give equal registers |
| LwwSet.LwwElementSet.Add | astra-service/sync-daemon/src/crdt/mod.rs:95-110 | applied exactly when the key is new or the stamp dominates |
| LwwSet.LwwElementSet.Remove | astra-service/sync-daemon/src/crdt/mod.rs:116-135 | the same for a remove, which leaves a removed entry |
| LwwSet.LwwElementSet.Lookup | astra-service/sync-daemon/src/crdt/mod.rs:138-146 | the value unless missing or removed |
| LwwSet.LwwElementSet.Merge | astra-service/sync-daemon/src/crdt/mod.rs:188-200 | the loop keeps for each key the other entry exactly when it dominates or is new |
| LwwSet.MergedCommutesIff | astra-service/sync-daemon/src/crdt/mod.rs:188-200 | merge commutes if and only if tied stamps carry equal entries |
| LwwSet.MergeLwwElementSet | astra-service/packages/shared-types/src/crdt.ts:71-92 | both loops compute the pointwise later element |
| LwwSet.TsMergeCommutesIff | astra-service/packages/shared-types/src/crdt.ts:71-92 | merge commutes if and only if equal stamps carry equal elements |
| LwwSet.TsMergeLaws | astra-service/packages/shared-types/src/crdt.ts:71-92 | merge is associative and idempotent |
| LwwSet.LocalOpsAscendIff | astra-service/packages/shared-types/src/crdt.ts:28-65 | for any local clock, add and remove move up the merge order, and are seen at once, if and only if the stored stamp is ahead of those held |
| LwwSet.LocalOpsAscend | astra-service/packages/shared-types/src/crdt.ts:28-65 | a clock not behind the set and not full is enough |
| LwwSet.TiesAreForGood | astra-service/sync-daemon/src/crdt/mod.rs:188-200 | if all entries held for a key tie, any sequence of merges among any daemons leaves each its own |
| LwwAgreement.RustKeepsNewest | astra-service/sync-daemon/src/crdt/mod.rs:95-135 | after any tree of operations and merges an entry is an undominated operation on its key |
| LwwAgreement.TsKeepsLast | astra-service/packages/shared-types/src/crdt.ts:40-92 | after any such tree without backward stamps the maps hold the last add and the last remove of each key |
| LwwAgreement.NeverBackwardIff | astra-service/packages/shared-types/src/crdt.ts:40-92 | they do so at every point of a history if and only if no stamp of it goes backward |
| LwwAgreement.Agreement | astra-service/packages/shared-types/src/crdt.ts:4-8 | without ties and backward stamps both implementations answer every lookup alike |
| LwwAgreement.AgreementIff | astra-service/packages/shared-types/src/crdt.ts:4-8 | over given operations, ties included, all trees without backward stamps answer alike in both implementations if and only if every newest operation reads as the last add and remove do |
| LwwAgreement.AddAgreesIff | astra-service/packages/shared-types/src/crdt.ts:40-50 | after one more add with any stamp they disagree if and only if it is behind the last add, which no remove has undone, and differs in value or lies behind a remove |
| LwwAgreement.RemoveAgreesIff | astra-service/packages/shared-types/src/crdt.ts:56-65 | after one more remove they disagree if and only if it is behind an add that a later remove had undone |
| LwwAgreement.BackwardDisagrees | astra-service/packages/shared-types/src/crdt.ts:46-49 | a tie-free history with a backward stamp on which they differ, and on which the TypeScript set depends on the order |
| LwwAgreement.RustConvergesIff | astra-service/sync-daemon/src/crdt/mod.rs:188-200 | all trees over the same operations give the same entries if and only if each key has one newest effect |
| LwwAgreement.NoTiesOneNewest | astra-service/sync-daemon/src/crdt/mod.rs:188-200 | without ties each key has one |
| LwwAgreement.TsConvergesIff | astra-service/packages/shared-types/src/crdt.ts:67-92 | all trees without backward stamps over the same operations give the same maps if and only if each key has one last add |
| LwwAgreement.StampsIdentifyOneLast | astra-service/packages/shared-types/src/crdt.ts:67-92 | it has one when equal stamps carry equal elements, ties or not |
| LwwAgreement.TieDiverges | astra-service/sync-daemon/src/crdt/mod.rs:191-194 | after a tie, whatever exchanges follow, two Rust replicas read differently; the TypeScript ones agree after one merge |
| MvRegister.MvRegister.Write | astra-service/sync-daemon/src/crdt/mod.rs:238-241 | drops what the stamp dominates and appends |
| MvRegister.MvRegister.Read | astra-service/sync-daemon/src/crdt/mod.rs:246-260 | the values of the entries no other entry dominates, sorted by debug text |
| MvRegister.MvRegister.Merge | astra-service/sync-daemon/src/crdt/mod.rs:330-345 | appends what is neither dominated nor present |
| MvRegister.MergedAppends | astra-service/sync-daemon/src/crdt/mod.rs:330-345 | a merge leaves local entries in place and appends nothing that one of them dominates |
| MvRegister.ReadIsMaximal | astra-service/sync-daemon/src/crdt/mod.rs:238-260 | after any tree of writes and merges, an entry is read exactly when it is a maximal write of the history |
| MvRegister.FreshWritesIff | astra-service/sync-daemon/src/crdt/mod.rs:238-241 | no register ever holds a stamp twice if and only if no write reuses a stamp its replica holds |
| MvRegister.OnceIff | astra-service/sync-daemon/src/crdt/mod.rs:238-241 | a stamp nothing dominates is stored at most once if and only if no write of it whose copies survive met a register that held it |
| MvRegister.ReadIsPermutationIff | astra-service/sync-daemon/src/crdt/mod.rs:246-260 | each maximal write is read exactly once if and only if that holds of the maximal stamps |
| MvRegister.WriteRepeatsIff | astra-service/sync-daemon/src/crdt/mod.rs:238-260 | a write makes `read` repeat a stamp if and only if the stamp is held and undominated |
| MvRegister.SortedInOrder | astra-service/sync-daemon/src/crdt/mod.rs:257-259 | sorting yields an ordered permutation |
| MvRegister.ReadConvergesIff | astra-service/sync-daemon/src/crdt/mod.rs:347-350 | against a register that reads each maximal write once, one that absorbed the same writes returns an equal vector, and so compares as equal, if and only if it does so too |
| MvRegister.DoubleWriteDiffers | astra-service/sync-daemon/src/crdt/mod.rs:238-241 | a stamp written twice: the same writes, different vectors |
| MvRegister.MergeMvRegister | astra-service/packages/shared-types/src/crdt.ts:123-141 | the survivors are the distinct entries with the greatest stamp |
| MvRegister.TsSurvivorsShareStamp | astra-service/packages/shared-types/src/crdt.ts:119-122 | no two survivors have different stamps |
| MvRegister.TsDropsConcurrent | astra-service/packages/shared-types/src/crdt.ts:143-146 | two concurrent writes of which a merge keeps one |
| Streaming.DrainAppend | astra-service/sync-daemon/src/p2p/protocol.rs:276-286 | draining, appending and draining again is draining everything at once |
| Streaming.DrainLeavesPartial | astra-service/sync-daemon/src/p2p/protocol.rs:280-282 | what draining leaves is not a whole item |
| Streaming.ChunkInvariance | astra-service/sync-daemon/src/p2p/protocol.rs:276-286 | for any decoder whose results are final, chunking changes neither items nor leftover |
| Streaming.U32RoundTrip | astra-service/sync-daemon/src/protocol/mod.rs:74-74 | a big-endian length reads back |
| Streaming.U32BigEndian | astra-service/sync-daemon/src/protocol/mod.rs:101-106 | lengths are big-endian, and every four bytes spell one |
| WireProtocol.EncodeFrame | astra-service/sync-daemon/src/protocol/mod.rs:61-77 | the frame, or an error exactly for an oversized or unserializable payload |
| WireProtocol.DecodeFrame | astra-service/sync-daemon/src/protocol/mod.rs:83-120 | the result, and how far the buffer advances |
| WireProtocol.DecodesIff | astra-service/sync-daemon/src/protocol/mod.rs:83-120 | a message is accepted if and only if a complete version 1 frame of acceptable length stands in front and its payload parses |
| WireProtocol.ErrorsIff | astra-service/sync-daemon/src/protocol/mod.rs:87-119 | when each of the four errors is reported, and how many bytes it takes |
| WireProtocol.WaitsIff | astra-service/sync-daemon/src/protocol/mod.rs:84-113 | when the decoder waits |
| WireProtocol.DecoderIsStreaming | astra-service/sync-daemon/src/protocol/mod.rs:83-120 | every result consumes a byte and never changes when bytes are appended |
| WireProtocol.ChunksDoNotMatter | astra-service/sync-daemon/src/protocol/mod.rs:79-82 | any chunking yields the same messages and errors |
| WireProtocol.RoundTrip | astra-service/sync-daemon/src/protocol/mod.rs:60-120 | a frame followed by anything decodes to its message and leaves exactly the rest |
| WireProtocol.StreamRoundTrip | astra-service/sync-daemon/src/protocol/mod.rs:60-120 | messages encoded one after the other and cut into any chunks arrive as sent, with nothing left over |
| WireProtocol.StrictPrefixWaits | astra-service/sync-daemon/src/protocol/mod.rs:81-86 | every strict prefix of a frame yields nothing |
| WireProtocol.Resync | astra-service/sync-daemon/src/protocol/mod.rs:87-93 | garbage costs one error per byte, then frame and stream are recovered |
| SyncFrames.EncodeFrame | astra-service/sync-daemon/src/p2p/protocol.rs:215-231 | the frame, or an error exactly when too large |
| SyncFrames.DecodeFrame | astra-service/sync-daemon/src/p2p/protocol.rs:235-273 | the result, and how far the buffer advances |
| SyncFrames.DecodesIff | astra-service/sync-daemon/src/p2p/protocol.rs:235-273 | a frame is accepted if and only if its layout stands in front |
| SyncFrames.ErrorsIff | astra-service/sync-daemon/src/p2p/protocol.rs:239-253 | when each error is reported, and how many bytes it takes |
| SyncFrames.DecoderIsStreaming | astra-service/sync-daemon/src/p2p/protocol.rs:235-273 | every result consumes a byte and never changes when bytes are appended |
| SyncFrames.ChunksDoNotMatter | astra-service/sync-daemon/src/p2p/protocol.rs:233-234 | any chunking yields the same frames and errors |
| SyncFrames.RoundTrip | astra-service/sync-daemon/src/p2p/protocol.rs:214-273 | a frame followed by anything decodes to itself and leaves exactly the rest |
| SyncFrames.StreamRoundTrip | astra-service/sync-daemon/src/p2p/protocol.rs:214-273 | frames encoded one after the other and cut into any chunks arrive as sent, with nothing left over |
| SyncFrames.StrictPrefixWaits | astra-service/sync-daemon/src/p2p/protocol.rs:234-268 | every strict prefix of a frame yields nothing |
| SyncFrames.Resync | astra-service/sync-daemon/src/p2p/protocol.rs:239-246 | garbage costs one error per byte, then frame and stream are recovered |
| SyncFrames.HeaderSwallows | astra-service/sync-daemon/src/p2p/protocol.rs:254-268 | a header claiming any lengths n and m swallows the next 13 + n + m bytes and yields nothing before they have arrived |
| SyncFrames.FramesAreSwallowed | astra-service/sync-daemon/src/p2p/protocol.rs:254-268 | valid frames behind a damaged header are lost as its nonce |
| Outbox.Relay.RelayBatch | astra-service/packages/go-common/outbox/outbox.go:141-155 | exactly a prefix of the batch is published, acknowledged and marked; how far the next row got |
| Outbox.MarkedAllEffect | astra-service/packages/go-common/outbox/outbox.go:148-150 | marking a batch leaves exactly the other rows unpublished and changes no entry |
| Outbox.InsertedEffect | astra-service/packages/go-common/outbox/outbox.go:42-56 | a new event is stored unpublished, a known id changes nothing, no other row is touched |
| Outbox.StepKeepsInv | astra-service/packages/go-common/outbox/outbox.go:42-156 | every step of every relay keeps: marked rows were acknowledged, acknowledged messages delivered, deliveries are stored entries |
| Outbox.PublishedWasAcked | astra-service/packages/go-common/outbox/outbox.go:4-5 | in every run a row is marked only after the broker acknowledged its message |
| Outbox.NothingLost | astra-service/packages/go-common/outbox/outbox.go:42-56 | in every run no row disappears, changes or becomes unpublished again |
| Outbox.NoInsertLost | astra-service/packages/go-common/outbox/outbox.go:42-56 | in every run the table holds exactly the ids ever inserted, each with the entry first inserted under it |
| Outbox.LoadableIff | astra-service/packages/go-common/outbox/outbox.go:110-116 | the SELECT may return a row if and only if it is unpublished and unlocked with fewer than 100 such rows older |
| Outbox.SurelyLoadedIff | astra-service/packages/go-common/outbox/outbox.go:110-116 | however equal times are ordered, it returns the row if and only if fewer than 100 others are not younger |
| Outbox.UnpublishedLoadable | astra-service/packages/go-common/outbox/outbox.go:101-116 | at any moment of any run an idle relay can load a row under exactly that condition |
| Outbox.PassProgress | astra-service/packages/go-common/outbox/outbox.go:141-155 | a fully successful pass publishes min(100, n) of n waiting rows |
| Outbox.DrainedIff | astra-service/packages/go-common/outbox/outbox.go:91-105 | all rows are published after k fully successful passes of one relay if and only if k is at least ceil(n/100) |
| Outbox.ExactlyOnceEffect | astra-service/packages/go-common/outbox/outbox.go:11-14 | a consumer keyed on the event id acts once per delivered event, on the committed entry, and on every marked row |
| Outbox.RacingRelaysDuplicate | astra-service/packages/go-common/outbox/outbox.go:116-118 | a run without any fault in which two relays deliver one row twice |
| Outbox.FaultDuplicates | astra-service/packages/go-common/outbox/outbox.go:143-154 | for each fault alone (acknowledgement lost, mark failed, crash before the mark) a run of one relay that delivers a row twice |
| Outbox.NeverDuplicatesIff | astra-service/packages/go-common/outbox/outbox.go:110-154 | no run of given relays and faults delivers an event twice if and only if no relay runs, or one runs and no fault occurs |
| OfflineQueue.PaymentQueue.QueueOfflinePayment | astra-service/sync-daemon/src/storage/sqlite.rs:341-360 | inserts, or rewrites payload and time but not `flushed` |
| OfflineQueue.PaymentQueue.MarkOfflineFlushed | astra-service/sync-daemon/src/storage/sqlite.rs:392-413 | flushes exactly the named rows |
| OfflineQueue.PaymentQueue.PublishBatch | astra-service/sync-daemon/src/cloud/mod.rs:302-315 | publishes in order until the first failure |
| OfflineQueue.PaymentQueue.SendAll | astra-service/sync-daemon/src/cloud/mod.rs:271-290 | batches of at most 100; what is acknowledged is the tokens, or a prefix of them, in order |
| OfflineQueue.PaymentQueue.FlushOffline | astra-service/sync-daemon/src/cloud/mod.rs:267-293 | success publishes all tokens in order and marks them; failure marks none |
| OfflineQueue.QueuedEffect | astra-service/sync-daemon/src/storage/sqlite.rs:341-360 | whatever is queued is stored with its time, only an existing row stays flushed, no other row is touched |
| OfflineQueue.FlushedEffect | astra-service/sync-daemon/src/storage/sqlite.rs:392-413 | marking touches nothing but the flags of the named rows |
| OfflineQueue.NothingDropped | astra-service/sync-daemon/src/storage/sqlite.rs:341-413 | in every run the table holds each id ever queued with the token last queued under it |
| OfflineQueue.FlushedOnlyAfterAck | astra-service/sync-daemon/src/cloud/mod.rs:267-293 | in every run that queues only harmless tokens, ids queued again included, a token is marked only after its acknowledgement |
| OfflineQueue.WriteOnceIsSafe | astra-service/sync-daemon/src/cloud/mod.rs:267-293 | in particular in every run with write-once ids |
| OfflineQueue.RequeueSafeIff | astra-service/sync-daemon/src/storage/sqlite.rs:341-360 | queueing a token is safe for everything that can follow if and only if the token was acknowledged, or its row is not flushed and no flush in progress has loaded another token of its id |
| OfflineQueue.HarmfulLoses | astra-service/sync-daemon/src/storage/sqlite.rs:349-354 | after any run whatever, queueing any other token has a continuation that loses it |
| OfflineQueue.RequeueLosesPayment | astra-service/sync-daemon/src/storage/sqlite.rs:349-354 | a run in which a payment reads as flushed though it was never sent |
| OfflineQueue.RequeueMidFlushLosesPayment | astra-service/sync-daemon/src/cloud/mod.rs:268-291 | a run that loses a payment queued again while its row is still unflushed |
| OfflineQueue.FlushProgress | astra-service/sync-daemon/src/storage/sqlite.rs:363-413 | a successful flush removes min(1000, n) of n waiting tokens |
| OfflineQueue.DrainedIff | astra-service/sync-daemon/src/cloud/mod.rs:267-293 | the queue is empty after k successful flushes if and only if k is at least ceil(n/1000) |
| Nms.IouSymmetric | astra-service/services/ml-lane-intel/src/model.py:153-162 | intersection over union is symmetric |
| Nms.IouEquation | astra-service/services/ml-lane-intel/src/model.py:153-162 | on proper boxes the ratio times the area covered together is the area shared, given by cases |
| Nms.IouRange | astra-service/services/ml-lane-intel/src/model.py:153-162 | it lies between 0 and 1 |
| Nms.IouZeroIff | astra-service/services/ml-lane-intel/src/model.py:157-162 | it is 0 if and only if no point lies inside both boxes |
| Nms.IouOneIff | astra-service/services/ml-lane-intel/src/model.py:160-162 | it is 1 if and only if the boxes are equal and have an area |
| Nms.IouInside | astra-service/services/ml-lane-intel/src/model.py:160-162 | for a box inside another it is the ratio of their areas |
| Nms.SuppressNonMaxima | astra-service/services/ml-lane-intel/src/model.py:120-166 | returns the first `max_detections` of the uncapped result |
| Nms.SurvivorsLoop | astra-service/services/ml-lane-intel/src/model.py:153-164 | keeps in order exactly the candidates not suppressed |
| Nms.KernelUnique | astra-service/services/ml-lane-intel/src/model.py:126-136 | an order has at most one kernel |
| Nms.GreedyIsTheKernel | astra-service/services/ml-lane-intel/src/model.py:146-166 | the greedy loop computes the one kernel of its order |
| Nms.KeptPairwise | astra-service/services/ml-lane-intel/src/model.py:164-164 | kept boxes overlap pairwise at most by the threshold |
| Nms.DroppedOverlaps | astra-service/services/ml-lane-intel/src/model.py:164-164 | every dropped box overlaps a kept box of higher rank above the threshold |
| Nms.KeptByScore | astra-service/services/ml-lane-intel/src/model.py:146-151 | kept boxes come by descending score |
| Baggage.EncodeIsOnePass | astra-service/sync-daemon/src/telemetry/baggage.rs:148-154 | the chained replacements are a one-pass percent-encoding |
| Baggage.PercentDecodeLoop | astra-service/sync-daemon/src/telemetry/baggage.rs:157-174 | the loop decodes round by round, passing malformed escapes through |
| Baggage.DecodeHex | astra-service/sync-daemon/src/telemetry/baggage.rs:161-164 | an escape of two hex digits in either case decodes to that character |
| Baggage.OddEscapeDecodes | astra-service/sync-daemon/src/telemetry/baggage.rs:162-164 | so does a plus sign and a digit, and one digit at the very end |
| Baggage.MalformedPasses | astra-service/sync-daemon/src/telemetry/baggage.rs:165-168 | any other escape passes through unchanged |
| Baggage.OrdinaryPasses | astra-service/sync-daemon/src/telemetry/baggage.rs:169-171 | every other character stands for itself |
| Baggage.DecodeEncode | astra-service/sync-daemon/src/telemetry/baggage.rs:146-174 | decoding undoes encoding on every string |
| Baggage.EncodedIsClean | astra-service/sync-daemon/src/telemetry/baggage.rs:146-154 | encoded text has no comma, semicolon, equals sign or space |
| Baggage.DecodeBaggageLoop | astra-service/sync-daemon/src/telemetry/baggage.rs:76-101 | the loop yields the pairs of the parsable parts in order |
| Baggage.PartParsed | astra-service/sync-daemon/src/telemetry/baggage.rs:83-97 | any key=value part, with or without metadata and padding, yields the decoded key and value |
| Baggage.PartSkipped | astra-service/sync-daemon/src/telemetry/baggage.rs:84-96 | a blank part or one without an equals sign yields nothing |
| Baggage.WhitespaceIsListed | astra-service/sync-daemon/src/telemetry/baggage.rs:84-84 | trimming removes exactly the characters of Unicode property White_Space |
| Baggage.ItemRoundTrip | astra-service/sync-daemon/src/telemetry/baggage.rs:47-97 | a printed entry parses to its key and value, less unencoded whitespace at the outer ends |
| Baggage.BaggageRoundTrip | astra-service/sync-daemon/src/telemetry/baggage.rs:39-101 | a header within 4096 bytes, whatever its metadata, yields its entries in order, each followed by what its metadata is mistaken for |
| Baggage.BaggageRoundTripIff | astra-service/sync-daemon/src/telemetry/baggage.rs:82-97 | exactly its entries if and only if no piece of metadata behind a comma reads as an entry |
| Baggage.ExactRoundTripIff | astra-service/sync-daemon/src/telemetry/baggage.rs:39-101 | keys and values come back just as given if and only if no metadata reads as an entry and no key or value exposes whitespace at a trimmed end |
| Baggage.PlainMetadataRoundTrip | astra-service/sync-daemon/src/telemetry/baggage.rs:82-97 | metadata without commas is never misread |
| Baggage.MetadataReadsAsEntry | astra-service/sync-daemon/src/telemetry/baggage.rs:82-97 | any printed entry behind a comma in metadata comes back as an entry |
| Baggage.CommaIsMisread | astra-service/sync-daemon/src/telemetry/baggage.rs:82-97 | headers of one entry that decode to two |
| Baggage.TabIsLost | astra-service/sync-daemon/src/telemetry/baggage.rs:84-84 | headers whose value loses a tab |
| Baggage.EncodePanicsIff | astra-service/sync-daemon/src/telemetry/baggage.rs:58-68 | printing panics if and only if the header is over the limit and no character ends at byte 4096; otherwise a cut header is a prefix of 4096 bytes |
| Baggage.WidthIsLeast | astra-service/sync-daemon/src/telemetry/baggage.rs:59-65 | the limit counts for each character the least number of UTF-8 bytes that can spell it |
| Baggage.PanicHappens | astra-service/sync-daemon/src/telemetry/baggage.rs:65-65 | any value of 2047 or more two-byte characters makes it panic |
| Baggage.AsciiNeverPanics | astra-service/sync-daemon/src/telemetry/baggage.rs:58-68 | an ASCII header never panics |
| Baggage.CutKeepsLeading | astra-service/sync-daemon/src/telemetry/baggage.rs:65-65 | a cut header yields all pieces before the cut as the whole one does |
| Baggage.RecoveredIff | astra-service/sync-daemon/src/telemetry/baggage.rs:84-96 | all keys and values survive if and only if none exposes whitespace at a trimmed end |

## Left out

- Nms.SuppressNonMaxima: coordinates and scores are reals, so floating-point rounding is not captured; the score order is an input because the order of equal scores is unspecified.
- MvRegister.MvRegister.Read: the debug formatting of values is a parameter.
- PnCounter.Conservation: requires that neither true sum exceeds a `u64`, beyond which the wrapping sums of `value()` carry no meaning.
- `last_leader_heartbeat` and randomised timeouts: elapsed time is an input of each timer step.
- `DaemonState.is_leader` and `raft_term`: a lagging mirror of the state machine; Raft crash recovery and Lamport restarts, because term, vote and counter are not restored.
- `MvRegister::resolve_with` and `writeMvRegister`: the code does not do what its comment says, so no convergence holds through them.
- The dirty-record half of `flush_to_cloud` and the loops of `sync/engine.rs`: dirty bits are cleared without a matching send.
- The `entries`, `keys` and `is_empty` views of the CRDTs, and the payload types of protocol messages: they would only add easy members.
- libp2p, QUIC, NATS, gRPC, SQLCipher, cryptography, signed tokens: represented only by an unreliable network, fallible publishes and tables as maps.
- Liveness of elections and of the relay loop: not stated.
- User interfaces, kiosk apps, installer, payment terminal bindings, ONNX inference, differential privacy noise: not part of this model.
