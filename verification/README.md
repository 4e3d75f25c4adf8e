# Verified model of the Arxia protocol components

A Dafny model of the stateful parts of the workspace, with proofs of what they keep over whole runs. Each Rust
component is one Dafny module. A component that updates its fields in place is a class; every method of the class is
proved equal to a function on the abstract state, and the theorems are lemmas about those functions and about runs of
them, so they hold of the class.

| modules | component |
|---|---|
| `Blocks`, `AccountChain`, `Validation`, `Ledger` | the block lattice: local producers, chain validation, the global validator |
| `Flows`, `Network`, `Agreement` | what blocks say about value; many producers in any interleaving; producers against the validator |
| `PNCounter`, `Reconciliation`, `ReconciliationEssence`, `ReconciliationOutcome`, `HashCollisions`, `ReconciliationLaws`, `ReconciliationMeaning`, `HonestReconciliation` | merging two network partitions |
| `Reassembly`, `Delivery`, `Provenance` | fragment reassembly; runs of it; where returned bytes come from |
| `Delegation` | the delegation graph and its depth-bounded search |
| `NonceRegistry`, `GossipNode`, `DoubleSpends` | the nonce registry, its merge and comparison; the bounded node state; what it catches |
| `Finality` | stake-weighted assessment and the monotone latch |
| `Compact`, `SignedMessage`, `Domains` | wire encodings and signing domains |
| `Relay`, `Vesting` | the rolling relay score; vesting claims |
| `Common`, `Sums`, `Ordering`, `Bytes`, `Hex` | integers, finite sums, sorted sets, byte strings, hexadecimal text |

## How the original is represented

- Blake3 over block contents is an injective function, and Ed25519 (section 5.1 of RFC 8032) a predicate that honest
  signing satisfies; both are fields of `Blocks.Crypto`, and `Crypto.Sound` is the only thing assumed about them. A
  hash is a text of any length, so that distinct contents can have distinct hashes. The other components take the
  verification function as a parameter and assume nothing about it.
- Clock readings are parameters.
- `u64` and `u16` values are bounded integers; saturating and checked operations are written out.
- Iterating over a `HashMap` or `HashSet` picks an arbitrary remaining element, so what is proved holds for every
  order. Iterating over a `BTreeMap` or a sorted list picks the least one.
- Errors are `Result` values with the original's variants.

## Where the code and its documentation differ, or a property has a condition

- A rejected `add_block` can leave an empty chain entry behind (crates/arxia-lattice/src/ledger.rs:197), so
  an account that had no chain has an empty one, while the method's comment says that the chain stays exactly as it
  was. `Ledger.RejectionChangesNothing` states exactly when, and that no stored block, index or total changes.
- The 67% comparison uses saturating multiplication. `Finality.QuorumIsExactIff` gives the exact bound on the total
  stake up to which it decides correctly for every accepted stake, and `Finality.IntersectionIsExactIff` shows that
  quorums meet up to the same bound and no further; `Finality.SaturatedQuorumsCanBeDisjoint` shows two disjoint ones.
- Reconciliation reads a block's hash, account, nonce and effect, and is a function of the block set when blocks with
  one hash agree on these (`ReconciliationOutcome.OutcomeDependsOnBlockSet`). Hashing alone does not give whole-block
  equality, since one content can carry two signatures; the condition does not ask for it. It is exact for what
  deduplication hands on (`HashCollisions.RetentionIsExact`). For the outcome it is sufficient: blocks that differ can
  still lose or cancel. `HashCollisions.CollidingOpensAgreeIff` decides the case of two OPENs with one hash, and shows
  outcomes that differ.
- Reconciliation does not reject a second RECEIVE of one SEND. `ReconciliationLaws.ReconciliationConserves` gives the
  exact condition under which value is conserved, and `DoubleReceiptCreatesValue` the inputs on which it is created.
- A block survives printing and parsing exactly when it is `Compact.Canonical`, and input bytes survive parsing and
  printing exactly when `Compact.UnusedIsZero` holds: `Compact.PrintThenParse` and `Compact.ParseThenPrint` are
  equivalences.
- The rolling score agrees with the full history at every time whose window begins no earlier than the window at the
  latest time used; `Relay.AgreementIsExact` shows that this is exactly when all runs agree. The documentation speaks of
  the events within the last 30 days; the code also counts events later than the given time
  (`Relay.RollingScoreCounts`).
- The delegation search may answer differently for different orders of neighbours (`Delegation.AnswerDependsOnOrder`).
  `Delegation.AnswerMeans` states what each answer means for every order, and two equivalences when each error is
  possible.
- The comments on a revocation say that its key must match the delegator and that its nonce prevents replay. The code
  compares neither: `Delegation.DelegationGraph.Revoke` succeeds exactly when the signature verifies under the key that
  the revocation carries and the edge exists. The signed bytes join the two names without their lengths, and
  `Delegation.RevocationsSignTheSameIff` says which revocations they cannot tell apart.

## Model

| member | source | states |
|---|---|---|
| AccountChain.OpenKeepsConsistent | crates/arxia-lattice/src/chain.rs:180-239 | opening keeps nonces 1..n, hash links, seals, running balances, the cap and the consumed set in order, whether it succeeds or not |
| AccountChain.SendKeepsConsistent | crates/arxia-lattice/src/chain.rs:253-319 | sending keeps the same invariant |
| AccountChain.ReceiveKeepsConsistent | crates/arxia-lattice/src/chain.rs:332-424 | receiving keeps it, in particular no source is consumed twice on one chain |
| AccountChain.BalanceWithinCap | crates/arxia-lattice/src/chain.rs:332-424 | no balance exceeds the per-account cap |
| AccountChain.AccountChain.constructor | crates/arxia-lattice/src/chain.rs:125-138 | a new chain is empty and consistent |
| AccountChain.AccountChain.Open | crates/arxia-lattice/src/chain.rs:180-239 | succeeds exactly on an empty chain within the cap; the chain is then the one OPEN of that balance, sealed by the owner; each error has its cause and changes nothing |
| AccountChain.AccountChain.Send | crates/arxia-lattice/src/chain.rs:253-319 | succeeds exactly for a positive amount within the balance to another account; appends the one SEND of that amount and destination, sealed and linked, and the balance falls by exactly the amount; each error has its cause and changes nothing |
| AccountChain.AccountChain.Receive | crates/arxia-lattice/src/chain.rs:332-424 | succeeds exactly for a SEND to this account, not consumed before, within the cap; appends the one RECEIVE of its hash, the balance grows by exactly its amount and its hash is consumed; an error changes nothing |
| AccountChain.ReceiveRefusals | crates/arxia-lattice/src/chain.rs:332-378 | each error of receiving has exactly its cause, a repeated source being one that the chain already cites |
| Validation.NoFaultIsIntegral | crates/arxia-lattice/src/validation.rs:53-88 | checks against the predecessor alone fix every nonce and link of the chain, in both directions |
| Validation.VerifyChainIntegrity | crates/arxia-lattice/src/validation.rs:53-88 | accepts exactly the chains in good order, all of whose blocks are genuine, and otherwise reports the first fault |
| Validation.VerifiesExactlyTheGenuine | crates/arxia-lattice/src/validation.rs:18-50 | a block verifies exactly when its key is valid, its hash is the digest of its contents, and 64 bytes of signature verify over the hash; each error names what is wrong first |
| Ledger.IngestKeepsCoherent | crates/arxia-lattice/src/ledger.rs:155-270 | every call keeps chains valid, the send index equal to the stored SENDs, the consumed set equal to the received sources, each received once and by its destination, and the supply equal to the stored OPENs within the ceiling |
| Ledger.EveryRunIsCoherent | crates/arxia-lattice/src/ledger.rs:155-270 | that invariant holds after any sequence of calls, and only offered blocks are stored |
| Ledger.EveryStoredBlockIsGenuine | crates/arxia-lattice/src/ledger.rs:155-270 | after any sequence of calls every stored block has a valid key, the digest of its contents as hash, and 64 bytes of signature that verify |
| Ledger.RejectionChangesNothing | crates/arxia-lattice/src/ledger.rs:155-270 | a rejected block changes no stored block, index or total; it changes nothing at all exactly when it fails a check before the chain lookup or its account has an entry, and otherwise adds just an empty entry |
| Ledger.RejectionCanLeaveAnEntry | crates/arxia-lattice/src/ledger.rs:197-236 | an OPEN with nonce 2 on the empty ledger is rejected and leaves an empty chain |
| Ledger.AcceptsExactlyTheAdmissible | crates/arxia-lattice/src/ledger.rs:155-236 | the indices decide exactly what a search of all stored chains would: genuine, next in its chain, an OPEN first and within the supply, a RECEIVE only of a stored, unreceived SEND to its account |
| Ledger.AcceptedIsAppended | crates/arxia-lattice/src/ledger.rs:238-270 | an accepted block is appended to its account's chain and no other chain changes |
| Ledger.RejectionTellsTheTruth | crates/arxia-lattice/src/ledger.rs:155-236 | every error is true of the block and the stored chains: key, hash, signature, supply, missing, misdirected or consumed source, nonce, link, first block |
| Ledger.StoredPosition | crates/arxia-lattice/src/ledger.rs:197-268 | a stored block is genuine and sits in its own account's chain where its nonce says |
| Ledger.NextBlockIsNew | crates/arxia-lattice/src/ledger.rs:199-236 | a block that passes the continuity check continues the chain and was not stored before |
| Ledger.Ledger.AddBlock | crates/arxia-lattice/src/ledger.rs:155-270 | the in-place update is the step that the laws above and below describe, and keeps the invariant |
| Flows.FlowsAddUp | crates/arxia-crdt/src/reconciliation.rs:153-243 | net movements summed over accounts equal opened minus sent plus received |
| Flows.ReceiptsMatchSends | crates/arxia-crdt/src/reconciliation.rs:189-238 | received amounts plus unreceived SENDs are at least all SENDs, and exactly them if and only if no SEND of a positive amount is received twice |
| Flows.Conservation | crates/arxia-crdt/src/reconciliation.rs:153-256 | value at accounts and in unreceived SENDs is at least what was opened, and exactly that if and only if no SEND of a positive amount is received twice |
| Network.EveryRunIsSane | crates/arxia-lattice/src/chain.rs:180-424 | in every interleaving of honest calls all chains are consistent and every RECEIVE credits exactly what an emitted SEND to that account debited |
| Network.OperationDoesWhatIsAsked | crates/arxia-lattice/src/chain.rs:180-424 | an operation succeeds exactly when it is permitted; it then adds just the block that carries its account, amount, destination, source and time, and leaves the balance that block states; otherwise nothing changes |
| Network.EveryBlockWasAsked | crates/arxia-lattice/src/chain.rs:180-424 | over any honest run each emitted block carries the arguments of a permitted operation of the run |
| Network.EveryPermittedOperationEmits | crates/arxia-lattice/src/chain.rs:180-424 | over any honest run each permitted operation has its block emitted |
| Network.NoSendCreditedTwice | crates/arxia-lattice/src/chain.rs:350-354 | no two blocks of the whole network receive one SEND |
| Network.BalanceIsNetFlow | crates/arxia-lattice/src/chain.rs:180-424 | an account's balance is the net movement of the emitted blocks in its name |
| Network.EveryRunConserves | crates/arxia-lattice/src/chain.rs:180-424 | over every interleaving, balances plus unreceived SENDs equal what was opened, no SEND is credited twice, and the cap holds |
| Agreement.NextFits | crates/arxia-lattice/src/ledger.rs:197-236 | the next block of a causal feed comes exactly where its account's stored prefix ends |
| Agreement.ReceiveIsReady | crates/arxia-lattice/src/ledger.rs:180-195 | in a causal feed a RECEIVE finds its SEND indexed, addressed to it and unconsumed |
| Agreement.EveryPrefixTracks | crates/arxia-lattice/src/ledger.rs:155-270 | after every prefix of a causal feed the ledger holds exactly that prefix |
| Agreement.ProducersAndValidatorAgree | crates/arxia-lattice/src/ledger.rs:155-270 | all blocks of an honest run are accepted in every causal order, and the ledger ends with exactly the producers' chains |
| Agreement.EmissionIsCausal | crates/arxia-lattice/src/chain.rs:180-424 | every honest run has a causal feed: its own order of emission |
| Agreement.EmissionIsAccepted | crates/arxia-lattice/src/ledger.rs:155-270 | blocks fed as they are made are all accepted |
| PNCounter.RunsOnlyLearn | crates/arxia-crdt/src/pn_counter.rs:42-82 | over any run of updates and merges a replica forgets neither what it knew nor what it merged |
| PNCounter.MergeAllIsLeast | crates/arxia-crdt/src/pn_counter.rs:73-82 | merging several counters gives the least one above all of them |
| PNCounter.ReplicasConverge | crates/arxia-crdt/src/pn_counter.rs:73-82 | replicas that merged the same counters are equal, whatever the order, repetition and starting point |
| PNCounter.BumpAddsToTotal | crates/arxia-crdt/src/pn_counter.rs:42-57 | with one node name, updates add to the total up to saturation |
| PNCounter.CounterValue | crates/arxia-crdt/src/pn_counter.rs:55-71 | the saturating folds give the saturated totals in every order, and their difference is clamped to 64 signed bits |
| PNCounter.PNCounter.Increment | crates/arxia-crdt/src/pn_counter.rs:42-45 | the in-place credit |
| PNCounter.PNCounter.Decrement | crates/arxia-crdt/src/pn_counter.rs:47-50 | the in-place debit |
| PNCounter.PNCounter.Merge | crates/arxia-crdt/src/pn_counter.rs:73-82 | the in-place merge is the join |
| PNCounter.MergeInto | crates/arxia-crdt/src/pn_counter.rs:74-77 | one merging loop gives the element-wise maximum |
| Reconciliation.DedupByHash | crates/arxia-crdt/src/reconciliation.rs:102-108 | keeps exactly the first block of every hash |
| Reconciliation.GroupByKey | crates/arxia-crdt/src/reconciliation.rs:110-118 | groups hold exactly the blocks of each account and nonce |
| Reconciliation.SortByHash | crates/arxia-crdt/src/reconciliation.rs:128-129 | lists a group by ascending hash, losing nothing |
| Reconciliation.PickWinners | crates/arxia-crdt/src/reconciliation.rs:120-140 | the winner of each key has the least hash, and each contested key gives one conflict |
| Reconciliation.WinnerIsUnique | crates/arxia-crdt/src/reconciliation.rs:128-130 | a key has only one block of least hash, so the winner does not depend on any choice |
| Reconciliation.IndexSends | crates/arxia-crdt/src/reconciliation.rs:142-151 | the index holds exactly the winning SENDs by hash |
| Reconciliation.ApplyWinner | crates/arxia-crdt/src/reconciliation.rs:160-243 | the counter after one winner; a RECEIVE is reported exactly when its source is no winning SEND to its account, with the right reason, and an OPEN exactly at a nonce other than 1 |
| Reconciliation.ApplyWinners | crates/arxia-crdt/src/reconciliation.rs:153-243 | the counters hold each account's total credits and debits, and rejections come in key order |
| Reconciliation.Materialize | crates/arxia-crdt/src/reconciliation.rs:245-256 | the balances are the counters' values, or the error names a negative one |
| Reconciliation.ReconcilePartitions | crates/arxia-crdt/src/reconciliation.rs:98-264 | on every input that does not panic the result is one the block set determines; `ReconciliationMeaning` reads balances, conflicts and rejections off the two lists |
| ReconciliationMeaning.RejectedReceivesAreExact | crates/arxia-crdt/src/reconciliation.rs:189-225 | the reported RECEIVEs are exactly the winning ones for which no winning SEND of the cited hash goes to their account, each once, by ascending account and nonce, with account, nonce, hashes and the reason that says whether such a SEND exists |
| ReconciliationMeaning.RejectedGenesesAreExact | crates/arxia-crdt/src/reconciliation.rs:162-177 | the reported OPENs are exactly the winning ones at a nonce other than 1, each once and in order |
| ReconciliationMeaning.ConflictsAreExact | crates/arxia-crdt/src/reconciliation.rs:120-140 | the reported conflicts are exactly the accounts and nonces that different blocks claim, each once: the least hash wins and the others are listed ascending |
| ReconciliationMeaning.BalancesAreExact | crates/arxia-crdt/src/reconciliation.rs:153-264 | a balance is given for exactly the accounts that a winning block affects, and is nonce-1 OPENs plus received SENDs less SENDs, each side cut off at `u64` and the difference kept within `i64`; an error names such an account whose balance is negative |
| ReconciliationMeaning.WinnersAreTheLeast | crates/arxia-crdt/src/reconciliation.rs:101-140 | a winner is the block of least hash for its account and nonce among those that are the first of their hash |
| Ordering.StringsCompareLexicographically | crates/arxia-crdt/src/reconciliation.rs:128-129 | hashes compare by their first difference |
| ReconciliationOutcome.OutcomeDependsOnBlockSet | crates/arxia-crdt/src/reconciliation.rs:98-264 | swapping, permuting, repeating or re-splitting the partitions, and changing fields that are not read, signatures among them, changes neither the outcome nor balances, conflicts and rejections, when blocks with one hash agree on account, nonce and effect |
| HashCollisions.RetentionIsExact | crates/arxia-crdt/src/reconciliation.rs:102-108 | every order of some blocks leaves deduplication with the same effects if and only if that condition holds |
| HashCollisions.FirstOpenDecides | crates/arxia-crdt/src/reconciliation.rs:102-108 | of two OPENs with one hash the first to arrive decides the balance |
| HashCollisions.CollidingOpensAgreeIff | crates/arxia-crdt/src/reconciliation.rs:98-264 | swapping two such OPENs keeps the outcome exactly when their amounts are equal up to the limit of a balance |
| ReconciliationLaws.ConflictsAreSettledByHash | crates/arxia-crdt/src/reconciliation.rs:123-140 | a conflict's winner is the least hash of its group and its losers are the rest in ascending order |
| ReconciliationLaws.ReconciliationConserves | crates/arxia-crdt/src/reconciliation.rs:146-256 | away from the counters' limits, balances sum to winning nonce-1 Opens minus winning Sends plus accepted amounts; balances plus unreceived SENDs are at least the Opens, and equal to them if and only if no winning SEND of a positive amount is received twice |
| ReconciliationLaws.DoubleReceiptCreatesValue | crates/arxia-crdt/src/reconciliation.rs:189-238 | two RECEIVEs of one SEND are both taken: the receiver has the amount twice and the balances sum to more than was opened |
| HonestReconciliation.HonestBlocksAllWin | crates/arxia-crdt/src/reconciliation.rs:120-140 | honest chains never contest a key |
| ReconciliationLaws.BalanceIsExactIff | crates/arxia-crdt/src/pn_counter.rs:42-71 | a reconciled balance is credits minus debits if and only if these and the difference fit their types, or credits equal debits |
| HonestReconciliation.HonestBalance | crates/arxia-crdt/src/pn_counter.rs:42-71 | the saturating counters give an honest account's balance exactly when its cumulative credits fit in a `u64` or the balance is zero |
| HonestReconciliation.HonestPartitionsReconcile | crates/arxia-crdt/src/reconciliation.rs:98-264 | however an honest run's blocks are spread over the partitions, the result is Ok without conflicts or rejections, reports exactly the accounts with blocks, and gives a chain's own balance exactly when its credits fit in a `u64` or the balance is zero |
| Reassembly.CanonicalBytesAreInjective | crates/arxia-transport/src/reassembly.rs:171-186 | different fragments sign different bytes |
| Reassembly.SignedLayout | crates/arxia-transport/src/reassembly.rs:171-186 | the signed bytes are domain, peer, id, number, total and payload at these offsets |
| Reassembly.FeedKeepsWellFormed | crates/arxia-transport/src/reassembly.rs:253-340 | queues are non-empty, at most 16 long, with distinct ids; each message has as many slots as its total, counts the filled ones, and is not complete |
| Reassembly.PeersAreIsolated | crates/arxia-transport/src/reassembly.rs:253-340 | a fragment never changes another peer's queue |
| Reassembly.RejectionChangesNothing | crates/arxia-transport/src/reassembly.rs:253-340 | a rejected fragment changes nothing |
| Reassembly.JoinSlots | crates/arxia-transport/src/reassembly.rs:327-330 | the output loop concatenates the filled slots in order |
| Reassembly.FeedAnswers | crates/arxia-transport/src/reassembly.rs:267-340 | a message completes exactly when no slot is missing and is then gone; a contradicting total or payload is refused, a repeated payload changes nothing |
| Reassembly.FeedAcceptsExactly | crates/arxia-transport/src/reassembly.rs:253-323 | a fragment is taken exactly when its signature verifies over its own fields, its number lies below its total, and neither total nor payload contradicts the message held; each other fragment gets its error |
| Reassembly.Reassembler.LookUpOrOpen | crates/arxia-transport/src/reassembly.rs:267-302 | finds the message or opens it at the end of the queue, dropping the oldest of 16 |
| Reassembly.Reassembler.Feed | crates/arxia-transport/src/reassembly.rs:253-340 | the in-place update is the step that the laws around it describe: a signature error exactly when the signature does not verify, no change on any error, and the invariant kept |
| Delivery.MessagesAreAccountedFor | crates/arxia-transport/src/reassembly.rs:253-340 | over every run, messages opened equal in flight plus completed plus evicted, and the counter counts evictions |
| Delivery.QueueOrder | crates/arxia-transport/src/reassembly.rs:259-339 | a peer's messages stay in the order of opening: a completed one leaves its place, the oldest of 16 makes room, and nothing else moves |
| Delivery.PendingStep | crates/arxia-transport/src/reassembly.rs:267-339 | while a message is pending, any fragment keeps its pieces and answers correctly |
| Delivery.DeliveryInAnyOrder | crates/arxia-transport/src/reassembly.rs:253-340 | pieces in any order, repeated, among any other traffic and at most 15 later openings by the peer: None until the last missing piece, which returns the payload in seq order |
| Delivery.FlattenSplits | crates/arxia-transport/src/reassembly.rs:327-330 | joining pieces is concatenation |
| Provenance.RunIsVouched | crates/arxia-transport/src/reassembly.rs:253-340 | over any run each filled slot holds, and each returned payload is made of, payloads fed by then for that peer, id, total and number with a signature that verifies |
| Provenance.NothingIsForged | crates/arxia-transport/src/reassembly.rs:253-340 | from an empty reassembler, nothing is stored or returned that no verified fragment carried |
| Delegation.NewEdgeKeepsAcyclic | crates/arxia-consensus/src/delegation.rs:260-269 | an edge closes no cycle if its representative does not reach its delegator |
| Delegation.DelegateKeepsSound | crates/arxia-consensus/src/delegation.rs:247-271 | delegating keeps the graph acyclic and both tables in agreement |
| Delegation.RevokeKeepsSound | crates/arxia-consensus/src/delegation.rs:317-338 | revoking keeps them |
| Delegation.EveryReachableGraphIsSound | crates/arxia-consensus/src/delegation.rs:247-338 | every graph reachable by delegating and revoking is acyclic with agreeing tables |
| Delegation.AnswerMeans | crates/arxia-consensus/src/delegation.rs:280-312 | in every neighbour order Ok means no path, CycleDetected a path of at most the maximal depth, DepthExceeded a walk of that depth that does not meet the target |
| Delegation.DepthExceededIsPossibleIff | crates/arxia-consensus/src/delegation.rs:290-302 | without cycles, some order gives DepthExceeded if and only if a walk of maximal depth leaves the start without meeting the target |
| Delegation.CycleDetectedIsPossibleIff | crates/arxia-consensus/src/delegation.rs:290-309 | without cycles, some order gives CycleDetected if and only if a walk of at most the maximal depth leads to the target |
| Delegation.AnswerDependsOnOrder | crates/arxia-consensus/src/delegation.rs:305-309 | for every depth, a graph without cycles on which two orders give the two errors |
| Delegation.CheckNoPathWithinDepth | crates/arxia-consensus/src/delegation.rs:280-312 | the loop ends with the search's answer; without such a long walk Ok is exactly no path |
| Delegation.PushNeighbors | crates/arxia-consensus/src/delegation.rs:305-309 | the neighbour loop pushes exactly the successors |
| Delegation.DelegationGraph.Delegate | crates/arxia-consensus/src/delegation.rs:247-271 | the in-place update, each error's meaning and no change on error; within the depth a new edge succeeds exactly if it closes no cycle |
| Delegation.RevocationsSignTheSameIff | crates/arxia-consensus/src/delegation.rs:156-171 | two revocations sign the same bytes exactly when key, nonce and the two names put together agree |
| Delegation.DelegationGraph.Revoke | crates/arxia-consensus/src/delegation.rs:317-338 | succeeds exactly for a signature that verifies under the key it carries over an existing edge, and removes that edge |
| Delegation.DelegationGraph.TotalForRepresentative | crates/arxia-consensus/src/delegation.rs:340-346 | the saturated sum of the amounts delegated to a representative, in every order |
| Delegation.DelegationGraph.Snapshot | crates/arxia-consensus/src/delegation.rs:351-360 | agrees with the total of every representative |
| NonceRegistry.MergeNonceRegistries | crates/arxia-gossip/src/nonce_registry.rs:53-74 | union of keys, local entries never overwritten, conflicts exactly the disagreements in key order |
| NonceRegistry.ConflictsAreTheDisagreements | crates/arxia-gossip/src/nonce_registry.rs:53-74 | one conflict for each disagreeing key, ascending |
| NonceRegistry.SyncNoncesBeforeL1 | crates/arxia-gossip/src/nonce_registry.rs:89-114 | the two counting loops give the number of unconfirmed and missing keys |
| NonceRegistry.SyncCountsDifferences | crates/arxia-gossip/src/nonce_registry.rs:89-114 | against a registry that is not empty, the count is the number of keys of either side on which the two differ, and success means equality |
| NonceRegistry.MutualMergeThenSync | crates/arxia-gossip/src/nonce_registry.rs:53-114 | after a mutual merge both have the union, each keeps its own, and sync reports exactly the number of conflicts, Success without any, NoNeighbors only if both were empty |
| GossipNode.InsertionSlidesWindow | crates/arxia-gossip/src/node.rs:146-153 | one insertion slides the window over the insertion history |
| GossipNode.MergeSlidesWindow | crates/arxia-gossip/src/node.rs:181-210 | a merge slides the window over the insertions it makes |
| GossipNode.EveryRunKeepsTheWindow | crates/arxia-gossip/src/node.rs:124-228 | over any run the registry is the last capacity insertions, the tracker their keys in order without repeats, and insertions are held or counted as dropped |
| GossipNode.AdmissionMeans | crates/arxia-gossip/src/node.rs:124-155 | the same in terms of the registry, the 32 decoded bytes and genuineness, with the insertion made exactly when the key is new |
| DoubleSpends.CaughtExactly | crates/arxia-gossip/src/node.rs:124-155 | over any run a genuine block is a double spend exactly when the last `capacity` insertions hold another hash for its account and nonce, and is taken otherwise |
| DoubleSpends.TakenBlocksAgree | crates/arxia-gossip/src/node.rs:124-155 | over any run two blocks taken for one account and nonce have one hash while the entry is in the window |
| DoubleSpends.DoubleSpendIsCaught | crates/arxia-gossip/src/node.rs:124-155 | a second hash for an account and nonce is reported whenever at most `capacity` insertions were made since the first, itself included, whatever else the node was given |
| GossipNode.GossipNode.EvictOldestNonceEntry | crates/arxia-gossip/src/node.rs:216-228 | pops stale keys until one is removed and counted |
| GossipNode.GossipNode.AddBlock | crates/arxia-gossip/src/node.rs:124-162 | Ok exactly for a genuine block whose account and nonce are free or hold its hash, DoubleSpend exactly for a genuine one whose account and nonce hold another; one insertion for a new key, no change otherwise; both collections stay windows |
| GossipNode.GossipNode.MergeRegistry | crates/arxia-gossip/src/node.rs:181-210 | inserts the new keys in key order, keeps the window, and both returns and retains the conflicts |
| GossipNode.GossipNode.DrainPendingConflicts | crates/arxia-gossip/src/node.rs:233-235 | returns and empties the conflicts |
| Finality.TotalStake | crates/arxia-finality/src/lib.rs:310-315 | the saturated sum of all stakes in every order |
| Finality.CountVotes | crates/arxia-finality/src/lib.rs:369-390 | the stake of the set of distinct registered voters, or the first bad signature |
| Finality.AssessFinality | crates/arxia-finality/src/lib.rs:358-426 | the loops compute the specified assessment |
| Finality.LevelMeans | crates/arxia-finality/src/lib.rs:358-426 | each level in terms of stakes, voters and signatures: an error for a bad vote, L2 for a quorum of distinct registered voters, else L1 for agreeing nonces, else up to 10 ARX L0 or an error by the first confirmation of a registered key, else pending |
| Finality.VotesCountAsASet | crates/arxia-finality/src/lib.rs:371-390 | there is a fault exactly when some relevant vote does not verify |
| Finality.SameVotesSameAssessment | crates/arxia-finality/src/lib.rs:358-426 | order and repetition of votes decide neither whether there is an error nor, without a bad vote, the assessment |
| Finality.QuorumIsExactIff | crates/arxia-finality/src/lib.rs:391-400 | the saturating comparison is right for every accepted stake exactly when 67 times the total is within the bound |
| Finality.QuorumsIntersect | crates/arxia-finality/src/lib.rs:391-400 | two quorums share at least 34% of the total stake |
| Finality.IntersectionIsExactIff | crates/arxia-finality/src/lib.rs:391-400 | all quorums of all registries of a given total share that much if and only if 67 times the total is within the bound |
| Finality.ConflictingFinalityNeedsDoubleVoters | crates/arxia-finality/src/lib.rs:366-401 | if two blocks both reach L2, validators with at least 34% of the stake voted for both |
| Finality.SaturatedQuorumsCanBeDisjoint | crates/arxia-finality/src/lib.rs:396-398 | beyond the bound two disjoint quorums exist |
| Finality.LatchHoldsTheMaximum | crates/arxia-finality/src/lib.rs:481-506 | over any run a block's level never falls and is the highest one observed |
| Finality.FirstConfirmationIs | crates/arxia-finality/src/lib.rs:408-421 | the first confirmation of the block by a registered key alone decides |
| Finality.FinalityLatch.AssessMonotonic | crates/arxia-finality/src/lib.rs:481-506 | success latches the snapshot, an error leaves the latch alone |
| Compact.ToCompactBytes | crates/arxia-lattice/src/serialization.rs:54-122 | the appended fields are the specified layout of 193 bytes, with the first bad field deciding the error |
| Compact.PrintedBytes | crates/arxia-lattice/src/serialization.rs:54-122 | what each of the 193 bytes says: tag, account, predecessor, balance, nonce, time, amount, reference and signature at their offsets; and exactly which blocks can be printed |
| Compact.PrintRefusals | crates/arxia-lattice/src/serialization.rs:54-122 | the first field that is not the text of 32 bytes decides the error |
| Compact.SplitLayout | crates/arxia-lattice/src/serialization.rs:155-180 | slicing a laid-out block gives its fields back |
| Compact.KeyTextRoundTrip | crates/arxia-lattice/src/serialization.rs:27-36 | decoding text loses nothing exactly when it is 64 lower-case hexadecimal digits |
| Hex.EncodedDigits | crates/arxia-lattice/src/serialization.rs:27-36 | each byte is two lower-case digits, the higher first |
| Compact.PrintThenParse | crates/arxia-lattice/src/serialization.rs:54-213 | a block comes back, hash included, exactly when it is canonical |
| Compact.ParseThenPrint | crates/arxia-lattice/src/serialization.rs:54-213 | parsed input prints, and gives its first 193 bytes back exactly when the fields unused by its tag are zero |
| Compact.ParsesExactly | crates/arxia-lattice/src/serialization.rs:148-213 | parsing succeeds exactly for at least 193 bytes with a known tag and a valid key, and each failure has its cause |
| SignedMessage.EncodeEntriesInto | crates/arxia-gossip/src/signed_message.rs:243-247 | the loop appends every entry in order |
| SignedMessage.EncodeMessageInto | crates/arxia-gossip/src/signed_message.rs:228-256 | appends the encoding, exactly as long as estimated |
| SignedMessage.SignedBytes | crates/arxia-gossip/src/signed_message.rs:173-179 | domain, sender and encoding |
| SignedMessage.SignedLayout | crates/arxia-gossip/src/signed_message.rs:173-256 | domain, sender, tag 1 to 4 and the fields at their offsets, each length and number big-endian |
| SignedMessage.ParseEncoding | crates/arxia-gossip/src/signed_message.rs:166-171 | the promised dispatch without ambiguity: a message is read back from its encoding, whatever follows |
| SignedMessage.ParsedIsEncoding | crates/arxia-gossip/src/signed_message.rs:166-171 | the promised dispatch without ambiguity, other direction: nothing but encodings can be read |
| SignedMessage.EncodingIsPrefixFree | crates/arxia-gossip/src/signed_message.rs:228-256 | no encoding begins another one |
| SignedMessage.CanonicalBytesAreInjective | crates/arxia-gossip/src/signed_message.rs:173-179 | different messages or senders sign different bytes, across all variants |
| Domains.DomainsAreSeparate | crates/arxia-gossip/src/signed_message.rs:69-76 | nothing signed under one domain prefix equals anything signed under another |
| Relay.CanonicalMessageIsInjective | crates/arxia-relay/src/receipt.rs:157-170 | a receipt's signature binds relay, message, time and hops |
| Relay.VerifiesExactlyTheAuthentic | crates/arxia-relay/src/receipt.rs:157-208 | a receipt verifies exactly with at most 16 hops, both texts decoding to 32 bytes, and 64 bytes of signature that verify over domain, key, message, time and hops |
| Relay.CreditsExactlyTheNew | crates/arxia-relay/src/scoring.rs:261-281 | a receipt is credited exactly when it is of this relay, authentic, and for a message not credited before |
| Relay.EachMessageIsCreditedOnce | crates/arxia-relay/src/scoring.rs:261-289 | over any run the credited set is exactly the messages proven, the relayed counter its size, and the score follows |
| Relay.ProvenMeansBrought | crates/arxia-relay/src/scoring.rs:261-289 | the messages proven over a run are those that some operation brings an authentic receipt of this relay for |
| Relay.HistoryGrows | crates/arxia-relay/src/scoring.rs:372-391 | a timestamped failure adds minus five, a timestamped first authentic receipt of a message adds one, nothing else adds to the history |
| Relay.BufferIsRecentPart | crates/arxia-relay/src/scoring.rs:372-429 | the buffer is the end of the full history, and everything dropped is older than the window |
| Relay.PruningNeverShows | crates/arxia-relay/src/scoring.rs:372-429 | the rolling score is what the full history gives at any time whose window begins no earlier than that of the latest time used, even out of order |
| Relay.EarlierTimesMissEvents | crates/arxia-relay/src/scoring.rs:400-429 | at every earlier window a pruned failure can be missing |
| Relay.AgreementIsExact | crates/arxia-relay/src/scoring.rs:400-429 | all runs with a given latest time agree with their history at a time if and only if its window begins no earlier |
| Relay.RollingScoreCounts | crates/arxia-relay/src/scoring.rs:400-409 | the rolling score is 100 plus the successes less five times the failures at or after 30 days before the given time |
| Relay.PrunedMeans | crates/arxia-relay/src/scoring.rs:420-429 | pruning drops the leading events older than 30 days and stops at the first that is not |
| Relay.RelayScore.RecordSuccess | crates/arxia-relay/src/scoring.rs:261-281 | gates in order; an error changes nothing |
| Relay.RelayScore.RecordSuccessAt | crates/arxia-relay/src/scoring.rs:372-381 | gates in order, then the event is appended and old ones pruned; an error changes nothing |
| Relay.RelayScore.RecordFailureAt | crates/arxia-relay/src/scoring.rs:387-391 | failure counted, event appended, old ones pruned |
| Relay.RelayScore.DropOld | crates/arxia-relay/src/scoring.rs:420-429 | the loop drops exactly the leading events older than the window |
| Vesting.VestedIsProportion | contracts/token-lock/src/lib.rs:180-201 | the 128-bit arithmetic is exact: the vested amount is the elapsed proportion rounded down |
| Vesting.VestedByTime | contracts/token-lock/src/lib.rs:180-201 | nothing vests before the cliff, all has vested from the end on or when the end does not come after the start, and in between the proportion rounded down |
| Vesting.VestingIsMonotone | contracts/token-lock/src/lib.rs:180-201 | for every schedule, checked or not, vested amounts never fall and never exceed the total |
| Vesting.ClaimCatchesUp | contracts/token-lock/src/lib.rs:218-229 | a claim pays up to the vested amount and fails exactly when nothing new has vested |
| Vesting.ClaimsArePathIndependent | contracts/token-lock/src/lib.rs:218-229 | over any claims at any times payments sum to what is claimed, which is what had vested at the latest claim |
| Vesting.AllIsPaidInTheEnd | contracts/token-lock/src/lib.rs:180-229 | never more than the total is paid, and all of it once claimed at the end |
| Vesting.VestingSchedule.NewChecked | contracts/token-lock/src/lib.rs:157-170 | refuses exactly the inconsistent schedules |
| Vesting.VestingSchedule.Claim | contracts/token-lock/src/lib.rs:218-229 | the in-place claim; everything paid so far is what had vested at the latest claim |

## Left out

- Nonces are unbounded naturals: wrapping at 2^64 blocks on one chain is not modelled.
- Cryptography, hashing and key generation are parameters; the vector clock, key parts and text forms of an account
  chain are left out, and the model has no block that revokes a credential locally, as the code has none.
- Reconciliation.ReconcilePartitions: excludes exactly the inputs on which the code panics, where a winner that moves
  its account has a name of fewer than eight characters; its counters are values rather than objects.
- ReconciliationLaws.ReconciliationConserves: holds while no account's balance is changed by a limit of an integer type,
  the exact condition for each account by `BalanceIsExactIff`; saturated counters lose value by design.
- ReconciliationOutcome.OutcomeDependsOnBlockSet: its condition is exact for the blocks retained and only sufficient for
  the outcome.
- Finality.QuorumsIntersect: holds within the bound on the total stake that `IntersectionIsExactIff` shows to be exact.
- Delegation.CheckNoPathWithinDepth: takes the iteration order of the neighbour sets as an argument.
- Relay.EachMessageIsCreditedOnce: scores and counters are unbounded integers, so overflow of the 64-bit fields after
  2^60 events is not modelled; slashing, per-target rates and identifier validation are left out.
- GossipNode.EveryRunKeepsTheWindow: covers runs without direct mutation of the public fields; peers and sync checks
  add no state to it.
- SignedMessage: size caps, hop limits and envelope verification are settled by reading one branch and left out;
  lengths are taken to fit 64 bits, as they do on the machines the code targets.
- Storage backends, the observed-remove set, representative voting on conflicts, escrow, the one-shot token lock,
  transports, the command line, the inspector and the firmware and browser stubs.
- Texts of error messages: an error keeps its variant and numbers, not its wording.
