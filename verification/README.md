# A verified model of the replicated key-value store

The repository is a Dynamo-style store: every node keeps a map from keys to versioned values, a
consistent-hash ring places keys on nodes, quorums of replicas serve reads and writes, hints and
Merkle-tree anti-entropy repair what was missed, and gossip tracks who is alive. This project models
that logic in Dafny and proves what it is built to guarantee, for all inputs and all runs. Where the
code does not give the guarantee, the exact condition under which it does is proved instead.

Run `dafny verify dfyconfig.toml` to check everything.

## How the model is laid out

| file | what it holds |
|---|---|
| `Clocks.dfy` | vector clocks, their order and join, the clock object |
| `Versions.dfy`, `Payloads.dfy` | conflict trees, absorbing steps, the canonical payload used for hashing |
| `Merging.dfy`, `Writes.dfy`, `Resolution.dfy` | merging two versions, taking in writes, resolving the responses of a read |
| `Wire.dfy` | what a trip over gRPC does to a version |
| `Merkle.dfy`, `Reconciliation.dfy`, `Passes.dfy`, `AntiEntropy.dfy`, `Interleaving.dfy`, `Schedules.dfy` | hash trees, reconciling one key and whole stores, passes over a cluster, and nodes reconciling at the same time |
| `Hints.dfy`, `Placement.dfy`, `Ring.dfy`, `Quorum.dfy` | hint queues, the sloppy choice of replicas, the ring, quorum intersection |
| `Gossip.dfy`, `GossipRuns.dfy` | one node's membership view, and runs of the whole protocol |
| `Events.dfy` | runs of everything that moves clocks about |
| `NodeSpecs.dfy`, `Nodes.dfy` | what the operations of a node do to the cluster, and the node object whose methods are tied to it |
| `Histories.dfy` | histories of Puts, late deliveries and reconciles from empty stores |
| `Sessions.dfy`, `LostValues.dfy` | a Put, anything monotone, and a Get: whether the read is bound to cover the write's clock, and whether the acknowledged value is bound to be taken |
| `Sequences.dfy`, `Sorting.dfy` | shared notions |

Objects that the program updates in place (`VectorClock`, `MerkleTree`, `ConsistentHashRing`,
`GossipService`, `Coordinator`) are classes whose methods keep the program's loops and branches; each
method is proved equal to a function on the old state, and the lemmas are about those functions. Ranging
over a Go map is an arbitrary choice, so results hold for every iteration order. SHA-256 is symbolic
(a hash is the term hashed), and JSON is represented by an arbitrary strict total order `less` on
payloads, the order of their canonical texts. A remote call succeeds or fails as one step, and the
clock readings made during one operation are the parameter `now`. JSON `null` values are modelled
(`Nil`), because several paths read them as "absent".

## Where the code differs from what its text promises

- `R + W > N` is checked as the safe setting (`backend/config.go:64-67`, `backend/node.go:91-93`), but the
  replica window starts from a fresh listing of a map on every call
  (`backend/consistent_hash.go:82-92`). On rings larger than N, reads may miss completed writes:
  `ReadsCoverWritesExactly` gives the exact condition under which every read resolves to a clock that covers
  the write's, and `ShippedReadMisses` the read that does not, in the shipped four-node configuration
  (N = 3, R = W = 2).
- Covering the clock is not holding the value. A coordinator reads the clock of a Put off its own store
  (`backend/node.go:834-847`), so one that is none of the key's replicas gives two Puts the same clock, and all
  replicas drop the second value while acknowledging it. `AcknowledgedButLost` is that write, which its quorum
  acknowledged, a later read covers and no node holds; `ValuesTakenExactly` says that acknowledged values are
  bound to be taken exactly when every node is a replica; `ValueTaken` says when one replica takes a value.
- Every node runs anti-entropy passes of its own (`backend/main.go:202-218`). Equal clocks compare as "older",
  so a meeting then overwrites the peer (`backend/node.go:801-832`), and interleaved passes may chase the same
  payloads around for ever: `RoundsNeverAgree` is such a schedule of three nodes, `PayloadsAgreeExactly` says
  which schedules do agree, and `PayloadsConverge` that one undisturbed pass suffices.
- When too few nodes are available, a replacement may come up again as a preferred node, and its one
  copy counts twice towards a quorum (`ReplicaCountedTwice`); `ReplicasExact` says exactly when the
  replicas are distinct and available.
- A failed read followed by a successful repair overwrites the remote version, and nil values are taken
  for absent ones: `RemoteLowered`, `LocalLowered` and `SyncAgrees` say exactly when ground is lost.
- A hint whose own delivery failed is dropped when another hint for the same key went out
  (`DroppedExactly`).
- Removing a node that was added twice leaves positions without an owner (`OrphansExactly`).
- A service dates its records of all listed nodes by its own start (`backend/gossip.go:68-79`) and gossips
  these dates, so a late start revives a dead node for up to the timeout: `DeadIsDown` counts such starts as
  sightings, and `LateStartRevives` and `DeadLooksAlive` show that contact alone does not decide.
- The failure and suspicion timeouts in the configuration files (10 s and 5 s) are not read; the code,
  and the model, use 6 s and 3 s.

## Model

| member | source | states |
|---|---|---|
| Clocks.CompareVectorClocks | backend/node.go:385-420 | "older" is exactly "incoming covered by existing", "newer" exactly "existing strictly covered by incoming"; a missing clock is concurrent with everything |
| Clocks.JoinLeast | backend/vector_clock.go:27-39 | merging is the least upper bound of the causality order in which an absent entry lies below a present zero |
| Clocks.JoinAbsorbs | backend/vector_clock.go:27-39 | a clock covers another exactly when merging the other into it changes nothing |
| Clocks.JoinAllLeast | backend/vector_clock.go:27-39 | the join of any sequence of clocks is their least upper bound |
| Clocks.JoinAllSameElements | backend/vector_clock.go:27-39 | order and repetition of merges are immaterial |
| Clocks.VectorClock.Increment | backend/vector_clock.go:17-25 | the clock becomes strictly larger, by one count of the given node, and every other entry stays as it was, absent ones included |
| Clocks.VectorClock.Merge | backend/vector_clock.go:27-39 | in place, the receiver becomes the join; a nil argument changes nothing; aliasing the argument is allowed |
| Clocks.VectorClock.Clone | backend/vector_clock.go:41-52 | a new object with the same entries |
| Clocks.VectorClock.Compare | backend/vector_clock.go:54-89 | 1 exactly for strict domination, -1 exactly for being strictly dominated, 0 for equal and for concurrent clocks, nil strictly below everything else |
| Clocks.VectorClock.Equals | backend/vector_clock.go:109-125 | true exactly for the same entries, or for two nils; the size test plus one scan suffices |
| Versions.ChainClock | backend/node.go:331-381 | whatever the absorbing steps, a chain of them ends at the join of all clocks |
| Versions.ChainKeeps | backend/node.go:331-381 | in a chain of absorbing steps, an item that the join of the others does not cover keeps every value of its tree |
| Payloads.PayloadCanonical | backend/node.go:520-543 | payloads are equal exactly when value and clock agree (missing clock = empty) and the conflicts are permutations of each other at every depth, timestamps aside |
| Payloads.SameVersionValues | backend/node.go:520-543 | versions with the same payload hold the same multiset of values |
| Sorting.SortCanonical | backend/node.go:536-538 | sorted lists coincide exactly when the lists are permutations, so an unstable sort cannot be observed |
| Merging.PrimaryIsFirst | backend/node.go:634-647 | the primary is one of the two inputs, never earlier than the other, and on a tie never the one with the larger text |
| Merging.ConflictEntriesConserve | backend/node.go:622-632 | flattening a version into conflict entries keeps its values and its size |
| Merging.MergeConserves | backend/node.go:672-686 | the merged tree holds exactly the values of both trees, the sizes add up, the clock is the join, the timestamp the later one, and the top value that of an input bearing it |
| Merging.MergeKeepsConflicts | backend/node.go:672-686 | the version that wins goes on top with its own conflicts, followed by the other one's conflicts and, last, the other one itself |
| Merging.MergeCommutes | backend/node.go:672-686 | merging commutes exactly when the inputs are equal or differ in timestamp or payload |
| Merging.ConcurrentMergeCommutes | backend/node.go:672-686 | merging concurrent versions gives the same tree from either side |
| Merging.MergePlansAgree | backend/node.go:672-686 | with distinct timestamps, every order and grouping of merges gives the same primary value, clock, timestamp and multiset of values |
| Merging.PlansSameClock | backend/node.go:672-686 | the merged clock never depends on order or grouping, timestamps tied or not |
| Writes.PutJoins | backend/node.go:331-381 | a local put makes the stored clock the join of the old clock and the write's |
| Writes.PutAbsorbs | backend/node.go:350-381 | a local put is an absorbing step: each side's values are kept unless the other side's clock covers it |
| Writes.PutAllClock | backend/node.go:331-381 | after any sequence of deliveries the stored clock is the join of all delivered clocks |
| Writes.PutOrderImmaterial | backend/node.go:331-381 | replicas that received the same clocks, in any order and multiplicity, hold the same clock |
| Writes.UncoveredWriteSurvives | backend/node.go:331-381 | a write that the join of the others does not cover is still in the tree at the end |
| Writes.CoveredWriteIgnored | backend/node.go:370-374 | a write covered by what was delivered changes nothing at all |
| Writes.PutExactly | backend/node.go:350-378 | for any stored version, one without a clock included: a covered write leaves it, a strictly larger one replaces it with its conflicts, and any other one becomes the top of a tree that keeps it |
| Writes.SupersedingWrite | backend/node.go:350-378 | after any deliveries, a write that strictly covers the join of their clocks leaves exactly its own value, clock and time, and no conflicts |
| Writes.SupersededForgotten | backend/node.go:350-378 | and what was delivered before it makes no difference to anything that follows |
| Writes.ConflictingWrite | backend/node.go:350-365 | a write concurrent with the join of the earlier ones goes on top under the joined clock, with the previous conflicts and the previous version, in this order, as its conflicts |
| Writes.UncoveredOnTop | backend/node.go:331-381 | after any delivery that is not covered, its value and time are on top |
| Writes.ValueTaken | backend/node.go:350-381 | a delivered value is in the tree exactly when the stored clock did not cover the write's or the value was there already; a covered write leaves the entry as it was |
| Writes.RetriesImmaterial | backend/node.go:282-290 | at-least-once delivery gives the same stored value, tree and timestamp included, as exactly-once delivery |
| Writes.GrowthExact | backend/node.go:350-378 | k concurrent writes in a row multiply the tree size by 2^k and add k top-level conflicts |
| Writes.GrowthBound | backend/node.go:350-378 | n writes to an empty key leave at most 2^(n-1) values |
| Writes.ReplicaWriteLowers | backend/node.go:744-765 | a replica write lowers the stored clock exactly when it is forced and does not cover it |
| Writes.ReplicaWriteClocked | backend/node.go:744-748 | no replica write leaves an empty clock |
| Writes.ReplicaWriteExactly | backend/node.go:744-765 | after any deliveries, a forced write replaces the version, conflicts included, and any other one is a delivery at the time of arrival without its conflicts; an empty clock becomes the receiver's first event |
| Writes.ForcedWriteCanLower | backend/node.go:757-759 | a concrete superseded hint that takes a replica back |
| Resolution.ResolveClock | backend/node.go:649-670 | in every iteration order the resolved clock is the join of all response clocks |
| Resolution.UncoveredResponseSurvives | backend/node.go:649-670 | a response that the others do not cover keeps every value of its tree in the result |
| Resolution.NoConflictNoChange | backend/node.go:649-670 | with conflict count 0 the result is one response, unchanged, and its clock covers all of them |
| Resolution.ResolveExactly | backend/node.go:649-670 | one more response changes nothing when the outcome covers it, replaces the outcome when strictly above it, and otherwise is merged with it, the later of the two on top |
| Resolution.UncoveredAnswer | backend/node.go:649-670 | when no response is covered by the join of the others, in every order the value and time are those of the latest response, the tree holds exactly the values of all, and there is one conflict fewer than responses |
| Resolution.LatestAnswered | backend/node.go:649-670 | the same for a map of responses and any enumeration of it |
| Resolution.ResolvedResponses | backend/node.go:649-670 | for a map of responses and any enumeration of it, the result exists exactly when there is a response and its clock is the least upper bound |
| Resolution.ResolveConflicts | backend/node.go:649-670 | the loop computes the resolution and conflict count of some enumeration of the map; without reference to the order: the clock is the least upper bound, without conflicts the result is one response unchanged, and when no response is covered by the others it is the latest one's value and time |
| Wire.EncodeClockExact | backend/grpc_transport.go:73-81 | a clock survives encoding exactly when all counters fit 32 bits |
| Wire.RoundTrip | backend/grpc_transport.go:93-140 | decoding what was encoded gives the version back (missing clocks made empty) exactly when all counters fit 32 bits and no timestamp in the tree is zero |
| Wire.SentSame | backend/grpc_transport.go:93-140 | without looking at timestamps: if the counters fit, the trip keeps value, clock, payload and all values of the tree |
| Wire.SentExactly | backend/grpc_transport.go:73-140 | any version, fitting or not: counters wrap around, a missing clock becomes empty, a zero time becomes the time of arrival, the value stays, and the conflicts fare likewise in order |
| Wire.MergeFits | backend/node.go:672-686 | merging never makes a counter too large for the wire |
| Merkle.UpInjective | backend/merkle_tree.go:54-72 | equal parent levels force equal child levels, in spite of the duplicated odd last node |
| Merkle.RootInjective | backend/merkle_tree.go:54-83 | equal roots force equal levels for any two sizes and heights |
| Merkle.RootsAgree | backend/merkle_tree.go:77-90 | two trees have the same root exactly when they were built from the same data |
| Merkle.RootIsLastLevel | backend/merkle_tree.go:77-83 | the root read off the last level is the recursively paired hash of the leaves, and absent exactly for no leaves |
| Merkle.MerkleTree.constructor | backend/merkle_tree.go:19-39 | the tree represents its data: one leaf per key in key order, all levels, and a leaf-to-key map |
| Merkle.MerkleTree.BuildTree | backend/merkle_tree.go:54-75 | the levels are those of repeated pairing, and the version is bumped |
| Merkle.BuildLevel | backend/merkle_tree.go:59-70 | one pass of the inner loop is one level of pairing |
| Merkle.MerkleTree.CompareTrees | backend/merkle_tree.go:85-90 | returns each key on which the two data maps disagree exactly once, equal-root shortcut included |
| Merkle.MerkleTree.FindDifferingKeys | backend/merkle_tree.go:92-120 | the leaf scans alone find exactly the differing keys |
| Reconciliation.LocalLowered | backend/node.go:801-832 | the local clock goes down exactly when a local nil value is replaced by a remote version that does not cover it |
| Reconciliation.RemoteLowered | backend/node.go:801-832 | the remote clock goes down exactly when an unseen remote version is overwritten by a local one that does not cover it |
| Reconciliation.ReconcileExactly | backend/node.go:801-832 | for every outcome of the calls and all versions: the side strictly covered by the other takes over the other's version, which stays as it is; the remote one does so too on equal clocks; concurrent versions are replaced by one with exactly the values of both, the later on top, under the join |
| Reconciliation.SyncAgrees | backend/node.go:801-832 | after a successful sync of a key the payloads agree exactly when they agreed before or one side holds a non-nil value |
| Reconciliation.SyncKeySound | backend/node.go:801-832 | without nil values: equal payloads, both clocks the join, no uncovered version lost on either side |
| Reconciliation.SyncConverges | backend/node.go:772-799 | one sync makes the stores payload-equal on every key with joined clocks, and a second one changes nothing |
| Reconciliation.PartialSyncLowers | backend/node.go:772-832 | whatever calls of a synchronisation fail, no local clock goes down, and a remote one does exactly when the version could not be read and a local one that does not cover it went through as a repair |
| Passes.PassSettles | backend/main.go:221-234 | for any pairwise rule that settles and keeps settled, a pass leaves the node settled with every peer it visited |
| Passes.PassPicksUp | backend/main.go:221-234 | for any pairwise rule, what only one peer has is carried by the node at the end of a pass |
| AntiEntropy.ColumnPass | backend/main.go:221-234 | a pass over whole stores is, key by key, a pass over that key's entries |
| AntiEntropy.FirstPass | backend/main.go:221-234 | one pass, in any order, brings the node to the join of all clocks and settles it with every peer |
| AntiEntropy.SecondPass | backend/main.go:221-234 | a second pass leaves the node as it is and brings every peer to its payload |
| AntiEntropy.ClusterConverges | backend/main.go:221-234 | two passes by one node leave every node with one payload per key, whose clock is the join of all initial clocks |
| AntiEntropy.ClusterKeeps | backend/main.go:221-234 | a version the other nodes do not cover is on every node afterwards, with all values of its tree |
| AntiEntropy.PassAllSucceed | backend/main.go:221-234 | a pass whose calls all succeed is the pass that the convergence results speak of |
| Interleaving.OnceAround | backend/main.go:202-218 | with other nodes reconciling at the same time, key by key in any order, a node that met everyone once has the join of all initial clocks |
| Interleaving.ClocksConverge | backend/main.go:202-218 | after it met everyone twice, every node's clock is that join, whatever the others reconciled meanwhile |
| Schedules.OriginPayload | backend/node.go:801-832 | under equal clocks, after any interleaved reconciles a node holds the payload that its origin started with, the node found by following it back through the meetings that overwrote it |
| Schedules.PayloadsAgreeExactly | backend/main.go:202-218 | a schedule brings every cluster with equal clocks to one payload exactly when all nodes have the same origin in it |
| Schedules.UndisturbedOneOrigin | backend/main.go:221-234 | after one pass in which nobody else reconciles the key, all nodes have the same origin, whatever went before |
| Schedules.PayloadsConverge | backend/main.go:202-218 | from any clocks: after one node met everyone twice under any interleaving, and then some node had a pass to itself, all nodes hold one payload under the join of all initial clocks |
| Schedules.RoundsNeverAgree | backend/main.go:202-218 | two concurrent writes delivered in different orders, and a round that is a complete pass by each of three nodes: after any number of rounds the stores are back where they started and the payloads differ |
| Hints.QueueHoldsLast | backend/node.go:981-987 | after any run of stored hints the queue is exactly the last min(m, 1000) of them in order |
| Hints.UndeliveredMembers | backend/node.go:1074-1087 | filtering keeps exactly the hints whose key was not delivered |
| Hints.DroppedExactly | backend/node.go:1037-1103 | a hint leaves the queue exactly when some hint for its key was delivered, its own or another |
| Hints.AllProcessed | backend/node.go:1089-1096 | when every delivery succeeds the target disappears |
| Hints.ProcessedExactly | backend/node.go:1072-1098 | unless it goes away, the queue ends as the hints at the positions whose key was not delivered, in order and each once; it goes away exactly when none is left and something was delivered |
| Hints.SwapRemoveKeys | backend/node.go:1132-1147 | swap-removal takes out exactly one occurrence of the key |
| Hints.SwapRemoveExactly | backend/node.go:1130-1150 | the first hint for the key goes, the last hint of the queue takes its place and all others stay where they are |
| Hints.ReconnectLeavesFailed | backend/node.go:1111-1156 | forced reconnection leaves the original multiset of keys minus the delivered ones, and nothing on full success |
| Hints.TargetHoldsLast | backend/node.go:1228-1277 | after a hand-off the target holds, for each key, the last hint delivered, and loses ground exactly when the hint's own clock does not cover what it held |
| Hints.HandOverExactly | backend/node.go:1228-1277 | whatever the target held, a delivered hint leaves the hint's own value under its clock, without conflicts |
| Placement.RotatedAt | backend/node.go:220-222 | the modular index into the listing walks the listing rotated to the primary |
| Placement.DetermineResponsibleNodes | backend/node.go:189-253 | the loops compute the choice defined by window, scan and availability, and the map records exactly the preferred nodes that were replaced, each by the node chosen in its place; outside sloppy mode the nodes are the preferred ones |
| Placement.FindReplacement | backend/node.go:229-244 | the scan returns the first available node not chosen yet, or keeps the preferred node |
| Placement.ReplicasExact | backend/node.go:202-252 | the list has min(N, ring size) entries, and they are distinct and available exactly when that many nodes of the ring are available |
| Placement.ReplicaAt | backend/node.go:215-247 | each replica is its preferred node when this is available or every available node is chosen already, and otherwise the first node from the end of the window on that is available and not among the earlier ones |
| Placement.ReplicaCountedTwice | backend/node.go:202-252 | a concrete ring and availability for which one node is chosen twice |
| Placement.ReplacementsInjective | backend/node.go:239-240 | with distinct replicas, replacements are injective and lead to available nodes outside the window |
| Placement.ScanSparesFirst | backend/node.go:229-231 | the scan meets every node outside the window before any inside it |
| Ring.AddRepresents | backend/consistent_hash.go:30-44 | adding a fresh node gives the sorted ring of the larger set, owners included |
| Ring.BuildOrderImmaterial | backend/main.go:150-161 | nodes added once each in any order give identical rings |
| Ring.RemoveRepresents | backend/consistent_hash.go:46-60 | removing a node gives the ring of the smaller set |
| Ring.AddRemoveRestores | backend/consistent_hash.go:30-60 | removing a node just added restores the ring exactly |
| Ring.OrphansExactly | backend/consistent_hash.go:46-60 | removal leaves positions without an owner exactly when a position of the node occurs twice |
| Ring.LookupServes | backend/consistent_hash.go:62-80 | the owner returned is that of the next position at or after the hash, or of the smallest one when there is none |
| Ring.OwnerListed | backend/consistent_hash.go:62-80 | on a ring with nodes every key is owned by one of them |
| Ring.AddTakesOver | backend/consistent_hash.go:30-80 | adding a node moves keys only to that node |
| Ring.RemoveHandsOver | backend/consistent_hash.go:46-80 | removing a node moves only the keys it owned |
| Ring.ConsistentHashRing.AddNode | backend/consistent_hash.go:30-44 | the loop and the sort give the specified ring |
| Ring.ConsistentHashRing.RemoveNode | backend/consistent_hash.go:46-60 | the loop that filters positions and forgets owners as it goes gives the specified ring |
| Ring.ConsistentHashRing.GetNode | backend/consistent_hash.go:62-80 | binary search finds the specified owner |
| Ring.ConsistentHashRing.GetAllNodeIDs | backend/consistent_hash.go:82-92 | every node once, in an arbitrary order that may differ from call to call |
| Quorum.NextGrows | backend/node.go:331-381 | no local put and no reconcile step lowers a clock of any key on any node |
| Quorum.RunGrows | backend/node.go:331-381 | and so no run of such steps does |
| Quorum.ReplicaKeepsWrite | backend/node.go:331-381 | a replica that acknowledged a write covers it at every later point of the run |
| Quorum.ReadSeesWrite | backend/node.go:102-173 | a write quorum that acknowledges at any steps of a run and a read quorum that answers at any later steps, drawn from any two listings: with quorums bound to meet, the read resolves to a clock that covers the write |
| Sessions.ReadsCoverWritesExactly | backend/config.go:64-67 | over all listings, all Puts with at least W acknowledgements, all runs of local puts and reconciles in between and all Gets with at least R answers, by any nodes: every read resolves to a clock that covers the write's exactly when W+R exceeds the ring, or both quorums take the whole window, or one is unattainable; the same whether all sound stores or only those that Puts and reconciles reach from empty ones are allowed at the start |
| Sessions.ShippedReadMisses | backend/configs/nodeA.json:7-10 | with the shipped four nodes, N = 3 and W = R = 2, after a history of Puts and reconciles from empty stores, a Put that met its quorum is followed by a Get that met its quorum and whose clock does not cover the write |
| Sessions.WriteStays | backend/node.go:331-381 | every node that acknowledged the write covers its clock until it is read |
| LostValues.AcknowledgedButLost | backend/node.go:150-173 | on any ring with more nodes than replicas, after a history from empty stores, a Put meets its quorum, a Get meets its quorum and covers the Put's clock, and no node holds the value |
| LostValues.ValuesTakenExactly | backend/node.go:834-847 | every node that acknowledges a write is bound to hold its value, over all histories from empty stores, exactly when every node of the ring is a replica |
| Histories.RunAhead | backend/node.go:834-847 | where each Put of a key is by one of its replicas, no stored or travelling component for a node exceeds the node's own, in every history |
| Histories.BegunClocksDiffer | backend/node.go:834-847 | then no two Puts of a key share a clock, and a later one is never covered by an earlier one |
| Histories.NewPutTaken | backend/node.go:331-381 | then the value of a new Put is taken wherever it arrives before anything else happens |
| Histories.ReconcileClocks | backend/node.go:801-832 | after a successful read a reconcile gives both sides the join, except that a failed repair leaves the remote clock as it was |
| Gossip.GossipService.constructor | backend/gossip.go:50-83 | every other listed node starts alive with heartbeat 0, seen now |
| Gossip.GossipService.CollectMemberStates | backend/gossip.go:234-242 | the states sent are the whole view |
| Gossip.GossipService.UpdateMember | backend/gossip.go:329-398 | the branches give the specified record: sightings only advance, alive only with a higher heartbeat, reports of failure only suspect; hints are handed off exactly when a node not taken for alive shows a higher heartbeat |
| Gossip.GossipService.ProcessGossipPayload | backend/gossip.go:299-326 | whatever the order of the reports, the view and the set of nodes that came back are the ones defined record by record |
| Gossip.GossipService.CheckMemberStatuses | backend/gossip.go:457-505 | every record but the node's own gets the status its age calls for |
| Gossip.GossipService.GetNodeStatus | backend/gossip.go:508-534 | the recorded status; an unknown node is added with a date that calls for the status returned |
| Gossip.GossipService.ForceNodeDown | backend/gossip.go:598-625 | the node is down under a date that the next status check confirms |
| Gossip.TakenInMore | backend/gossip.go:315-325 | taking in one more report extends the order-free description of the view |
| Gossip.ReceivedRecord | backend/gossip.go:299-398 | a message leaves a known node with the highest of the recorded and reported heartbeats and dates; alive when a higher heartbeat comes with word that it lives, suspected when it is reported down, otherwise with the status it had |
| Gossip.NewRecord | backend/gossip.go:335-355 | a node not known before is recorded as reported, and nobody else is added |
| Gossip.ReturningExactly | backend/gossip.go:370-389 | the nodes that come back are exactly the known ones that were not alive and whose recorded heartbeat the message raises |
| GossipRuns.NextInv | backend/gossip.go:171-221 | every step keeps the global invariant: starts and restarts, acknowledged and failed sends with outdated copies, status questions and forced failures included |
| GossipRuns.RunInv | backend/gossip.go:363-367 | in every run from before the first start, services starting and restarting at any time, no record held, remembered or travelling has a heartbeat above its subject's highest, or a date later than the last sighting of it unless it is older than the failure timeout |
| GossipRuns.SightedIsLast | backend/gossip.go:68-79 | the tracked time is the latest of all direct contacts with a node, starts of services that list it, and questions about it at services that did not know it |
| GossipRuns.OwnHeartbeat | backend/gossip.go:138-141 | a node that was not restarted never had a higher heartbeat than it has now, so the bound of RunInv is its own counter |
| GossipRuns.DeadIsDown | backend/gossip.go:457-501 | in every such run, any status check more than 6 s after the last sighting of a node marks it down, however much gossip about it circulates |
| GossipRuns.CheckDecides | backend/gossip.go:473-491 | where nobody sighted a node later than the checking node did, the check gives exactly the status due after the time since then: down past 6 s, suspected past 3 s, alive otherwise |
| GossipRuns.LateStartRevives | backend/gossip.go:68-79 | contact alone does not decide: whatever the run so far, a service that starts listing a node and gossips makes every receiver take that node for alive at checks within 3 s of the start |
| GossipRuns.DeadLooksAlive | backend/gossip.go:68-79 | a concrete run in which a check eight seconds after the last contact with a node finds it alive |
| GossipRuns.DownOnlyByTimeout | backend/gossip.go:390-395 | a known node becomes down exactly by a status check past the timeout or by an explicit order, never by a report |
| GossipRuns.RevivalsBounded | backend/gossip.go:329-398 | out of touch with a node, a view revives it at most as often as its heartbeat on record still rises, and that stays at most the highest the node ever had |
| GossipRuns.HeardIsAlive | backend/gossip.go:473-491 | a node heard from, or listed at the checking node's start, is alive at every check within 3 s, unless a failed send, a forced failure or a restart took its record back |
| GossipRuns.DeliveryTakenIn | backend/gossip.go:329-398 | in every reachable world, a delivered message raises the recorded heartbeat to the maximum reported, revives a node whose raised heartbeat comes with word that it lives, suspects one reported down, and leaves any other status |
| GossipRuns.SendRecorded | backend/gossip.go:171-221 | an acknowledged send records a target that was not alive as alive now, a failed one records it as suspected, under the target copy's heartbeat; no other record changes |
| GossipRuns.CheckRecorded | backend/gossip.go:457-501 | in every reachable world, a status check leaves every record with its heartbeat and date and gives all but the node's own the status due after the time since that date |
| Events.GenuineSent | backend/grpc_transport.go:73-140 | truncation on the wire never invents events |
| Events.GenuineReconcile | backend/node.go:801-832 | reconciling, with any call failing, never invents events |
| Events.StepKeeps | backend/node.go:736-770 | every step, forced writes, repairs and hints included, keeps all clocks non-empty and within the writes started |
| Events.NoPhantomEvents | backend/node.go:834-847 | in every run from empty stores no stored, hinted or travelling clock counts more writes of a node than it started |
| Nodes.Coordinator.LocalPut | backend/node.go:331-381 | in place, the key's entry becomes the specified one and no other key changes |
| Nodes.Coordinator.UpdateLocalVectorClock | backend/node.go:834-847 | the clock of a new write is strictly above the stored one: one more count of the coordinator, every other entry as stored |
| Nodes.Coordinator.ApplyReplicaWrite | backend/node.go:744-765 | missing clocks are stamped, force flags bypass the causality check |
| Nodes.Coordinator.BuildMerkleTreeForBucket | backend/node.go:545-557 | the tree represents the payloads of exactly the bucket's keys |
| Nodes.Coordinator.ServeGet | backend/grpc_transport.go:211-223 | nil values are reported as not found |
| Nodes.Coordinator.RepairNode | backend/node.go:696-717 | a repair that goes through puts the sent version in place, one that fails changes nothing |
| Nodes.Coordinator.StoreHint | backend/node.go:959-994 | one bounded append to the target's queue, other queues untouched |
| Nodes.Coordinator.ProcessHints | backend/node.go:1037-1103 | for every order of the targets, all queues end as specified, every target holds what was handed over, and unavailable targets are untouched |
| NodeSpecs.HandOffExactly | backend/node.go:1037-1103 | processing touches available targets only: their queues keep, in order, the hints whose key was not delivered, and for every key their stores hold the value and clock of the last hint delivered for it |
| Nodes.Coordinator.ForceReconnectHints | backend/node.go:1111-1171 | the queue ends as specified and disappears exactly when empty, other queues are untouched, and the node ends with the hints handed over and then the local copies of the keys it owns pushed on top |
| NodeSpecs.PushCovers | backend/node.go:1162-1169 | such a push lowers no clock, and the node ends covering every copy that was pushed |
| NodeSpecs.PushStores | backend/node.go:1162-1169 | a pushed key arrives as a put of the local value under the local clock, so a node that does not hold it stores the pushed value |
| Nodes.Coordinator.GetResponsibleNodes | backend/node.go:175-187 | whatever the attempts, the result is the choice for some listing of the ring, with min(N, ring size) entries, and the replacement map names exactly the preferred nodes that were replaced |
| Nodes.Coordinator.ReplicateWrite | backend/node.go:255-273 | exactly the reachable listed nodes take the write, over the wire when remote; a node listed twice counts twice |
| Nodes.Coordinator.Put | backend/node.go:150-173 | writes to the replicas of some listing of the ring; succeeds exactly when the write quorum is met, and only then leaves one hint for every preferred node whose replacement took the write |
| Nodes.Coordinator.ProcessSloppyReplacements | backend/node.go:996-1012 | hints for exactly the replaced nodes whose replacement succeeded, in any order of the map |
| NodeSpecs.PutLeavesHints | backend/node.go:959-1012 | exactly the preferred nodes whose replacement took the write get the new hint at the end of their queue, which keeps its last 1000; all other queues stay |
| Nodes.Coordinator.GatherResponses | backend/node.go:422-441 | the responses are the visible entries of the reachable nodes, over the wire when remote |
| NodeSpecs.AnswersExactly | backend/node.go:422-441 | exactly the asked nodes with a visible entry answer, each with the payload it holds |
| Nodes.Coordinator.Get | backend/node.go:102-147 | reads from the replicas of some listing of the ring; below the quorum only the local copy, otherwise the resolution of the responses in some order, with a clock that is their least upper bound in any order, and, when none is covered by the others, with the value and time of the latest; passes its replicas, replacements and responses on to read repair and hinting |
| Nodes.Coordinator.HandleSloppyReplacements | backend/node.go:928-957 | for every order of the replacements, one hint with the replacement's version for exactly the replaced nodes whose replacement answered and for which a key was guessed |
| NodeSpecs.GetLeavesHints | backend/node.go:928-994 | exactly the replaced nodes whose replacement answered and for which a key was guessed get the hint at the end of their queue, with the value and clock of the replacement's answer; all other queues stay |
| Nodes.Coordinator.PerformReadRepairs | backend/node.go:688-717 | exactly the remote listed nodes whose repair goes through are overwritten with the resolved version |
| NodeSpecs.RepairsAgree | backend/node.go:688-717 | repaired nodes end with the payload of the resolved version, every other entry stays as it was, and a node loses ground exactly when it is repaired and the version does not cover what it held |
| NodeSpecs.ReadRepairLoses | backend/node.go:102-147 | for the outcome of a read, the nodes that lose ground are exactly the repaired ones that gave no answer and are not below the join of what the answering nodes hold |
| Nodes.Coordinator.ReconcileKeyWithNode | backend/node.go:801-832 | both entries end as specified for every outcome of the two calls, other keys untouched |
| Nodes.Coordinator.PerformMerkleSyncWithNode | backend/node.go:772-799 | for every outcome of its calls, tree comparison over the 100 buckets does exactly what comparing the two stores key by key would, on the buckets that could be fetched |
| Nodes.Coordinator.PerformAntiEntropy | backend/main.go:221-234 | the object-level loop over a listing of the ring is the specified pass, for every outcome of its calls |
| NodeSpecs.WrittenCovers | backend/node.go:331-381 | a replica that took a write in covers it and what it had, if the write's counters fit the wire |
| NodeSpecs.WrittenTwice | backend/node.go:282-290 | delivering the same write twice equals delivering it once |

## Left out

- HTTP handlers, dashboard, statistics, logging, disk snapshots, the benchmark, size estimates and `GetDifficultyLevel`: no property beyond reading one body.
- gRPC itself, back-off sleeps, timeouts and goroutine interleaving inside one operation: each remote call is one step that succeeds or fails, retries are repeated steps, and all clock readings within one operation are one `now`.
- SHA-256 and JSON: hashes are symbolic, so leaf hashes are injective in key and payload, and canonical texts are an arbitrary strict total order on payloads; values are opaque. Values that `structpb` cannot represent or changes in transit are not modelled.
- Integer widths of local counters, timestamps and heartbeats are unbounded; only the conversion to 32 bits on the wire is modelled. Ring hashes are naturals. A clock object whose map is nil, as opposed to empty, is not distinguished.
- Ring lemmas about removal assume a non-empty node name, because a forgotten position reads as owned by the empty name.
- Within one Get or Put the set of available nodes is fixed; how a key is guessed from a response is a parameter. Within one hand-off nothing else touches the queues, and within one push nothing else touches the local store.
- AntiEntropy.ClusterConverges: for entries whose counters fit the wire's 32 bits and whose value is not nil, and with no write in between; `RoundTrip`, `SyncAgrees`, `LocalLowered` and `RemoteLowered` say exactly what holds of one trip or one reconcile otherwise.
- Schedules.PayloadsAgreeExactly: for clusters in which every node holds the key under one clock, which `ClocksConverge` leads to; each reconcile is one step whose calls succeed.
- LostValues.ValuesTakenExactly: a coordinator writes its own Put before it begins another of the same key; two at once can read the same clock off its store, with the same loss.
- Quorum.ReadSeesWrite: all nodes are available, and between write and read there are local puts and reconcile steps whose read succeeded; forced writes, hints and read repairs may lower a clock (`ReplicaWriteLowers`, `TargetHoldsLast`, `ReadRepairLoses`), and so may a repair after a failed read (`RemoteLowered`).
- Sessions.ReadsCoverWritesExactly: the same restriction; the write's own counters fit the wire.
- GossipRuns.DeadIsDown: on one shared clock; addresses, ports and the HTTP gossip handler are not modelled.
- GossipRuns.RevivalsBounded: the view must not hear from or send to the node itself, because an acknowledged or failed send writes a possibly outdated copy over the record; those copies are covered by RunInv.
- Member records are values: that a reader may hold a pointer to a record while it changes is covered only by letting sends work with any earlier copy.
- MergeAndIncrement, String and IsEmpty of the clock, Merkle tree (de)serialisation, and the forced replication used by the test scripts (a forced write in Events).
