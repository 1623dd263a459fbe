/** The node object: its store and its hint queues, updated in place by the operations of the
    store. Remote calls reach the other node's object; a call that returns is taken to have
    succeeded, and `now` stands for the clock readings made during a call. */
module Nodes {
  import opened Sequences
  import opened Clocks
  import opened Versions
  import opened Payloads
  import opened Merging
  import opened Writes
  import opened Wire
  import opened Merkle
  import opened Reconciliation
  import opened AntiEntropy
  import opened Hints
  import opened Resolution
  import opened Placement
  import opened Ring
  import opened NodeSpecs

  const MAX_RETRY_ATTEMPTS: nat := 3

  type Network = map<NodeId, Coordinator>

  ghost function StoresOf(net: Network): Cluster
    reads net.Values
  {
    map n | n in net :: net[n].dataStore
  }

  class Coordinator {
    const nodeId: NodeId
    const ring: ConsistentHashRing
    const replication: nat
    const readQuorum: nat
    const writeQuorum: nat
    const less: PayloadOrder
    var dataStore: Store
    var hints: map<NodeId, HintQueue>

    /** NewCoordinator ends the program unless the quorums are positive and exceed the replication
        factor. */
    constructor (nodeId: NodeId, ring: ConsistentHashRing, replication: nat, readQuorum: nat, writeQuorum: nat,
                 less: PayloadOrder)
      requires readQuorum > 0 && writeQuorum > 0 && replication > 0 && readQuorum + writeQuorum > replication
      ensures this.nodeId == nodeId && this.ring == ring && this.less == less
      ensures this.replication == replication && this.readQuorum == readQuorum && this.writeQuorum == writeQuorum
      ensures dataStore == map[] && hints == map[]
    {
      this.nodeId, this.ring, this.less := nodeId, ring, less;
      this.replication, this.readQuorum, this.writeQuorum := replication, readQuorum, writeQuorum;
      dataStore, hints := map[], map[];
    }

    /** Every node is listed under its own name, this one among them, and all use the same hash and
        JSON text order. */
    ghost predicate WellFormed(net: Network) {
      && nodeId in net && net[nodeId] == this
      && forall n :: n in net ==> net[n].nodeId == n && net[n].less == less && net[n].ring.hashKey == ring.hashKey
    }

    // ---------- Local operations ----------

    function LocalGet(key: Key): Option<StoredValue>
      reads this
    {
      Entry(dataStore, key)
    }

    method LocalPut(key: Key, value: Value, vc: Clock, now: int) returns (ok: bool)
      modifies this`dataStore
      ensures ok && dataStore == old(dataStore)[key := Writes.Put(old(LocalGet(key)), Write(value, vc, now))]
    {
      var newValue := StoredValue(value, Some(vc), [], now);
      if key in dataStore {
        var existing := dataStore[key];
        var comparison := CompareVectorClocks(existing.clock, Some(vc));
        match comparison {
          case Concurrent =>
            newValue := newValue.(conflicts := existing.conflicts + [existing]);
            newValue := newValue.(clock := Some(Join(vc, ClockOf(existing))));
          case Older =>
            return true;
          case Newer =>
        }
      }
      dataStore := dataStore[key := newValue];
      return true;
    }

    /** The clock of a new write: strictly above the stored one. */
    method UpdateLocalVectorClock(key: Key) returns (vc: Clock)
      ensures vc == Incremented(EntryClock(LocalGet(key)), nodeId)
      ensures Leq(EntryClock(LocalGet(key)), vc) && !Leq(vc, EntryClock(LocalGet(key)))
      ensures var c := EntryClock(LocalGet(key));
              EntryOf(vc, nodeId) == Some(if nodeId in c then c[nodeId] + 1 else 1)
      ensures forall n :: n != nodeId ==> EntryOf(vc, n) == EntryOf(EntryClock(LocalGet(key)), n)
    {
      var clock := new VectorClock();
      if key in dataStore {
        clock.clock := ClockOf(dataStore[key]);
      }
      clock.Increment(nodeId);
      vc := clock.clock;
    }

    method StoreReplicaValue(key: Key, value: StoredValue)
      modifies this`dataStore
      ensures dataStore == old(dataStore)[key := value]
    {
      dataStore := dataStore[key := value];
    }

    method ApplyReplicaWrite(key: Key, incoming: StoredValue, forced: bool, now: int)
      modifies this`dataStore
      ensures dataStore == old(dataStore)[key := ReplicaWrite(old(LocalGet(key)), incoming, forced, nodeId, now)]
    {
      var v := incoming;
      if v.clock.None? || v.clock.value == map[] {
        var clock := new VectorClock();
        clock.Increment(nodeId);
        v := v.(clock := Some(clock.clock));
      }
      if forced {
        StoreReplicaValue(key, v);
      } else {
        var _ := LocalPut(key, v.value, v.clock.value, now);
      }
    }

    method BuildMerkleTreeForBucket(bucket: nat) returns (tree: MerkleTree)
      ensures fresh(tree) && tree.Represents(BucketData(less, BucketOf(ring.hashKey), dataStore, bucket))
    {
      tree := new MerkleTree(BucketData(less, BucketOf(ring.hashKey), dataStore, bucket));
    }

    // ---------- Remote handlers ----------

    /** GetLocal: nil values are reported as not found. */
    method ServeGet(key: Key) returns (found: Option<ProtoValue>)
      ensures found == if Visible(LocalGet(key)).Some? then Some(Encode(LocalGet(key).value)) else None
    {
      if key in dataStore && dataStore[key].value != Nil {
        return Some(Encode(dataStore[key]));
      }
      return None;
    }

    /** RepairKey. */
    method ServeRepair(key: Key, value: ProtoValue, now: int)
      modifies this`dataStore
      ensures dataStore == old(dataStore)[key := Decode(value, now)]
    {
      StoreReplicaValue(key, Decode(value, now));
    }

    method RepairNode(remote: Coordinator, key: Key, value: StoredValue, repairOk: bool, now: int)
      modifies remote`dataStore
      ensures remote.dataStore == if repairOk then old(remote.dataStore)[key := Sent(value, now)]
              else old(remote.dataStore)
    {
      if repairOk {
        remote.ServeRepair(key, Encode(value), now);
      }
    }

    // ---------- Choosing the replicas ----------

    /** The node that owns a key. */
    function OwnerOf(key: Key): NodeId
      reads ring
    {
      Lookup(ring.State(), ring.hashKey(key))
    }

    /** The replicas of a key for one listing of the ring; a node takes itself for available. */
    function ReplicasOf(key: Key, all: seq<NodeId>, online: set<NodeId>): seq<NodeId>
      reads ring
    {
      Replicas(all, OwnerOf(key), replication, online + {nodeId})
    }

    /** The preferred nodes of a key whose replacement is among the given nodes. */
    function ReplacedBy(key: Key, all: seq<NodeId>, online: set<NodeId>, success: seq<NodeId>): set<NodeId>
      reads ring
    {
      HintTargets(Preferred(all, OwnerOf(key), replication), ReplicasOf(key, all, online), success)
    }

    /** getResponsibleNodes: every attempt draws a new listing of the ring. */
    method GetResponsibleNodes(key: Key, online: set<NodeId>)
      returns (nodes: seq<NodeId>, replacements: map<NodeId, NodeId>, ghost all: seq<NodeId>)
      requires Increasing(ring.virtualNodes)
      ensures Enumerates(all, ring.nodes) && nodes == ReplicasOf(key, all, online)
      ensures |nodes| == WindowSize(|ring.nodes|, replication)
      ensures forall success :: Replaced(replacements, success) == ReplacedBy(key, all, online, success)
    {
      nodes, replacements, all := [], map[], [];
      for i := 0 to MAX_RETRY_ATTEMPTS
        invariant i > 0 ==> Enumerates(all, ring.nodes) && nodes == ReplicasOf(key, all, online)
        invariant i > 0 ==> forall success :: Replaced(replacements, success) == ReplacedBy(key, all, online, success)
      {
        var primary := ring.GetNode(key);
        var listing := ring.GetAllNodeIDs();
        all := listing;
        nodes, replacements := DetermineResponsibleNodes(listing, primary, replication, true, online + {nodeId});
        forall success ensures Replaced(replacements, success) == ReplacedBy(key, all, online, success) {
          ReplacedAre(replacements, Preferred(all, primary, replication), nodes, online + {nodeId}, success);
        }
        if |nodes| >= replication {
          break;
        }
      }
      EnumerationSize(all, ring.nodes);
    }

    // ---------- Hints ----------

    function HintsFor(target: NodeId): HintQueue
      reads this`hints
    {
      QueueFor(hints, target)
    }

    method StoreHint(target: NodeId, key: Key, value: Value, vc: Clock, now: int)
      modifies this`hints
      ensures hints == old(hints)[target := AddHint(old(HintsFor(target)), HintedWrite(key, value, vc, target, now, 0))]
    {
      if target !in hints {
        hints := hints[target := []];
      }
      if |hints[target]| >= HINT_LIMIT {
        hints := hints[target := hints[target][1..]];
      }
      hints := hints[target := hints[target] + [HintedWrite(key, value, vc, target, now, 0)]];
    }

    /** processHints over the available targets, in any order; `ok(t, i)` is the outcome of
        delivering the i-th hint for t, and nothing else touches the queues meanwhile. */
    method ProcessHints(net: Network, up: set<NodeId>, ok: (NodeId, nat) -> bool, now: int)
      requires WellFormed(net) && forall t, i :: ok(t, i) ==> t in net
      modifies this`hints, net.Values`dataStore
      ensures hints == ProcessedQueues(old(hints), up, ok)
      ensures StoresOf(net) == AfterHandOver(old(StoresOf(net)), old(hints), up, ok, now)
    {
      ghost var before, queues := StoresOf(net), hints;
      var pending := AvailableHints(hints, up);
      var todo := pending.Keys;
      NothingToHandOver(before, queues, up - todo, ok, now);
      while todo != {}
        invariant todo <= pending.Keys && Processed(net, queues, before, up - todo, ok, now)
      {
        var target :| target in todo;
        ProcessNext(net, target, pending[target], ok, now, queues, before, up - todo);
        assert up - (todo - {target}) == (up - todo) + {target};
        todo := todo - {target};
      }
      assert up - todo == up;
    }

    /** The targets in `done` have been processed. */
    ghost predicate Processed(net: Network, queues: map<NodeId, HintQueue>, before: Cluster, done: set<NodeId>,
                              ok: (NodeId, nat) -> bool, now: int)
      reads this, net.Values
    {
      hints == ProcessedQueues(queues, done, ok) && StoresOf(net) == AfterHandOver(before, queues, done, ok, now)
    }

    method ProcessNext(net: Network, target: NodeId, copy: HintQueue, ok: (NodeId, nat) -> bool, now: int,
                       ghost queues: map<NodeId, HintQueue>, ghost before: Cluster, ghost done: set<NodeId>)
      requires WellFormed(net) && (forall t, i :: ok(t, i) ==> t in net) && before.Keys == net.Keys
      requires target in queues && target !in done && copy == queues[target]
      requires Processed(net, queues, before, done, ok, now)
      modifies this`hints, net.Values`dataStore
      ensures Processed(net, queues, before, done + {target}, ok, now)
    {
      QueueProcessed(queues, done, ok, target);
      HandOverMore(before, queues, done, ok, now, target);
      ProcessTarget(net, target, copy, OutcomesFor(ok, target), now);
    }

    method ProcessTarget(net: Network, target: NodeId, copy: HintQueue, ok: nat -> bool, now: int)
      requires WellFormed(net) && (forall i :: ok(i) ==> target in net) && target in hints && copy == hints[target]
      modifies this`hints, net.Values`dataStore
      ensures var outcome := AfterProcessing(copy, ok);
              hints == if outcome.Some? then old(hints)[target := outcome.value] else old(hints) - {target}
      ensures var cl := old(StoresOf(net));
              StoresOf(net) == if target in net then cl[target := HandedOver(cl[target], copy, ok, target, now)] else cl
    {
      var keys := DeliverAllTo(net, target, copy, ok, now);
      RemoveDelivered(target, keys, ok);
    }

    /** Takes the hints whose key was delivered out of a queue. */
    method RemoveDelivered(target: NodeId, keys: set<Key>, ghost ok: nat -> bool)
      requires target in hints && keys == DeliveredKeys(hints[target], ok)
      modifies this`hints
      ensures var outcome := AfterProcessing(old(hints)[target], ok);
              hints == if outcome.Some? then old(hints)[target := outcome.value] else old(hints) - {target}
    {
      if keys != {} {
        var left := DropDelivered(hints[target], keys);
        if left == [] {
          hints := hints - {target};
        } else {
          hints := hints[target := left];
        }
      }
    }

    /** deliverHint. */
    method DeliverHint(remote: Coordinator, h: HintedWrite, now: int)
      modifies remote`dataStore
      ensures remote.dataStore ==
              old(remote.dataStore)[h.key := HandOver(Entry(old(remote.dataStore), h.key), h, remote.nodeId, now)]
    {
      var sent := Decode(Encode(StoredValue(h.value, Some(h.clock), [], h.time)), now);
      remote.ApplyReplicaWrite(h.key, sent, true, now);
    }

    method DeliverAll(remote: Coordinator, q: HintQueue, ok: nat -> bool, now: int) returns (keys: set<Key>)
      modifies remote`dataStore
      ensures keys == DeliveredKeys(q, ok)
      ensures remote.dataStore == HandedOver(old(remote.dataStore), q, ok, remote.nodeId, now)
    {
      keys := {};
      ghost var before := remote.dataStore;
      for i := 0 to |q|
        invariant keys == DeliveredKeys(q[..i], ok)
        invariant remote.dataStore == HandedOver(before, q[..i], ok, remote.nodeId, now)
      {
        DeliveredMore(q, i, ok);
        HandedOverMore(before, q, i, ok, remote.nodeId, now);
        if ok(i) {
          DeliverHint(remote, q[i], now);
          keys := keys + {q[i].key};
        }
      }
      assert q[..|q|] == q;
    }

    method DeliverAllTo(net: Network, target: NodeId, q: HintQueue, ok: nat -> bool, now: int) returns (keys: set<Key>)
      requires WellFormed(net) && forall i :: ok(i) ==> target in net
      modifies net.Values`dataStore
      ensures keys == DeliveredKeys(q, ok)
      ensures var cl := old(StoresOf(net));
              StoresOf(net) == if target in net then cl[target := HandedOver(cl[target], q, ok, target, now)] else cl
    {
      if target !in net {
        assert DeliveredKeys(q, ok) == {};
        return {};
      }
      ghost var before := StoresOf(net);
      keys := DeliverAll(net[target], q, ok, now);
      OneStoreChanged(before, StoresOf(net), target, HandedOver(before[target], q, ok, target, now));
    }

    static method DropDelivered(q: HintQueue, keys: set<Key>) returns (left: HintQueue)
      ensures left == Undelivered(q, keys)
    {
      left := [];
      for i := 0 to |q|
        invariant left == Undelivered(q[..i], keys)
      {
        assert q[..i + 1] == q[..i] + [q[i]];
        UndeliveredSplit(q[..i], [q[i]], keys);
        if q[i].key !in keys {
          left := left + [q[i]];
        }
      }
      assert q[..|q|] == q;
    }

    /** forceReconnectHints: the hints are handed over one by one, and then the local copies of the
        keys that the node owns are pushed to it; `pushed` says which of these pushes go through. */
    method ForceReconnectHints(remote: Coordinator, ok: nat -> bool, pushed: Key -> bool, now: int)
      requires remote != this && Increasing(ring.virtualNodes)
      modifies this`hints, remote`dataStore
      ensures hints - {remote.nodeId} == old(hints) - {remote.nodeId}
      ensures HintsFor(remote.nodeId) == Reconnected(old(HintsFor(remote.nodeId)), old(HintsFor(remote.nodeId)), ok, 0)
      ensures old(HintsFor(remote.nodeId)) != [] ==> (remote.nodeId in hints <==> HintsFor(remote.nodeId) != [])
      ensures old(HintsFor(remote.nodeId)) == [] ==> hints == old(hints)
      ensures var handed := HandedOver(old(remote.dataStore), old(HintsFor(remote.nodeId)), ok, remote.nodeId, now);
              remote.dataStore ==
              AfterPush(dataStore, handed, PushedKeys(dataStore.Keys, remote.nodeId, pushed), nodeId, remote.nodeId,
                        now)
    {
      HandHintsOver(remote, ok, now);
      PushOwnedKeys(remote, pushed, now);
    }

    method HandHintsOver(remote: Coordinator, ok: nat -> bool, now: int)
      requires remote != this
      modifies this`hints, remote`dataStore
      ensures hints - {remote.nodeId} == old(hints) - {remote.nodeId}
      ensures HintsFor(remote.nodeId) == Reconnected(old(HintsFor(remote.nodeId)), old(HintsFor(remote.nodeId)), ok, 0)
      ensures old(HintsFor(remote.nodeId)) != [] ==> (remote.nodeId in hints <==> HintsFor(remote.nodeId) != [])
      ensures old(HintsFor(remote.nodeId)) == [] ==> hints == old(hints)
      ensures remote.dataStore ==
              HandedOver(old(remote.dataStore), old(HintsFor(remote.nodeId)), ok, remote.nodeId, now)
    {
      var target := remote.nodeId;
      if target !in hints || hints[target] == [] {
        return;
      }
      var copy := hints[target];
      for i := 0 to |copy|
        invariant hints - {target} == old(hints) - {target}
        invariant target in hints <==> HintsFor(target) != []
        invariant Reconnected(HintsFor(target), copy, ok, i) == Reconnected(copy, copy, ok, 0)
        invariant remote.dataStore == HandedOver(old(remote.dataStore), copy[..i], ok, target, now)
      {
        assert copy[..i + 1][..i] == copy[..i];
        if ok(i) {
          DeliverHint(remote, copy[i], now);
          if target in hints {
            var left := SwapRemove(hints[target], copy[i].key);
            hints := if left == [] then hints - {target} else hints[target := left];
          }
        }
      }
      assert copy[..|copy|] == copy;
    }

    method PushKey(remote: Coordinator, k: Key, now: int)
      requires remote != this && k in dataStore
      modifies remote`dataStore
      ensures var s := old(remote.dataStore);
              remote.dataStore ==
              s[k := ReplicaWrite(Entry(s, k), Sent(PushedValue(dataStore[k], nodeId, now), now), false, remote.nodeId,
                                  now)]
    {
      var sent := Decode(Encode(PushedValue(dataStore[k], nodeId, now)), now);
      remote.ApplyReplicaWrite(k, sent, false, now);
    }

    /** Those of the given keys that the target owns and that are pushed to it. */
    function PushedKeys(keys: set<Key>, target: NodeId, pushed: Key -> bool): set<Key>
      reads ring
    {
      set k | k in keys && OwnerOf(k) == target && pushed(k)
    }

    method PushOwnedKeys(remote: Coordinator, pushed: Key -> bool, now: int)
      requires remote != this && Increasing(ring.virtualNodes)
      modifies remote`dataStore
      ensures remote.dataStore ==
              AfterPush(dataStore, old(remote.dataStore), PushedKeys(dataStore.Keys, remote.nodeId, pushed), nodeId,
                        remote.nodeId, now)
    {
      ghost var before, target := remote.dataStore, remote.nodeId;
      var todo := dataStore.Keys;
      assert PushedKeys(dataStore.Keys - todo, target, pushed) == {};
      while todo != {}
        invariant todo <= dataStore.Keys
        invariant remote.dataStore ==
                  AfterPush(dataStore, before, PushedKeys(dataStore.Keys - todo, target, pushed), nodeId, target, now)
      {
        var k :| k in todo;
        ghost var done := PushedKeys(dataStore.Keys - todo, target, pushed);
        PushIfOwned(remote, k, pushed, now, before, done);
        assert dataStore.Keys - (todo - {k}) == (dataStore.Keys - todo) + {k};
        assert PushedKeys(dataStore.Keys - (todo - {k}), target, pushed) ==
               if OwnerOf(k) == target && pushed(k) then done + {k} else done;
        todo := todo - {k};
      }
      assert dataStore.Keys - todo == dataStore.Keys;
    }

    method PushIfOwned(remote: Coordinator, k: Key, pushed: Key -> bool, now: int, ghost before: Store,
                       ghost done: set<Key>)
      requires remote != this && Increasing(ring.virtualNodes)
      requires done <= dataStore.Keys && k in dataStore && k !in done
      requires remote.dataStore == AfterPush(dataStore, before, done, nodeId, remote.nodeId, now)
      modifies remote`dataStore
      ensures var more := if OwnerOf(k) == remote.nodeId && pushed(k) then done + {k} else done;
              remote.dataStore == AfterPush(dataStore, before, more, nodeId, remote.nodeId, now)
    {
      var owner := ring.GetNode(k);
      if owner == remote.nodeId && pushed(k) {
        PushMore(dataStore, before, done, nodeId, remote.nodeId, now, k);
        PushKey(remote, k, now);
      }
    }

    // ---------- Quorum operations ----------

    /** replicateWrite: one write to every node of the list that can be reached. A node listed twice
        is written to twice, to no further effect, but counts twice among the successes. */
    method ReplicateWrite(net: Network, nodes: seq<NodeId>, key: Key, value: Value, vc: Clock, reach: set<NodeId>,
                          now: int)
      returns (success: seq<NodeId>)
      requires WellFormed(net)
      modifies net.Values`dataStore
      ensures success == Reached(nodes, net.Keys, nodeId, reach)
      ensures StoresOf(net) == AfterWrite(old(StoresOf(net)), nodeId, success, key, value, vc, now)
    {
      success := [];
      ghost var before := StoresOf(net);
      for i := 0 to |nodes|
        invariant success == Reached(nodes[..i], net.Keys, nodeId, reach)
        invariant StoresOf(net) == AfterWrite(before, nodeId, success, key, value, vc, now)
      {
        var n := nodes[i];
        ReachedMore(nodes, i, net.Keys, nodeId, reach);
        if n in net && (n == nodeId || n in reach) {
          WriteToNode(net, n, key, value, vc, now);
          WriteMore(before, nodeId, success, key, value, vc, now, n);
          success := success + [n];
        }
      }
      assert nodes[..|nodes|] == nodes;
    }

    method WriteToNode(net: Network, n: NodeId, key: Key, value: Value, vc: Clock, now: int)
      requires WellFormed(net) && n in net
      modifies net.Values`dataStore
      ensures StoresOf(net) == old(StoresOf(net))[n := Written(old(StoresOf(net))[n], nodeId, n, key, value, vc, now)]
    {
      ghost var before := StoresOf(net);
      if n == nodeId {
        var _ := LocalPut(key, value, vc, now);
      } else {
        var sent := Decode(Encode(StoredValue(value, Some(vc), [], now)), now);
        net[n].ApplyReplicaWrite(key, sent, false, now);
      }
      OneStoreChanged(before, StoresOf(net), n, Written(before[n], nodeId, n, key, value, vc, now));
    }

    /** Put: the replicas are those of some listing of the ring. It succeeds when the write quorum is
        met, and then leaves a hint for every preferred node whose replacement took the write. */
    method Put(net: Network, key: Key, value: Value, online: set<NodeId>, reach: set<NodeId>, now: int)
      returns (ok: bool, vc: Clock, success: seq<NodeId>, ghost all: seq<NodeId>)
      requires WellFormed(net) && Increasing(ring.virtualNodes)
      modifies net.Values`dataStore, this`hints
      ensures Enumerates(all, ring.nodes)
      ensures vc == Incremented(EntryClock(Entry(old(dataStore), key)), nodeId)
      ensures success == Reached(ReplicasOf(key, all, online), net.Keys, nodeId, reach)
      ensures StoresOf(net) == AfterWrite(old(StoresOf(net)), nodeId, success, key, value, vc, now)
      ensures ok <==> |success| >= writeQuorum
      ensures hints == if ok then HintedFor(old(hints), ReplacedBy(key, all, online, success), key, value, vc, now)
              else old(hints)
    {
      vc := UpdateLocalVectorClock(key);
      var nodes, replacements;
      nodes, replacements, all := GetResponsibleNodes(key, online);
      ok, success := PutOn(net, key, value, vc, nodes, replacements, reach, now);
    }

    method PutOn(net: Network, key: Key, value: Value, vc: Clock, nodes: seq<NodeId>, replacements: map<NodeId, NodeId>,
                 reach: set<NodeId>, now: int)
      returns (ok: bool, success: seq<NodeId>)
      requires WellFormed(net)
      modifies net.Values`dataStore, this`hints
      ensures success == Reached(nodes, net.Keys, nodeId, reach)
      ensures StoresOf(net) == AfterWrite(old(StoresOf(net)), nodeId, success, key, value, vc, now)
      ensures ok <==> |success| >= writeQuorum
      ensures hints == if ok then HintedFor(old(hints), Replaced(replacements, success), key, value, vc, now)
              else old(hints)
    {
      success := ReplicateWrite(net, nodes, key, value, vc, reach, now);
      ok := |success| >= writeQuorum;
      if ok {
        ProcessSloppyReplacements(success, replacements, key, value, vc, now);
      }
    }

    method ProcessSloppyReplacements(success: seq<NodeId>, replacements: map<NodeId, NodeId>, key: Key, value: Value,
                                     vc: Clock, now: int)
      modifies this`hints
      ensures hints == HintedFor(old(hints), Replaced(replacements, success), key, value, vc, now)
    {
      ghost var targets := Replaced(replacements, success);
      var todo := replacements.Keys;
      assert targets - todo == {} && HintedFor(hints, {}, key, value, vc, now) == hints;
      while todo != {}
        invariant todo <= replacements.Keys
        invariant hints == HintedFor(old(hints), targets - todo, key, value, vc, now)
      {
        var original :| original in todo;
        ghost var hinted := targets - todo;
        todo := todo - {original};
        if replacements[original] in success {
          HintOne(original, key, value, vc, now, old(hints), hinted);
          assert targets - todo == hinted + {original};
        } else {
          assert targets - todo == hinted;
        }
      }
      assert targets - todo == targets;
    }

    method HintOne(target: NodeId, key: Key, value: Value, vc: Clock, now: int, ghost before: map<NodeId, HintQueue>,
                   ghost hinted: set<NodeId>)
      requires hints == HintedFor(before, hinted, key, value, vc, now) && target !in hinted
      modifies this`hints
      ensures hints == HintedFor(before, hinted + {target}, key, value, vc, now)
    {
      HintMore(before, hinted, key, value, vc, now, target);
      StoreHint(target, key, value, vc, now);
    }

    /** gatherResponses: the values that the reachable nodes of the list hold. */
    method GatherResponses(net: Network, nodes: seq<NodeId>, key: Key, reach: set<NodeId>, now: int)
      returns (responses: map<NodeId, StoredValue>)
      requires WellFormed(net)
      ensures responses == Responses(StoresOf(net), nodeId, Reached(nodes, net.Keys, nodeId, reach), key, now)
    {
      responses := map[];
      for i := 0 to |nodes|
        invariant responses == Responses(StoresOf(net), nodeId, Reached(nodes[..i], net.Keys, nodeId, reach), key, now)
      {
        var n := nodes[i];
        assert nodes[..i + 1] == nodes[..i] + [n];
        var answer: Option<StoredValue> := None;
        if n == nodeId {
          answer := Visible(LocalGet(key));
        } else if n in net && n in reach {
          var found := net[n].ServeGet(key);
          if found.Some? {
            answer := Some(Decode(found.value, now));
          }
        }
        ResponseMore(StoresOf(net), nodeId, nodes[..i], n, net.Keys, reach, key, now, answer);
        if answer.Some? {
          responses := responses[n := answer.value];
        }
      }
      assert nodes[..|nodes|] == nodes;
    }

    /** Get: the replicas are those of some listing of the ring. Below the read quorum only the local
        copy is returned; otherwise the responses are resolved in some order, and `follow` is what read
        repair and hinting go on with. */
    method Get(net: Network, key: Key, online: set<NodeId>, reach: set<NodeId>, now: int)
      returns (result: Option<StoredValue>, conflicts: nat, follow: FollowUp, ghost all: seq<NodeId>,
               ghost order: seq<NodeId>)
      requires WellFormed(net) && Increasing(ring.virtualNodes)
      ensures Enumerates(all, ring.nodes)
      ensures var responses := Responses(StoresOf(net), nodeId,
                                         Reached(ReplicasOf(key, all, online), net.Keys, nodeId, reach), key, now);
              |responses| < readQuorum ==>
                result == Visible(LocalGet(key)) && conflicts == 0 && follow == NO_FOLLOW_UP
      ensures var responses := Responses(StoresOf(net), nodeId,
                                         Reached(ReplicasOf(key, all, online), net.Keys, nodeId, reach), key, now);
              |responses| >= readQuorum ==>
                && Enumerates(order, responses.Keys)
                && result == Resolve(less, ValuesIn(responses, order))
                && conflicts == ConflictCount(less, ValuesIn(responses, order))
                && follow.nodes == ReplicasOf(key, all, online) && follow.responses == responses
                && forall success :: Replaced(follow.replacements, success) == ReplacedBy(key, all, online, success)
      ensures var responses := Responses(StoresOf(net), nodeId,
                                         Reached(ReplicasOf(key, all, online), net.Keys, nodeId, reach), key, now);
              |responses| >= readQuorum ==>
                forall u :: Leq(EntryClock(result), u) <==> forall n :: n in responses ==> Leq(ClockOf(responses[n]), u)
      ensures var responses :=
                Responses(StoresOf(net), nodeId, Reached(ReplicasOf(key, all, online), net.Keys, nodeId, reach), key,
                          now);
              |responses| >= readQuorum && NoneCovered(responses) && responses != map[] ==>
                result.Some? && LatestOf(result.value, responses) && conflicts == |responses| - 1
    {
      var nodes, replacements;
      nodes, replacements, all := GetResponsibleNodes(key, online);
      var responses := GatherResponses(net, nodes, key, reach, now);
      if |responses| < readQuorum {
        return Visible(LocalGet(key)), 0, NO_FOLLOW_UP, all, [];
      }
      AnswersVisible(StoresOf(net), nodeId, Reached(nodes, net.Keys, nodeId, reach), key, now);
      result, conflicts, order := ResolveConflicts(less, responses);
      follow := FollowUp(nodes, replacements, responses);
    }

    /** handleSloppyReplacements: every replaced node whose replacement answered a Get is left a hint, under
        a key that is guessed from the response; `guess(t)` is the guess for the replaced node t. */
    method HandleSloppyReplacements(follow: FollowUp, guess: NodeId -> Option<Key>, now: int)
      modifies this`hints
      ensures hints == HintedFromRead(old(hints), follow, guess, ReadHintTargets(follow, guess), now)
    {
      ghost var before, targets := hints, ReadHintTargets(follow, guess);
      var todo := follow.replacements.Keys;
      assert targets - todo == {} && HintedFromRead(before, follow, guess, {}, now) == before;
      while todo != {}
        invariant todo <= follow.replacements.Keys
        invariant hints == HintedFromRead(before, follow, guess, targets - todo, now)
      {
        var original :| original in todo;
        ghost var hinted := targets - todo;
        todo := todo - {original};
        if follow.replacements[original] in follow.responses && guess(original).Some? {
          assert targets - todo == hinted + {original};
          ReadHintMore(before, follow, guess, hinted, now, original);
          var v := follow.responses[follow.replacements[original]];
          StoreHint(original, guess(original).value, v.value, ClockOf(v), now);
        } else {
          assert targets - todo == hinted;
        }
      }
      assert targets - todo == targets;
    }

    method RepairAt(net: Network, n: NodeId, key: Key, latest: StoredValue, repairOk: bool, now: int)
      requires WellFormed(net) && n in net
      modifies net.Values`dataStore
      ensures StoresOf(net) ==
              if repairOk then old(StoresOf(net))[n := old(StoresOf(net))[n][key := Sent(latest, now)]]
                  else old(StoresOf(net))
    {
      ghost var before := StoresOf(net);
      RepairNode(net[n], key, latest, repairOk, now);
      OneStoreChanged(before, StoresOf(net), n, if repairOk then before[n][key := Sent(latest, now)] else before[n]);
    }

    /** performReadRepairs. */
    method PerformReadRepairs(net: Network, nodes: seq<NodeId>, key: Key, latest: StoredValue, reach: set<NodeId>,
                              now: int)
      requires WellFormed(net)
      modifies net.Values`dataStore
      ensures StoresOf(net) == AfterRepairs(old(StoresOf(net)), nodeId, nodes, reach, key, latest, now)
    {
      ghost var before := StoresOf(net);
      for i := 0 to |nodes|
        invariant StoresOf(net) == AfterRepairs(before, nodeId, nodes[..i], reach, key, latest, now)
      {
        var n := nodes[i];
        assert nodes[..i + 1] == nodes[..i] + [n];
        RepairMore(before, nodeId, nodes[..i], reach, key, latest, now, n);
        if n != nodeId && n in net {
          RepairAt(net, n, key, latest, n in reach, now);
        }
      }
      assert nodes[..|nodes|] == nodes;
    }

    // ---------- Anti-entropy ----------

    /** reconcileKeyWithNode: both entries end as `Reconcile` says; other keys are untouched. */
    method ReconcileKeyWithNode(remote: Coordinator, key: Key, getOk: bool, repairOk: bool, now: int)
      requires remote != this
      modifies this`dataStore, remote`dataStore
      ensures SameExcept(old(dataStore), dataStore, key) && SameExcept(old(remote.dataStore), remote.dataStore, key)
      ensures ReconciledTo(less, Entry(old(dataStore), key), Entry(old(remote.dataStore), key),
                           Entry(dataStore, key), Entry(remote.dataStore, key), getOk, repairOk, now)
    {
      var localValue := Visible(LocalGet(key));
      var remoteValue: Option<StoredValue> := None;
      if getOk {
        var found := remote.ServeGet(key);
        if found.Some? {
          remoteValue := Some(Decode(found.value, now));
        }
      }
      if localValue.None? && remoteValue.None? {
        return;
      }
      if localValue.None? {
        StoreReplicaValue(key, remoteValue.value);
        return;
      }
      if remoteValue.None? {
        RepairNode(remote, key, localValue.value, repairOk, now);
        return;
      }
      var comparison := CompareVectorClocks(localValue.value.clock, remoteValue.value.clock);
      match comparison {
        case Newer =>
          StoreReplicaValue(key, remoteValue.value);
        case Older =>
          RepairNode(remote, key, localValue.value, repairOk, now);
        case Concurrent =>
          var merged := Merge(less, localValue.value, remoteValue.value);
          StoreReplicaValue(key, merged);
          RepairNode(remote, key, merged, repairOk, now);
      }
    }

    /** performMerkleSyncWithNode: for every outcome of its calls, the bucket trees find exactly the
        keys of the fetched buckets that direct comparison of the two stores would, and each is
        reconciled once. */
    method PerformMerkleSyncWithNode(remote: Coordinator, available: bool, calls: Calls, now: int)
      requires remote.less == less && remote.ring.hashKey == ring.hashKey
      requires remote == this <==> remote.nodeId == nodeId
      modifies this`dataStore, remote`dataStore
      ensures remote == this || !available ==> dataStore == old(dataStore) && remote.dataStore == old(remote.dataStore)
      ensures remote != this && available ==>
                (dataStore, remote.dataStore) ==
                SyncStoresUnder(less, old(dataStore), old(remote.dataStore), BucketOf(ring.hashKey), calls, now)
    {
      if remote.nodeId == nodeId || !available {
        return;
      }
      ghost var sy := Syncing(less, BucketOf(ring.hashKey), dataStore, remote.dataStore, calls, now);
      for bucket := 0 to MERKLE_BUCKETS
        invariant SyncedTo(sy, dataStore, remote.dataStore, bucket, {})
      {
        SyncBucket(remote, bucket, calls, now, sy);
      }
      AllSynced(sy, dataStore, remote.dataStore);
    }

    /** `sy` describes the synchronisation that the calls below belong to. */
    ghost predicate PartOf(sy: Syncing, remote: Coordinator, calls: Calls, now: int) {
      && remote != this && remote.less == less && remote.ring.hashKey == ring.hashKey
      && sy.less == less && sy.bucketOf == BucketOf(ring.hashKey) && sy.calls == calls && sy.now == now
    }

    method SyncBucket(remote: Coordinator, bucket: nat, calls: Calls, now: int, ghost sy: Syncing)
      requires PartOf(sy, remote, calls, now) && SyncedTo(sy, dataStore, remote.dataStore, bucket, {})
      modifies this`dataStore, remote`dataStore
      ensures SyncedTo(sy, dataStore, remote.dataStore, bucket + 1, {})
    {
      if !calls.fetch(bucket) {
        BucketDone(sy, dataStore, remote.dataStore, bucket, {});
        return;
      }
      var localTree := BuildMerkleTreeForBucket(bucket);
      var remoteTree := remote.BuildMerkleTreeForBucket(bucket);
      ghost var localData := BucketData(less, sy.bucketOf, dataStore, bucket);
      ghost var remoteData := BucketData(less, sy.bucketOf, remote.dataStore, bucket);
      var diffKeys := localTree.CompareTrees(remoteTree, localData, remoteData);
      DiffersExactly(sy, dataStore, remote.dataStore, bucket);
      ReconcileKeys(remote, diffKeys, bucket, calls, now, sy);
      BucketDone(sy, dataStore, remote.dataStore, bucket, Elements(diffKeys));
    }

    method ReconcileKeys(remote: Coordinator, keys: seq<Key>, ghost bucket: nat, calls: Calls, now: int,
                         ghost sy: Syncing)
      requires PartOf(sy, remote, calls, now) && calls.fetch(bucket) && Distinct(keys)
      requires SyncedTo(sy, dataStore, remote.dataStore, bucket, {})
      requires forall k :: k in keys ==> sy.bucketOf(k) == bucket && Differs(sy, k)
      modifies this`dataStore, remote`dataStore
      ensures SyncedTo(sy, dataStore, remote.dataStore, bucket, Elements(keys))
    {
      assert Elements(keys[..0]) == {};
      for i := 0 to |keys|
        invariant SyncedTo(sy, dataStore, remote.dataStore, bucket, Elements(keys[..i]))
      {
        NextDistinct(keys, i);
        ReconcileNext(remote, keys[i], bucket, calls, now, sy, keys[..i]);
      }
      assert keys[..|keys|] == keys;
    }

    method ReconcileNext(remote: Coordinator, key: Key, ghost bucket: nat, calls: Calls, now: int, ghost sy: Syncing,
                         ghost done: seq<Key>)
      requires PartOf(sy, remote, calls, now) && calls.fetch(bucket)
      requires SyncedTo(sy, dataStore, remote.dataStore, bucket, Elements(done))
      requires sy.bucketOf(key) == bucket && key !in done && Differs(sy, key)
      modifies this`dataStore, remote`dataStore
      ensures SyncedTo(sy, dataStore, remote.dataStore, bucket, Elements(done + [key]))
    {
      ghost var a, b := dataStore, remote.dataStore;
      UntouchedKey(sy, a, b, bucket, done, key);
      ReconcileKeyWithNode(remote, key, calls.get(key), calls.repair(key), now);
      DifferingSynced(sy, key, Entry(dataStore, key), Entry(remote.dataStore, key));
      SyncedMore(sy, a, b, dataStore, remote.dataStore, bucket, done, key);
    }

    /** performAntiEntropy: the peers come from a listing of the ring, `up` are those considered
        alive, and `calls(p)` says which calls to peer p go through. */
    method PerformAntiEntropy(net: Network, up: set<NodeId>, calls: NodeId -> Calls, now: int)
      returns (ghost peers: seq<NodeId>)
      requires WellFormed(net)
      modifies net.Values`dataStore
      ensures Enumerates(peers, ring.nodes)
      ensures StoresOf(net) ==
              PassUnder(less, BucketOf(ring.hashKey), old(StoresOf(net)), nodeId, peers, up, calls, now)
    {
      ghost var before, bucketOf := StoresOf(net), BucketOf(ring.hashKey);
      var listing := ring.GetAllNodeIDs();
      peers := listing;
      for i := 0 to |listing|
        invariant PassUnder(less, bucketOf, StoresOf(net), nodeId, listing[i..], up, calls, now) ==
                  PassUnder(less, bucketOf, before, nodeId, listing, up, calls, now)
      {
        var peer := listing[i];
        assert listing[i..][0] == peer && listing[i..][1..] == listing[i + 1..];
        SyncWithPeer(net, peer, up, calls(peer), now);
      }
    }

    method SyncWithPeer(net: Network, peer: NodeId, up: set<NodeId>, calls: Calls, now: int)
      requires WellFormed(net)
      modifies net.Values`dataStore
      ensures StoresOf(net) ==
              SyncAtUnder(less, BucketOf(ring.hashKey), old(StoresOf(net)), nodeId, peer, up, calls, now)
    {
      if peer == nodeId || peer !in net {
        return;
      }
      ghost var cl := StoresOf(net);
      PerformMerkleSyncWithNode(net[peer], peer in up, calls, now);
      SyncAtIs(less, BucketOf(ring.hashKey), cl, StoresOf(net), nodeId, peer, up, calls, now);
    }
  }
}
