/** Whether an acknowledged write is also taken. A coordinator reads the clock of a Put off its own
    store; where it is none of the key's replicas, two Puts can carry the same clock, and every
    replica drops the value of the second, which it nevertheless acknowledges. */
module LostValues {
  import opened Sequences
  import opened Clocks
  import opened Versions
  import opened Writes
  import opened Wire
  import opened Reconciliation
  import opened AntiEntropy
  import opened Placement
  import opened Quorum
  import opened NodeSpecs
  import opened Sessions

  /** Every node that acknowledged the write holds its value. */
  ghost predicate TakenEverywhere(g: Setting, s: Session)
    requires WriteDone(g, s)
  {
    forall n :: n in Success(g, s) ==>
        n in WrittenCluster(g, s) && s.value in EntryValues(Entry(WrittenCluster(g, s)[n], g.key))
  }

  /** No node holds the value. */
  ghost predicate Nowhere(cl: Cluster, key: Key, value: Value) {
    forall n :: n in cl ==> value !in EntryValues(Entry(cl[n], key))
  }

  // ---------- Every node is a replica ----------

  lemma {:induction false} AllReplicas(g: Setting, nodes: seq<NodeId>)
    requires Sensible(g) && ReplicaList(g, nodes) && g.replication >= |g.ring|
    ensures Elements(nodes) == g.ring
  {
    var all := ListingOf(g, nodes);
    ChosenShape(all, g.ring, g.primary, g.replication);
    FullSubset(Elements(nodes), g.ring);
  }

  lemma {:induction false} AllOwn(g: Setting, past: seq<Histories.Act>)
    requires Sensible(g) && RingHistory(g, past) && g.replication >= |g.ring|
    ensures Histories.OwnPuts(past, g.key)
  {
    var start := Histories.EmptyRing(g.ring);
    forall i | 0 <= i < |past| && past[i].Begin? && past[i].key == g.key ensures past[i].own {
      assert OwnFits(g, past[i]);
      var nodes :| ReplicaList(g, nodes) && (past[i].own <==> past[i].c in nodes);
      Histories.RunPrefix(g.less, start, past, i);
      Histories.RunSound(g.less, g.ring, past[..i]);
      AllReplicas(g, nodes);
      assert past[i].c in Elements(nodes);
    }
  }

  lemma {:induction false} AllTake(g: Setting, s: Session)
    requires Sensible(g) && WriteDone(g, s) && FromPuts(g, s) && g.replication >= |g.ring|
    ensures TakenEverywhere(g, s)
  {
    var past :| RingHistory(g, past) && s.before == PastStores(g, past);
    AllOwn(g, past);
    var vc := WriteClock(g, s);
    assert s.writer in vc;
    forall n | n in Success(g, s)
      ensures n in WrittenCluster(g, s) && s.value in EntryValues(Entry(WrittenCluster(g, s)[n], g.key))
    {
      Histories.NewPutTaken(g.less, g.ring, past, s.writer, g.key, s.value, s.putTime, n);
      WrittenPuts(s.before[n], s.writer, n, g.key, s.value, vc, s.putTime);
    }
  }

  // ---------- A node that is no replica ----------

  /** A list of replicas, and a node that is not on it. */
  lemma {:induction false} Outsider(g: Setting) returns (c: NodeId, nodes: seq<NodeId>)
    requires Sensible(g) && g.replication < |g.ring|
    ensures ReplicaList(g, nodes) && c in g.ring && c !in nodes && g.primary in nodes
    ensures Elements(nodes) <= g.ring && |Elements(nodes)| == g.replication
  {
    assert |g.ring - {g.primary}| == |g.ring| - 1;
    c :| c in g.ring - {g.primary};
    assert |g.ring - {c}| == |g.ring| - 1;
    var x := Extended({g.primary}, g.ring - {c}, g.replication);
    var all := AnyWindow(g.ring, g.primary, g.replication, x);
    nodes := Replicas(all, g.primary, g.replication, g.ring);
    ReplicasAllUp(all, g.ring, g.primary, g.replication);
    assert Elements(nodes) == x;
    assert forall n :: n in nodes <==> n in Elements(nodes);
  }

  lemma {:induction false} SpreadArrival(g: Setting, past: seq<Histories.Act>, x: Write, done: set<NodeId>, n: NodeId)
    requires RingHistory(g, past) && Spread(PastStores(g, past), g.ring, g.key, Fresh(x), done) && x.time == 1
    requires Histories.Message(g.key, x.value, x.clock) in Histories.Outcome(g.less, Histories.EmptyRing(g.ring),
                                                                             past).sent
    requires n in g.ring && n !in done
    ensures var longer := past + [Histories.Arrive(Histories.Message(g.key, x.value, x.clock), n, 1)];
            && RingHistory(g, longer) && Spread(PastStores(g, longer), g.ring, g.key, Fresh(x), done + {n})
            && Histories.Message(g.key, x.value, x.clock) in Histories.Outcome(g.less, Histories.EmptyRing(g.ring),
                                                                               longer).sent
  {
    var cl := PastStores(g, past);
    PastMore(g, past, Histories.Arrive(Histories.Message(g.key, x.value, x.clock), n, 1));
    assert Entry(cl[n], g.key) == None && cl[n][g.key := Fresh(x)] == map[g.key := Fresh(x)];
    SpreadSet(cl, g.ring, g.key, Fresh(x), done, n);
  }

  lemma {:induction false} SpreadTo(g: Setting, past: seq<Histories.Act>, x: Write, done: set<NodeId>,
                                    goal: set<NodeId>)
    returns (longer: seq<Histories.Act>)
    requires RingHistory(g, past) && Spread(PastStores(g, past), g.ring, g.key, Fresh(x), done) && x.time == 1
    requires Histories.Message(g.key, x.value, x.clock) in Histories.Outcome(g.less, Histories.EmptyRing(g.ring),
                                                                             past).sent
    requires done <= goal <= g.ring
    ensures RingHistory(g, longer) && Spread(PastStores(g, longer), g.ring, g.key, Fresh(x), goal)
    decreases |goal - done|
  {
    longer := past;
    if done != goal {
      assert done == goal - (goal - done);
      var n :| n in goal - done;
      SpreadArrival(g, past, x, done, n);
      assert goal - (done + {n}) == (goal - done) - {n};
      longer := SpreadTo(g, past + [Histories.Arrive(Histories.Message(g.key, x.value, x.clock), n, 1)], x, done + {n},
                         goal);
    }
  }

  /** The outsider's first Put has reached all replicas. */
  lemma {:induction false} FirstPut(g: Setting, c: NodeId, nodes: seq<NodeId>)
    returns (past: seq<Histories.Act>, x: Write)
    requires ReplicaList(g, nodes) && c in g.ring && c !in nodes && Elements(nodes) <= g.ring
    ensures RingHistory(g, past) && Spread(PastStores(g, past), g.ring, g.key, Fresh(x), Elements(nodes))
    ensures x == Write(Json("first"), map[c := 1], 1)
  {
    x := Write(Json("first"), map[c := 1], 1);
    past := FirstBegun(g, c, nodes, x);
    past := SpreadTo(g, past, x, {}, Elements(nodes));
  }

  lemma {:induction false} FirstBegun(g: Setting, c: NodeId, nodes: seq<NodeId>, x: Write)
    returns (past: seq<Histories.Act>)
    requires ReplicaList(g, nodes) && c in g.ring && c !in nodes && x.value != Nil && x.clock == map[c := 1] &&
             x.time == 1
    ensures RingHistory(g, past) && Spread(PastStores(g, past), g.ring, g.key, Fresh(x), {})
    ensures Histories.Message(g.key, x.value, x.clock) in Histories.Outcome(g.less, Histories.EmptyRing(g.ring),
                                                                            past).sent
  {
    var begin := Histories.Begin(c, g.key, x.value, false, 1);
    NoPast(g);
    OutsiderFits(g, begin, nodes);
    OutsiderBegins(g, begin, x.clock);
    PastMore(g, [], begin);
    past := [] + [begin];
  }

  lemma {:induction false} OutsiderFits(g: Setting, begin: Histories.Act, nodes: seq<NodeId>)
    requires begin.Begin? && !begin.own && ReplicaList(g, nodes) && begin.c !in nodes
    ensures OwnFits(g, begin)
  {
  }

  lemma {:induction false} OutsiderBegins(g: Setting, begin: Histories.Act, clock: Clock)
    requires begin.Begin? && !begin.own && begin.c in g.ring && begin.value != Nil && clock == map[begin.c := 1]
    ensures var start := Histories.EmptyRing(g.ring);
            && Histories.Enabled(start, begin)
            && Histories.Apply(g.less, start, begin) ==
               Histories.State(start.stores, {Histories.Message(begin.key, begin.value, clock)})
            && Spread(start.stores, g.ring, g.key, Fresh(Write(begin.value, clock, 1)), {})
  {
    var start := Histories.EmptyRing(g.ring);
    assert start.stores[begin.c] == map[] && Histories.NewClock(start, begin.c, begin.key) == clock;
    assert ClockFits(clock);
  }

  /** The second Put of the outsider, which all replicas acknowledge; and a read from all of them. */
  ghost predicate SecondPut(g: Setting, s: Session, c: NodeId, nodes: seq<NodeId>, x: Write) {
    && Spread(s.before, g.ring, g.key, Fresh(x), Elements(nodes)) && x == Write(Json("first"), map[c := 1], 1)
    && ReplicaList(g, nodes) && c in g.ring && c !in nodes && Elements(nodes) <= g.ring
    && s.writer == c && s.targets == nodes && s.reached == Elements(nodes) && s.value == Json("second") && s.steps == []
    && s.reader in nodes && s.sources == nodes && s.asked == Elements(nodes) && Enumerates(s.order, Elements(nodes))
  }

  lemma {:induction false} ReachedAll(nodes: seq<NodeId>, known: set<NodeId>, c: NodeId)
    requires Elements(nodes) <= known
    ensures Elements(Reached(nodes, known, c, Elements(nodes))) == Elements(nodes)
    ensures |Reached(nodes, known, c, Elements(nodes))| >= |Elements(nodes)|
  {
    var r := Reached(nodes, known, c, Elements(nodes));
    ElementsSize(r);
    forall n ensures n in r <==> n in nodes {
      assert n in nodes <==> n in Elements(nodes);
    }
  }

  lemma {:induction false} SecondWritten(g: Setting, s: Session, c: NodeId, nodes: seq<NodeId>, x: Write)
    requires SecondPut(g, s, c, nodes, x) && |Elements(nodes)| >= g.w
    ensures WriteDone(g, s) && WriteClock(g, s) == x.clock && Elements(Success(g, s)) == Elements(nodes)
  {
    assert c !in Elements(nodes) && s.before[c] == map[];
    assert WriteClock(g, s) == Incremented(map[], c) == x.clock;
    ReachedAll(nodes, g.ring, c);
    FewCounts(x.clock, c);
    SpreadSound(s.before, g.ring, g.key, x, Elements(nodes));
  }

  lemma {:induction false} SpreadSound(cl: Cluster, ring: set<NodeId>, key: Key, x: Write, done: set<NodeId>)
    requires Spread(cl, ring, key, Fresh(x), done) && Plain(x)
    ensures SoundCluster(cl)
  {
    FreshSent(x, 1);
    forall n | n in cl ensures SoundStore(cl[n]) {
      assert cl[n] == if n in done then map[key := Fresh(x)] else map[];
    }
  }

  /** The second Put changes nothing anywhere. */
  lemma {:induction false} SecondDropped(g: Setting, s: Session, c: NodeId, nodes: seq<NodeId>, x: Write)
    requires SecondPut(g, s, c, nodes, x) && |Elements(nodes)| >= g.w
    ensures s.writer in s.before && WrittenCluster(g, s) == s.before && Nowhere(s.before, g.key, s.value)
  {
    SecondWritten(g, s, c, nodes, x);
    forall n | n in s.before ensures WrittenCluster(g, s)[n] == s.before[n] {
      assert n in Success(g, s) <==> n in Elements(Success(g, s));
      if n in Success(g, s) {
        DroppedAt(s.before[n], c, n, g.key, s.value, x, s.putTime);
      }
    }
    SameClusters(WrittenCluster(g, s), s.before);
    forall n | n in s.before ensures s.value !in EntryValues(Entry(s.before[n], g.key)) {
      FreshTree(x);
    }
  }

  lemma {:induction false} DroppedAt(store: Store, c: NodeId, n: NodeId, key: Key, value: Value, x: Write, now: int)
    requires store == map[key := Fresh(x)] && x.clock == map[c := 1]
    ensures Written(store, c, n, key, value, x.clock, now) == store
  {
    FewCounts(x.clock, c);
    assert c in x.clock && Entry(store, key) == Some(Fresh(x));
    WrittenPuts(store, c, n, key, value, x.clock, now);
    ValueTaken(Some(Fresh(x)), Write(value, x.clock, now));
    assert store[key := Fresh(x)] == store;
  }

  lemma {:induction false} SameClusters(a: Cluster, b: Cluster)
    requires a.Keys == b.Keys && forall n :: n in a ==> a[n] == b[n]
    ensures a == b
  {
  }

  lemma {:induction false} SecondRead(g: Setting, s: Session, c: NodeId, nodes: seq<NodeId>, x: Write)
    requires SecondPut(g, s, c, nodes, x) && |Elements(nodes)| >= g.w && |Elements(nodes)| >= g.r
    ensures Completed(g, s) && CoversWrite(g, s) && ReadCluster(g, s) == s.before
  {
    SecondWritten(g, s, c, nodes, x);
    SecondDropped(g, s, c, nodes, x);
    ReachedAll(nodes, g.ring, s.reader);
    FreshSent(x, 1);
    SentFits(Fresh(x), s.getTime);
    var asked := Reached(nodes, g.ring, s.reader, Elements(nodes));
    forall n | n in Elements(nodes) ensures n in s.before && Entry(s.before[n], g.key) == Some(Fresh(x)) {
      assert s.before[n] == map[g.key := Fresh(x)];
    }
    OldAnswers(s.before, s.reader, asked, Elements(nodes), g.key, Fresh(x), s.getTime);
    assert s.reader in Elements(Success(g, s));
    MeetingSees(g, s, s.reader);
  }

  lemma {:induction false} LostSession(g: Setting) returns (s: Session, c: NodeId, nodes: seq<NodeId>, x: Write)
    requires Sensible(g) && g.replication < |g.ring|
    ensures SecondPut(g, s, c, nodes, x) && FromPuts(g, s) && |Elements(nodes)| == g.replication
  {
    c, nodes := Outsider(g);
    var past;
    past, x := FirstPut(g, c, nodes);
    var order := SomeListing(Elements(nodes));
    s := Session(PastStores(g, past), c, nodes, Elements(nodes), Json("second"), 2, [], g.primary, nodes,
                 Elements(nodes), 3, order);
  }

  /** On a ring with more nodes than replicas there is a write that its quorum acknowledged and no node
      holds. The read that follows meets its quorum and even covers the write's clock. */
  lemma {:induction false} AcknowledgedButLost(g: Setting)
    requires Sensible(g) && g.replication < |g.ring| && g.w <= g.replication && g.r <= g.replication
    ensures exists s ::
              && Completed(g, s) && FromPuts(g, s) && CoversWrite(g, s)
              && Nowhere(ReadCluster(g, s), g.key, s.value)
  {
    var s, c, nodes, x := LostSession(g);
    SecondRead(g, s, c, nodes, x);
    SecondDropped(g, s, c, nodes, x);
  }

  /** Acknowledged values are bound to be taken, by every node that acknowledged, exactly when every
      node of the ring is a replica. */
  lemma {:induction false} ValuesTakenExactly(g: Setting)
    requires Sensible(g) && g.w <= WindowSize(|g.ring|, g.replication)
    ensures (forall s :: WriteDone(g, s) && FromPuts(g, s) ==> TakenEverywhere(g, s)) <==> g.replication >= |g.ring|
  {
    if g.replication >= |g.ring| {
      forall s | WriteDone(g, s) && FromPuts(g, s) ensures TakenEverywhere(g, s) {
        AllTake(g, s);
      }
    } else {
      var s, c, nodes, x := LostSession(g);
      SecondWritten(g, s, c, nodes, x);
      SecondDropped(g, s, c, nodes, x);
      assert g.primary in g.ring && s.reader in Elements(Success(g, s));
      assert s.reader in Success(g, s) && s.reader in s.before;
    }
  }
}
