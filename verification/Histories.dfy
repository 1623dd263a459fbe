/** Whole histories of a ring, from empty stores. A Put begins at any node, its writes arrive at any
    nodes, at any later time and any number of times, and nodes reconcile; calls may fail, but
    nothing that can lower a clock is included. */
module Histories {
  import opened Clocks
  import opened Versions
  import opened Payloads
  import opened Writes
  import opened Wire
  import opened Reconciliation
  import opened AntiEntropy
  import Quorum

  datatype Message = Message(key: Key, value: Value, clock: Clock)

  /** `sent` holds the writes on their way. */
  datatype State = State(stores: Cluster, sent: set<Message>)

  /** `own` says whether the coordinator is among the replicas of its own Put, which it then writes
      before anybody else acts on this key there. */
  datatype Act =
    | Begin(c: NodeId, key: Key, value: Value, own: bool, now: int)
    | Arrive(msg: Message, n: NodeId, now: int)
    | Meet(a: NodeId, b: NodeId, key: Key, repairOk: bool, now: int)

  /** The clock of a new Put, which its coordinator reads off its own store. */
  function NewClock(s: State, c: NodeId, key: Key): Clock
    requires c in s.stores
  {
    Incremented(EntryClock(Entry(s.stores[c], key)), c)
  }

  ghost predicate Enabled(s: State, act: Act) {
    match act
    case Begin(c, key, value, _, _) => c in s.stores && value != Nil && ClockFits(NewClock(s, c, key))
    case Arrive(msg, n, _) => msg in s.sent && n in s.stores
    case Meet(a, b, _, _, _) => a in s.stores && b in s.stores && a != b
  }

  function Apply(less: PayloadOrder, s: State, act: Act): State {
    match act
    case Begin(c, key, value, own, now) =>
      if c !in s.stores then s
      else
        var vc := NewClock(s, c, key);
        State(if own then Quorum.Next(less, s.stores, Quorum.Deliver(c, key, Write(value, vc, now))) else s.stores,
              s.sent + {Message(key, value, vc)})
    case Arrive(msg, n, now) =>
      s.(stores := Quorum.Next(less, s.stores, Quorum.Deliver(n, msg.key, Write(msg.value, msg.clock, now))))
    case Meet(a, b, key, repairOk, now) =>
      s.(stores := Quorum.Next(less, s.stores, Quorum.Sync(a, b, key, repairOk, now)))
  }

  function Outcome(less: PayloadOrder, s: State, acts: seq<Act>): State {
    if acts == [] then s else Apply(less, Outcome(less, s, acts[..|acts| - 1]), acts[|acts| - 1])
  }

  ghost predicate Run(less: PayloadOrder, s: State, acts: seq<Act>) {
    acts != [] ==>
      Run(less, s, acts[..|acts| - 1]) && Enabled(Outcome(less, s, acts[..|acts| - 1]), acts[|acts| - 1])
  }

  function EmptyRing(ring: set<NodeId>): State {
    State(map n | n in ring :: map[], {})
  }

  // ---------- Stores stay sound ----------

  ghost predicate SoundState(s: State) {
    && SoundCluster(s.stores)
    && forall msg :: msg in s.sent ==> msg.value != Nil && ClockFits(msg.clock) && msg.clock != map[]
  }

  lemma {:induction false} ApplySound(less: PayloadOrder, s: State, act: Act)
    requires SoundState(s) && Enabled(s, act)
    ensures SoundState(Apply(less, s, act)) && Quorum.ClusterGrows(s.stores, Apply(less, s, act).stores)
    ensures s.sent <= Apply(less, s, act).sent
  {
    match act {
      case Begin(c, key, value, own, now) =>
        var vc := NewClock(s, c, key);
        assert c in vc;
        if own {
          Quorum.NextGrows(less, s.stores, Quorum.Deliver(c, key, Write(value, vc, now)));
        } else {
          Quorum.SelfGrows(s.stores);
        }
      case Arrive(msg, n, now) =>
        Quorum.NextGrows(less, s.stores, Quorum.Deliver(n, msg.key, Write(msg.value, msg.clock, now)));
      case Meet(a, b, key, repairOk, now) =>
        Quorum.NextGrows(less, s.stores, Quorum.Sync(a, b, key, repairOk, now));
    }
  }

  lemma {:induction false} RunSound(less: PayloadOrder, ring: set<NodeId>, acts: seq<Act>)
    requires Run(less, EmptyRing(ring), acts)
    ensures var s := Outcome(less, EmptyRing(ring), acts);
            SoundState(s) && s.stores.Keys == ring
    decreases |acts|
  {
    if acts != [] {
      RunSound(less, ring, acts[..|acts| - 1]);
      ApplySound(less, Outcome(less, EmptyRing(ring), acts[..|acts| - 1]), acts[|acts| - 1]);
    }
  }

  // ---------- Nobody runs ahead of a coordinator ----------

  /** No component of the clock exceeds that of the node's own version of the key. */
  ghost predicate Known(cl: Cluster, k: Key, clock: Clock) {
    forall c :: c in clock ==> c in cl && c in EntryClock(Entry(cl[c], k)) && clock[c] <= EntryClock(Entry(cl[c], k))[c]
  }

  ghost predicate Ahead(cl: Cluster, k: Key) {
    forall n :: n in cl ==> Known(cl, k, EntryClock(Entry(cl[n], k)))
  }

  ghost predicate OwnAhead(s: State, k: Key) {
    Ahead(s.stores, k) && forall msg :: msg in s.sent && msg.key == k ==> Known(s.stores, k, msg.clock)
  }

  /** Every Put of the key is by one of the key's replicas. */
  ghost predicate OwnPuts(acts: seq<Act>, k: Key) {
    forall i :: 0 <= i < |acts| && acts[i].Begin? && acts[i].key == k ==> acts[i].own
  }

  lemma {:induction false} KnownGrows(a: Cluster, b: Cluster, k: Key, clock: Clock)
    requires Quorum.ClusterGrows(a, b) && Known(a, k, clock)
    ensures Known(b, k, clock)
  {
    forall c | c in clock
      ensures c in b && c in EntryClock(Entry(b[c], k)) && clock[c] <= EntryClock(Entry(b[c], k))[c]
    {
      assert Quorum.StoreGrows(a[c], b[c]);
    }
  }

  lemma {:induction false} KnownJoin(cl: Cluster, k: Key, a: Clock, b: Clock)
    requires Known(cl, k, a) && Known(cl, k, b)
    ensures Known(cl, k, Join(a, b))
  {
  }

  /** A reconcile gives both sides the join, except that a failed repair leaves the remote as it was. */
  lemma {:induction false} ReconcileClocks(less: PayloadOrder, l: Option<StoredValue>, r: Option<StoredValue>,
                                           repairOk: bool, now: int)
    requires Sound(l) && Sound(r)
    ensures var (l', r') := Reconcile(less, l, r, true, repairOk, now);
            && EntryClock(l') == Join(EntryClock(l), EntryClock(r))
            && EntryClock(r') == if repairOk then Join(EntryClock(l), EntryClock(r)) else EntryClock(r)
  {
    JoinAbsorbs(EntryClock(l), EntryClock(r));
    if l.Some? && r.Some? {
      Quorum.RepairOnly(less, l, r, repairOk, now);
      ReconcileBoth(less, l, r, now);
    } else if l.Some? {
      SentFits(l.value, now);
    } else if r.Some? {
      SentFits(r.value, now);
    }
  }

  /** The clocks that one step leaves at a node: the old one, or a join with what arrived. */
  lemma {:induction false} DeliverAhead(less: PayloadOrder, cl: Cluster, n: NodeId, key: Key, w: Write, k: Key)
    requires SoundCluster(cl) && Ahead(cl, k) && n in cl && w.value != Nil && ClockFits(w.clock)
    requires key == k ==> Known(Quorum.Next(less, cl, Quorum.Deliver(n, key, w)), k, w.clock)
    ensures Ahead(Quorum.Next(less, cl, Quorum.Deliver(n, key, w)), k)
  {
    var dl := Quorum.Next(less, cl, Quorum.Deliver(n, key, w));
    Quorum.NextGrows(less, cl, Quorum.Deliver(n, key, w));
    forall m | m in dl ensures Known(dl, k, EntryClock(Entry(dl[m], k))) {
      KnownGrows(cl, dl, k, EntryClock(Entry(cl[m], k)));
      if m == n && key == k {
        PutJoins(Entry(cl[n], k), w);
        KnownJoin(dl, k, EntryClock(Entry(cl[n], k)), w.clock);
      }
    }
  }

  lemma {:induction false} MeetAhead(less: PayloadOrder, cl: Cluster, a: NodeId, b: NodeId, key: Key, repairOk: bool,
                                     now: int, k: Key)
    requires SoundCluster(cl) && Ahead(cl, k) && a in cl && b in cl && a != b
    ensures Ahead(Quorum.Next(less, cl, Quorum.Sync(a, b, key, repairOk, now)), k)
  {
    var dl := Quorum.Next(less, cl, Quorum.Sync(a, b, key, repairOk, now));
    Quorum.NextGrows(less, cl, Quorum.Sync(a, b, key, repairOk, now));
    forall m | m in dl ensures Known(dl, k, EntryClock(Entry(dl[m], k))) {
      KnownGrows(cl, dl, k, EntryClock(Entry(cl[m], k)));
      if (m == a || m == b) && key == k {
        var l, r := Entry(cl[a], k), Entry(cl[b], k);
        KnownGrows(cl, dl, k, EntryClock(l));
        KnownGrows(cl, dl, k, EntryClock(r));
        KnownJoin(dl, k, EntryClock(l), EntryClock(r));
        MetClocks(less, cl, a, b, k, repairOk, now);
      }
    }
  }

  lemma {:induction false} MetClocks(less: PayloadOrder, cl: Cluster, a: NodeId, b: NodeId, k: Key, repairOk: bool,
                                     now: int)
    requires SoundCluster(cl) && a in cl && b in cl && a != b
    ensures var dl := Quorum.Next(less, cl, Quorum.Sync(a, b, k, repairOk, now));
            var join := Join(EntryClock(Entry(cl[a], k)), EntryClock(Entry(cl[b], k)));
            && a in dl && b in dl && EntryClock(Entry(dl[a], k)) == join
            && EntryClock(Entry(dl[b], k)) == if repairOk then join else EntryClock(Entry(cl[b], k))
  {
    var l, r := Entry(cl[a], k), Entry(cl[b], k);
    assert SoundStore(cl[a]) && SoundStore(cl[b]);
    ReconcileClocks(less, l, r, repairOk, now);
  }

  /** A new Put's clock is known as soon as its coordinator has written it. */
  lemma {:induction false} NewClockKnown(less: PayloadOrder, s: State, c: NodeId, key: Key, value: Value, now: int)
    requires SoundState(s) && OwnAhead(s, key) && Enabled(s, Begin(c, key, value, true, now))
    ensures Known(Apply(less, s, Begin(c, key, value, true, now)).stores, key, NewClock(s, c, key))
  {
    var vc := NewClock(s, c, key);
    var dl := Apply(less, s, Begin(c, key, value, true, now)).stores;
    ApplySound(less, s, Begin(c, key, value, true, now));
    KnownGrows(s.stores, dl, key, EntryClock(Entry(s.stores[c], key)));
    PutJoins(Entry(s.stores[c], key), Write(value, vc, now));
    JoinLeast(EntryClock(Entry(s.stores[c], key)), vc, map[]);
    assert Leq(vc, EntryClock(Entry(dl[c], key)));
  }

  lemma {:induction false} ApplyAhead(less: PayloadOrder, s: State, act: Act, k: Key)
    requires SoundState(s) && OwnAhead(s, k) && Enabled(s, act) && (act.Begin? && act.key == k ==> act.own)
    ensures OwnAhead(Apply(less, s, act), k)
  {
    var t := Apply(less, s, act);
    ApplySound(less, s, act);
    forall msg | msg in s.sent && msg.key == k ensures Known(t.stores, k, msg.clock) {
      KnownGrows(s.stores, t.stores, k, msg.clock);
    }
    match act {
      case Begin(c, key, value, own, now) =>
        if key == k {
          NewClockKnown(less, s, c, key, value, now);
        }
        if own {
          DeliverAhead(less, s.stores, c, key, Write(value, NewClock(s, c, key), now), k);
        }
      case Arrive(msg, n, now) =>
        DeliverAhead(less, s.stores, n, msg.key, Write(msg.value, msg.clock, now), k);
      case Meet(a, b, key, repairOk, now) =>
        MeetAhead(less, s.stores, a, b, key, repairOk, now, k);
    }
  }

  /** Where each Put of a key is coordinated by one of the key's replicas, no node's component for a
      coordinator ever exceeds the coordinator's own, and neither does a travelling one. */
  lemma {:induction false} RunAhead(less: PayloadOrder, ring: set<NodeId>, acts: seq<Act>, k: Key)
    requires Run(less, EmptyRing(ring), acts) && OwnPuts(acts, k)
    ensures OwnAhead(Outcome(less, EmptyRing(ring), acts), k)
    decreases |acts|
  {
    if acts != [] {
      var front := acts[..|acts| - 1];
      RunSound(less, ring, front);
      RunAhead(less, ring, front, k);
      ApplyAhead(less, Outcome(less, EmptyRing(ring), front), acts[|acts| - 1], k);
    }
  }

  // ---------- New clocks are new ----------

  /** Then no clock that is stored or travels covers that of a new Put. */
  lemma {:induction false} NewClockUncovered(s: State, c: NodeId, key: Key, clock: Clock)
    requires c in s.stores && Known(s.stores, key, clock)
    ensures !Leq(NewClock(s, c, key), clock)
  {
    assert c in NewClock(s, c, key);
  }

  /** And every node that took a new Put in before anything else happens holds its value. */
  lemma {:induction false} NewPutTaken(less: PayloadOrder, ring: set<NodeId>, acts: seq<Act>, c: NodeId, key: Key,
                                       value: Value, now: int, n: NodeId)
    requires Run(less, EmptyRing(ring), acts) && OwnPuts(acts, key) && c in ring && n in ring
    ensures var s := Outcome(less, EmptyRing(ring), acts);
            && c in s.stores && n in s.stores
            && value in EntryValues(Some(Put(Entry(s.stores[n], key), Write(value, NewClock(s, c, key), now))))
  {
    var s := Outcome(less, EmptyRing(ring), acts);
    RunSound(less, ring, acts);
    RunAhead(less, ring, acts, key);
    NewClockUncovered(s, c, key, EntryClock(Entry(s.stores[n], key)));
    ValueTaken(Entry(s.stores[n], key), Write(value, NewClock(s, c, key), now));
  }

  function BegunClock(less: PayloadOrder, s: State, acts: seq<Act>, i: nat): Clock
    requires i < |acts| && acts[i].Begin?
  {
    var before := Outcome(less, s, acts[..i]);
    if acts[i].c in before.stores then NewClock(before, acts[i].c, acts[i].key) else map[]
  }

  lemma {:induction false} RunPrefix(less: PayloadOrder, s: State, acts: seq<Act>, i: nat)
    requires Run(less, s, acts) && i <= |acts|
    ensures Run(less, s, acts[..i])
    ensures i < |acts| ==> Enabled(Outcome(less, s, acts[..i]), acts[i])
    ensures i < |acts| ==> Outcome(less, s, acts[..i + 1]) == Apply(less, Outcome(less, s, acts[..i]), acts[i])
    decreases |acts|
  {
    if i == |acts| {
      assert acts[..i] == acts;
    } else {
      assert acts[..i + 1][..i] == acts[..i];
      if i < |acts| - 1 {
        RunPrefix(less, s, acts[..|acts| - 1], i);
        assert acts[..|acts| - 1][..i] == acts[..i];
      }
    }
  }

  lemma {:induction false} BegunSent(less: PayloadOrder, ring: set<NodeId>, acts: seq<Act>, i: nat, j: nat)
    requires Run(less, EmptyRing(ring), acts) && i < j <= |acts| && acts[i].Begin?
    ensures Message(acts[i].key, acts[i].value, BegunClock(less, EmptyRing(ring), acts, i)) in
            Outcome(less, EmptyRing(ring), acts[..j]).sent
    decreases j
  {
    var s := EmptyRing(ring);
    RunPrefix(less, s, acts, j - 1);
    if i < j - 1 {
      BegunSent(less, ring, acts, i, j - 1);
      RunSound(less, ring, acts[..j - 1]);
      ApplySound(less, Outcome(less, s, acts[..j - 1]), acts[j - 1]);
    }
  }

  /** So no two Puts of a key share a clock, and a later one is never covered by an earlier one. */
  lemma {:induction false} BegunClocksDiffer(less: PayloadOrder, ring: set<NodeId>, acts: seq<Act>, i: nat, j: nat)
    requires Run(less, EmptyRing(ring), acts) && i < j < |acts| && acts[i].Begin? && acts[j].Begin? &&
             acts[i].key == acts[j].key
    requires OwnPuts(acts, acts[i].key)
    ensures !Leq(BegunClock(less, EmptyRing(ring), acts, j), BegunClock(less, EmptyRing(ring), acts, i))
  {
    var s := Outcome(less, EmptyRing(ring), acts[..j]);
    RunPrefix(less, EmptyRing(ring), acts, j);
    BegunSent(less, ring, acts, i, j);
    RunAhead(less, ring, acts[..j], acts[i].key);
    NewClockUncovered(s, acts[j].c, acts[j].key, BegunClock(less, EmptyRing(ring), acts, i));
  }
}
