/** Quorum reads and writes. `Runs` of replica writes and of reconciliations lower no clock, so a
    read quorum that meets a write quorum sees the write; and the quorums meet exactly under a
    condition on the size of the ring. */
module Quorum {
  import opened Sequences
  import opened Clocks
  import opened Versions
  import opened Payloads
  import opened Writes
  import opened Resolution
  import opened Wire
  import opened Reconciliation
  import opened AntiEntropy
  import opened Placement

  // ---------- Monotone runs ----------

  /** A write taken in by one replica, or one key reconciled by `a` with `b` after a successful
      read of it. */
  datatype Step =
    | Deliver(n: NodeId, key: Key, write: Write)
    | Sync(a: NodeId, b: NodeId, key: Key, repairOk: bool, now: int)

  ghost predicate Allowed(cl: Cluster, s: Step) {
    match s
    case Deliver(n, _, w) => n in cl && w.value != Nil && ClockFits(w.clock)
    case Sync(a, b, _, _, _) => a in cl && b in cl && a != b
  }

  function Next(less: PayloadOrder, cl: Cluster, s: Step): Cluster {
    match s
    case Deliver(n, k, w) =>
      if n !in cl then cl else cl[n := cl[n][k := Put(Entry(cl[n], k), w)]]
    case Sync(a, b, k, repairOk, now) =>
      if a !in cl || b !in cl then cl
      else
        var (l, r) := Reconcile(less, Entry(cl[a], k), Entry(cl[b], k), true, repairOk, now);
        cl[a := WithEntry(cl[a], k, l)][b := WithEntry(cl[b], k, r)]
  }

  function After(less: PayloadOrder, cl: Cluster, steps: seq<Step>): Cluster {
    if steps == [] then cl else Next(less, After(less, cl, steps[..|steps| - 1]), steps[|steps| - 1])
  }

  ghost predicate AllowedRun(less: PayloadOrder, cl: Cluster, steps: seq<Step>) {
    steps != [] ==>
      AllowedRun(less, cl, steps[..|steps| - 1]) && Allowed(After(less, cl, steps[..|steps| - 1]), steps[|steps| - 1])
  }

  /** Every key of every node at least as new as before. */
  ghost predicate StoreGrows(s: Store, t: Store) {
    forall k :: k in s ==> k in t && Leq(ClockOf(s[k]), ClockOf(t[k]))
  }

  ghost predicate ClusterGrows(cl: Cluster, dl: Cluster) {
    dl.Keys == cl.Keys && forall n :: n in cl ==> StoreGrows(cl[n], dl[n])
  }

  lemma {:induction false} ClusterGrowsTransitive(a: Cluster, b: Cluster, c: Cluster)
    requires ClusterGrows(a, b) && ClusterGrows(b, c)
    ensures ClusterGrows(a, c)
  {
  }

  lemma {:induction false} EntrySet(s: Store, k: Key, v: StoredValue)
    requires SoundStore(s) && Sound(Some(v)) && Leq(EntryClock(Entry(s, k)), ClockOf(v))
    ensures SoundStore(s[k := v]) && StoreGrows(s, s[k := v])
  {
  }

  lemma {:induction false} ReconcileOutcome(less: PayloadOrder, l: Option<StoredValue>, r: Option<StoredValue>,
                                            repairOk: bool, now: int)
    returns (l': Option<StoredValue>, r': Option<StoredValue>)
    requires Sound(l) && Sound(r)
    ensures Reconcile(less, l, r, true, repairOk, now) == (l', r')
    ensures Sound(l') && Sound(r') && Leq(EntryClock(l), EntryClock(l')) && Leq(EntryClock(r), EntryClock(r'))
    ensures (l.Some? ==> l'.Some?) && (r.Some? ==> r'.Some?)
  {
    l', r' := Reconcile(less, l, r, true, repairOk, now).0, Reconcile(less, l, r, true, repairOk, now).1;
    if l.Some? && r.Some? {
      RepairOnly(less, l, r, repairOk, now);
      ReconcileBoth(less, l, r, now);
      JoinLeast(EntryClock(l), EntryClock(r), map[]);
    } else if l.Some? {
      SentFits(l.value, now);
    } else if r.Some? {
      SentFits(r.value, now);
    }
  }

  /** A failed repair leaves the remote side as it was; the local side does not depend on it. */
  lemma {:induction false} RepairOnly(less: PayloadOrder, l: Option<StoredValue>, r: Option<StoredValue>,
                                      repairOk: bool, now: int)
    requires l.Some? && r.Some? && Live(l) && Live(r)
    ensures var full := Reconcile(less, l, r, true, true, now);
            Reconcile(less, l, r, true, repairOk, now) == (full.0, if repairOk then full.1 else r)
  {
  }

  lemma {:induction false} NextGrows(less: PayloadOrder, cl: Cluster, s: Step)
    requires SoundCluster(cl) && Allowed(cl, s)
    ensures SoundCluster(Next(less, cl, s)) && ClusterGrows(cl, Next(less, cl, s))
  {
    match s {
      case Deliver(n, k, w) =>
        var e := Entry(cl[n], k);
        assert SoundStore(cl[n]);
        PutJoins(e, w);
        PutFits(e, w);
        PutVisible(e, w);
        JoinLeast(EntryClock(e), w.clock, map[]);
        EntrySet(cl[n], k, Put(e, w));
        ReplaceStore(cl, n, cl[n][k := Put(e, w)]);
      case Sync(a, b, k, repairOk, now) =>
        assert SoundStore(cl[a]) && SoundStore(cl[b]);
        var l, r := ReconcileOutcome(less, Entry(cl[a], k), Entry(cl[b], k), repairOk, now);
        EntryTaken(cl[a], k, l);
        EntryTaken(cl[b], k, r);
        ReplaceStore(cl, a, WithEntry(cl[a], k, l));
        ReplaceStore(cl[a := WithEntry(cl[a], k, l)], b, WithEntry(cl[b], k, r));
        ClusterGrowsTransitive(cl, cl[a := WithEntry(cl[a], k, l)], Next(less, cl, s));
    }
  }

  lemma {:induction false} PutVisible(e: Option<StoredValue>, w: Write)
    requires Live(e) && w.value != Nil
    ensures Put(e, w).value != Nil
  {
  }

  lemma {:induction false} EntryTaken(s: Store, k: Key, e: Option<StoredValue>)
    requires SoundStore(s) && Sound(e) && Leq(EntryClock(Entry(s, k)), EntryClock(e)) && (k in s ==> e.Some?)
    ensures SoundStore(WithEntry(s, k, e)) && StoreGrows(s, WithEntry(s, k, e))
  {
  }

  lemma {:induction false} ReplaceStore(cl: Cluster, n: NodeId, s: Store)
    requires SoundCluster(cl) && n in cl && SoundStore(s) && StoreGrows(cl[n], s)
    ensures SoundCluster(cl[n := s]) && ClusterGrows(cl, cl[n := s])
  {
  }

  lemma {:induction false} RunGrows(less: PayloadOrder, cl: Cluster, steps: seq<Step>)
    requires SoundCluster(cl) && AllowedRun(less, cl, steps)
    ensures SoundCluster(After(less, cl, steps)) && ClusterGrows(cl, After(less, cl, steps))
  {
    if steps != [] {
      var front := steps[..|steps| - 1];
      RunGrows(less, cl, front);
      NextGrows(less, After(less, cl, front), steps[|steps| - 1]);
      ClusterGrowsTransitive(cl, After(less, cl, front), After(less, cl, steps));
    }
  }

  lemma {:induction false} BetweenGrows(less: PayloadOrder, cl: Cluster, steps: seq<Step>, i: nat, j: nat)
    requires SoundCluster(cl) && AllowedRun(less, cl, steps) && i <= j <= |steps|
    ensures AllowedRun(less, cl, steps[..i]) && AllowedRun(less, cl, steps[..j])
    ensures SoundCluster(After(less, cl, steps[..j])) &&
            ClusterGrows(After(less, cl, steps[..i]), After(less, cl, steps[..j]))
    decreases |steps|, j
  {
    PrefixAllowed(less, cl, steps, j);
    PrefixAllowed(less, cl, steps, i);
    RunGrows(less, cl, steps[..j]);
    if i < j {
      BetweenGrows(less, cl, steps, i, j - 1);
      assert steps[..j][..j - 1] == steps[..j - 1];
      NextGrows(less, After(less, cl, steps[..j - 1]), steps[j - 1]);
      ClusterGrowsTransitive(After(less, cl, steps[..i]), After(less, cl, steps[..j - 1]), After(less, cl, steps[..j]));
    } else {
      SelfGrows(After(less, cl, steps[..j]));
    }
  }

  lemma {:induction false} SelfGrows(cl: Cluster)
    ensures ClusterGrows(cl, cl)
  {
  }

  lemma {:induction false} PrefixAllowed(less: PayloadOrder, cl: Cluster, steps: seq<Step>, j: nat)
    requires AllowedRun(less, cl, steps) && j <= |steps|
    ensures AllowedRun(less, cl, steps[..j])
    decreases |steps|
  {
    if j == |steps| {
      assert steps[..j] == steps;
    } else {
      PrefixAllowed(less, cl, steps[..|steps| - 1], j);
      assert steps[..|steps| - 1][..j] == steps[..j];
    }
  }

  // ---------- A read that meets a write ----------

  /** Replica `n` took in the write `vc` to `key` at step `i`. */
  ghost predicate Acknowledged(steps: seq<Step>, n: NodeId, i: nat, key: Key, vc: Clock) {
    i < |steps| && steps[i].Deliver? && steps[i].n == n && steps[i].key == key && steps[i].write.clock == vc
  }

  /** The response of replica `n`, read after `j` steps; a trip over the wire keeps the clock. */
  ghost predicate Answered(less: PayloadOrder, cl: Cluster, steps: seq<Step>, n: NodeId, j: nat, key: Key,
                           v: StoredValue) {
    && j <= |steps|
    && n in After(less, cl, steps[..j])
    && ClockOf(v) == EntryClock(Entry(After(less, cl, steps[..j])[n], key))
  }

  lemma {:induction false} ReplicaKeepsWrite(less: PayloadOrder, cl: Cluster, steps: seq<Step>, n: NodeId, i: nat,
                                             j: nat, key: Key, vc: Clock)
    requires SoundCluster(cl) && AllowedRun(less, cl, steps)
    requires Acknowledged(steps, n, i, key, vc) && i < j <= |steps|
    ensures n in After(less, cl, steps[..j]) && Leq(vc, EntryClock(Entry(After(less, cl, steps[..j])[n], key)))
  {
    var before, taken := After(less, cl, steps[..i]), After(less, cl, steps[..i + 1]);
    PrefixAllowed(less, cl, steps, i + 1);
    assert steps[..i + 1][..i] == steps[..i];
    PutJoins(Entry(before[n], key), steps[i].write);
    JoinLeast(EntryClock(Entry(before[n], key)), vc, map[]);
    BetweenGrows(less, cl, steps, i + 1, j);
    var after := After(less, cl, steps[..j]);
    assert StoreGrows(taken[n], after[n]);
  }

  /** One replica that acknowledged the write before it answered the read is enough for the read to
      resolve, in whatever order, to a clock that covers the write. */
  lemma {:induction false} SharedReplicaSuffices(less: PayloadOrder, cl: Cluster, steps: seq<Step>, key: Key,
                                                 vc: Clock, n: NodeId, i: nat, j: nat,
                                                 responses: map<NodeId, StoredValue>, order: seq<NodeId>)
    requires SoundCluster(cl) && AllowedRun(less, cl, steps)
    requires Acknowledged(steps, n, i, key, vc) && i < j
    requires n in responses && Answered(less, cl, steps, n, j, key, responses[n]) && Enumerates(order, responses.Keys)
    ensures Leq(vc, EntryClock(Resolve(less, ValuesIn(responses, order))))
  {
    ReplicaKeepsWrite(less, cl, steps, n, i, j, key, vc);
    var u := EntryClock(Resolve(less, ValuesIn(responses, order)));
    ResolvedBelow(less, responses, order, u);
    assert Leq(ClockOf(responses[n]), u);
  }

  // ---------- When quorums are bound to meet ----------

  /** `quorum` replicas out of those chosen for some listing of the ring, all nodes being up. */
  ghost predicate Reachable(ring: set<NodeId>, primary: NodeId, replication: nat, quorum: nat, q: set<NodeId>) {
    && |q| >= quorum
    && exists all :: Enumerates(all, ring) && q <= Elements(Replicas(all, primary, replication, ring))
  }

  ghost predicate QuorumsMeet(ring: set<NodeId>, primary: NodeId, replication: nat, w: nat, r: nat) {
    forall a, b :: Reachable(ring, primary, replication, w, a) && Reachable(ring, primary, replication, r, b) ==>
        a * b != {}
  }

  lemma {:induction false} ReplicasAllUp(all: seq<NodeId>, ring: set<NodeId>, primary: NodeId, replication: nat)
    requires Enumerates(all, ring) && all != []
    ensures Distinct(all) && Elements(all) == ring
    ensures Replicas(all, primary, replication, ring) == Window(all, PrimaryIndex(all, primary), replication)
    ensures Elements(Replicas(all, primary, replication, ring)) <= ring
  {
    var p := PrimaryIndex(all, primary);
    assert Elements(all) == ring;
    WindowInside(all, p, replication);
    AllUpIsWindow(Window(all, p, replication), Rotated(all, p + replication), ring);
  }

  /** More than all nodes being available makes no difference. */
  lemma {:induction false} ReplicasMoreUp(all: seq<NodeId>, ring: set<NodeId>, primary: NodeId, replication: nat,
                                          avail: set<NodeId>)
    requires Enumerates(all, ring) && all != [] && ring <= avail
    ensures Replicas(all, primary, replication, avail) == Replicas(all, primary, replication, ring)
  {
    var p := PrimaryIndex(all, primary);
    ReplicasAllUp(all, ring, primary, replication);
    WindowInside(all, p, replication);
    AllUpIsWindow(Window(all, p, replication), Rotated(all, p + replication), avail);
  }

  /** With replication at least 1, the window starts with the primary. */
  lemma {:induction false} WindowHasPrimary(all: seq<NodeId>, primary: NodeId, replication: nat)
    requires all != [] && primary in all && replication > 0 && Distinct(all)
    ensures var w := Window(all, PrimaryIndex(all, primary), replication);
            w != [] && w[0] == primary && |Elements(w)| == WindowSize(|all|, replication)
  {
    var p := PrimaryIndex(all, primary);
    RotatedAt(all, p, 0);
    ModUnique(p, 0, p, |all|);
    WindowInside(all, p, replication);
    ElementsSize(Window(all, p, replication));
  }

  lemma {:induction false} SomeListing(s: set<NodeId>) returns (ids: seq<NodeId>)
    ensures Enumerates(ids, s) && |ids| == |s|
  {
    if s == {} {
      ids := [];
    } else {
      var x :| x in s;
      ids := SomeListing(s - {x});
      EnumerateMore(ids, s - {x}, x);
      ids := ids + [x];
      assert s - {x} + {x} == s;
    }
  }

  lemma {:induction false} Extended(s: set<NodeId>, ring: set<NodeId>, k: nat) returns (t: set<NodeId>)
    requires s <= ring && |s| <= k <= |ring|
    ensures s <= t <= ring && |t| == k
    decreases k - |s|
  {
    if |s| == k {
      t := s;
    } else {
      assert |ring - s| == |ring| - |s|;
      var x :| x in ring - s;
      t := Extended(s + {x}, ring, k);
    }
  }

  /** Any set of the right size that contains the primary is the window of some listing. */
  lemma {:induction false} AnyWindow(ring: set<NodeId>, primary: NodeId, replication: nat, x: set<NodeId>)
    returns (all: seq<NodeId>)
    requires primary in x && x <= ring && |x| == WindowSize(|ring|, replication)
    ensures Enumerates(all, ring) && all != [] && Elements(Window(all, PrimaryIndex(all, primary), replication)) == x
  {
    var inside := SomeListing(x - {primary});
    var outside := SomeListing(ring - x);
    var front := [primary] + inside;
    all := front + outside;
    ListParts(primary, inside, outside, x, ring);
    assert |front| == |x|;
    assert all[0] == primary;
    assert PrimaryIndex(all, primary) == 0;
    EnumerationSize(all, ring);
    assert Rotated(all, 0) == all;
    assert Window(all, 0, replication) == front;
  }

  lemma {:induction false} ListParts(primary: NodeId, inside: seq<NodeId>, outside: seq<NodeId>, x: set<NodeId>,
                                     ring: set<NodeId>)
    requires primary in x && x <= ring && Enumerates(inside, x - {primary}) && Enumerates(outside, ring - x)
    ensures Enumerates([primary] + inside + outside, ring)
    ensures Elements([primary] + inside) == x
  {
  }

  /** Two quorums that avoid each other, when neither the ring is too small nor the windows full. */
  lemma {:induction false} DisjointQuorums(ring: set<NodeId>, primary: NodeId, replication: nat, small: nat,
                                           other: nat) returns (a: set<NodeId>, b: set<NodeId>)
    requires primary in ring && replication > 0 && other > 0
    requires small + other <= |ring| && small < replication && other <= replication
    ensures Reachable(ring, primary, replication, small, a) && Reachable(ring, primary, replication, other, b) &&
            a * b == {}
  {
    var m := WindowSize(|ring|, replication);
    assert |ring - {primary}| == |ring| - 1;
    a := Extended({}, ring - {primary}, small);
    assert |ring - a| == |ring| - small;
    b := Extended({primary}, ring - a, other);
    var x := Extended(a + {primary}, ring, m);
    var y := Extended(b, ring, m);
    InsideWindow(ring, primary, replication, small, a, x);
    InsideWindow(ring, primary, replication, other, b, y);
  }

  lemma {:induction false} InsideWindow(ring: set<NodeId>, primary: NodeId, replication: nat, quorum: nat,
                                        q: set<NodeId>, x: set<NodeId>)
    requires primary in x && x <= ring && |x| == WindowSize(|ring|, replication)
    requires q <= x && |q| >= quorum
    ensures Reachable(ring, primary, replication, quorum, q)
  {
    var all := AnyWindow(ring, primary, replication, x);
    ReplicasAllUp(all, ring, primary, replication);
  }

  ghost predicate BoundToMeet(ring: set<NodeId>, replication: nat, w: nat, r: nat) {
    var m := WindowSize(|ring|, replication);
    w + r > |ring| || (w >= m && r >= m) || w > m || r > m
  }

  /** Reads are bound to meet earlier writes, whatever listings the two calls drew, exactly when
      the quorums together exceed the ring, or both take the whole window (and so contain the
      primary), or one of them asks for more replicas than a window has. The configured rule,
      quorums that together exceed the replication factor, gives the first case on rings of at
      most that many nodes only. */
  lemma {:induction false} QuorumsMeetExactly(ring: set<NodeId>, primary: NodeId, replication: nat, w: nat, r: nat)
    requires primary in ring && replication > 0 && w > 0 && r > 0
    ensures QuorumsMeet(ring, primary, replication, w, r) <==> BoundToMeet(ring, replication, w, r)
  {
    if BoundToMeet(ring, replication, w, r) {
      forall a, b | Reachable(ring, primary, replication, w, a) && Reachable(ring, primary, replication, r, b)
        ensures a * b != {} {
        ReachableMeet(ring, primary, replication, w, r, a, b);
      }
    } else {
      QuorumsMayMiss(ring, primary, replication, w, r);
    }
  }

  lemma {:induction false} QuorumsMayMiss(ring: set<NodeId>, primary: NodeId, replication: nat, w: nat, r: nat)
    requires primary in ring && replication > 0 && w > 0 && r > 0 && !BoundToMeet(ring, replication, w, r)
    ensures exists a, b ::
              Reachable(ring, primary, replication, w, a) && Reachable(ring, primary, replication, r, b) && a * b == {}
  {
    if w < WindowSize(|ring|, replication) {
      var a, b := DisjointQuorums(ring, primary, replication, w, r);
    } else {
      var b, a := DisjointQuorums(ring, primary, replication, r, w);
      assert a * b == {};
    }
  }

  lemma {:induction false} ChosenShape(all: seq<NodeId>, ring: set<NodeId>, primary: NodeId, replication: nat)
    requires primary in ring && replication > 0 && Enumerates(all, ring)
    ensures var chosen := Elements(Replicas(all, primary, replication, ring));
            chosen <= ring && |chosen| == WindowSize(|ring|, replication) && primary in chosen
  {
    assert primary in all;
    ReplicasAllUp(all, ring, primary, replication);
    EnumerationSize(all, ring);
    WindowHasPrimary(all, primary, replication);
    var w := Window(all, PrimaryIndex(all, primary), replication);
    assert w[0] in Elements(w);
  }

  lemma {:induction false} ReachableShape(ring: set<NodeId>, primary: NodeId, replication: nat, quorum: nat,
                                          q: set<NodeId>)
    requires primary in ring && replication > 0 && Reachable(ring, primary, replication, quorum, q)
    ensures q <= ring && quorum <= |q| <= WindowSize(|ring|, replication)
    ensures |q| == WindowSize(|ring|, replication) ==> primary in q
  {
    var all :| Enumerates(all, ring) && q <= Elements(Replicas(all, primary, replication, ring));
    ChosenShape(all, ring, primary, replication);
    FullSubset(q, Elements(Replicas(all, primary, replication, ring)));
  }

  lemma {:induction false} FullSubset(q: set<NodeId>, t: set<NodeId>)
    requires q <= t
    ensures |q| <= |t| && (|q| == |t| ==> q == t)
  {
    assert |t - q| == |t| - |q|;
  }

  lemma {:induction false} ReachableMeet(ring: set<NodeId>, primary: NodeId, replication: nat, w: nat, r: nat,
                                         a: set<NodeId>, b: set<NodeId>)
    requires primary in ring && replication > 0 && BoundToMeet(ring, replication, w, r)
    requires Reachable(ring, primary, replication, w, a) && Reachable(ring, primary, replication, r, b)
    ensures a * b != {}
  {
    ReachableShape(ring, primary, replication, w, a);
    ReachableShape(ring, primary, replication, r, b);
    if w + r > |ring| {
      var n := Overlap(ring, a, b);
      assert n in a * b;
    } else {
      assert primary in a * b;
    }
  }

  /** A write whose replicas acknowledge it at any steps of a run, and a read whose replicas answer at
      any later steps: with quorums bound to meet, the read covers the write, whatever happens
      before, between and after these steps. */
  lemma {:induction false} ReadSeesWrite(less: PayloadOrder, cl: Cluster, steps: seq<Step>, primary: NodeId,
                                         replication: nat, w: nat, r: nat, key: Key, vc: Clock, acks: map<NodeId, nat>,
                                         asked: map<NodeId, nat>, responses: map<NodeId, StoredValue>,
                                         order: seq<NodeId>)
    requires SoundCluster(cl) && AllowedRun(less, cl, steps)
    requires primary in cl && replication > 0 && BoundToMeet(cl.Keys, replication, w, r)
    requires Reachable(cl.Keys, primary, replication, w, acks.Keys) &&
             Reachable(cl.Keys, primary, replication, r, asked.Keys)
    requires forall n :: n in acks ==> Acknowledged(steps, n, acks[n], key, vc)
    requires responses.Keys == asked.Keys && forall n :: n in asked ==>
             Answered(less, cl, steps, n, asked[n], key, responses[n])
    requires forall n, m :: n in acks && m in asked ==> acks[n] < asked[m]
    requires Enumerates(order, responses.Keys)
    ensures Leq(vc, EntryClock(Resolve(less, ValuesIn(responses, order))))
  {
    ReachableMeet(cl.Keys, primary, replication, w, r, acks.Keys, asked.Keys);
    var n :| n in acks.Keys * asked.Keys;
    SharedReplicaSuffices(less, cl, steps, key, vc, n, acks[n], asked[n], responses, order);
  }
}
