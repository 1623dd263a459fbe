/** No phantom events: in every run of the store, forced writes, repairs and hints included, a
    clock component never exceeds the number of writes its node has coordinated, and no clock is
    empty. */
module Events {
  import opened Clocks
  import opened Versions
  import opened Payloads
  import opened Merging
  import opened Writes
  import opened Resolution
  import opened Wire
  import opened Reconciliation
  import opened AntiEntropy
  import opened Hints

  /** A version of a key on its way: a replica write, a response, a repair or a hint handed off. */
  datatype Parcel = Parcel(key: Key, value: StoredValue)

  /** `started` counts the Puts each node has coordinated. */
  datatype State = State(started: map<NodeId, nat>, stores: Cluster, hints: set<HintedWrite>, parcels: set<Parcel>)

  datatype Step =
    | StartPut(c: NodeId, key: Key, value: Value, now: int)
    | WriteLocally(parcel: Parcel, n: NodeId, now: int)
    | WriteRemotely(parcel: Parcel, n: NodeId, forced: bool, now: int)
    | Read(n: NodeId, key: Key)
    | Resolved(key: Key, order: seq<StoredValue>)
    | Repair(parcel: Parcel, n: NodeId, now: int)
    | Reconciled(a: NodeId, b: NodeId, key: Key, getOk: bool, repairOk: bool, now: int)
    | StoreHint(parcel: Parcel, key: Key, value: Value, target: NodeId, now: int)
    | HandOff(hint: HintedWrite)

  /** Hints may name any key: handing off a replacement's response guesses it. */
  ghost predicate Enabled(s: State, step: Step) {
    match step
    case StartPut(c, _, _, _) => c in s.stores && c in s.started
    case WriteLocally(p, n, _) => p in s.parcels && n in s.stores
    case WriteRemotely(p, n, _, _) => p in s.parcels && n in s.stores
    case Read(n, k) => n in s.stores && k in s.stores[n]
    case Resolved(k, order) => order != [] && forall v :: v in order ==> Parcel(k, v) in s.parcels
    case Repair(p, n, _) => p in s.parcels && n in s.stores
    case Reconciled(a, b, _, _, _, _) => a in s.stores && b in s.stores && a != b
    case StoreHint(p, _, _, _, _) => p in s.parcels
    case HandOff(h) => h in s.hints
  }

  /** updateLocalVectorClock. */
  function PutClock(s: State, c: NodeId, key: Key): Clock
    requires c in s.stores
  {
    Incremented(EntryClock(Entry(s.stores[c], key)), c)
  }

  function Stored(s: State, n: NodeId, key: Key, e: Option<StoredValue>): State
    requires n in s.stores
  {
    if e.Some? then s.(stores := s.stores[n := s.stores[n][key := e.value]]) else s
  }

  function PutStarted(s: State, c: NodeId, key: Key, value: Value, now: int): State
    requires c in s.stores && c in s.started
  {
    s.(started := s.started[c := s.started[c] + 1],
       parcels := s.parcels + {Parcel(key, StoredValue(value, Some(PutClock(s, c, key)), [], now))})
  }

  ghost function Next(s: State, step: Step, less: PayloadOrder): State
    requires Enabled(s, step)
  {
    match step
    case StartPut(c, k, value, now) => PutStarted(s, c, k, value, now)
    case WriteLocally(p, n, now) =>
      Stored(s, n, p.key, Some(Put(Entry(s.stores[n], p.key), Write(p.value.value, ClockOf(p.value), now))))
    case WriteRemotely(p, n, forced, now) =>
      Stored(s, n, p.key, Some(ReplicaWrite(Entry(s.stores[n], p.key), Sent(p.value, now), forced, n, now)))
    case Read(n, k) => s.(parcels := s.parcels + {Parcel(k, s.stores[n][k])})
    case Resolved(k, order) => s.(parcels := s.parcels + {Parcel(k, Resolve(less, order).value)})
    case Repair(p, n, now) => Stored(s, n, p.key, Some(Sent(p.value, now)))
    case Reconciled(a, b, k, getOk, repairOk, now) =>
      var (l, r) := Reconcile(less, Entry(s.stores[a], k), Entry(s.stores[b], k), getOk, repairOk, now);
      Stored(Stored(s, a, k, l), b, k, r)
    case StoreHint(p, k, value, target, now) =>
      s.(hints := s.hints + {HintedWrite(k, value, ClockOf(p.value), target, now, 0)})
    case HandOff(h) => s.(parcels := s.parcels + {Parcel(h.key, StoredValue(h.value, Some(h.clock), [], h.time))})
  }

  // ---------- Genuine clocks ----------

  /** Every component counts writes its node did start; the lower bound keeps truncation on the
      wire from raising a counter. */
  ghost predicate Genuine(c: Clock, started: map<NodeId, nat>) {
    c != map[] && forall n :: n in c ==> n in started && INT32_MIN <= c[n] <= started[n]
  }

  ghost predicate GenuineTree(v: StoredValue, started: map<NodeId, nat>)
    decreases v, 1
  {
    v.clock.Some? && Genuine(v.clock.value, started) && GenuineTrees(v.conflicts, started)
  }

  ghost predicate GenuineTrees(vs: seq<StoredValue>, started: map<NodeId, nat>)
    decreases vs, 0
  {
    vs != [] ==> GenuineTree(vs[0], started) && GenuineTrees(vs[1..], started)
  }

  ghost predicate GenuineEntry(e: Option<StoredValue>, started: map<NodeId, nat>) {
    e.Some? ==> GenuineTree(e.value, started)
  }

  ghost predicate NoPhantoms(s: State) {
    && (forall n :: n in s.stores ==> GenuineStore(s.stores[n], s.started))
    && (forall h :: h in s.hints ==> Genuine(h.clock, s.started))
    && (forall p :: p in s.parcels ==> GenuineTree(p.value, s.started))
  }

  ghost predicate GenuineStore(st: Store, started: map<NodeId, nat>) {
    forall k :: k in st ==> GenuineTree(st[k], started)
  }

  lemma {:induction false} GenuineAppend(xs: seq<StoredValue>, ys: seq<StoredValue>, started: map<NodeId, nat>)
    ensures GenuineTrees(xs + ys, started) <==> GenuineTrees(xs, started) && GenuineTrees(ys, started)
  {
    if xs == [] {
      assert xs + ys == ys;
    } else {
      assert (xs + ys)[0] == xs[0] && (xs + ys)[1..] == xs[1..] + ys;
      GenuineAppend(xs[1..], ys, started);
    }
  }

  lemma {:induction false} GenuineOne(v: StoredValue, started: map<NodeId, nat>)
    ensures GenuineTrees([v], started) <==> GenuineTree(v, started)
  {
  }

  lemma {:induction false} GenuineJoin(a: Clock, b: Clock, started: map<NodeId, nat>)
    requires Genuine(a, started) && Genuine(b, started)
    ensures Genuine(Join(a, b), started)
  {
    var n :| n in a;
    assert n in Join(a, b);
  }

  lemma {:induction false} GenuineCombine(a: StoredValue, b: StoredValue, started: map<NodeId, nat>)
    requires GenuineTree(a, started) && GenuineTree(b, started)
    ensures GenuineTree(Combine(a, b), started)
  {
    var base := b.(conflicts := []);
    GenuineOne(base, started);
    GenuineAppend(b.conflicts, [base], started);
    GenuineAppend(a.conflicts, ConflictEntries(b), started);
    GenuineJoin(ClockOf(a), ClockOf(b), started);
  }

  lemma {:induction false} GenuineMerge(less: PayloadOrder, a: StoredValue, b: StoredValue, started: map<NodeId, nat>)
    requires GenuineTree(a, started) && GenuineTree(b, started)
    ensures GenuineTree(Merge(less, a, b), started)
  {
    GenuineCombine(a, b, started);
    GenuineCombine(b, a, started);
  }

  lemma {:induction false} GenuinePut(e: Option<StoredValue>, w: Write, started: map<NodeId, nat>)
    requires GenuineEntry(e, started) && Genuine(w.clock, started)
    ensures GenuineTree(Put(e, w), started)
  {
    if e.Some? {
      GenuineOne(e.value, started);
      GenuineAppend(e.value.conflicts, [e.value], started);
      GenuineJoin(w.clock, ClockOf(e.value), started);
    }
  }

  lemma {:induction false} GenuineSent(v: StoredValue, now: int, started: map<NodeId, nat>)
    requires GenuineTree(v, started)
    ensures GenuineTree(Sent(v, now), started)
    decreases v, 1
  {
    var c := EncodeClock(v.clock);
    var n :| n in v.clock.value;
    assert n in c;
    GenuineSentEach(v.conflicts, now, started);
  }

  lemma {:induction false} GenuineSentEach(vs: seq<StoredValue>, now: int, started: map<NodeId, nat>)
    requires GenuineTrees(vs, started)
    ensures GenuineTrees(SentEach(vs, now), started)
    decreases vs, 0
  {
    if vs != [] {
      GenuineSent(vs[0], now, started);
      GenuineSentEach(vs[1..], now, started);
      SentHead(vs, now);
    }
  }

  lemma {:induction false} GenuineReplicaWrite(e: Option<StoredValue>, v: StoredValue, forced: bool, n: NodeId,
                                               now: int, started: map<NodeId, nat>)
    requires GenuineEntry(e, started) && GenuineTree(v, started)
    ensures GenuineTree(ReplicaWrite(e, v, forced, n, now), started)
  {
    assert Stamped(v, n) == v;
    if !forced {
      GenuinePut(e, Write(v.value, ClockOf(v), now), started);
    }
  }

  lemma {:induction false} GenuineReconcile(less: PayloadOrder, l: Option<StoredValue>, r: Option<StoredValue>,
                                            getOk: bool, repairOk: bool, now: int, started: map<NodeId, nat>)
    requires GenuineEntry(l, started) && GenuineEntry(r, started)
    ensures var (l', r') := Reconcile(less, l, r, getOk, repairOk, now);
            GenuineEntry(l', started) && GenuineEntry(r', started)
  {
    if r.Some? {
      GenuineSent(r.value, now, started);
    }
    if l.Some? {
      GenuineSent(l.value, now, started);
    }
    if Visible(l).Some? && getOk && Visible(r).Some? {
      GenuineBoth(less, l.value, r.value, repairOk, now, started);
    }
  }

  lemma {:induction false} GenuineBoth(less: PayloadOrder, l: StoredValue, r: StoredValue, repairOk: bool, now: int,
                                       started: map<NodeId, nat>)
    requires GenuineTree(l, started) && GenuineTree(r, started) && l.value != Nil && r.value != Nil
    ensures var (l', r') := Reconcile(less, Some(l), Some(r), true, repairOk, now);
            GenuineEntry(l', started) && GenuineEntry(r', started)
  {
    var f := Sent(r, now);
    var m := Merge(less, l, f);
    GenuineSent(r, now, started);
    GenuineSent(l, now, started);
    GenuineMerge(less, l, f, started);
    GenuineSent(m, now, started);
    assert f.value == r.value;
    GenuineCases(l, f, m, Some(r), Repaired(l, Some(r), repairOk, now), Repaired(m, Some(r), repairOk, now), started);
  }

  lemma {:induction false} GenuineCases(l: StoredValue, f: StoredValue, m: StoredValue, r: Option<StoredValue>,
                                        localSent: Option<StoredValue>, mergedSent: Option<StoredValue>,
                                        started: map<NodeId, nat>)
    requires GenuineTree(l, started) && GenuineTree(f, started) && GenuineTree(m, started) && GenuineEntry(r, started)
    requires GenuineEntry(localSent, started) && GenuineEntry(mergedSent, started)
    ensures var (l', r') := ByCausality(l, f, m, r, localSent, mergedSent);
            GenuineEntry(l', started) && GenuineEntry(r', started)
  {
  }

  lemma {:induction false} GenuineResolve(less: PayloadOrder, order: seq<StoredValue>, started: map<NodeId, nat>)
    requires forall v :: v in order ==> GenuineTree(v, started)
    ensures GenuineEntry(Resolve(less, order), started)
  {
    if order != [] {
      var front, v := order[..|order| - 1], order[|order| - 1];
      GenuineResolve(less, front, started);
      if front != [] {
        GenuineMerge(less, Resolve(less, front).value, v, started);
      }
    }
  }

  // ---------- More Puts only leave more room ----------

  ghost predicate StartedGrows(s: map<NodeId, nat>, t: map<NodeId, nat>) {
    forall n :: n in s ==> n in t && s[n] <= t[n]
  }

  lemma {:induction false} GenuineGrows(v: StoredValue, s: map<NodeId, nat>, t: map<NodeId, nat>)
    requires GenuineTree(v, s) && StartedGrows(s, t)
    ensures GenuineTree(v, t)
    decreases v, 1
  {
    GenuineTreesGrow(v.conflicts, s, t);
  }

  lemma {:induction false} GenuineTreesGrow(vs: seq<StoredValue>, s: map<NodeId, nat>, t: map<NodeId, nat>)
    requires GenuineTrees(vs, s) && StartedGrows(s, t)
    ensures GenuineTrees(vs, t)
    decreases vs, 0
  {
    if vs != [] {
      GenuineGrows(vs[0], s, t);
      GenuineTreesGrow(vs[1..], s, t);
    }
  }

  lemma {:induction false} GenuineStoreGrows(st: Store, s: map<NodeId, nat>, t: map<NodeId, nat>)
    requires GenuineStore(st, s) && StartedGrows(s, t)
    ensures GenuineStore(st, t)
  {
    forall k | k in st ensures GenuineTree(st[k], t) {
      GenuineGrows(st[k], s, t);
    }
  }

  lemma {:induction false} PutClockGenuine(s: State, c: NodeId, key: Key)
    requires NoPhantoms(s) && c in s.stores && c in s.started
    ensures Genuine(PutClock(s, c, key), s.started[c := s.started[c] + 1])
    ensures StartedGrows(s.started, s.started[c := s.started[c] + 1])
  {
  }

  lemma {:induction false} StartPutKeeps(s: State, c: NodeId, key: Key, value: Value, now: int)
    requires NoPhantoms(s) && c in s.stores && c in s.started
    ensures NoPhantoms(PutStarted(s, c, key, value, now))
  {
    var t, vc := s.started[c := s.started[c] + 1], PutClock(s, c, key);
    var v := StoredValue(value, Some(vc), [], now);
    assert StartedGrows(s.started, t) && GenuineTree(v, t) by {
      PutClockGenuine(s, c, key);
      SingleGenuine(value, vc, now, t);
    }
    NewParcelKeeps(s, t, Parcel(key, v));
    assert PutStarted(s, c, key, value, now) == s.(started := t, parcels := s.parcels + {Parcel(key, v)});
  }

  lemma {:induction false} NewParcelKeeps(s: State, t: map<NodeId, nat>, p: Parcel)
    requires NoPhantoms(s) && StartedGrows(s.started, t) && GenuineTree(p.value, t)
    ensures NoPhantoms(s.(started := t, parcels := s.parcels + {p}))
  {
    CountingKeeps(s, t);
    ParcelKeeps(s.(started := t), p);
  }

  lemma {:induction false} SingleGenuine(value: Value, c: Clock, time: int, started: map<NodeId, nat>)
    requires Genuine(c, started)
    ensures GenuineTree(StoredValue(value, Some(c), [], time), started)
  {
  }

  lemma {:induction false} CountingKeeps(s: State, t: map<NodeId, nat>)
    requires NoPhantoms(s) && StartedGrows(s.started, t)
    ensures NoPhantoms(s.(started := t))
  {
    forall n | n in s.stores ensures GenuineStore(s.stores[n], t) {
      GenuineStoreGrows(s.stores[n], s.started, t);
    }
    forall p | p in s.parcels ensures GenuineTree(p.value, t) {
      GenuineGrows(p.value, s.started, t);
    }
  }

  lemma {:induction false} ParcelKeeps(s: State, p: Parcel)
    requires NoPhantoms(s) && GenuineTree(p.value, s.started)
    ensures NoPhantoms(s.(parcels := s.parcels + {p}))
  {
  }

  lemma {:induction false} StoredKeeps(s: State, n: NodeId, key: Key, e: Option<StoredValue>)
    requires NoPhantoms(s) && n in s.stores && GenuineEntry(e, s.started)
    ensures NoPhantoms(Stored(s, n, key, e))
  {
  }

  lemma {:induction false} EntryGenuine(s: State, n: NodeId, key: Key)
    requires NoPhantoms(s) && n in s.stores
    ensures GenuineEntry(Entry(s.stores[n], key), s.started)
  {
  }

  lemma {:induction false} StepKeeps(s: State, step: Step, less: PayloadOrder)
    requires NoPhantoms(s) && Enabled(s, step)
    ensures NoPhantoms(Next(s, step, less))
  {
    match step {
      case StartPut(c, k, value, now) => StartPutKeeps(s, c, k, value, now);
      case WriteLocally(p, n, now) =>
        EntryGenuine(s, n, p.key);
        var w := Write(p.value.value, ClockOf(p.value), now);
        GenuinePut(Entry(s.stores[n], p.key), w, s.started);
        StoredKeeps(s, n, p.key, Some(Put(Entry(s.stores[n], p.key), w)));
      case WriteRemotely(p, n, forced, now) =>
        EntryGenuine(s, n, p.key);
        GenuineSent(p.value, now, s.started);
        GenuineReplicaWrite(Entry(s.stores[n], p.key), Sent(p.value, now), forced, n, now, s.started);
        StoredKeeps(s, n, p.key, Some(ReplicaWrite(Entry(s.stores[n], p.key), Sent(p.value, now), forced, n, now)));
      case Read(n, k) => EntryGenuine(s, n, k);
      case Resolved(k, order) => ResolvedKeeps(s, k, order, less);
      case Repair(p, n, now) =>
        GenuineSent(p.value, now, s.started);
        StoredKeeps(s, n, p.key, Some(Sent(p.value, now)));
      case Reconciled(a, b, k, getOk, repairOk, now) => ReconciledKeeps(s, a, b, k, getOk, repairOk, now, less);
      case StoreHint(p, _, _, _, _) =>
      case HandOff(h) =>
    }
  }

  lemma {:induction false} ResolvedKeeps(s: State, k: Key, order: seq<StoredValue>, less: PayloadOrder)
    requires NoPhantoms(s) && Enabled(s, Resolved(k, order))
    ensures NoPhantoms(Next(s, Resolved(k, order), less))
  {
    forall v | v in order ensures GenuineTree(v, s.started) {
      assert Parcel(k, v) in s.parcels;
    }
    GenuineResolve(less, order, s.started);
  }

  lemma {:induction false} ReconciledKeeps(s: State, a: NodeId, b: NodeId, k: Key, getOk: bool, repairOk: bool,
                                           now: int, less: PayloadOrder)
    requires NoPhantoms(s) && a in s.stores && b in s.stores && a != b
    ensures NoPhantoms(Next(s, Reconciled(a, b, k, getOk, repairOk, now), less))
  {
    EntryGenuine(s, a, k);
    EntryGenuine(s, b, k);
    var (l, r) := Reconcile(less, Entry(s.stores[a], k), Entry(s.stores[b], k), getOk, repairOk, now);
    GenuineReconcile(less, Entry(s.stores[a], k), Entry(s.stores[b], k), getOk, repairOk, now, s.started);
    StoredKeeps(s, a, k, l);
    StoredKeeps(Stored(s, a, k, l), b, k, r);
  }

  // ---------- Runs ----------

  ghost predicate Empty(s: State) {
    && (forall n :: n in s.stores ==> s.stores[n] == map[])
    && s.hints == {} && s.parcels == {}
  }

  ghost predicate Reaches(s: State, steps: seq<Step>, t: State, less: PayloadOrder)
    decreases |steps|
  {
    if steps == [] then s == t
    else Enabled(s, steps[0]) && Reaches(Next(s, steps[0], less), steps[1..], t, less)
  }

  lemma {:induction false} ReachesKeeps(s: State, steps: seq<Step>, t: State, less: PayloadOrder)
    requires NoPhantoms(s) && Reaches(s, steps, t, less)
    ensures NoPhantoms(t)
    decreases |steps|
  {
    if steps != [] {
      StepKeeps(s, steps[0], less);
      ReachesKeeps(Next(s, steps[0], less), steps[1..], t, less);
    }
  }

  /** Every stored, hinted or travelling clock in every run from empty stores is non-empty and
      counts, for each node, no more writes than that node has started. */
  lemma {:induction false} NoPhantomEvents(s: State, steps: seq<Step>, t: State, less: PayloadOrder)
    requires Empty(s) && Reaches(s, steps, t, less)
    ensures NoPhantoms(t)
  {
    ReachesKeeps(s, steps, t, less);
  }
}
