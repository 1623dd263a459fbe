/** Anti-entropy passes over a whole cluster: one node synchronises with each peer in turn. */
module AntiEntropy {
  import opened Clocks
  import opened Sequences
  import opened Sorting
  import opened Versions
  import opened Payloads
  import opened Reconciliation
  import opened Passes

  type Cluster = map<NodeId, Store>

  ghost predicate SoundCluster(cl: Cluster) {
    forall n :: n in cl ==> SoundStore(cl[n])
  }

  /** performMerkleSyncWithNode from `c` towards `p`, as a change of the cluster. */
  function SyncAt(less: PayloadOrder, cl: Cluster, c: NodeId, p: NodeId, up: set<NodeId>, now: int): Cluster {
    if p == c || p !in up || c !in cl || p !in cl then cl
    else
      var (a, b) := SyncStores(less, cl[c], cl[p], now);
      cl[c := a][p := b]
  }

  /** performAntiEntropy at `c`, with the peers visited in the given order. */
  function Pass(less: PayloadOrder, cl: Cluster, c: NodeId, order: seq<NodeId>, up: set<NodeId>, now: int): Cluster {
    if order == [] then cl else Pass(less, SyncAt(less, cl, c, order[0], up, now), c, order[1..], up, now)
  }

  /** The same when remote calls may fail; `calls(p)` says which calls to peer p go through. */
  function SyncAtUnder(less: PayloadOrder, bucketOf: Key -> nat, cl: Cluster, c: NodeId, p: NodeId, up: set<NodeId>,
                       calls: Calls, now: int): Cluster {
    if p == c || p !in up || c !in cl || p !in cl then cl
    else
      var (a, b) := SyncStoresUnder(less, cl[c], cl[p], bucketOf, calls, now);
      cl[c := a][p := b]
  }

  function PassUnder(less: PayloadOrder, bucketOf: Key -> nat, cl: Cluster, c: NodeId, order: seq<NodeId>,
                     up: set<NodeId>, calls: NodeId -> Calls, now: int): Cluster {
    if order == [] then cl
    else PassUnder(less, bucketOf, SyncAtUnder(less, bucketOf, cl, c, order[0], up, calls(order[0]), now),
                   c, order[1..], up, calls, now)
  }

  lemma {:induction false} PassAllSucceed(less: PayloadOrder, bucketOf: Key -> nat, cl: Cluster, c: NodeId,
                                          order: seq<NodeId>, up: set<NodeId>, calls: NodeId -> Calls, now: int)
    requires forall p :: AllSucceed(calls(p))
    ensures PassUnder(less, bucketOf, cl, c, order, up, calls, now) == Pass(less, cl, c, order, up, now)
    decreases |order|
  {
    if order != [] {
      var p := order[0];
      if p != c && p in up && c in cl && p in cl {
        SyncStoresAllSucceed(less, cl[c], cl[p], bucketOf, calls(p), now);
      }
      assert SyncAtUnder(less, bucketOf, cl, c, p, up, calls(p), now) == SyncAt(less, cl, c, p, up, now);
      PassAllSucceed(less, bucketOf, SyncAt(less, cl, c, p, up, now), c, order[1..], up, calls, now);
    }
  }

  // ---------- The same, for one key ----------

  function ColumnOf(cl: Cluster, k: Key): Row<Option<StoredValue>> {
    map n | n in cl :: Entry(cl[n], k)
  }

  function RuleAt(less: PayloadOrder, now: int): Rule<Option<StoredValue>> {
    (l, r) => SyncKey(less, l, r, now)
  }

  lemma {:induction false} SyncAtEntry(less: PayloadOrder, cl: Cluster, c: NodeId, p: NodeId, up: set<NodeId>,
                                       now: int, k: Key, n: NodeId)
    requires (p in cl ==> p in up) && n in cl
    ensures n in SyncAt(less, cl, c, p, up, now)
    ensures Entry(SyncAt(less, cl, c, p, up, now)[n], k) == Meet(RuleAt(less, now), ColumnOf(cl, k), c, p)[n]
  {
    if p != c && c in cl && p in cl {
      SyncEntries(less, cl[c], cl[p], now, k);
    }
  }

  lemma {:induction false} ColumnSync(less: PayloadOrder, cl: Cluster, c: NodeId, p: NodeId, up: set<NodeId>, now: int,
                                      k: Key)
    requires p in cl ==> p in up
    ensures SyncAt(less, cl, c, p, up, now).Keys == cl.Keys
    ensures ColumnOf(SyncAt(less, cl, c, p, up, now), k) == Meet(RuleAt(less, now), ColumnOf(cl, k), c, p)
  {
    var next, rule := SyncAt(less, cl, c, p, up, now), RuleAt(less, now);
    assert next.Keys == cl.Keys;
    forall n | n in cl ensures Entry(next[n], k) == Meet(rule, ColumnOf(cl, k), c, p)[n] {
      SyncAtEntry(less, cl, c, p, up, now, k, n);
    }
  }

  /** A pass over the cluster is, key by key, a pass over the entries of that key. */
  lemma {:induction false} ColumnPass(less: PayloadOrder, cl: Cluster, c: NodeId, order: seq<NodeId>, up: set<NodeId>,
                                      now: int, k: Key)
    requires cl.Keys <= up
    ensures ColumnOf(Pass(less, cl, c, order, up, now), k) == PassRow(RuleAt(less, now), ColumnOf(cl, k), c, order)
    ensures Pass(less, cl, c, order, up, now).Keys == cl.Keys
    decreases |order|
  {
    if order != [] {
      ColumnSync(less, cl, c, order[0], up, now, k);
      ColumnPass(less, SyncAt(less, cl, c, order[0], up, now), c, order[1..], up, now, k);
    }
  }

  // ---------- What one synchronisation of a key achieves ----------

  /** A further synchronisation between `l` and `r` would leave `l` as it is and bring `r` to it. */
  ghost predicate Settled(less: PayloadOrder, l: Option<StoredValue>, r: Option<StoredValue>) {
    EntryPayload(less, l) == EntryPayload(less, r) ||
        (l.Some? && l.value.clock.Some? && Leq(EntryClock(r), EntryClock(l)))
  }

  ghost predicate SamePayload(less: PayloadOrder, l: Option<StoredValue>, r: Option<StoredValue>) {
    EntryPayload(less, l) == EntryPayload(less, r)
  }

  ghost predicate Below(e: Option<StoredValue>, u: Clock) {
    Leq(EntryClock(e), u)
  }

  ghost predicate Above(e: Option<StoredValue>, c: Clock) {
    Leq(c, EntryClock(e))
  }

  /** `e` holds the values `x`, under a clock that `u` does not cover. */
  ghost predicate Carries(e: Option<StoredValue>, x: multiset<Value>, c: Clock) {
    x <= EntryValues(e) && Leq(c, EntryClock(e))
  }

  lemma {:induction false} SettledSync(less: PayloadOrder, l: Option<StoredValue>, r: Option<StoredValue>, now: int)
    requires Settled(less, l, r) && Sound(l) && Sound(r)
    ensures SyncKey(less, l, r, now).0 == l
  {
    if EntryPayload(less, l) != EntryPayload(less, r) && r.Some? {
      var f, m, localSent, mergedSent := BothParts(less, l.value, r.value, true, now);
    }
  }

  /** What a node has settled stays settled when it synchronises with a third node. */
  lemma {:induction false} SettledStays(less: PayloadOrder, l: Option<StoredValue>, r: Option<StoredValue>,
                                        l': Option<StoredValue>)
    requires StrictTotal(less) && Settled(less, l, r) && Leq(EntryClock(l), EntryClock(l'))
    requires l' != l ==> l'.Some? && l'.value.clock.Some?
    ensures Settled(less, l', r)
  {
  }

  lemma {:induction false} SyncedBounds(l: Option<StoredValue>, r: Option<StoredValue>, l': Option<StoredValue>,
                                        r': Option<StoredValue>, u: Clock)
    requires EntryClock(l') == EntryClock(r') == Join(EntryClock(l), EntryClock(r))
    ensures Below(l, u) && Below(r, u) ==> Below(l', u) && Below(r', u)
    ensures Above(l', EntryClock(l)) && Above(r', EntryClock(r))
    ensures Above(l, u) ==> Above(l', u)
    ensures Above(r, u) ==> Above(r', u)
  {
  }

  lemma {:induction false} RuleFacts(less: PayloadOrder, now: int, l: Option<StoredValue>, r: Option<StoredValue>)
    returns (l': Option<StoredValue>, r': Option<StoredValue>)
    requires StrictTotal(less) && Sound(l) && Sound(r)
    ensures RuleAt(less, now)(l, r) == (l', r') && Synced(less, l, r, l', r')
    ensures Settled(less, l, r) ==> l' == l
  {
    l', r' := SyncKey(less, l, r, now).0, SyncKey(less, l, r, now).1;
    SyncKeySound(less, l, r, now);
    if Settled(less, l, r) {
      SettledSync(less, l, r, now);
    }
  }

  lemma {:induction false} RuleKeepsSound(less: PayloadOrder, now: int)
    requires StrictTotal(less)
    ensures Closed(RuleAt(less, now), Sound)
  {
    var rule := RuleAt(less, now);
    forall l, r | Sound(l) && Sound(r) ensures Sound(rule(l, r).0) && Sound(rule(l, r).1) {
      var l', r' := RuleFacts(less, now, l, r);
    }
  }

  lemma {:induction false} RuleKeepsBelow(less: PayloadOrder, now: int, u: Clock)
    requires StrictTotal(less)
    ensures Closed(RuleAt(less, now), e => Sound(e) && Below(e, u))
  {
    var rule := RuleAt(less, now);
    forall l, r | Sound(l) && Below(l, u) && Sound(r) && Below(r, u)
      ensures Sound(rule(l, r).0) && Below(rule(l, r).0, u) && Sound(rule(l, r).1) && Below(rule(l, r).1, u)
    {
      var l', r' := RuleFacts(less, now, l, r);
      SyncedBounds(l, r, l', r', u);
    }
  }

  lemma {:induction false} RuleKeepsAbove(less: PayloadOrder, now: int, c: Clock)
    requires StrictTotal(less)
    ensures Upward(RuleAt(less, now), Sound, e => Above(e, c))
  {
    var rule := RuleAt(less, now);
    forall l, r | Sound(l) && Sound(r)
      ensures (Above(l, c) ==> Above(rule(l, r).0, c)) && (Above(r, c) ==> Above(rule(l, r).1, c))
    {
      var l', r' := RuleFacts(less, now, l, r);
      SyncedBounds(l, r, l', r', c);
    }
  }

  lemma {:induction false} RuleSettles(less: PayloadOrder, now: int)
    requires StrictTotal(less)
    ensures Settling(RuleAt(less, now), Sound, (l, r) => Settled(less, l, r))
    ensures Spreading(RuleAt(less, now), Sound, (l, r) => Settled(less, l, r), (l, r) => SamePayload(less, l, r))
  {
    var rule := RuleAt(less, now);
    forall l, r | Sound(l) && Sound(r)
      ensures Settled(less, rule(l, r).0, rule(l, r).1)
      ensures Settled(less, l, r) ==>
              rule(l, r).0 == l && SamePayload(less, l, rule(l, r).1) && Settled(less, l, rule(l, r).1)
    {
      var l', r' := RuleFacts(less, now, l, r);
    }
    forall l, r, x | Sound(l) && Sound(r) && Sound(x) && Settled(less, l, x)
      ensures Settled(less, rule(l, r).0, x)
    {
      var l', r' := RuleFacts(less, now, l, r);
      SyncedBounds(l, r, l', r', map[]);
      SettledStays(less, l, x, l');
    }
  }

  lemma {:induction false} RuleCarries(less: PayloadOrder, now: int, x: multiset<Value>, c: Clock, u: Clock)
    requires StrictTotal(less) && !Leq(c, u)
    ensures Carrying(RuleAt(less, now), Sound, e => Below(e, u), e => Carries(e, x, c))
  {
    var rule := RuleAt(less, now);
    forall l, r | Sound(l) && Sound(r) && Carries(l, x, c) && Below(r, u)
      ensures Carries(rule(l, r).0, x, c)
    {
      var l', r' := RuleFacts(less, now, l, r);
      StepKeeps(x, c, u, l, r, l');
    }
  }

  lemma {:induction false} RulePicksUp(less: PayloadOrder, now: int, l: Option<StoredValue>, r: Option<StoredValue>,
                                       u: Clock)
    requires StrictTotal(less) && Sound(l) && Sound(r) && Below(l, u) && !Below(r, u)
    ensures Carries(RuleAt(less, now)(l, r).0, EntryValues(r), EntryClock(r))
  {
    var l', r' := RuleFacts(less, now, l, r);
    StepEnters(u, l, r, l');
  }

  // ---------- Convergence ----------

  ghost predicate CoversAll(order: seq<NodeId>, s: set<NodeId>) {
    forall n :: n in s ==> n in order
  }

  ghost predicate AllBelow(col: Row<Option<StoredValue>>, u: Clock) {
    forall n :: n in col ==> Below(col[n], u)
  }

  /** After one pass the node's clock is the join of all the clocks, and everything is settled. */
  lemma {:induction false} FirstPass(less: PayloadOrder, now: int, col: Row<Option<StoredValue>>, c: NodeId,
                                     order: seq<NodeId>)
    requires StrictTotal(less) && Everywhere(col, Sound) && c in col && CoversAll(order, col.Keys)
    ensures var mid := PassRow(RuleAt(less, now), col, c, order);
            && mid.Keys == col.Keys && Everywhere(mid, Sound)
            && (forall n :: n in mid ==> Settled(less, mid[c], mid[n]))
            && (forall u :: Below(mid[c], u) <==> AllBelow(col, u))
  {
    var rule := RuleAt(less, now);
    var mid := PassRow(rule, col, c, order);
    RuleKeepsSound(less, now);
    RuleSettles(less, now);
    PassClosed(rule, col, c, order, Sound);
    PassSettles(rule, col, c, order, Sound, (l, r) => Settled(less, l, r), {});
    forall n | n in col ensures Above(mid[c], EntryClock(col[n])) {
      RuleKeepsAbove(less, now, EntryClock(col[n]));
      PassUpward(rule, col, c, order, Sound, e => Above(e, EntryClock(col[n])), n);
      SettledAbove(less, mid[c], mid[n]);
    }
    forall u ensures Below(mid[c], u) <==> AllBelow(col, u) {
      if AllBelow(col, u) {
        RuleKeepsBelow(less, now, u);
        PassClosed(rule, col, c, order, e => Sound(e) && Below(e, u));
      }
      forall n | n in col && Below(mid[c], u) ensures Below(col[n], u) {
        assert Above(mid[c], EntryClock(col[n]));
      }
    }
  }

  lemma {:induction false} SettledAbove(less: PayloadOrder, l: Option<StoredValue>, r: Option<StoredValue>)
    requires StrictTotal(less) && Settled(less, l, r)
    ensures Leq(EntryClock(r), EntryClock(l))
  {
  }

  lemma {:induction false} SecondPass(less: PayloadOrder, now: int, mid: Row<Option<StoredValue>>, c: NodeId,
                                      order: seq<NodeId>)
    requires StrictTotal(less) && Everywhere(mid, Sound) && c in mid && CoversAll(order, mid.Keys)
    requires forall n :: n in mid ==> Settled(less, mid[c], mid[n])
    ensures var after := PassRow(RuleAt(less, now), mid, c, order);
            && after.Keys == mid.Keys && after[c] == mid[c]
            && (forall n :: n in after ==> SamePayload(less, after[c], after[n]))
  {
    var rule := RuleAt(less, now);
    RuleKeepsSound(less, now);
    RuleSettles(less, now);
    PassClosed(rule, mid, c, order, Sound);
    PassSpreads(rule, mid, c, order, Sound, (l, r) => Settled(less, l, r), (l, r) => SamePayload(less, l, r), {});
  }

  /** Two passes by `c`. */
  function TwoPasses(less: PayloadOrder, cl: Cluster, c: NodeId, order1: seq<NodeId>, order2: seq<NodeId>,
                     up: set<NodeId>, now1: int, now2: int): Cluster {
    Pass(less, Pass(less, cl, c, order1, up, now1), c, order2, up, now2)
  }

  lemma {:induction false} ColumnAfter(less: PayloadOrder, cl: Cluster, c: NodeId, order1: seq<NodeId>,
                                       order2: seq<NodeId>, up: set<NodeId>, now1: int, now2: int, k: Key)
    requires cl.Keys <= up
    ensures var after := TwoPasses(less, cl, c, order1, order2, up, now1, now2);
            && after.Keys == cl.Keys
            && ColumnOf(after, k) ==
               PassRow(RuleAt(less, now2), PassRow(RuleAt(less, now1), ColumnOf(cl, k), c, order1), c, order2)
  {
    ColumnPass(less, cl, c, order1, up, now1, k);
    ColumnPass(less, Pass(less, cl, c, order1, up, now1), c, order2, up, now2, k);
  }

  lemma {:induction false} ColumnConverges(less: PayloadOrder, now1: int, now2: int, col: Row<Option<StoredValue>>,
                                           c: NodeId, order1: seq<NodeId>, order2: seq<NodeId>)
    requires StrictTotal(less) && Everywhere(col, Sound) && c in col && CoversAll(order1, col.Keys) &&
             CoversAll(order2, col.Keys)
    ensures var mid := PassRow(RuleAt(less, now1), col, c, order1);
            var after := PassRow(RuleAt(less, now2), mid, c, order2);
            && after.Keys == col.Keys && c in mid && after[c] == mid[c]
            && (forall n :: n in after ==> SamePayload(less, after[c], after[n]))
            && (forall n :: n in after ==>
                EntryClock(after[n]) == EntryClock(after[c]) && EntryValues(after[n]) == EntryValues(after[c]))
            && (forall u :: Below(after[c], u) <==> AllBelow(col, u))
  {
    var mid := PassRow(RuleAt(less, now1), col, c, order1);
    var after := PassRow(RuleAt(less, now2), mid, c, order2);
    FirstPass(less, now1, col, c, order1);
    SecondPass(less, now2, mid, c, order2);
    forall n | n in after
      ensures EntryClock(after[n]) == EntryClock(after[c]) && EntryValues(after[n]) == EntryValues(after[c]) {
      PayloadDecides(less, after[c], after[n]);
    }
  }

  /** Convergence: with no writes in between and every call succeeding, two passes by one node,
      each in any order, bring every node to one payload per key, with the clock that is the
      join of all the clocks the nodes started with. */
  lemma {:induction false} ClusterConverges(less: PayloadOrder, cl: Cluster, c: NodeId, order1: seq<NodeId>,
                                            order2: seq<NodeId>, up: set<NodeId>, now1: int, now2: int, k: Key)
    requires StrictTotal(less) && c in cl && cl.Keys <= up && CoversAll(order1, cl.Keys) && CoversAll(order2, cl.Keys)
    requires forall n :: n in cl ==> Sound(Entry(cl[n], k))
    ensures var after := TwoPasses(less, cl, c, order1, order2, up, now1, now2);
            && after.Keys == cl.Keys
            && (forall n :: n in cl ==>
                EntryPayload(less, Entry(after[n], k)) == EntryPayload(less, Entry(after[c], k)))
            && (forall n :: n in cl ==> EntryClock(Entry(after[n], k)) == EntryClock(Entry(after[c], k)))
            && (forall u :: Leq(EntryClock(Entry(after[c], k)), u) <==>
                forall n :: n in cl ==> Leq(EntryClock(Entry(cl[n], k)), u))
  {
    var col := ColumnOf(cl, k);
    var after := TwoPasses(less, cl, c, order1, order2, up, now1, now2);
    ColumnAfter(less, cl, c, order1, order2, up, now1, now2, k);
    ColumnConverges(less, now1, now2, col, c, order1, order2);
    var last := ColumnOf(after, k);
    assert forall n :: n in cl ==> last[n] == Entry(after[n], k);
    forall n | n in cl ensures EntryPayload(less, Entry(after[n], k)) == EntryPayload(less, Entry(after[c], k)) {
      assert SamePayload(less, last[c], last[n]);
    }
    forall u ensures Leq(EntryClock(Entry(after[c], k)), u) <==>
        forall n :: n in cl ==> Leq(EntryClock(Entry(cl[n], k)), u) {
      assert Below(last[c], u) <==> AllBelow(col, u);
      BelowEntries(cl, k, u);
    }
  }

  lemma {:induction false} BelowEntries(cl: Cluster, k: Key, u: Clock)
    ensures AllBelow(ColumnOf(cl, k), u) <==> forall n :: n in cl ==> Leq(EntryClock(Entry(cl[n], k)), u)
  {
    var col := ColumnOf(cl, k);
    if AllBelow(col, u) {
      forall n | n in cl ensures Leq(EntryClock(Entry(cl[n], k)), u) {
        assert Below(col[n], u);
      }
    }
  }

  /** And no version is lost: one that the other nodes' versions do not cover is present, with
      all the values of its tree, on every node at the end. */
  lemma {:induction false} ClusterKeeps(less: PayloadOrder, cl: Cluster, c: NodeId, order1: seq<NodeId>,
                                        order2: seq<NodeId>, up: set<NodeId>, now1: int, now2: int, k: Key, x: NodeId,
                                        u: Clock)
    requires StrictTotal(less) && c in cl && cl.Keys <= up && CoversAll(order1, cl.Keys) && CoversAll(order2, cl.Keys)
    requires forall n :: n in cl ==> Sound(Entry(cl[n], k))
    requires Distinct(order1)
    requires x in cl && !Leq(EntryClock(Entry(cl[x], k)), u)
    requires forall n :: n in cl && n != x ==> Leq(EntryClock(Entry(cl[n], k)), u)
    ensures var after := TwoPasses(less, cl, c, order1, order2, up, now1, now2);
            after.Keys == cl.Keys && forall n :: n in cl ==>
                EntryValues(Entry(cl[x], k)) <= EntryValues(Entry(after[n], k))
  {
    var col := ColumnOf(cl, k);
    var after := TwoPasses(less, cl, c, order1, order2, up, now1, now2);
    ColumnAfter(less, cl, c, order1, order2, up, now1, now2, k);
    ColumnConverges(less, now1, now2, col, c, order1, order2);
    ColumnPicksUp(less, now1, col, c, order1, x, u);
    var last := ColumnOf(after, k);
    forall n | n in cl ensures EntryValues(Entry(cl[x], k)) <= EntryValues(Entry(after[n], k)) {
      assert last[n] == Entry(after[n], k) && n in last;
      assert EntryValues(last[n]) == EntryValues(last[c]);
    }
  }

  lemma {:induction false} ColumnPicksUp(less: PayloadOrder, now: int, col: Row<Option<StoredValue>>, c: NodeId,
                                         order: seq<NodeId>, x: NodeId, u: Clock)
    requires StrictTotal(less) && Everywhere(col, Sound) && c in col && CoversAll(order, col.Keys) && Distinct(order)
    requires x in col && !Below(col[x], u)
    requires forall n :: n in col && n != x ==> Below(col[n], u)
    ensures c in PassRow(RuleAt(less, now), col, c, order)
    ensures EntryValues(col[x]) <= EntryValues(PassRow(RuleAt(less, now), col, c, order)[c])
  {
    var rule, values, clock := RuleAt(less, now), EntryValues(col[x]), EntryClock(col[x]);
    var small, carried := (e: Option<StoredValue>) => Below(e, u),
        (e: Option<StoredValue>) => Carries(e, values, clock);
    RuleKeepsSound(less, now);
    RuleKeepsSmall(less, now, u);
    RuleCarries(less, now, values, clock, u);
    RulePicksUpAll(less, now, col[x], u);
    CarriesItself(col[x]);
    PassPicksUp(rule, col, c, order, Sound, small, carried, x);
  }

  lemma {:induction false} CarriesItself(e: Option<StoredValue>)
    ensures Carries(e, EntryValues(e), EntryClock(e))
  {
  }

  lemma {:induction false} RulePicksUpAll(less: PayloadOrder, now: int, r: Option<StoredValue>, u: Clock)
    requires StrictTotal(less) && Sound(r) && !Below(r, u)
    ensures var small, carried := (e: Option<StoredValue>) => Below(e, u),
            (e: Option<StoredValue>) => Carries(e, EntryValues(r), EntryClock(r));
            forall l {:trigger RuleAt(less, now)(l, r)} :: Sound(l) && small(l) ==> carried(RuleAt(less, now)(l, r).0)
  {
    forall l | Sound(l) && Below(l, u) ensures Carries(RuleAt(less, now)(l, r).0, EntryValues(r), EntryClock(r)) {
      RulePicksUp(less, now, l, r, u);
    }
  }

  lemma {:induction false} RuleKeepsSmall(less: PayloadOrder, now: int, u: Clock)
    requires StrictTotal(less)
    ensures var small := (e: Option<StoredValue>) => Below(e, u);
            Closed(RuleAt(less, now), y => Sound(y) && small(y))
  {
    var small := (e: Option<StoredValue>) => Below(e, u);
    var rule := RuleAt(less, now);
    RuleKeepsBelow(less, now, u);
    forall l, r | Sound(l) && small(l) && Sound(r) && small(r)
      ensures Sound(rule(l, r).0) && small(rule(l, r).0) && Sound(rule(l, r).1) && small(rule(l, r).1)
    {
    }
  }
}
