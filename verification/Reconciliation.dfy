/** Reconciling one key between a node and a peer, and one whole synchronisation of two stores. */
module Reconciliation {
  import opened Clocks
  import opened Sorting
  import opened Versions
  import opened Payloads
  import opened Merging
  import opened Wire

  /** Nil values are indistinguishable from absent keys here. */
  function Visible(e: Option<StoredValue>): Option<StoredValue> {
    if e.Some? && e.value.value != Nil then e else None
  }

  /** reconcileKeyWithNode on the two entries of one key. `getOk` and `repairOk` say whether the
      two remote calls went through; `now` is the clock reading that stands in for a zero
      timestamp. */
  function Reconcile(less: PayloadOrder, l: Option<StoredValue>, r: Option<StoredValue>,
                     getOk: bool, repairOk: bool, now: int): (Option<StoredValue>, Option<StoredValue>) {
    var fetched := if getOk && Visible(r).Some? then Some(Sent(r.value, now)) else None;
    if Visible(l).None? then
      if fetched.None? then (l, r) else (fetched, r)
    else if fetched.None? then
      (l, Repaired(l.value, r, repairOk, now))
    else
      var merged := Merge(less, l.value, fetched.value);
      ByCausality(l.value, fetched.value, merged, r, Repaired(l.value, r, repairOk, now),
                  Repaired(merged, r, repairOk, now))
  }

  /** The three outcomes of comparing the local clock with the fetched one. */
  function ByCausality(l: StoredValue, fetched: StoredValue, merged: StoredValue, r: Option<StoredValue>,
                       localSent: Option<StoredValue>, mergedSent: Option<StoredValue>)
    : (Option<StoredValue>, Option<StoredValue>)
  {
    match Causal(l.clock, fetched.clock)
    case Newer => (Some(fetched), r)
    case Older => (Some(l), localSent)
    case Concurrent => (Some(merged), mergedSent)
  }

  function Repaired(v: StoredValue, r: Option<StoredValue>, repairOk: bool, now: int): Option<StoredValue> {
    if repairOk then Some(Sent(v, now)) else r
  }

  predicate EntryFits(e: Option<StoredValue>) {
    e.Some? ==> Fits(e.value)
  }

  predicate Live(e: Option<StoredValue>) {
    e.Some? ==> e.value.value != Nil
  }

  predicate Sound(e: Option<StoredValue>) {
    Live(e) && EntryFits(e)
  }

  ghost predicate SoundStore(s: Store) {
    forall k :: k in s ==> Sound(Some(s[k]))
  }

  // ---------- When a reconcile step can lose ground ----------

  lemma {:induction false} SentFits(v: StoredValue, now: int)
    requires Fits(v)
    ensures var s := Sent(v, now);
            s.value == v.value && s.clock == Some(ClockOf(v)) && Fits(s)
  {
    SentSame((p, q) => false, v, now);
  }

  /** The local clock goes down only when a local nil value is taken for an absent key. */
  lemma {:induction false} LocalLowered(less: PayloadOrder, l: Option<StoredValue>, r: Option<StoredValue>,
                                        getOk: bool, repairOk: bool, now: int)
    requires EntryFits(l) && EntryFits(r)
    ensures var l' := Reconcile(less, l, r, getOk, repairOk, now).0;
            !Leq(EntryClock(l), EntryClock(l')) <==>
            l.Some? && l.value.value == Nil && getOk && Visible(r).Some? && !Leq(EntryClock(l), EntryClock(r))
  {
    if getOk && Visible(r).Some? {
      if Visible(l).Some? {
        LocalKept(less, l.value, r.value, repairOk, now);
      } else {
        SentFits(r.value, now);
      }
    }
  }

  lemma {:induction false} LocalKept(less: PayloadOrder, l: StoredValue, r: StoredValue, repairOk: bool, now: int)
    requires Fits(l) && Fits(r) && l.value != Nil && r.value != Nil
    ensures Leq(ClockOf(l), EntryClock(Reconcile(less, Some(l), Some(r), true, repairOk, now).0))
  {
    var f, m, localSent, mergedSent := BothParts(less, l, r, repairOk, now);
    CausalityKeeps(l, r, f, m, Some(if repairOk then localSent else r), Some(if repairOk then mergedSent else r));
  }

  lemma {:induction false} CausalityKeeps(l: StoredValue, r: StoredValue, f: StoredValue, m: StoredValue,
                                          localSent: Option<StoredValue>, mergedSent: Option<StoredValue>)
    requires ClockOf(f) == ClockOf(r) && ClockOf(m) == Join(ClockOf(l), ClockOf(r))
    ensures Leq(ClockOf(l), EntryClock(ByCausality(l, f, m, Some(r), localSent, mergedSent).0))
  {
    JoinLeast(ClockOf(l), ClockOf(r), map[]);
  }

  /** Both sides visible: the merge of what the node holds and what it fetched, and that merge
      as the peer receives it. */
  lemma {:induction false} FetchedMerge(less: PayloadOrder, l: StoredValue, r: StoredValue, now: int)
    requires Fits(l) && Fits(r)
    ensures var m := Merge(less, l, Sent(r, now));
            && Fits(m) && Fits(Sent(m, now))
            && m.clock == Some(Join(ClockOf(l), ClockOf(r))) == Sent(m, now).clock
            && TreeValues(m) == TreeValues(l) + TreeValues(r) == TreeValues(Sent(m, now))
            && PayloadOf(less, Sent(m, now)) == PayloadOf(less, m)
            && Sent(m, now).value == m.value && (m.value == l.value || m.value == r.value)
  {
    var f := Sent(r, now);
    SentSame(less, r, now);
    MergeFits(less, l, f);
    MergeConserves(less, l, f);
    SentSame(less, Merge(less, l, f), now);
  }

  /** The remote clock goes down exactly when a version the node could not see (the read failed,
      or the value is nil) is overwritten by a local version that does not cover it. */
  lemma {:induction false} RemoteLowered(less: PayloadOrder, l: Option<StoredValue>, r: Option<StoredValue>,
                                         getOk: bool, repairOk: bool, now: int)
    requires EntryFits(l) && EntryFits(r)
    ensures var r' := Reconcile(less, l, r, getOk, repairOk, now).1;
            !Leq(EntryClock(r), EntryClock(r')) <==>
            repairOk && Visible(l).Some? && (!getOk || Visible(r).None?) && !Leq(EntryClock(r), EntryClock(l))
  {
    if Visible(l).Some? {
      if getOk && Visible(r).Some? {
        if repairOk {
          ReconcileBoth(less, l, r, now);
          JoinLeast(EntryClock(l), EntryClock(r), map[]);
        }
      } else {
        SentFits(l.value, now);
      }
    }
  }

  // ---------- What a reconcile does ----------

  /** The remote entry after a repair with `v` that may fail. */
  ghost predicate RepairedWith(r': Option<StoredValue>, r: Option<StoredValue>, v: StoredValue, repairOk: bool,
                               now: int) {
    r' == if repairOk then Some(Sent(v, now)) else r
  }

  /** Both sides visible, the remote one as it comes off the wire: the covered side takes over the other
      side's version, and nothing else changes; concurrent versions are merged, the later one on top, with
      exactly the values of both. */
  ghost predicate VersionsReconciled(l: StoredValue, r: StoredValue, l': Option<StoredValue>, r': Option<StoredValue>,
                                     repairOk: bool, now: int) {
    var f := Sent(r, now);
    var remoteCovered := l.clock.Some? && Leq(ClockOf(f), ClockOf(l));
    var localCovered := l.clock.Some? && Leq(ClockOf(l), ClockOf(f)) && ClockOf(l) != ClockOf(f);
    && (remoteCovered ==> l' == Some(l) && RepairedWith(r', Some(r), l, repairOk, now))
    && (localCovered ==> l' == Some(f) && r' == Some(r))
    && (!remoteCovered && !localCovered ==>
          && l'.Some? && Merges(l'.value, l, f) && l'.value.clock == Some(Join(ClockOf(l), ClockOf(f)))
          && RepairedWith(r', Some(r), l'.value, repairOk, now))
  }

  ghost predicate ReconciledExactly(l: Option<StoredValue>, r: Option<StoredValue>, l': Option<StoredValue>,
                                    r': Option<StoredValue>, getOk: bool, repairOk: bool, now: int) {
    var mine, theirs := Visible(l), if getOk then Visible(r) else None;
    && (mine.None? && theirs.None? ==> l' == l && r' == r)
    && (mine.None? && theirs.Some? ==> l' == Some(Sent(theirs.value, now)) && r' == r)
    && (mine.Some? && theirs.None? ==> l' == l && RepairedWith(r', r, mine.value, repairOk, now))
    && (mine.Some? && theirs.Some? ==> VersionsReconciled(mine.value, theirs.value, l', r', repairOk, now))
  }

  /** A reconcile, for every outcome of its calls. */
  lemma {:induction false} ReconcileExactly(less: PayloadOrder, l: Option<StoredValue>, r: Option<StoredValue>,
                                            getOk: bool, repairOk: bool, now: int)
    ensures var (l', r') := Reconcile(less, l, r, getOk, repairOk, now);
            ReconciledExactly(l, r, l', r', getOk, repairOk, now)
  {
    if Visible(l).Some? && getOk && Visible(r).Some? {
      VersionsExactly(less, l.value, r.value, repairOk, now);
    }
  }

  lemma {:induction false} VersionsExactly(less: PayloadOrder, l: StoredValue, r: StoredValue, repairOk: bool, now: int)
    requires l.value != Nil && r.value != Nil
    ensures var (l', r') := Reconcile(less, Some(l), Some(r), true, repairOk, now);
            VersionsReconciled(l, r, l', r', repairOk, now)
  {
    var f := Sent(r, now);
    var m := Merge(less, l, f);
    SentExactly(r, now);
    ReconcileVisible(less, l, r, repairOk, now, f, m);
    MergeConserves(less, l, f);
    MergedLatest(less, l, f);
    CausalityExactly(l, r, f, m, Some(if repairOk then Sent(l, now) else r), Some(if repairOk then Sent(m, now) else r),
                     repairOk, now);
  }

  lemma {:induction false} CausalityExactly(l: StoredValue, r: StoredValue, f: StoredValue, m: StoredValue,
                                            localSent: Option<StoredValue>, mergedSent: Option<StoredValue>,
                                            repairOk: bool, now: int)
    requires f == Sent(r, now) && f.clock.Some? && Merges(m, l, f) && m.clock == Some(Join(ClockOf(l), ClockOf(f)))
    requires RepairedWith(localSent, Some(r), l, repairOk, now) && RepairedWith(mergedSent, Some(r), m, repairOk, now)
    ensures var (l', r') := ByCausality(l, f, m, Some(r), localSent, mergedSent);
            VersionsReconciled(l, r, l', r', repairOk, now)
  {
    CausalExactly(l.clock, f.clock);
  }

  // ---------- One successful reconcile ----------

  function SyncKey(less: PayloadOrder, l: Option<StoredValue>, r: Option<StoredValue>, now: int)
    : (Option<StoredValue>, Option<StoredValue>)
  {
    if EntryPayload(less, l) == EntryPayload(less, r) then (l, r)
    else Reconcile(less, l, r, true, true, now)
  }

  /** After a synchronisation the two sides agree on a key exactly when they agreed before or at
      least one side holds a value that is not nil. */
  lemma {:induction false} SyncAgrees(less: PayloadOrder, l: Option<StoredValue>, r: Option<StoredValue>, now: int)
    requires EntryFits(l) && EntryFits(r)
    ensures var (l', r') := SyncKey(less, l, r, now);
            EntryPayload(less, l') == EntryPayload(less, r') <==>
            EntryPayload(less, l) == EntryPayload(less, r) || Visible(l).Some? || Visible(r).Some?
  {
    if EntryPayload(less, l) != EntryPayload(less, r) {
      if Visible(l).Some? && Visible(r).Some? {
        SentSame(less, l.value, now);
        ReconcileBoth(less, l, r, now);
      } else if Visible(l).Some? {
        SentSame(less, l.value, now);
      } else if Visible(r).Some? {
        SentSame(less, r.value, now);
      }
    }
  }

  lemma {:induction false} CausalityAgrees(less: PayloadOrder, l: StoredValue, f: StoredValue, m: StoredValue,
                                           r: Option<StoredValue>, localSent: Option<StoredValue>,
                                           mergedSent: Option<StoredValue>)
    requires Some(PayloadOf(less, f)) == EntryPayload(less, r)
    requires Some(PayloadOf(less, l)) == EntryPayload(less, localSent)
    requires Some(PayloadOf(less, m)) == EntryPayload(less, mergedSent)
    ensures var (l', r') := ByCausality(l, f, m, r, localSent, mergedSent);
            EntryPayload(less, l') == EntryPayload(less, r')
  {
  }

  /** What a synchronisation does to one key that holds no nil value: the sides end with the same
      payload, both clocks are the join, and neither side loses an uncovered version. */
  ghost predicate Synced(less: PayloadOrder, l: Option<StoredValue>, r: Option<StoredValue>, l': Option<StoredValue>,
                         r': Option<StoredValue>) {
    && EntryPayload(less, l') == EntryPayload(less, r')
    && EntryClock(l') == EntryClock(r') == Join(EntryClock(l), EntryClock(r))
    && Live(l') && Live(r') && EntryFits(l') && EntryFits(r')
    && Absorbs(l, r, l') && Absorbs(r, l, r')
    && (l' != l ==> l'.Some? && l'.value.clock.Some?)
  }

  lemma {:induction false} PayloadDecides(less: PayloadOrder, l: Option<StoredValue>, r: Option<StoredValue>)
    requires StrictTotal(less) && EntryPayload(less, l) == EntryPayload(less, r)
    ensures EntryClock(l) == EntryClock(r) && EntryValues(l) == EntryValues(r)
  {
    if l.Some? {
      PayloadCanonical(less, l.value, r.value);
      SameVersionValues(l.value, r.value);
    }
  }

  lemma {:induction false} AbsorbsSelf(l: Option<StoredValue>, r: Option<StoredValue>)
    requires EntryClock(l) == EntryClock(r) && EntryValues(l) == EntryValues(r)
    ensures Absorbs(l, r, l) && Absorbs(l, r, r)
  {
  }

  /** One side covers the other: the covering version replaces the covered one. */
  lemma {:induction false} AbsorbsCovering(big: Option<StoredValue>, small: Option<StoredValue>,
                                           res: Option<StoredValue>)
    requires Leq(EntryClock(small), EntryClock(big))
    requires EntryClock(res) == EntryClock(big) && EntryValues(res) == EntryValues(big)
    ensures Absorbs(big, small, res) && Absorbs(small, big, res)
  {
  }

  lemma {:induction false} SyncKeySound(less: PayloadOrder, l: Option<StoredValue>, r: Option<StoredValue>, now: int)
    requires StrictTotal(less) && Live(l) && Live(r) && EntryFits(l) && EntryFits(r)
    ensures var (l', r') := SyncKey(less, l, r, now);
            Synced(less, l, r, l', r')
  {
    var (l', r') := SyncKey(less, l, r, now);
    SyncAgrees(less, l, r, now);
    if EntryPayload(less, l) == EntryPayload(less, r) {
      PayloadDecides(less, l, r);
      AbsorbsSelf(l, r);
      AbsorbsSelf(r, l);
    } else if l.None? {
      SentSame(less, r.value, now);
      AbsorbsCovering(r, l, l');
      AbsorbsCovering(r, l, r');
    } else if r.None? {
      SentSame(less, l.value, now);
      AbsorbsCovering(l, r, l');
      AbsorbsCovering(l, r, r');
    } else {
      ReconcileBoth(less, l, r, now);
    }
  }

  lemma {:induction false} ReconcileBoth(less: PayloadOrder, l: Option<StoredValue>, r: Option<StoredValue>, now: int)
    requires l.Some? && r.Some? && Live(l) && Live(r) && EntryFits(l) && EntryFits(r)
    ensures var (l', r') := Reconcile(less, l, r, true, true, now);
            Synced(less, l, r, l', r')
  {
    var f, m, localSent, mergedSent := BothParts(less, l.value, r.value, true, now);
    CausalityAgrees(less, l.value, f, m, r, Some(localSent), Some(mergedSent));
    CausalitySynced(less, l.value, f, m, r.value, localSent, mergedSent);
  }

  lemma {:induction false} BothParts(less: PayloadOrder, l: StoredValue, r: StoredValue, repairOk: bool, now: int)
    returns (f: StoredValue, m: StoredValue, localSent: StoredValue, mergedSent: StoredValue)
    requires Fits(l) && Fits(r) && l.value != Nil && r.value != Nil
    ensures Reconcile(less, Some(l), Some(r), true, repairOk, now) ==
            ByCausality(l, f, m, Some(r), Some(if repairOk then localSent else r),
                        Some(if repairOk then mergedSent else r))
    ensures Copies(f, r) && Copies(localSent, l) && Copies(mergedSent, m) && Fits(m) && m.value != Nil
    ensures PayloadOf(less, f) == PayloadOf(less, r) && PayloadOf(less, localSent) == PayloadOf(less, l)
    ensures PayloadOf(less, mergedSent) == PayloadOf(less, m)
    ensures m.clock == Some(Join(ClockOf(l), ClockOf(r))) && TreeValues(m) == TreeValues(l) + TreeValues(r)
  {
    f := SentCopy(less, r, now);
    m := Merge(less, l, f);
    FetchedMerge(less, l, r, now);
    localSent := SentCopy(less, l, now);
    mergedSent := SentCopy(less, m, now);
    ReconcileVisible(less, l, r, repairOk, now, f, m);
  }

  lemma {:induction false} ReconcileVisible(less: PayloadOrder, l: StoredValue, r: StoredValue, repairOk: bool,
                                            now: int, f: StoredValue, m: StoredValue)
    requires l.value != Nil && r.value != Nil && f == Sent(r, now) && m == Merge(less, l, f)
    ensures Reconcile(less, Some(l), Some(r), true, repairOk, now) ==
            ByCausality(l, f, m, Some(r), Some(if repairOk then Sent(l, now) else r),
                        Some(if repairOk then Sent(m, now) else r))
  {
  }

  lemma {:induction false} SentCopy(less: PayloadOrder, v: StoredValue, now: int) returns (c: StoredValue)
    requires Fits(v)
    ensures c == Sent(v, now) && Copies(c, v) && PayloadOf(less, c) == PayloadOf(less, v)
  {
    c := Sent(v, now);
    SentSame(less, v, now);
  }

  /** `c` is a copy of `v` that keeps clock, values and top value. */
  ghost predicate Copies(c: StoredValue, v: StoredValue) {
    c.clock == Some(ClockOf(v)) && TreeValues(c) == TreeValues(v) && c.value == v.value && Fits(c)
  }

  lemma {:induction false} CausalitySynced(less: PayloadOrder, l: StoredValue, f: StoredValue, m: StoredValue,
                                           r: StoredValue, localSent: StoredValue, mergedSent: StoredValue)
    requires Copies(f, r) && Copies(localSent, l) && Copies(mergedSent, m)
    requires Fits(l) && Fits(r) && Fits(m) && l.value != Nil && r.value != Nil && m.value != Nil
    requires m.clock == Some(Join(ClockOf(l), ClockOf(r))) && TreeValues(m) == TreeValues(l) + TreeValues(r)
    requires var (l', r') := ByCausality(l, f, m, Some(r), Some(localSent), Some(mergedSent));
             EntryPayload(less, l') == EntryPayload(less, r')
    ensures var (l', r') := ByCausality(l, f, m, Some(r), Some(localSent), Some(mergedSent));
            Synced(less, Some(l), Some(r), l', r')
  {
    JoinAbsorbs(ClockOf(l), ClockOf(r));
    JoinCommutes(ClockOf(l), ClockOf(r));
    match Causal(l.clock, f.clock) {
      case Newer =>
        AbsorbsCovering(Some(r), Some(l), Some(f));
        AbsorbsCovering(Some(r), Some(l), Some(r));
      case Older =>
        AbsorbsCovering(Some(l), Some(r), Some(l));
        AbsorbsCovering(Some(l), Some(r), Some(localSent));
      case Concurrent =>
        assert Absorbs(Some(l), Some(r), Some(m)) && Absorbs(Some(r), Some(l), Some(mergedSent));
    }
  }

  // ---------- Whole stores ----------

  function StoreFrom(keys: set<Key>, f: Key -> Option<StoredValue>): (s: Store)
    ensures forall k :: Entry(s, k) == if k in keys then f(k) else None
  {
    map k | k in keys && f(k).Some? :: f(k).value
  }

  function SyncStores(less: PayloadOrder, a: Store, b: Store, now: int): (Store, Store) {
    (StoreFrom(a.Keys + b.Keys, k => SyncKey(less, Entry(a, k), Entry(b, k), now).0),
     StoreFrom(a.Keys + b.Keys, k => SyncKey(less, Entry(a, k), Entry(b, k), now).1))
  }

  lemma {:induction false} SyncEntries(less: PayloadOrder, a: Store, b: Store, now: int, k: Key)
    ensures Entry(SyncStores(less, a, b, now).0, k) == SyncKey(less, Entry(a, k), Entry(b, k), now).0
    ensures Entry(SyncStores(less, a, b, now).1, k) == SyncKey(less, Entry(a, k), Entry(b, k), now).1
  {
  }

  lemma {:induction false} SameEntries(a: Store, b: Store)
    requires forall k :: Entry(a, k) == Entry(b, k)
    ensures a == b
  {
    forall k ensures k in a <==> k in b {
      assert Entry(a, k) == Entry(b, k);
    }
    assert a.Keys == b.Keys;
    forall k | k in a ensures a[k] == b[k] {
      assert Entry(a, k) == Entry(b, k);
    }
  }

  /** One synchronisation leaves the stores equal on every key, with the joined clocks, and a
      second one has nothing left to repair. */
  lemma {:induction false} SyncConverges(less: PayloadOrder, a: Store, b: Store, now: int, later: int)
    requires StrictTotal(less) && SoundStore(a) && SoundStore(b)
    ensures var (a', b') := SyncStores(less, a, b, now);
            && (forall k :: Synced(less, Entry(a, k), Entry(b, k), Entry(a', k), Entry(b', k)))
            && SyncStores(less, a', b', later) == (a', b')
  {
    var (a', b') := SyncStores(less, a, b, now);
    forall k ensures Synced(less, Entry(a, k), Entry(b, k), Entry(a', k), Entry(b', k)) {
      SyncEntries(less, a, b, now, k);
      SyncKeySound(less, Entry(a, k), Entry(b, k), now);
    }
    var again := SyncStores(less, a', b', later);
    forall k ensures Entry(again.0, k) == Entry(a', k) && Entry(again.1, k) == Entry(b', k) {
      SyncEntries(less, a', b', later, k);
      assert Synced(less, Entry(a, k), Entry(b, k), Entry(a', k), Entry(b', k));
    }
    SameEntries(again.0, a');
    SameEntries(again.1, b');
  }

  // ---------- When calls fail ----------

  /** Which remote calls of a synchronisation go through: fetching the tree of a bucket, and reading
      and repairing a key. */
  datatype Calls = Calls(fetch: nat -> bool, get: Key -> bool, repair: Key -> bool)

  ghost predicate AllSucceed(calls: Calls) {
    (forall b :: calls.fetch(b)) && (forall k :: calls.get(k)) && (forall k :: calls.repair(k))
  }

  /** A key whose bucket could not be fetched is passed over. */
  function SyncKeyUnder(less: PayloadOrder, l: Option<StoredValue>, r: Option<StoredValue>, fetched: bool, getOk: bool,
                        repairOk: bool, now: int): (Option<StoredValue>, Option<StoredValue>) {
    if !fetched || EntryPayload(less, l) == EntryPayload(less, r) then (l, r)
    else Reconcile(less, l, r, getOk, repairOk, now)
  }

  function SyncStoresUnder(less: PayloadOrder, a: Store, b: Store, bucketOf: Key -> nat, calls: Calls, now: int)
    : (Store, Store)
  {
    var after := (k: Key) => SyncKeyUnder(less, Entry(a, k), Entry(b, k), calls.fetch(bucketOf(k)), calls.get(k),
                                          calls.repair(k), now);
    (StoreFrom(a.Keys + b.Keys, k => after(k).0), StoreFrom(a.Keys + b.Keys, k => after(k).1))
  }

  lemma {:induction false} SyncEntriesUnder(less: PayloadOrder, a: Store, b: Store, bucketOf: Key -> nat, calls: Calls,
                                            now: int, k: Key)
    ensures var (a', b') := SyncStoresUnder(less, a, b, bucketOf, calls, now);
            (Entry(a', k), Entry(b', k)) ==
            SyncKeyUnder(less, Entry(a, k), Entry(b, k), calls.fetch(bucketOf(k)), calls.get(k), calls.repair(k), now)
  {
  }

  lemma {:induction false} SyncStoresAllSucceed(less: PayloadOrder, a: Store, b: Store, bucketOf: Key -> nat,
                                                calls: Calls, now: int)
    requires AllSucceed(calls)
    ensures SyncStoresUnder(less, a, b, bucketOf, calls, now) == SyncStores(less, a, b, now)
  {
    var under, full := SyncStoresUnder(less, a, b, bucketOf, calls, now), SyncStores(less, a, b, now);
    forall k ensures Entry(under.0, k) == Entry(full.0, k) && Entry(under.1, k) == Entry(full.1, k) {
      SyncEntriesUnder(less, a, b, bucketOf, calls, now, k);
      SyncEntries(less, a, b, now, k);
    }
    SameEntries(under.0, full.0);
    SameEntries(under.1, full.1);
  }

  /** Whatever calls of a synchronisation fail, it never lowers a local clock, and it lowers a remote
      one exactly when the version could not be read and a local one that does not cover it went
      through as a repair. */
  lemma {:induction false} PartialSyncLowers(less: PayloadOrder, l: Option<StoredValue>, r: Option<StoredValue>,
                                             fetched: bool, getOk: bool, repairOk: bool, now: int)
    requires StrictTotal(less) && Sound(l) && Sound(r)
    ensures var (l', r') := SyncKeyUnder(less, l, r, fetched, getOk, repairOk, now);
            && Leq(EntryClock(l), EntryClock(l'))
            && (!Leq(EntryClock(r), EntryClock(r')) <==>
                fetched && !getOk && repairOk && l.Some? && !Leq(EntryClock(r), EntryClock(l)))
  {
    LocalLowered(less, l, r, getOk, repairOk, now);
    RemoteLowered(less, l, r, getOk, repairOk, now);
    if EntryPayload(less, l) == EntryPayload(less, r) {
      PayloadDecides(less, l, r);
    }
  }
}
