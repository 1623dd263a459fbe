/** Queues of hinted writes: what the bounded queue holds, and what the two ways of handing
    hints off leave behind. Whether a delivery succeeds is decided by the network: `ok(i)` is the
    outcome for the hint at position i. */
module Hints {
  import opened Clocks
  import opened Versions
  import opened Sequences
  import opened Writes
  import opened Wire

  datatype HintedWrite = HintedWrite(key: Key, value: Value, clock: Clock, target: NodeId, time: int, attempts: int)

  type HintQueue = seq<HintedWrite>

  const HINT_LIMIT: nat := 1000

  // ---------- storeHint ----------

  function AddHint(q: HintQueue, h: HintedWrite): HintQueue {
    (if |q| >= HINT_LIMIT then q[1..] else q) + [h]
  }

  function AddHints(q: HintQueue, hs: seq<HintedWrite>): HintQueue {
    if hs == [] then q else AddHint(AddHints(q, hs[..|hs| - 1]), hs[|hs| - 1])
  }

  function Last(hs: HintQueue, n: nat): HintQueue {
    if |hs| <= n then hs else hs[|hs| - n..]
  }

  /** The queue is exactly the most recent hints, at most the limit, in the order stored. */
  lemma {:induction false} QueueHoldsLast(q: HintQueue, hs: seq<HintedWrite>)
    requires |q| <= HINT_LIMIT
    ensures AddHints(q, hs) == Last(q + hs, HINT_LIMIT)
  {
    if hs == [] {
      assert q + hs == q;
    } else {
      var front, h := hs[..|hs| - 1], hs[|hs| - 1];
      QueueHoldsLast(q, front);
      assert q + hs == (q + front) + [h];
    }
  }

  // ---------- processHints ----------

  function DeliveredKeys(q: HintQueue, ok: nat -> bool): set<Key> {
    set i | 0 <= i < |q| && ok(i) :: q[i].key
  }

  lemma {:induction false} DeliveredMore(q: HintQueue, i: nat, ok: nat -> bool)
    requires i < |q|
    ensures DeliveredKeys(q[..i + 1], ok) == DeliveredKeys(q[..i], ok) + if ok(i) then {q[i].key} else {}
  {
    forall k | k in DeliveredKeys(q[..i], ok) ensures k in DeliveredKeys(q[..i + 1], ok) {
      var j :| 0 <= j < i && ok(j) && q[..i][j].key == k;
      assert q[..i + 1][j].key == k;
    }
    if ok(i) {
      assert q[..i + 1][i].key == q[i].key;
    }
  }

  function Undelivered(q: HintQueue, keys: set<Key>): HintQueue {
    if q == [] then []
    else (if q[0].key in keys then [] else [q[0]]) + Undelivered(q[1..], keys)
  }

  function AfterProcessing(q: HintQueue, ok: nat -> bool): Option<HintQueue> {
    var keys := DeliveredKeys(q, ok);
    if keys == {} then Some(q)
    else if Undelivered(q, keys) == [] then None
    else Some(Undelivered(q, keys))
  }

  lemma {:induction false} UndeliveredSplit(q: HintQueue, r: HintQueue, keys: set<Key>)
    ensures Undelivered(q + r, keys) == Undelivered(q, keys) + Undelivered(r, keys)
  {
    if q == [] {
      assert q + r == r;
    } else {
      assert (q + r)[0] == q[0] && (q + r)[1..] == q[1..] + r;
      UndeliveredSplit(q[1..], r, keys);
    }
  }

  lemma {:induction false} UndeliveredMembers(q: HintQueue, keys: set<Key>)
    ensures forall h :: h in Undelivered(q, keys) <==> h in q && h.key !in keys
  {
    if q != [] {
      UndeliveredMembers(q[1..], keys);
      assert forall h :: h in q <==> h == q[0] || h in q[1..];
    }
  }

  /** Processing keeps, in order, precisely the hints whose key was not delivered. A hint whose own
      delivery failed is therefore dropped exactly when another hint for the same key went out. */
  lemma {:induction false} DroppedExactly(q: HintQueue, ok: nat -> bool, i: nat)
    requires i < |q|
    ensures (AfterProcessing(q, ok).None? || q[i] !in AfterProcessing(q, ok).value) <==>
            exists j :: 0 <= j < |q| && ok(j) && q[j].key == q[i].key
  {
    var keys := DeliveredKeys(q, ok);
    UndeliveredMembers(q, keys);
    if exists j :: 0 <= j < |q| && ok(j) && q[j].key == q[i].key {
      assert q[i].key in keys;
    }
  }

  /** `ps` lists the positions of `q` whose key is not in `keys`, in order. */
  ghost predicate PositionsLeft(ps: seq<nat>, q: HintQueue, keys: set<Key>) {
    && (forall j :: 0 <= j < |ps| ==> ps[j] < |q| && q[ps[j]].key !in keys)
    && (forall i, j :: 0 <= i < j < |ps| ==> ps[i] < ps[j])
    && (forall i :: 0 <= i < |q| && q[i].key !in keys ==> i in ps)
  }

  function HintsAt(q: HintQueue, ps: seq<nat>): (r: HintQueue)
    requires forall j :: 0 <= j < |ps| ==> ps[j] < |q|
    ensures |r| == |ps| && forall j :: 0 <= j < |ps| ==> r[j] == q[ps[j]]
  {
    seq(|ps|, j requires 0 <= j < |ps| => q[ps[j]])
  }

  /** The positions below n whose key is not in `keys`, in order. */
  function Left(q: HintQueue, keys: set<Key>, n: nat): (ps: seq<nat>)
    requires n <= |q|
    ensures forall j :: 0 <= j < |ps| ==> ps[j] < n && q[ps[j]].key !in keys
  {
    if n == 0 then [] else Left(q, keys, n - 1) + if q[n - 1].key in keys then [] else [n - 1]
  }

  lemma {:induction false} LeftOrdered(q: HintQueue, keys: set<Key>, n: nat)
    requires n <= |q|
    ensures forall i, j :: 0 <= i < j < |Left(q, keys, n)| ==> Left(q, keys, n)[i] < Left(q, keys, n)[j]
    decreases n
  {
    if n > 0 {
      LeftOrdered(q, keys, n - 1);
    }
  }

  lemma {:induction false} LeftComplete(q: HintQueue, keys: set<Key>, n: nat, i: nat)
    requires i < n <= |q| && q[i].key !in keys
    ensures i in Left(q, keys, n)
    decreases n
  {
    if i < n - 1 {
      LeftComplete(q, keys, n - 1, i);
    }
  }

  lemma {:induction false} LeftUndelivered(q: HintQueue, keys: set<Key>, n: nat)
    requires n <= |q|
    ensures Undelivered(q[..n], keys) == HintsAt(q, Left(q, keys, n))
    decreases n
  {
    if n > 0 {
      LeftUndelivered(q, keys, n - 1);
      assert q[..n] == q[..n - 1] + [q[n - 1]];
      UndeliveredSplit(q[..n - 1], [q[n - 1]], keys);
      LeftMore(q, keys, n);
    } else {
      assert q[..0] == [];
    }
  }

  lemma {:induction false} LeftMore(q: HintQueue, keys: set<Key>, n: nat)
    requires 0 < n <= |q|
    ensures HintsAt(q, Left(q, keys, n)) == HintsAt(q, Left(q, keys, n - 1)) + Undelivered([q[n - 1]], keys)
  {
    var one := [q[n - 1]];
    assert one[1..] == [] && Undelivered(one, keys) == if q[n - 1].key in keys then [] else one;
  }

  /** The queue that processing leaves is the subsequence of those positions whose key was not delivered,
      in the order stored and as often as stored; when there are none it goes away, unless nothing was
      delivered at all. */
  lemma {:induction false} ProcessedExactly(q: HintQueue, ok: nat -> bool) returns (ps: seq<nat>)
    ensures PositionsLeft(ps, q, DeliveredKeys(q, ok))
    ensures AfterProcessing(q, ok).Some? ==> AfterProcessing(q, ok).value == HintsAt(q, ps)
    ensures AfterProcessing(q, ok).None? <==> ps == [] && exists i :: 0 <= i < |q| && ok(i)
  {
    var keys := DeliveredKeys(q, ok);
    ps := Left(q, keys, |q|);
    LeftOrdered(q, keys, |q|);
    LeftUndelivered(q, keys, |q|);
    forall i | 0 <= i < |q| && q[i].key !in keys ensures i in ps {
      LeftComplete(q, keys, |q|, i);
    }
    assert q[..|q|] == q;
    if keys == {} {
      NothingDelivered(q, keys);
    }
    DeliveredSome(q, ok);
  }

  lemma {:induction false} NothingDelivered(q: HintQueue, keys: set<Key>)
    requires keys == {}
    ensures Undelivered(q, keys) == q
  {
    if q != [] {
      NothingDelivered(q[1..], keys);
    }
  }

  lemma {:induction false} DeliveredSome(q: HintQueue, ok: nat -> bool)
    ensures DeliveredKeys(q, ok) == {} <==> forall i :: 0 <= i < |q| ==> !ok(i)
  {
    if i: nat :| i < |q| && ok(i) {
      assert q[i].key in DeliveredKeys(q, ok);
    }
  }

  lemma {:induction false} HasMember(q: HintQueue)
    ensures q != [] ==> exists h :: h in q
  {
    if q != [] {
      assert q[0] in q;
    }
  }

  /** When every delivery succeeds nothing is left, and the target's queue goes away. */
  lemma {:induction false} AllProcessed(q: HintQueue, ok: nat -> bool)
    requires q != [] && forall i :: 0 <= i < |q| ==> ok(i)
    ensures AfterProcessing(q, ok) == None
  {
    var keys := DeliveredKeys(q, ok);
    var left := Undelivered(q, keys);
    assert q[0].key in keys;
    UndeliveredMembers(q, keys);
    forall h | h in q ensures h.key in keys {
      var i :| 0 <= i < |q| && q[i] == h;
    }
    HasMember(left);
  }

  // ---------- forceReconnectHints ----------

  function KeysOf(q: HintQueue): (r: seq<Key>)
    ensures |r| == |q|
    ensures forall i :: 0 <= i < |q| ==> r[i] == q[i].key
  {
    seq(|q|, i requires 0 <= i < |q| => q[i].key)
  }

  function FirstWithKey(q: HintQueue, k: Key): (i: nat)
    ensures i <= |q|
    ensures i < |q| ==> q[i].key == k
    ensures forall j :: 0 <= j < i ==> q[j].key != k
  {
    if q == [] || q[0].key == k then 0 else 1 + FirstWithKey(q[1..], k)
  }

  /** Remove one hint for `k` by moving the last one into its place. */
  function SwapRemove(q: HintQueue, k: Key): HintQueue {
    var i := FirstWithKey(q, k);
    if i == |q| then q
    else if |q| == 1 then []
    else if i < |q| - 1 then q[i := q[|q| - 1]][..|q| - 1]
    else q[..|q| - 1]
  }

  lemma {:induction false} SwapRemoveKeys(q: HintQueue, k: Key)
    requires k in KeysOf(q)
    ensures multiset(KeysOf(SwapRemove(q, k))) == multiset(KeysOf(q)) - multiset{k}
  {
    var i := FirstWithKey(q, k);
    FirstFound(q, k);
    MoveLast(KeysOf(q), i);
    SwapRemoved(q, k, i);
  }

  lemma {:induction false} FirstFound(q: HintQueue, k: Key)
    requires k in KeysOf(q)
    ensures FirstWithKey(q, k) < |q| && KeysOf(q)[FirstWithKey(q, k)] == k
  {
    var j :| 0 <= j < |q| && KeysOf(q)[j] == k;
  }

  lemma {:induction false} SwapRemoved(q: HintQueue, k: Key, i: nat)
    requires i == FirstWithKey(q, k) && i < |q|
    ensures KeysOf(SwapRemove(q, k)) ==
            var n, ks := |q|, KeysOf(q);
            if i < n - 1 then ks[i := ks[n - 1]][..n - 1] else ks[..n - 1]
  {
    var n := |q|;
    KeysOfFront(q);
    KeysOfFront(q[i := q[n - 1]]);
    assert KeysOf(q[i := q[n - 1]]) == KeysOf(q)[i := KeysOf(q)[n - 1]];
  }

  /** Of the hints for the key, the first one goes; the last hint of the queue takes its place and all others
      stay where they are. */
  lemma {:induction false} SwapRemoveExactly(q: HintQueue, k: Key)
    requires k in KeysOf(q)
    ensures exists i :: 0 <= i < |q| && q[i].key == k && k !in KeysOf(q)[..i] && |SwapRemove(q, k)| == |q| - 1
                        && forall j :: 0 <= j < |q| - 1 ==> SwapRemove(q, k)[j] == if j == i then q[|q| - 1] else q[j]
  {
    var i := FirstWithKey(q, k);
    FirstFound(q, k);
    forall j | 0 <= j < i ensures KeysOf(q)[..i][j] != k {
    }
  }

  lemma {:induction false} KeysOfFront(q: HintQueue)
    requires q != []
    ensures KeysOf(q[..|q| - 1]) == KeysOf(q)[..|q| - 1]
  {
  }

  lemma {:induction false} MoveLast(ks: seq<Key>, i: nat)
    requires i < |ks|
    ensures multiset(if i < |ks| - 1 then ks[i := ks[|ks| - 1]][..|ks| - 1] else ks[..|ks| - 1]) ==
            multiset(ks) - multiset{ks[i]}
  {
    var n, last := |ks| - 1, ks[|ks| - 1];
    var front := ks[..n];
    assert ks == front + [last];
    if i < n {
      MultisetWithout(front, i);
      MultisetWithout(front[i := last], i);
      assert Without(front[i := last], i) == Without(front, i);
      assert ks[i := last][..n] == front[i := last];
    }
  }

  /** The queue after the hints of `copy` from position `i` on have been tried. */
  function Reconnected(q: HintQueue, copy: HintQueue, ok: nat -> bool, i: nat): HintQueue
    requires i <= |copy|
    decreases |copy| - i
  {
    if i == |copy| then q
    else Reconnected(if ok(i) then SwapRemove(q, copy[i].key) else q, copy, ok, i + 1)
  }

  /** The keys of the hints from position `i` on whose delivery fails. */
  function FailedKeys(copy: HintQueue, ok: nat -> bool, i: nat): multiset<Key>
    requires i <= |copy|
    decreases |copy| - i
  {
    if i == |copy| then multiset{}
    else (if ok(i) then multiset{} else multiset{copy[i].key}) + FailedKeys(copy, ok, i + 1)
  }

  function TailKeys(copy: HintQueue, i: nat): multiset<Key>
    requires i <= |copy|
    decreases |copy| - i
  {
    if i == |copy| then multiset{} else multiset{copy[i].key} + TailKeys(copy, i + 1)
  }

  lemma {:induction false} TailKeysAre(copy: HintQueue, i: nat)
    requires i <= |copy|
    ensures TailKeys(copy, i) == multiset(KeysOf(copy)[i..])
    decreases |copy| - i
  {
    if i < |copy| {
      TailKeysAre(copy, i + 1);
      assert KeysOf(copy)[i..] == [copy[i].key] + KeysOf(copy)[i + 1..];
    } else {
      assert KeysOf(copy)[i..] == [];
    }
  }

  lemma {:induction false} TakeOut(a: multiset<Key>, k: Key, b: multiset<Key>)
    ensures a + (multiset{k} + b) - multiset{k} == a + b
  {
  }

  lemma {:induction false} PutIn(a: multiset<Key>, k: Key, b: multiset<Key>)
    ensures a + (multiset{k} + b) == (a + multiset{k}) + b
  {
  }

  lemma {:induction false} ReconnectedKeys(q: HintQueue, copy: HintQueue, ok: nat -> bool, i: nat, kept: multiset<Key>)
    requires i <= |copy|
    requires multiset(KeysOf(q)) == kept + TailKeys(copy, i)
    ensures multiset(KeysOf(Reconnected(q, copy, ok, i))) == kept + FailedKeys(copy, ok, i)
    decreases |copy| - i
  {
    if i < |copy| {
      var k := copy[i].key;
      if ok(i) {
        assert k in multiset(KeysOf(q));
        SwapRemoveKeys(q, k);
        TakeOut(kept, k, TailKeys(copy, i + 1));
        ReconnectedKeys(SwapRemove(q, k), copy, ok, i + 1, kept);
      } else {
        PutIn(kept, k, TailKeys(copy, i + 1));
        PutIn(kept, k, FailedKeys(copy, ok, i + 1));
        ReconnectedKeys(q, copy, ok, i + 1, kept + multiset{k});
      }
    }
  }

  /** What a forced reconnection leaves is, as a multiset of keys, exactly what failed; full
      success leaves nothing. */
  lemma {:induction false} ReconnectLeavesFailed(q: HintQueue, ok: nat -> bool)
    ensures multiset(KeysOf(Reconnected(q, q, ok, 0))) == FailedKeys(q, ok, 0)
    ensures (forall i :: 0 <= i < |q| ==> ok(i)) ==> Reconnected(q, q, ok, 0) == []
  {
    TailKeysAre(q, 0);
    assert KeysOf(q)[0..] == KeysOf(q);
    ReconnectedKeys(q, q, ok, 0, multiset{});
    if forall i :: 0 <= i < |q| ==> ok(i) {
      NoneFailed(q, ok, 0);
      assert |multiset(KeysOf(Reconnected(q, q, ok, 0)))| == |Reconnected(q, q, ok, 0)|;
    }
  }

  lemma {:induction false} NoneFailed(copy: HintQueue, ok: nat -> bool, i: nat)
    requires i <= |copy| && forall j :: 0 <= j < |copy| ==> ok(j)
    ensures FailedKeys(copy, ok, i) == multiset{}
    decreases |copy| - i
  {
    if i < |copy| {
      NoneFailed(copy, ok, i + 1);
    }
  }

  // ---------- What hand-off does to the target ----------

  /** What a hint delivered to `target` stores there; hints bypass the causality check. */
  function HandOver(existing: Option<StoredValue>, h: HintedWrite, target: NodeId, now: int): StoredValue {
    ReplicaWrite(existing, Sent(StoredValue(h.value, Some(h.clock), [], h.time), now), true, target, now)
  }

  /** Whatever the target holds, a hint replaces it by the hint's own value under the hint's clock. */
  lemma {:induction false} HandOverExactly(e: Option<StoredValue>, h: HintedWrite, target: NodeId, now: int)
    ensures HandOver(e, h, target, now) ==
            StoredValue(h.value, Some(HandedClock(h, target)), [], if h.time == 0 then now else h.time)
  {
    HandOverClock(e, h, target, now);
    assert EncodeEach([]) == [] && DecodeEach([], now) == [];
  }

  function HandedOver(s: Store, q: HintQueue, ok: nat -> bool, target: NodeId, now: int): Store {
    if q == [] then s
    else
      var n := |q| - 1;
      var before := HandedOver(s, q[..n], ok, target, now);
      if ok(n) then before[q[n].key := HandOver(Entry(before, q[n].key), q[n], target, now)] else before
  }

  lemma {:induction false} HandedOverMore(s: Store, q: HintQueue, i: nat, ok: nat -> bool, target: NodeId, now: int)
    requires i < |q|
    ensures var before := HandedOver(s, q[..i], ok, target, now);
            HandedOver(s, q[..i + 1], ok, target, now) ==
            if ok(i) then before[q[i].key := HandOver(Entry(before, q[i].key), q[i], target, now)] else before
  {
    assert q[..i + 1][..i] == q[..i];
  }

  /** The last hint for `k` that was delivered. */
  function LastDelivered(q: HintQueue, ok: nat -> bool, k: Key): Option<HintedWrite> {
    if q == [] then None
    else
      var n := |q| - 1;
      if ok(n) && q[n].key == k then Some(q[n]) else LastDelivered(q[..n], ok, k)
  }

  /** The clock of a delivered hint: its own as it comes over the wire, or the target's first count. */
  function HandedClock(h: HintedWrite, target: NodeId): (c: Clock)
    ensures h.clock != map[] && ClockFits(h.clock) ==> c == h.clock
  {
    if h.clock == map[] then Incremented(map[], target)
    else
      EncodeClockExact(Some(h.clock));
      EncodeClock(Some(h.clock))
  }

  lemma {:induction false} HandOverClock(e: Option<StoredValue>, h: HintedWrite, target: NodeId, now: int)
    ensures ClockOf(HandOver(e, h, target, now)) == HandedClock(h, target)
  {
    var c := EncodeClock(Some(h.clock));
    assert c.Keys == h.clock.Keys;
    assert c == map[] <==> h.clock == map[];
  }

  /** For every key the target ends with the last hint delivered, whatever it held before; so it
      loses ground exactly when the hint's clock does not cover what it held. */
  lemma {:induction false} TargetHoldsLast(s: Store, q: HintQueue, ok: nat -> bool, target: NodeId, now: int, k: Key)
    ensures var last, after := LastDelivered(q, ok, k), Entry(HandedOver(s, q, ok, target, now), k);
            && after == (if last.Some? then Some(HandOver(None, last.value, target, now)) else Entry(s, k))
            && (!Leq(EntryClock(Entry(s, k)), EntryClock(after)) <==>
                last.Some? && !Leq(EntryClock(Entry(s, k)), HandedClock(last.value, target)))
    decreases |q|
  {
    if q != [] {
      TargetHoldsLast(s, q[..|q| - 1], ok, target, now, k);
      HandOverClock(None, q[|q| - 1], target, now);
    }
  }
}
