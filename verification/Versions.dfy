/** Stored values are trees: a current value with its clock, and the list of values it conflicted
    with, each of which may carry conflicts of its own. This module holds the measures on such
    trees and the one argument that every fold over versions uses: a chain of absorbing steps
    ends at the join of all clocks and loses no uncovered version. */
module Versions {
  import opened Sequences
  import opened Clocks

  /** A value as decoded from JSON; `Nil` is JSON null, which several code paths read as absent. */
  datatype Value = Nil | Json(text: string)

  type Key = string

  datatype StoredValue = StoredValue(value: Value, clock: Option<Clock>, conflicts: seq<StoredValue>, time: int)

  type Store = map<Key, StoredValue>

  function ClockOf(v: StoredValue): Clock {
    if v.clock.Some? then v.clock.value else map[]
  }

  function EntryClock(e: Option<StoredValue>): Clock {
    if e.Some? then ClockOf(e.value) else map[]
  }

  function Entry(s: Store, k: Key): Option<StoredValue> {
    if k in s then Some(s[k]) else None
  }

  function WithEntry(s: Store, k: Key, e: Option<StoredValue>): Store {
    if e.Some? then s[k := e.value] else s - {k}
  }

  // ---------- Measures on conflict trees ----------

  function TreeValues(v: StoredValue): multiset<Value>
    decreases v, 1
  {
    multiset{v.value} + ForestValues(v.conflicts)
  }

  function ForestValues(vs: seq<StoredValue>): multiset<Value>
    decreases vs, 0
  {
    if vs == [] then multiset{} else TreeValues(vs[0]) + ForestValues(vs[1..])
  }

  function EntryValues(e: Option<StoredValue>): multiset<Value> {
    if e.Some? then TreeValues(e.value) else multiset{}
  }

  function TreeSize(v: StoredValue): nat
    decreases v, 1
  {
    1 + ForestSize(v.conflicts)
  }

  function ForestSize(vs: seq<StoredValue>): nat
    decreases vs, 0
  {
    if vs == [] then 0 else TreeSize(vs[0]) + ForestSize(vs[1..])
  }

  lemma {:induction false} ForestAppend(xs: seq<StoredValue>, ys: seq<StoredValue>)
    ensures ForestValues(xs + ys) == ForestValues(xs) + ForestValues(ys)
    ensures ForestSize(xs + ys) == ForestSize(xs) + ForestSize(ys)
  {
    if xs == [] {
      assert xs + ys == ys;
    } else {
      assert (xs + ys)[0] == xs[0] && (xs + ys)[1..] == xs[1..] + ys;
      ForestAppend(xs[1..], ys);
    }
  }

  lemma {:induction false} ForestOne(v: StoredValue)
    ensures ForestValues([v]) == TreeValues(v) && ForestSize([v]) == TreeSize(v)
  {
  }

  /** The size of a tree is the number of values it holds. */
  lemma {:induction false} TreeCounts(v: StoredValue)
    ensures |TreeValues(v)| == TreeSize(v)
    decreases v, 1
  {
    ForestCounts(v.conflicts);
  }

  lemma {:induction false} ForestCounts(vs: seq<StoredValue>)
    ensures |ForestValues(vs)| == ForestSize(vs)
    decreases vs, 0
  {
    if vs != [] {
      TreeCounts(vs[0]);
      ForestCounts(vs[1..]);
    }
  }

  // ---------- Chains of absorbing steps ----------

  /** `res` is `cur` after taking in `item`: the clocks are joined, and each side's values are
      all kept unless that side's clock is covered by the other's. */
  ghost predicate Absorbs(cur: Option<StoredValue>, item: Option<StoredValue>, res: Option<StoredValue>) {
    && EntryClock(res) == Join(EntryClock(cur), EntryClock(item))
    && (EntryValues(cur) <= EntryValues(res) || Leq(EntryClock(cur), EntryClock(item)))
    && (EntryValues(item) <= EntryValues(res) || Leq(EntryClock(item), EntryClock(cur)))
  }

  /** A run of absorbing steps that starts from nothing; `states[i + 1]` has taken in `items[i]`. */
  ghost predicate AbsorbChain(states: seq<Option<StoredValue>>, items: seq<Option<StoredValue>>) {
    && |states| == |items| + 1 && states[0] == None
    && forall j :: 0 <= j < |items| ==> Absorbs(states[j], items[j], states[j + 1])
  }

  function EntryClocks(items: seq<Option<StoredValue>>): (r: seq<Clock>)
    ensures |r| == |items|
    ensures forall i :: 0 <= i < |items| ==> r[i] == EntryClock(items[i])
  {
    seq(|items|, i requires 0 <= i < |items| => EntryClock(items[i]))
  }

  lemma {:induction false} ChainClock(states: seq<Option<StoredValue>>, items: seq<Option<StoredValue>>)
    requires AbsorbChain(states, items)
    ensures EntryClock(states[|items|]) == JoinAll(EntryClocks(items))
  {
    ChainClockAt(states, items, |items|);
    assert EntryClocks(items)[..|items|] == EntryClocks(items);
  }

  lemma {:induction false} ChainClockAt(states: seq<Option<StoredValue>>, items: seq<Option<StoredValue>>, m: nat)
    requires AbsorbChain(states, items) && m <= |items|
    ensures EntryClock(states[m]) == JoinAll(EntryClocks(items)[..m])
    decreases m
  {
    if m > 0 {
      ChainClockAt(states, items, m - 1);
      assert Absorbs(states[m - 1], items[m - 1], states[m]);
      assert EntryClocks(items)[..m][..m - 1] == EntryClocks(items)[..m - 1];
    }
  }

  lemma {:induction false} StepKeeps(x: multiset<Value>, c: Clock, u: Clock, cur: Option<StoredValue>,
                                     item: Option<StoredValue>, res: Option<StoredValue>)
    requires Absorbs(cur, item, res) && Leq(EntryClock(item), u) && !Leq(c, u)
    requires x <= EntryValues(cur) && Leq(c, EntryClock(cur))
    ensures x <= EntryValues(res) && Leq(c, EntryClock(res))
  {
  }

  lemma {:induction false} StepEnters(u: Clock, cur: Option<StoredValue>, item: Option<StoredValue>,
                                      res: Option<StoredValue>)
    requires Absorbs(cur, item, res) && Leq(EntryClock(cur), u) && !Leq(EntryClock(item), u)
    ensures EntryValues(item) <= EntryValues(res) && Leq(EntryClock(item), EntryClock(res))
  {
  }

  /** The state holds all the values of the item, under a clock that covers the item's. */
  ghost predicate Holds(state: Option<StoredValue>, item: Option<StoredValue>) {
    EntryValues(item) <= EntryValues(state) && Leq(EntryClock(item), EntryClock(state))
  }

  /** `u` covers every item but the i-th. */
  ghost predicate CoversOthers(u: Clock, items: seq<Option<StoredValue>>, i: nat) {
    forall j :: 0 <= j < |items| && j != i ==> Leq(EntryClock(items[j]), u)
  }

  /** Before the i-th item is taken in, the state lies below `u`. */
  lemma {:induction false} ChainUnder(states: seq<Option<StoredValue>>, items: seq<Option<StoredValue>>, i: nat, m: nat,
                                      u: Clock)
    requires AbsorbChain(states, items) && CoversOthers(u, items, i) && m <= i < |items|
    ensures m < |states| && Leq(EntryClock(states[m]), u)
    decreases m
  {
    if m > 0 {
      ChainUnder(states, items, i, m - 1, u);
      assert Absorbs(states[m - 1], items[m - 1], states[m]);
      JoinLeast(EntryClock(states[m - 1]), EntryClock(items[m - 1]), u);
    }
  }

  /** An item not covered by a clock that covers all the others keeps all its values from then on. */
  lemma {:induction false} ChainKeepsUncovered(states: seq<Option<StoredValue>>, items: seq<Option<StoredValue>>,
                                               i: nat, m: nat, u: Clock)
    requires AbsorbChain(states, items) && CoversOthers(u, items, i) && i < m <= |items| &&
             !Leq(EntryClock(items[i]), u)
    ensures m < |states| && Holds(states[m], items[i])
    decreases m
  {
    assert Absorbs(states[m - 1], items[m - 1], states[m]);
    if m == i + 1 {
      ChainUnder(states, items, i, i, u);
      StepEnters(u, states[i], items[i], states[m]);
    } else {
      ChainKeepsUncovered(states, items, i, m - 1, u);
      StepKeeps(EntryValues(items[i]), EntryClock(items[i]), u, states[m - 1], items[m - 1], states[m]);
    }
  }

  /** An item that the join of the other items does not cover keeps all its values to the end. */
  lemma {:induction false} ChainKeeps(states: seq<Option<StoredValue>>, items: seq<Option<StoredValue>>, i: nat)
    requires AbsorbChain(states, items) && i < |items|
    requires !Leq(EntryClock(items[i]), JoinAll(Without(EntryClocks(items), i)))
    ensures EntryValues(items[i]) <= EntryValues(states[|items|])
  {
    OthersBelow(items, i);
    ChainKeepsUncovered(states, items, i, |items|, JoinAll(Without(EntryClocks(items), i)));
  }

  lemma {:induction false} OthersBelow(items: seq<Option<StoredValue>>, i: nat)
    requires i < |items|
    ensures CoversOthers(JoinAll(Without(EntryClocks(items), i)), items, i)
  {
    var others := Without(EntryClocks(items), i);
    JoinAllUpper(others);
    forall j | 0 <= j < |items| && j != i
      ensures Leq(EntryClock(items[j]), JoinAll(others))
    {
      assert EntryClock(items[j]) == others[if j < i then j else j - 1];
    }
  }
}
