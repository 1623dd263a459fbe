/** What a replica does with a write to one key, and what any sequence of deliveries amounts to. */
module Writes {
  import opened Sequences
  import opened Clocks
  import opened Versions

  /** A delivered write; `time` is the replica's clock reading when it takes the write in. */
  datatype Write = Write(value: Value, clock: Clock, time: int)

  function Fresh(w: Write): StoredValue {
    StoredValue(w.value, Some(w.clock), [], w.time)
  }

  /** localPut on one key. */
  function Put(existing: Option<StoredValue>, w: Write): StoredValue {
    if existing.None? then Fresh(w)
    else
      var e := existing.value;
      match Causal(e.clock, Some(w.clock))
      case Concurrent => StoredValue(w.value, Some(Join(w.clock, ClockOf(e))), e.conflicts + [e], w.time)
      case Older => e
      case Newer => Fresh(w)
  }

  function PutAll(ws: seq<Write>): Option<StoredValue> {
    if ws == [] then None else Some(Put(PutAll(ws[..|ws| - 1]), ws[|ws| - 1]))
  }

  function WriteClocks(ws: seq<Write>): (r: seq<Clock>)
    ensures |r| == |ws|
    ensures forall i :: 0 <= i < |ws| ==> r[i] == ws[i].clock
  {
    seq(|ws|, i requires 0 <= i < |ws| => ws[i].clock)
  }

  lemma {:induction false} PutTree(e: StoredValue, w: Write)
    requires Causal(e.clock, Some(w.clock)) == Concurrent
    ensures TreeValues(Put(Some(e), w)) == multiset{w.value} + TreeValues(e) + ForestValues(e.conflicts)
    ensures TreeSize(Put(Some(e), w)) == 2 * TreeSize(e)
  {
    ForestAppend(e.conflicts, [e]);
    ForestOne(e);
  }

  lemma {:induction false} FreshTree(w: Write)
    ensures TreeValues(Fresh(w)) == multiset{w.value} && TreeSize(Fresh(w)) == 1
  {
  }

  /** The stored clock never goes down: it becomes the join with the write's clock. */
  lemma {:induction false} PutJoins(existing: Option<StoredValue>, w: Write)
    ensures ClockOf(Put(existing, w)) == Join(EntryClock(existing), w.clock)
    ensures existing.None? || existing.value.clock.Some? ==> Put(existing, w).clock.Some?
  {
  }

  lemma {:induction false} PutAbsorbs(existing: Option<StoredValue>, w: Write)
    ensures Absorbs(existing, Some(Fresh(w)), Some(Put(existing, w)))
  {
    PutJoins(existing, w);
    FreshTree(w);
    if existing.Some? && Causal(existing.value.clock, Some(w.clock)) == Concurrent {
      PutTree(existing.value, w);
    }
  }

  /** What a put does to any version: nothing when the version's clock covers the write's, replace it
      entirely when it lies strictly below, and otherwise keep it as one more conflict. */
  lemma {:induction false} PutExactly(e: StoredValue, w: Write)
    ensures Covered(Some(e), w.clock) ==> Put(Some(e), w) == e
    ensures e.clock.Some? && Leq(ClockOf(e), w.clock) && !Leq(w.clock, ClockOf(e)) ==>
              Put(Some(e), w) == StoredValue(w.value, Some(w.clock), [], w.time)
    ensures !Covered(Some(e), w.clock) && (e.clock.None? || !Leq(ClockOf(e), w.clock)) ==>
              Put(Some(e), w) == StoredValue(w.value, Some(Join(ClockOf(e), w.clock)), e.conflicts + [e], w.time)
  {
    JoinCommutes(w.clock, ClockOf(e));
  }

  /** A delivered value is in the tree exactly when the stored clock did not cover the write's, or the
      value was there already. */
  lemma {:induction false} ValueTaken(existing: Option<StoredValue>, w: Write)
    ensures w.value in EntryValues(Some(Put(existing, w))) <==>
            !Covered(existing, w.clock) || w.value in EntryValues(existing)
    ensures Covered(existing, w.clock) ==> Some(Put(existing, w)) == existing
  {
    if existing.Some? && Causal(existing.value.clock, Some(w.clock)) == Concurrent {
      PutTree(existing.value, w);
    }
  }

  predicate Covered(e: Option<StoredValue>, c: Clock) {
    e.Some? && e.value.clock.Some? && Leq(c, e.value.clock.value)
  }

  // ---------- Sequences of deliveries ----------

  function Items(ws: seq<Write>): (r: seq<Option<StoredValue>>)
    ensures |r| == |ws|
    ensures forall i :: 0 <= i < |ws| ==> r[i] == Some(Fresh(ws[i]))
  {
    seq(|ws|, i requires 0 <= i < |ws| => Some(Fresh(ws[i])))
  }

  function States(ws: seq<Write>): (r: seq<Option<StoredValue>>)
    ensures |r| == |ws| + 1
    ensures forall i :: 0 <= i < |r| ==> r[i] == PutAll(ws[..i])
  {
    seq(|ws| + 1, i requires 0 <= i <= |ws| => PutAll(ws[..i]))
  }

  lemma {:induction false} PutChain(ws: seq<Write>)
    ensures AbsorbChain(States(ws), Items(ws)) && States(ws)[|ws|] == PutAll(ws)
  {
    assert ws[..|ws|] == ws && ws[..0] == [];
    forall j | 0 <= j < |ws| ensures Absorbs(States(ws)[j], Items(ws)[j], States(ws)[j + 1]) {
      PutAllMore(ws, j);
      PutAbsorbs(PutAll(ws[..j]), ws[j]);
    }
  }

  lemma {:induction false} PutAllMore(ws: seq<Write>, j: nat)
    requires j < |ws|
    ensures PutAll(ws[..j + 1]) == Some(Put(PutAll(ws[..j]), ws[j]))
  {
    assert ws[..j + 1][..j] == ws[..j];
  }

  /** The stored clock is the join of all delivered clocks. */
  lemma {:induction false} PutAllClock(ws: seq<Write>)
    ensures EntryClock(PutAll(ws)) == JoinAll(WriteClocks(ws))
  {
    PutChain(ws);
    ChainClock(States(ws), Items(ws));
    assert EntryClocks(Items(ws)) == WriteClocks(ws);
  }

  /** Replicas that received the same writes, in whatever order and however often, hold the
      same clock. */
  lemma {:induction false} PutOrderImmaterial(ws: seq<Write>, us: seq<Write>)
    requires forall c :: c in WriteClocks(ws) <==> c in WriteClocks(us)
    ensures EntryClock(PutAll(ws)) == EntryClock(PutAll(us))
  {
    PutAllClock(ws);
    PutAllClock(us);
    JoinAllSameElements(WriteClocks(ws), WriteClocks(us));
  }

  /** A write whose clock the join of the other writes' clocks does not cover is never lost. */
  lemma {:induction false} UncoveredWriteSurvives(ws: seq<Write>, i: nat)
    requires i < |ws| && !Leq(ws[i].clock, JoinAll(Without(WriteClocks(ws), i)))
    ensures ws[i].value in EntryValues(PutAll(ws))
  {
    PutChain(ws);
    assert EntryClocks(Items(ws)) == WriteClocks(ws);
    ChainKeeps(States(ws), Items(ws), i);
    FreshTree(ws[i]);
    assert ws[i].value in EntryValues(Items(ws)[i]);
  }

  lemma {:induction false} PutAllHasClock(ws: seq<Write>)
    ensures PutAll(ws).Some? ==> PutAll(ws).value.clock.Some?
  {
  }

  /** A write already covered by what has been delivered changes nothing at all. */
  lemma {:induction false} CoveredWriteIgnored(ws: seq<Write>, w: Write)
    requires ws != [] && Leq(w.clock, JoinAll(WriteClocks(ws)))
    ensures PutAll(ws + [w]) == PutAll(ws)
  {
    PutAllClock(ws);
    PutAllHasClock(ws);
    assert (ws + [w])[..|ws|] == ws;
  }

  // ---------- What the last delivery does ----------

  /** The write's clock lies strictly above every delivered one, or nothing has been delivered. */
  ghost predicate Supersedes(ws: seq<Write>, w: Write) {
    ws == [] || (Leq(JoinAll(WriteClocks(ws)), w.clock) && !Leq(w.clock, JoinAll(WriteClocks(ws))))
  }

  lemma {:induction false} LastDelivery(ws: seq<Write>, w: Write)
    ensures PutAll(ws + [w]) == Some(Put(PutAll(ws), w))
    ensures ws != [] ==> PutAll(ws).Some? && PutAll(ws).value.clock == Some(JoinAll(WriteClocks(ws)))
  {
    PutAllClock(ws);
    PutAllHasClock(ws);
    assert (ws + [w])[..|ws|] == ws;
  }

  /** A superseding write leaves exactly itself: its value, clock and time, and no conflicts. */
  lemma {:induction false} SupersedingWrite(ws: seq<Write>, w: Write)
    requires Supersedes(ws, w)
    ensures PutAll(ws + [w]) == Some(StoredValue(w.value, Some(w.clock), [], w.time))
  {
    LastDelivery(ws, w);
  }

  /** And so everything delivered before it is forgotten, whatever comes after. */
  lemma {:induction false} SupersededForgotten(ws: seq<Write>, us: seq<Write>)
    requires us != [] && Supersedes(ws, us[0])
    ensures PutAll(ws + us) == PutAll(us)
    decreases |us|
  {
    var front, w := us[..|us| - 1], us[|us| - 1];
    assert us == front + [w] && ws + us == (ws + front) + [w];
    LastDelivery(ws + front, w);
    LastDelivery(front, w);
    if front == [] {
      assert ws + front == ws;
      SupersedingWrite(ws, w);
      SupersedingWrite([], w);
    } else {
      SupersededForgotten(ws, front);
    }
  }

  /** A conflicting write goes on top, under the join of the clocks, and keeps the previous version and
      that version's conflicts, in this order. */
  lemma {:induction false} ConflictingWrite(ws: seq<Write>, w: Write)
    requires ws != [] && !Leq(w.clock, JoinAll(WriteClocks(ws))) && !Leq(JoinAll(WriteClocks(ws)), w.clock)
    ensures PutAll(ws).Some?
    ensures var e := PutAll(ws).value;
            PutAll(ws + [w]) ==
            Some(StoredValue(w.value, Some(Join(JoinAll(WriteClocks(ws)), w.clock)), e.conflicts + [e], w.time))
  {
    LastDelivery(ws, w);
    JoinCommutes(w.clock, JoinAll(WriteClocks(ws)));
  }

  /** After a delivery that is not covered, its value and time are on top. */
  lemma {:induction false} UncoveredOnTop(ws: seq<Write>, w: Write)
    requires ws == [] || !Leq(w.clock, JoinAll(WriteClocks(ws)))
    ensures PutAll(ws + [w]).Some? && PutAll(ws + [w]).value.value == w.value && PutAll(ws + [w]).value.time == w.time
  {
    LastDelivery(ws, w);
  }

  // ---------- Retries ----------

  ghost predicate Repeats(ws: seq<Write>, w: Write) {
    exists i :: 0 <= i < |ws| && ws[i].value == w.value && ws[i].clock == w.clock
  }

  /** The deliveries that remain when every repetition of an earlier write is dropped. */
  ghost function FirstDeliveries(ws: seq<Write>): seq<Write> {
    if ws == [] then []
    else
      var front, last := ws[..|ws| - 1], ws[|ws| - 1];
      if Repeats(front, last) then FirstDeliveries(front) else FirstDeliveries(front) + [last]
  }

  /** At-least-once delivery equals exactly-once delivery: retries, at any later point, leave the
      whole stored value as it would have been without them. */
  lemma {:induction false} RetriesImmaterial(ws: seq<Write>)
    ensures PutAll(ws) == PutAll(FirstDeliveries(ws))
  {
    if ws != [] {
      var front, last := ws[..|ws| - 1], ws[|ws| - 1];
      RetriesImmaterial(front);
      var kept := FirstDeliveries(front);
      if Repeats(front, last) {
        JoinAllUpper(WriteClocks(front));
        assert last.clock in WriteClocks(front);
        CoveredWriteIgnored(front, last);
        assert front + [last] == ws;
      } else {
        assert (kept + [last])[..|kept|] == kept;
      }
    }
  }

  // ---------- Growth of the conflict tree ----------

  function Pow2(n: nat): nat {
    if n == 0 then 1 else 2 * Pow2(n - 1)
  }

  function PutsOnto(e: StoredValue, ws: seq<Write>): StoredValue {
    if ws == [] then e else Put(Some(PutsOnto(e, ws[..|ws| - 1])), ws[|ws| - 1])
  }

  ghost predicate EachConcurrent(e: StoredValue, ws: seq<Write>) {
    ws != [] ==>
      && EachConcurrent(e, ws[..|ws| - 1])
      && Causal(PutsOnto(e, ws[..|ws| - 1]).clock, Some(ws[|ws| - 1].clock)) == Concurrent
  }

  /** Each concurrent write doubles the number of values, because the previous version is kept as one
      more conflict together with a copy of all its conflicts. */
  lemma {:induction false} GrowthExact(e: StoredValue, ws: seq<Write>)
    requires EachConcurrent(e, ws)
    ensures |TreeValues(PutsOnto(e, ws))| == TreeSize(PutsOnto(e, ws)) == |TreeValues(e)| * Pow2(|ws|)
    ensures |PutsOnto(e, ws).conflicts| == |e.conflicts| + |ws|
  {
    TreeCounts(e);
    TreeCounts(PutsOnto(e, ws));
    SizeDoubles(e, ws);
  }

  lemma {:induction false} SizeDoubles(e: StoredValue, ws: seq<Write>)
    requires EachConcurrent(e, ws)
    ensures TreeSize(PutsOnto(e, ws)) == TreeSize(e) * Pow2(|ws|)
    ensures |PutsOnto(e, ws).conflicts| == |e.conflicts| + |ws|
    decreases |ws|
  {
    if ws != [] {
      var front := ws[..|ws| - 1];
      SizeDoubles(e, front);
      PutTree(PutsOnto(e, front), ws[|ws| - 1]);
      assert TreeSize(e) * (2 * Pow2(|front|)) == 2 * (TreeSize(e) * Pow2(|front|));
    }
  }

  /** From an empty key, n writes make a tree of at most 2^(n-1) values. */
  lemma {:induction false} GrowthBound(ws: seq<Write>)
    requires ws != []
    ensures |EntryValues(PutAll(ws))| == TreeSize(PutAll(ws).value) <= Pow2(|ws| - 1)
  {
    TreeCounts(PutAll(ws).value);
    var front, w := ws[..|ws| - 1], ws[|ws| - 1];
    FreshTree(w);
    if front != [] {
      GrowthBound(front);
      var e := PutAll(front).value;
      if Causal(e.clock, Some(w.clock)) == Concurrent {
        PutTree(e, w);
      }
    }
  }

  // ---------- Replica writes ----------

  /** applyReplicaWrite on one key: an incoming value without a clock is stamped by the receiver,
      and the force flags (forced sync, forced key, hint) bypass the causality check. */
  function Stamped(incoming: StoredValue, self: NodeId): StoredValue {
    if ClockOf(incoming) == map[] then incoming.(clock := Some(Incremented(map[], self))) else incoming
  }

  function ReplicaWrite(existing: Option<StoredValue>, incoming: StoredValue, forced: bool, self: NodeId, now: int)
    : StoredValue
  {
    var v := Stamped(incoming, self);
    if forced then v else Put(existing, Write(v.value, ClockOf(v), now))
  }

  /** A replica write keeps the stored clock from going down unless it is forced and its clock
      does not cover the stored one. */
  lemma {:induction false} ReplicaWriteLowers(existing: Option<StoredValue>, incoming: StoredValue, forced: bool,
                                              self: NodeId, now: int)
    ensures !Leq(EntryClock(existing), ClockOf(ReplicaWrite(existing, incoming, forced, self, now))) <==>
            forced && !Leq(EntryClock(existing), ClockOf(Stamped(incoming, self)))
  {
  }

  /** A forced write replaces whatever is there by what came in, conflicts and time included; another one
      takes its value in at the time of arrival, without its conflicts. An empty clock counts as the
      receiver's first event. */
  lemma {:induction false} ReplicaWriteExactly(ws: seq<Write>, incoming: StoredValue, self: NodeId, now: int)
    ensures var c := if ClockOf(incoming) == map[] then map[self := 1] else ClockOf(incoming);
            && ReplicaWrite(PutAll(ws), incoming, true, self, now) ==
               StoredValue(incoming.value, Some(c), incoming.conflicts, incoming.time)
            && Some(ReplicaWrite(PutAll(ws), incoming, false, self, now)) ==
               PutAll(ws + [Write(incoming.value, c, now)])
  {
    var c := if ClockOf(incoming) == map[] then map[self := 1] else ClockOf(incoming);
    LastDelivery(ws, Write(incoming.value, c, now));
    assert Stamped(incoming, self) == StoredValue(incoming.value, Some(c), incoming.conflicts, incoming.time);
  }

  /** No replica write leaves an empty clock behind. */
  lemma {:induction false} ReplicaWriteClocked(existing: Option<StoredValue>, incoming: StoredValue, forced: bool,
                                               self: NodeId, now: int)
    ensures ClockOf(ReplicaWrite(existing, incoming, forced, self, now)) != map[]
  {
  }

  /** A hint for a superseded write takes a replica back to the superseded state. */
  lemma {:induction false} ForcedWriteCanLower()
    ensures exists existing, incoming ::
              !Leq(EntryClock(existing), ClockOf(ReplicaWrite(existing, incoming, true, "n", 0)))
  {
    var existing := Some(StoredValue(Json("new"), Some(map["a" := 2]), [], 2));
    var incoming := StoredValue(Json("old"), Some(map["a" := 1]), [], 1);
    var c := ClockOf(incoming);
    assert "a" in c && c["a"] == 1;
    assert ReplicaWrite(existing, incoming, true, "n", 0) == incoming;
    assert EntryClock(existing)["a"] == 2 && "a" in EntryClock(existing);
  }
}
