/** Resolving the responses of a read. The responses come out of a map, so any order is possible;
    what is proved holds for every order. */
module Resolution {
  import opened Sequences
  import opened Clocks
  import opened Versions
  import opened Payloads
  import opened Merging

  function ResolveStep(less: PayloadOrder, cur: Option<StoredValue>, v: StoredValue): StoredValue {
    if cur.None? then v
    else
      match Causal(cur.value.clock, v.clock)
      case Concurrent => Merge(less, cur.value, v)
      case Newer => v
      case Older => cur.value
  }

  function Resolve(less: PayloadOrder, order: seq<StoredValue>): Option<StoredValue> {
    if order == [] then None
    else Some(ResolveStep(less, Resolve(less, order[..|order| - 1]), order[|order| - 1]))
  }

  function ConflictCount(less: PayloadOrder, order: seq<StoredValue>): nat {
    if order == [] then 0
    else
      var cur := Resolve(less, order[..|order| - 1]);
      ConflictCount(less, order[..|order| - 1]) +
      if cur.Some? && Causal(cur.value.clock, order[|order| - 1].clock).Concurrent? then 1 else 0
  }

  lemma {:induction false} ResolveAbsorbs(less: PayloadOrder, cur: Option<StoredValue>, v: StoredValue)
    ensures Absorbs(cur, Some(v), Some(ResolveStep(less, cur, v)))
  {
    JoinAbsorbs(EntryClock(cur), ClockOf(v));
    if cur.Some? {
      match Causal(cur.value.clock, v.clock) {
        case Concurrent =>
          MergeConserves(less, cur.value, v);
        case Newer =>
        case Older =>
      }
    }
  }

  function Somes(order: seq<StoredValue>): (r: seq<Option<StoredValue>>)
    ensures |r| == |order|
    ensures forall i :: 0 <= i < |order| ==> r[i] == Some(order[i])
  {
    seq(|order|, i requires 0 <= i < |order| => Some(order[i]))
  }

  function ResolveStates(less: PayloadOrder, order: seq<StoredValue>): (r: seq<Option<StoredValue>>)
    ensures |r| == |order| + 1
    ensures forall i :: 0 <= i < |r| ==> r[i] == Resolve(less, order[..i])
  {
    seq(|order| + 1, i requires 0 <= i <= |order| => Resolve(less, order[..i]))
  }

  lemma {:induction false} ResolveChain(less: PayloadOrder, order: seq<StoredValue>)
    ensures AbsorbChain(ResolveStates(less, order), Somes(order))
    ensures ResolveStates(less, order)[|order|] == Resolve(less, order)
  {
    assert order[..|order|] == order && order[..0] == [];
    forall j | 0 <= j < |order|
      ensures Absorbs(ResolveStates(less, order)[j], Somes(order)[j], ResolveStates(less, order)[j + 1])
    {
      ResolveNext(less, order, j);
      ResolveAbsorbs(less, Resolve(less, order[..j]), order[j]);
    }
  }

  lemma {:induction false} ResolveNext(less: PayloadOrder, order: seq<StoredValue>, j: nat)
    requires j < |order|
    ensures Resolve(less, order[..j + 1]) == Some(ResolveStep(less, Resolve(less, order[..j]), order[j]))
  {
    assert order[..j + 1][..j] == order[..j];
  }

  /** The resolved clock is the join of all response clocks, whatever the order. */
  lemma {:induction false} ResolveClock(less: PayloadOrder, order: seq<StoredValue>)
    ensures EntryClock(Resolve(less, order)) == JoinAll(ClocksOf(order))
  {
    ResolveChain(less, order);
    ChainClock(ResolveStates(less, order), Somes(order));
    assert EntryClocks(Somes(order)) == ClocksOf(order);
  }

  /** A response that the others do not cover keeps every value of its tree in the result. */
  lemma {:induction false} UncoveredResponseSurvives(less: PayloadOrder, order: seq<StoredValue>, i: nat)
    requires i < |order| && !Leq(ClockOf(order[i]), JoinAll(Without(ClocksOf(order), i)))
    ensures TreeValues(order[i]) <= EntryValues(Resolve(less, order))
  {
    ResolveChain(less, order);
    assert EntryClocks(Somes(order)) == ClocksOf(order);
    ChainKeeps(ResolveStates(less, order), Somes(order), i);
    assert EntryValues(Somes(order)[i]) == TreeValues(order[i]);
  }

  /** Without a conflict the result is one of the responses, unchanged, and it dominates all. */
  lemma {:induction false} NoConflictNoChange(less: PayloadOrder, order: seq<StoredValue>)
    requires order != [] && ConflictCount(less, order) == 0
    ensures exists i :: 0 <= i < |order| && Resolve(less, order) == Some(order[i])
    ensures forall j :: 0 <= j < |order| ==> Leq(ClockOf(order[j]), EntryClock(Resolve(less, order)))
  {
    var n := |order|;
    if n > 1 {
      NoConflictNoChange(less, order[..n - 1]);
      var i :| 0 <= i < n - 1 && Resolve(less, order[..n - 1]) == Some(order[i]);
    }
    ResolveClock(less, order);
    JoinAllUpper(ClocksOf(order));
    forall j | 0 <= j < n ensures Leq(ClockOf(order[j]), EntryClock(Resolve(less, order))) {
      assert ClockOf(order[j]) == ClocksOf(order)[j];
    }
  }

  // ---------- What the answer is ----------

  lemma {:induction false} ResolveLast(less: PayloadOrder, order: seq<StoredValue>, v: StoredValue)
    ensures Resolve(less, order + [v]) == Some(ResolveStep(less, Resolve(less, order), v))
    ensures ConflictCount(less, order + [v]) == ConflictCount(less, order) +
              if order != [] && Causal(Resolve(less, order).value.clock, v.clock).Concurrent? then 1 else 0
  {
    assert (order + [v])[..|order|] == order;
  }

  /** What one more response does to the outcome: nothing when the outcome covers it, replace the outcome
      when it is strictly above, and otherwise merge with it, the later of the two on top. */
  lemma {:induction false} ResolveExactly(less: PayloadOrder, order: seq<StoredValue>, v: StoredValue)
    requires order != []
    ensures Resolve(less, order).Some?
    ensures var cur := Resolve(less, order).value;
            var after := Resolve(less, order + [v]);
            var clocked := cur.clock.Some? && v.clock.Some?;
            && (clocked && Leq(ClockOf(v), ClockOf(cur)) ==> after == Some(cur))
            && (clocked && Leq(ClockOf(cur), ClockOf(v)) && ClockOf(v) != ClockOf(cur) ==> after == Some(v))
            && (!clocked || (!Leq(ClockOf(v), ClockOf(cur)) && !Leq(ClockOf(cur), ClockOf(v))) ==>
                  after.Some? && Merges(after.value, cur, v))
  {
    var cur := Resolve(less, order).value;
    ResolveLast(less, order, v);
    StepExactly(less, cur, v);
  }

  lemma {:induction false} StepExactly(less: PayloadOrder, cur: StoredValue, v: StoredValue)
    ensures var after := ResolveStep(less, Some(cur), v);
            var clocked := cur.clock.Some? && v.clock.Some?;
            && (clocked && Leq(ClockOf(v), ClockOf(cur)) ==> after == cur)
            && (clocked && Leq(ClockOf(cur), ClockOf(v)) && ClockOf(v) != ClockOf(cur) ==> after == v)
            && (!clocked || (!Leq(ClockOf(v), ClockOf(cur)) && !Leq(ClockOf(cur), ClockOf(v))) ==>
                  Merges(after, cur, v))
  {
    CausalExactly(cur.clock, v.clock);
    if Causal(cur.clock, v.clock).Concurrent? {
      MergedLatest(less, cur, v);
    }
  }

  /** No response is covered by the join of the others. */
  ghost predicate AllUncovered(order: seq<StoredValue>) {
    forall i :: 0 <= i < |order| ==> Uncovered(order, i)
  }

  ghost predicate Uncovered(order: seq<StoredValue>, i: nat)
    requires i < |order|
  {
    !Leq(ClockOf(order[i]), JoinAll(Without(ClocksOf(order), i)))
  }

  /** An uncovered response is not below any join of some of the others. */
  lemma {:induction false} UncoveredBySome(order: seq<StoredValue>, i: nat, some: seq<Clock>)
    requires AllUncovered(order) && i < |order|
    requires forall c :: c in some ==> c in Without(ClocksOf(order), i)
    ensures !Leq(ClockOf(order[i]), JoinAll(some))
  {
    var all := Without(ClocksOf(order), i);
    assert Uncovered(order, i);
    JoinAllUpper(all);
    JoinAllLeast(some, JoinAll(all));
  }

  /** Then the responses met so far and the next one are concurrent. */
  lemma {:induction false} UncoveredNext(order: seq<StoredValue>, n: nat)
    requires AllUncovered(order) && 0 < n < |order|
    ensures var u := JoinAll(ClocksOf(order[..n]));
            !Leq(ClockOf(order[n]), u) && !Leq(u, ClockOf(order[n]))
  {
    EarlierClocks(order, n);
    UncoveredBySome(order, n, ClocksOf(order[..n]));
    UncoveredBySome(order, 0, [ClockOf(order[n])]);
    OneJoined(ClockOf(order[n]));
    var first, u := ClockOf(order[0]), JoinAll(ClocksOf(order[..n]));
    JoinAllUpper(ClocksOf(order[..n]));
    assert ClocksOf(order[..n])[0] == first;
    if Leq(u, ClockOf(order[n])) {
      LeqTransitive(first, u, ClockOf(order[n]));
    }
  }

  lemma {:induction false} EarlierClocks(order: seq<StoredValue>, n: nat)
    requires 0 < n < |order|
    ensures forall c :: c in ClocksOf(order[..n]) ==> c in Without(ClocksOf(order), n)
    ensures ClockOf(order[n]) in Without(ClocksOf(order), 0)
  {
    var cs := ClocksOf(order[..n]);
    forall c | c in cs ensures c in Without(ClocksOf(order), n) {
      var j :| 0 <= j < n && cs[j] == c;
      assert Without(ClocksOf(order), n)[j] == c;
    }
    assert Without(ClocksOf(order), 0)[n - 1] == ClockOf(order[n]);
  }

  lemma {:induction false} OneJoined(c: Clock)
    ensures JoinAll([c]) == c
  {
    assert [c][..0] == [];
    JoinAbsorbs(map[], c);
  }

  /** Responses of which none is covered by the others are all merged: in every order the answer is that
      of the latest response, every value of every response is kept and none counted twice, and there
      is one conflict fewer than responses. */
  lemma {:induction false} UncoveredAnswer(less: PayloadOrder, order: seq<StoredValue>)
    requires AllUncovered(order) && order != []
    ensures AnswersAll(Resolve(less, order), order)
    ensures ConflictCount(less, order) == |order| - 1
  {
    UncoveredAnswerAt(less, order, |order|);
    assert order[..|order|] == order;
  }

  /** The outcome has the latest response on top and holds exactly the values of all. */
  ghost predicate AnswersAll(outcome: Option<StoredValue>, order: seq<StoredValue>) {
    outcome.Some? && Latest(outcome.value, order) && TreeValues(outcome.value) == ForestValues(order)
  }

  ghost predicate Answered(less: PayloadOrder, order: seq<StoredValue>) {
    AnswersAll(Resolve(less, order), order) && ConflictCount(less, order) == |order| - 1
  }

  lemma {:induction false} UncoveredAnswerAt(less: PayloadOrder, order: seq<StoredValue>, n: nat)
    requires AllUncovered(order) && 0 < n <= |order|
    ensures Answered(less, order[..n])
    decreases n
  {
    if n > 1 {
      UncoveredAnswerAt(less, order, n - 1);
      UncoveredMore(less, order, n);
      assert order[..n] == order[..n - 1] + [order[n - 1]];
    } else {
      FirstAnswer(less, order[0]);
      assert order[..1] == [] + [order[0]];
    }
  }

  lemma {:induction false} UncoveredMore(less: PayloadOrder, order: seq<StoredValue>, n: nat)
    requires AllUncovered(order) && 1 < n <= |order| && Answered(less, order[..n - 1])
    ensures Answered(less, order[..n - 1] + [order[n - 1]])
  {
    UncoveredStep(less, order, n);
    AnsweredMore(less, order[..n - 1], order[n - 1]);
  }

  /** The last response is concurrent with the outcome of the others and was merged into it. */
  ghost predicate MergedLast(less: PayloadOrder, front: seq<StoredValue>, v: StoredValue) {
    var cur, after := Resolve(less, front), Resolve(less, front + [v]);
    && cur.Some? && after.Some? && Causal(cur.value.clock, v.clock).Concurrent? && Merges(after.value, cur.value, v)
  }

  lemma {:induction false} AnsweredMore(less: PayloadOrder, front: seq<StoredValue>, v: StoredValue)
    requires front != [] && Answered(less, front) && MergedLast(less, front, v)
    ensures Answered(less, front + [v])
  {
    ResolveLast(less, front, v);
    AnswersMore(Resolve(less, front).value, v, front, Resolve(less, front + [v]).value);
  }

  lemma {:induction false} FirstAnswer(less: PayloadOrder, v: StoredValue)
    ensures Answered(less, [] + [v])
  {
    ResolveLast(less, [], v);
    assert [] + [v] == [v] && v in [v];
    ForestOne(v);
  }

  lemma {:induction false} UncoveredStep(less: PayloadOrder, order: seq<StoredValue>, n: nat)
    requires AllUncovered(order) && 1 < n <= |order|
    ensures MergedLast(less, order[..n - 1], order[n - 1])
  {
    var front, v := order[..n - 1], order[n - 1];
    UncoveredNext(order, n - 1);
    ResolveClock(less, front);
    ResolveExactly(less, front, v);
    CausalExactly(Resolve(less, front).value.clock, v.clock);
  }

  lemma {:induction false} AnswersMore(cur: StoredValue, v: StoredValue, front: seq<StoredValue>, m: StoredValue)
    requires AnswersAll(Some(cur), front) && Merges(m, cur, v)
    ensures AnswersAll(Some(m), front + [v])
  {
    LatestMore(m, cur, v, front);
    ForestAppend(front, [v]);
    ForestOne(v);
  }

  lemma {:induction false} LatestMore(m: StoredValue, cur: StoredValue, v: StoredValue, front: seq<StoredValue>)
    requires Latest(m, [cur, v]) && Latest(cur, front)
    ensures Latest(m, front + [v])
  {
    var w :| w in [cur, v] && w.time == m.time && w.value == m.value;
    var x :| x in front && x.time == cur.time && x.value == cur.value;
    assert x in front + [v] && v in front + [v] && cur in [cur, v] && v in [cur, v];
  }

  function ValuesIn(responses: map<NodeId, StoredValue>, ids: seq<NodeId>): (r: seq<StoredValue>)
    requires forall i :: 0 <= i < |ids| ==> ids[i] in responses
    ensures |r| == |ids|
    ensures forall i :: 0 <= i < |ids| ==> r[i] == responses[ids[i]]
  {
    seq(|ids|, i requires 0 <= i < |ids| => responses[ids[i]])
  }

  lemma {:induction false} ResolveMore(less: PayloadOrder, responses: map<NodeId, StoredValue>, ids: seq<NodeId>,
                                       n: NodeId)
    requires forall i :: 0 <= i < |ids| ==> ids[i] in responses
    requires n in responses
    ensures var before, after := ValuesIn(responses, ids), ValuesIn(responses, ids + [n]);
            && Resolve(less, after) == Some(ResolveStep(less, Resolve(less, before), responses[n]))
            && ConflictCount(less, after) == ConflictCount(less, before) +
                 (if ids != [] && Causal(Resolve(less, before).value.clock, responses[n].clock).Concurrent? then 1
                  else 0)
  {
    assert ValuesIn(responses, ids + [n]) == ValuesIn(responses, ids) + [responses[n]];
    ResolveLast(less, ValuesIn(responses, ids), responses[n]);
  }

  /** What a resolution says about a whole map of responses, independently of the order. */
  lemma {:induction false} ResolvedResponses(less: PayloadOrder, responses: map<NodeId, StoredValue>,
                                             order: seq<NodeId>)
    requires Enumerates(order, responses.Keys)
    ensures var r := Resolve(less, ValuesIn(responses, order));
            && (r.Some? <==> responses != map[])
            && (forall u :: Leq(EntryClock(r), u) <==> forall n :: n in responses ==> Leq(ClockOf(responses[n]), u))
            && (ConflictCount(less, ValuesIn(responses, order)) == 0 && responses != map[] ==>
                  exists n :: n in responses && r == Some(responses[n]))
  {
    var vs := ValuesIn(responses, order);
    if responses != map[] {
      var n :| n in responses;
      assert n in order;
    }
    forall u ensures Leq(EntryClock(Resolve(less, vs)), u) <==>
        forall n :: n in responses ==> Leq(ClockOf(responses[n]), u) {
      ResolvedBelow(less, responses, order, u);
    }
    if ConflictCount(less, vs) == 0 && order != [] {
      NoConflictNoChange(less, vs);
      var i :| 0 <= i < |vs| && Resolve(less, vs) == Some(vs[i]);
      assert order[i] in responses;
    }
  }

  lemma {:induction false} ResolvedBelow(less: PayloadOrder, responses: map<NodeId, StoredValue>, order: seq<NodeId>,
                                         u: Clock)
    requires Enumerates(order, responses.Keys)
    ensures Leq(EntryClock(Resolve(less, ValuesIn(responses, order))), u) <==>
            forall n :: n in responses ==> Leq(ClockOf(responses[n]), u)
  {
    var cs := ClocksOf(ValuesIn(responses, order));
    ResolveClock(less, ValuesIn(responses, order));
    JoinAllLeast(cs, u);
    forall n | n in responses ensures ClockOf(responses[n]) in cs {
      var i :| 0 <= i < |order| && order[i] == n;
      assert cs[i] == ClockOf(responses[n]);
    }
    forall c | c in cs ensures exists n :: n in responses && c == ClockOf(responses[n]) {
      var i :| 0 <= i < |cs| && cs[i] == c;
      assert order[i] in responses;
    }
  }

  /** None of the responses is below what covers all the others. */
  ghost predicate NoneCovered(responses: map<NodeId, StoredValue>) {
    forall n :: n in responses ==> exists u :: CoversRest(responses, n, u) && !Leq(ClockOf(responses[n]), u)
  }

  ghost predicate CoversRest(responses: map<NodeId, StoredValue>, n: NodeId, u: Clock) {
    forall m :: m in responses && m != n ==> Leq(ClockOf(responses[m]), u)
  }

  /** The value and time are those of a response that no other is later than. */
  ghost predicate LatestOf(v: StoredValue, responses: map<NodeId, StoredValue>) {
    && (exists n :: n in responses && responses[n].time == v.time && responses[n].value == v.value)
    && (forall n :: n in responses ==> responses[n].time <= v.time)
  }

  lemma {:induction false} NoneCoveredInOrder(responses: map<NodeId, StoredValue>, order: seq<NodeId>)
    requires Enumerates(order, responses.Keys) && NoneCovered(responses)
    ensures AllUncovered(ValuesIn(responses, order))
  {
    var vs := ValuesIn(responses, order);
    forall i | 0 <= i < |vs| ensures !Leq(ClockOf(vs[i]), JoinAll(Without(ClocksOf(vs), i))) {
      var u :| CoversRest(responses, order[i], u) && !Leq(ClockOf(responses[order[i]]), u);
      OthersUnder(responses, order, i, u);
      JoinAllLeast(Without(ClocksOf(vs), i), u);
      if Leq(ClockOf(vs[i]), JoinAll(Without(ClocksOf(vs), i))) {
        LeqTransitive(ClockOf(vs[i]), JoinAll(Without(ClocksOf(vs), i)), u);
      }
    }
  }

  lemma {:induction false} OthersUnder(responses: map<NodeId, StoredValue>, order: seq<NodeId>, i: nat, u: Clock)
    requires Enumerates(order, responses.Keys) && i < |order| && CoversRest(responses, order[i], u)
    ensures forall c :: c in Without(ClocksOf(ValuesIn(responses, order)), i) ==> Leq(c, u)
  {
    var cs := ClocksOf(ValuesIn(responses, order));
    forall j | 0 <= j < |cs| && j != i ensures Leq(cs[j], u) {
      assert order[j] in responses && order[j] != order[i] && cs[j] == ClockOf(responses[order[j]]);
    }
    forall c | c in Without(cs, i) ensures Leq(c, u) {
      var j :| 0 <= j < |cs| && j != i && cs[j] == c;
    }
  }

  lemma {:induction false} LeqTransitive(a: Clock, b: Clock, c: Clock)
    requires Leq(a, b) && Leq(b, c)
    ensures Leq(a, c)
  {
  }

  /** Responses none of which is covered: the answer is the latest one's, in every order of the map. */
  lemma {:induction false} LatestAnswered(less: PayloadOrder, responses: map<NodeId, StoredValue>, order: seq<NodeId>)
    requires Enumerates(order, responses.Keys) && NoneCovered(responses) && responses != map[]
    ensures var r := Resolve(less, ValuesIn(responses, order));
            && r.Some? && LatestOf(r.value, responses) &&
               TreeValues(r.value) == ForestValues(ValuesIn(responses, order))
            && ConflictCount(less, ValuesIn(responses, order)) == |responses| - 1
  {
    var vs := ValuesIn(responses, order);
    var n :| n in responses;
    assert n in order;
    NoneCoveredInOrder(responses, order);
    UncoveredAnswer(less, vs);
    EnumerationSize(order, responses.Keys);
    LatestInOrder(Resolve(less, vs).value, responses, order);
  }

  lemma {:induction false} LatestInOrder(v: StoredValue, responses: map<NodeId, StoredValue>, order: seq<NodeId>)
    requires Enumerates(order, responses.Keys) && Latest(v, ValuesIn(responses, order))
    ensures LatestOf(v, responses)
  {
    var vs := ValuesIn(responses, order);
    var w :| w in vs && w.time == v.time && w.value == v.value;
    var i :| 0 <= i < |vs| && vs[i] == w;
    assert order[i] in responses;
    forall n | n in responses ensures responses[n].time <= v.time {
      var j :| 0 <= j < |order| && order[j] == n;
      assert vs[j] in vs;
    }
  }

  /** resolveConflicts, with the map iterated in an arbitrary order. Responses without a value are
      filtered out by the caller. */
  method ResolveConflicts(less: PayloadOrder, responses: map<NodeId, StoredValue>)
    returns (current: Option<StoredValue>, conflicts: nat, ghost order: seq<NodeId>)
    requires forall n :: n in responses ==> responses[n].value != Nil
    ensures Enumerates(order, responses.Keys)
    ensures current == Resolve(less, ValuesIn(responses, order))
    ensures conflicts == ConflictCount(less, ValuesIn(responses, order))
    ensures current.Some? <==> responses != map[]
    ensures forall u :: Leq(EntryClock(current), u) <==> forall n :: n in responses ==> Leq(ClockOf(responses[n]), u)
    ensures conflicts == 0 && responses != map[] ==> exists n :: n in responses && current == Some(responses[n])
    ensures NoneCovered(responses) && responses != map[] ==>
              current.Some? && LatestOf(current.value, responses) && conflicts == |responses| - 1
  {
    current, conflicts, order := None, 0, [];
    var todo := responses.Keys;
    while todo != {}
      invariant todo <= responses.Keys
      invariant Enumerates(order, responses.Keys - todo)
      invariant current == Resolve(less, ValuesIn(responses, order))
      invariant conflicts == ConflictCount(less, ValuesIn(responses, order))
      invariant current.Some? <==> order != []
      invariant current.Some? ==> current.value.value != Nil
    {
      var n :| n in todo;
      var v := responses[n];
      if current.None? || current.value.value == Nil {
        current := Some(v);
      } else {
        var comparison := CompareVectorClocks(current.value.clock, v.clock);
        match comparison {
          case Concurrent =>
            conflicts := conflicts + 1;
            current := Some(Merge(less, current.value, v));
          case Newer =>
            current := Some(v);
          case Older =>
        }
      }
      EnumerateMore(order, responses.Keys - todo, n);
      ResolveMore(less, responses, order, n);
      order := order + [n];
      todo := todo - {n};
    }
    ResolvedResponses(less, responses, order);
    if NoneCovered(responses) && responses != map[] {
      LatestAnswered(less, responses, order);
    }
  }
}
