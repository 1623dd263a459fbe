/** Merging two concurrent versions into one conflict tree. */
module Merging {
  import opened Sequences
  import opened Clocks
  import opened Sorting
  import opened Versions
  import opened Payloads

  /** The later timestamp wins; a tie goes to the smaller canonical text. */
  function ChoosePrimary(less: PayloadOrder, a: StoredValue, b: StoredValue): (StoredValue, StoredValue) {
    if b.time > a.time then (b, a)
    else if a.time > b.time then (a, b)
    else if less(PayloadOf(less, b), PayloadOf(less, a)) then (b, a)
    else (a, b)
  }

  /** The primary is an input that no other precedes: none is later, and none that is equally late
      has a smaller text. */
  lemma {:induction false} PrimaryIsFirst(less: PayloadOrder, a: StoredValue, b: StoredValue)
    requires StrictTotal(less)
    ensures var (primary, secondary) := ChoosePrimary(less, a, b);
            && ((primary == a && secondary == b) || (primary == b && secondary == a))
            && primary.time >= secondary.time
            && (primary.time == secondary.time ==> !less(PayloadOf(less, secondary), PayloadOf(less, primary)))
  {
    Trichotomy(less, PayloadOf(less, a), PayloadOf(less, b));
  }

  function ConflictEntries(v: StoredValue): seq<StoredValue> {
    v.conflicts + [v.(conflicts := [])]
  }

  function Combine(primary: StoredValue, secondary: StoredValue): StoredValue {
    StoredValue(primary.value,
                Some(Join(ClockOf(primary), ClockOf(secondary))),
                primary.conflicts + ConflictEntries(secondary),
                if secondary.time > primary.time then secondary.time else primary.time)
  }

  function Merge(less: PayloadOrder, a: StoredValue, b: StoredValue): StoredValue {
    var (primary, secondary) := ChoosePrimary(less, a, b);
    Combine(primary, secondary)
  }

  lemma {:induction false} ConflictEntriesConserve(v: StoredValue)
    ensures ForestValues(ConflictEntries(v)) == TreeValues(v)
    ensures ForestSize(ConflictEntries(v)) == TreeSize(v)
  {
    var base := v.(conflicts := []);
    ForestAppend(v.conflicts, [base]);
    ForestOne(base);
    assert TreeValues(base) == multiset{v.value};
  }

  lemma {:induction false} CombineConserves(primary: StoredValue, secondary: StoredValue)
    ensures TreeValues(Combine(primary, secondary)) == TreeValues(primary) + TreeValues(secondary)
    ensures TreeSize(Combine(primary, secondary)) == TreeSize(primary) + TreeSize(secondary)
  {
    ConflictEntriesConserve(secondary);
    ForestAppend(primary.conflicts, ConflictEntries(secondary));
  }

  /** Nothing is lost and nothing invented: the merged tree holds exactly the values of both
      trees, its clock is the join, its timestamp the later one, and the value on top is that of
      an input that bears this timestamp. */
  lemma {:induction false} MergeConserves(less: PayloadOrder, a: StoredValue, b: StoredValue)
    ensures TreeValues(Merge(less, a, b)) == TreeValues(a) + TreeValues(b)
    ensures TreeSize(Merge(less, a, b)) == TreeSize(a) + TreeSize(b)
    ensures Merge(less, a, b).clock == Some(Join(ClockOf(a), ClockOf(b)))
    ensures var m := Merge(less, a, b);
            && m.time >= a.time && m.time >= b.time
            && ((m.value == a.value && m.time == a.time) || (m.value == b.value && m.time == b.time))
  {
    CombineConserves(a, b);
    CombineConserves(b, a);
    JoinCommutes(ClockOf(a), ClockOf(b));
    var pair := ChoosePrimary(less, a, b);
    assert pair == (a, b) || pair == (b, a);
  }

  /** `m` has `p` on top, then p's conflicts, those of `q`, and q itself without its conflicts; each keeps
      its own clock and time. */
  ghost predicate KeepsBelow(m: StoredValue, p: StoredValue, q: StoredValue) {
    m.value == p.value && m.time == p.time && m.conflicts == p.conflicts + (q.conflicts + [q.(conflicts := [])])
  }

  ghost predicate Before(less: PayloadOrder, a: StoredValue, b: StoredValue) {
    a.time > b.time || (a.time == b.time && less(PayloadOf(less, a), PayloadOf(less, b)))
  }

  /** The later version goes on top, the smaller text on a tie, and the other one and all conflicts are kept
      below it in order. */
  lemma {:induction false} MergeKeepsConflicts(less: PayloadOrder, a: StoredValue, b: StoredValue)
    requires StrictTotal(less)
    ensures Before(less, a, b) ==> KeepsBelow(Merge(less, a, b), a, b)
    ensures Before(less, b, a) ==> KeepsBelow(Merge(less, a, b), b, a)
  {
    var pair := ChoosePrimary(less, a, b);
    assert Merge(less, a, b) == Combine(pair.0, pair.1);
    if Before(less, a, b) {
      Trichotomy(less, PayloadOf(less, a), PayloadOf(less, b));
      assert pair == (a, b);
    } else if Before(less, b, a) {
      assert pair == (b, a);
    }
  }

  lemma {:induction false} CombineCommutes(a: StoredValue, b: StoredValue)
    requires Combine(a, b) == Combine(b, a) && |a.conflicts| == |b.conflicts| && a.value == b.value && a.time == b.time
    ensures a == b
  {
    var x, y := a.conflicts + ConflictEntries(b), b.conflicts + ConflictEntries(a);
    assert x == y;
    assert a.conflicts == x[..|a.conflicts|] == y[..|a.conflicts|] == b.conflicts;
    assert x[|x| - 1] == b.(conflicts := []) && y[|y| - 1] == a.(conflicts := []);
  }

  lemma {:induction false} TieCommutes(less: PayloadOrder, a: StoredValue, b: StoredValue)
    requires a.time == b.time && PayloadOf(less, a) == PayloadOf(less, b)
    requires !less(PayloadOf(less, a), PayloadOf(less, b))
    ensures Merge(less, a, b) == Merge(less, b, a) <==> a == b
  {
    assert Merge(less, a, b) == Combine(a, b) && Merge(less, b, a) == Combine(b, a);
    assert |PayloadsOf(less, a.conflicts)| == |PayloadOf(less, a).conflicts| == |PayloadsOf(less, b.conflicts)|;
    if Combine(a, b) == Combine(b, a) {
      CombineCommutes(a, b);
    }
  }

  /** Merging commutes exactly when the inputs coincide or can be told apart by timestamp or
      payload. Inputs that differ only in what the payload hides (the order of the conflicts,
      a missing clock against an empty one) keep the order in which they were given. */
  lemma {:induction false} MergeCommutes(less: PayloadOrder, a: StoredValue, b: StoredValue)
    requires StrictTotal(less)
    ensures Merge(less, a, b) == Merge(less, b, a) <==>
            a == b || a.time != b.time || PayloadOf(less, a) != PayloadOf(less, b)
  {
    Trichotomy(less, PayloadOf(less, a), PayloadOf(less, b));
    if a.time == b.time && PayloadOf(less, a) == PayloadOf(less, b) {
      TieCommutes(less, a, b);
    } else {
      assert ChoosePrimary(less, a, b) == ChoosePrimary(less, b, a);
    }
  }

  /** Versions with incomparable clocks always merge to the same tree from either side. */
  lemma {:induction false} ConcurrentMergeCommutes(less: PayloadOrder, a: StoredValue, b: StoredValue)
    requires StrictTotal(less) && a.clock.Some? && b.clock.Some?
    requires Causal(a.clock, b.clock) == Concurrent
    ensures Merge(less, a, b) == Merge(less, b, a)
  {
    MergeCommutes(less, a, b);
    assert PayloadOf(less, a).clock != PayloadOf(less, b).clock;
  }

  // ---------- Grouping and order of repeated merges ----------

  datatype MergePlan = One(v: StoredValue) | Both(left: MergePlan, right: MergePlan)

  function Run(less: PayloadOrder, p: MergePlan): StoredValue {
    match p
    case One(v) => v
    case Both(l, r) => Merge(less, Run(less, l), Run(less, r))
  }

  function Inputs(p: MergePlan): seq<StoredValue> {
    match p
    case One(v) => [v]
    case Both(l, r) => Inputs(l) + Inputs(r)
  }

  function ClocksOf(vs: seq<StoredValue>): (r: seq<Clock>)
    ensures |r| == |vs|
    ensures forall i :: 0 <= i < |vs| ==> r[i] == ClockOf(vs[i])
  {
    seq(|vs|, i requires 0 <= i < |vs| => ClockOf(vs[i]))
  }

  ghost predicate DistinctTimes(vs: seq<StoredValue>) {
    forall i, j :: 0 <= i < j < |vs| ==> vs[i].time != vs[j].time
  }

  /** The top of a merged tree is that of the latest input. */
  ghost predicate Latest(v: StoredValue, vs: seq<StoredValue>) {
    && (exists w :: w in vs && w.time == v.time && w.value == v.value)
    && (forall w :: w in vs ==> w.time <= v.time)
  }

  /** The version has the later of the two on top and holds exactly the values of both. */
  ghost predicate Merges(m: StoredValue, a: StoredValue, b: StoredValue) {
    Latest(m, [a, b]) && TreeValues(m) == TreeValues(a) + TreeValues(b)
  }

  lemma {:induction false} MergedLatest(less: PayloadOrder, a: StoredValue, b: StoredValue)
    ensures Merges(Merge(less, a, b), a, b)
  {
    MergeConserves(less, a, b);
    var w := if Merge(less, a, b).value == a.value && Merge(less, a, b).time == a.time then a else b;
    assert w in [a, b];
  }

  lemma {:induction false} RunLatest(less: PayloadOrder, p: MergePlan)
    ensures Latest(Run(less, p), Inputs(p))
  {
    if p.Both? {
      RunLatest(less, p.left);
      RunLatest(less, p.right);
      MergeConserves(less, Run(less, p.left), Run(less, p.right));
      var from := if Run(less, p).time == Run(less, p.left).time && Run(less, p).value == Run(less, p.left).value
          then p.left else p.right;
      var w :| w in Inputs(from) && w.time == Run(less, from).time && w.value == Run(less, from).value;
      assert w in Inputs(p);
    } else {
      assert p.v in Inputs(p);
    }
  }

  lemma {:induction false} RunValues(less: PayloadOrder, p: MergePlan)
    ensures TreeValues(Run(less, p)) == ForestValues(Inputs(p))
  {
    if p.Both? {
      RunValues(less, p.left);
      RunValues(less, p.right);
      MergeConserves(less, Run(less, p.left), Run(less, p.right));
      ForestAppend(Inputs(p.left), Inputs(p.right));
    } else {
      ForestOne(p.v);
    }
  }

  /** The merged clock is the least clock above every input's clock. */
  lemma {:induction false} RunClock(less: PayloadOrder, p: MergePlan, u: Clock)
    ensures Leq(ClockOf(Run(less, p)), u) <==> forall w :: w in Inputs(p) ==> Leq(ClockOf(w), u)
  {
    if p.Both? {
      RunClock(less, p.left, u);
      RunClock(less, p.right, u);
      MergeConserves(less, Run(less, p.left), Run(less, p.right));
      JoinLeast(ClockOf(Run(less, p.left)), ClockOf(Run(less, p.right)), u);
      assert forall w :: w in Inputs(p) <==> w in Inputs(p.left) || w in Inputs(p.right);
    }
  }

  lemma {:induction false} ForestPermutes(vs: seq<StoredValue>, ws: seq<StoredValue>)
    requires multiset(vs) == multiset(ws)
    ensures ForestValues(vs) == ForestValues(ws)
  {
    if vs == [] {
      assert |multiset(ws)| == |ws|;
    } else {
      assert vs[0] in multiset(ws);
      var j :| 0 <= j < |ws| && ws[j] == vs[0];
      MatchHead(vs, ws, j);
      ForestPermutes(vs[1..], Without(ws, j));
      ForestWithout(ws, j);
    }
  }

  /** However the merges of the same versions are ordered and grouped, the primary value, the
      clock, the timestamp and the values kept are the same, provided no two timestamps tie. */
  lemma {:induction false} MergePlansAgree(less: PayloadOrder, p: MergePlan, q: MergePlan)
    requires multiset(Inputs(p)) == multiset(Inputs(q)) && DistinctTimes(Inputs(p))
    ensures Run(less, p).value == Run(less, q).value
    ensures Run(less, p).time == Run(less, q).time
    ensures ClockOf(Run(less, p)) == ClockOf(Run(less, q))
    ensures TreeValues(Run(less, p)) == TreeValues(Run(less, q))
  {
    RunValues(less, p);
    RunValues(less, q);
    ForestPermutes(Inputs(p), Inputs(q));
    SameMembers(Inputs(p), Inputs(q));
    RunLatest(less, p);
    RunLatest(less, q);
    LatestUnique(Run(less, p), Run(less, q), Inputs(p));
    PlansSameClock(less, p, q);
  }

  lemma {:induction false} LatestUnique(v: StoredValue, w: StoredValue, vs: seq<StoredValue>)
    requires Latest(v, vs) && Latest(w, vs) && DistinctTimes(vs)
    ensures v.value == w.value && v.time == w.time
  {
  }

  lemma {:induction false} PlansSameClock(less: PayloadOrder, p: MergePlan, q: MergePlan)
    requires multiset(Inputs(p)) == multiset(Inputs(q))
    ensures ClockOf(Run(less, p)) == ClockOf(Run(less, q))
  {
    var a, b := ClockOf(Run(less, p)), ClockOf(Run(less, q));
    SameMembers(Inputs(p), Inputs(q));
    RunClock(less, p, a);
    RunClock(less, p, b);
    RunClock(less, q, a);
    RunClock(less, q, b);
    LeqAntisymmetric(a, b);
  }
}
