/** Vector clocks: finite maps ordered by "domain included and pointwise at most", in which an
    absent entry lies below every present one, even below a present zero. */
module Clocks {

  type NodeId = string
  type Clock = map<NodeId, int>

  datatype Option<+T> = None | Some(value: T)

  predicate Leq(a: Clock, b: Clock) {
    forall n :: n in a ==> n in b && a[n] <= b[n]
  }

  function Join(a: Clock, b: Clock): Clock {
    map n | n in a.Keys + b.Keys :: if n in a && (n !in b || b[n] <= a[n]) then a[n] else b[n]
  }

  function Incremented(c: Clock, n: NodeId): Clock {
    c[n := (if n in c then c[n] else 0) + 1]
  }

  function EntryOf(c: Clock, n: NodeId): Option<int> {
    if n in c then Some(c[n]) else None
  }

  lemma {:induction false} LeqAntisymmetric(a: Clock, b: Clock)
    requires Leq(a, b) && Leq(b, a)
    ensures a == b
  {
  }

  /** Merging is the least upper bound of the causality order. */
  lemma {:induction false} JoinLeast(a: Clock, b: Clock, u: Clock)
    ensures Leq(a, Join(a, b)) && Leq(b, Join(a, b))
    ensures Leq(Join(a, b), u) <==> Leq(a, u) && Leq(b, u)
  {
  }

  lemma {:induction false} JoinAbsorbs(a: Clock, b: Clock)
    ensures Leq(a, b) <==> Join(a, b) == b
    ensures Leq(b, a) <==> Join(a, b) == a
  {
  }

  lemma {:induction false} JoinCommutes(a: Clock, b: Clock)
    ensures Join(a, b) == Join(b, a)
  {
  }

  /** The join of a sequence of clocks, taken from the left; the empty clock is the bottom. */
  function JoinAll(cs: seq<Clock>): Clock {
    if cs == [] then map[] else Join(JoinAll(cs[..|cs| - 1]), cs[|cs| - 1])
  }

  lemma {:induction false} JoinAllLeast(cs: seq<Clock>, u: Clock)
    ensures Leq(JoinAll(cs), u) <==> forall c :: c in cs ==> Leq(c, u)
  {
    if cs != [] {
      var front, last := cs[..|cs| - 1], cs[|cs| - 1];
      JoinAllLeast(front, u);
      JoinLeast(JoinAll(front), last, u);
      assert forall c :: c in cs <==> c in front || c == last by {
        assert cs == front + [last];
      }
    }
  }

  lemma {:induction false} JoinAllUpper(cs: seq<Clock>)
    ensures forall c :: c in cs ==> Leq(c, JoinAll(cs))
  {
    JoinAllLeast(cs, JoinAll(cs));
  }

  /** The join depends only on which clocks occur: order and repetition are immaterial. */
  lemma {:induction false} JoinAllSameElements(cs: seq<Clock>, ds: seq<Clock>)
    requires forall c :: c in cs <==> c in ds
    ensures JoinAll(cs) == JoinAll(ds)
  {
    JoinAllLeast(cs, JoinAll(ds));
    JoinAllLeast(ds, JoinAll(cs));
    JoinAllUpper(cs);
    JoinAllUpper(ds);
    LeqAntisymmetric(JoinAll(cs), JoinAll(ds));
  }

  /** Outcome of comparing an existing clock `a` with an incoming clock `b`. */
  datatype Causality = Newer | Older | Concurrent

  function Causal(a: Option<Clock>, b: Option<Clock>): Causality {
    if a.None? || b.None? then Concurrent
    else if Leq(b.value, a.value) then Older
    else if Leq(a.value, b.value) then Newer
    else Concurrent
  }

  lemma {:induction false} CausalExactly(a: Option<Clock>, b: Option<Clock>)
    ensures Causal(a, b).Older? <==> a.Some? && b.Some? && Leq(b.value, a.value)
    ensures Causal(a, b).Newer? <==> a.Some? && b.Some? && Leq(a.value, b.value) && b.value != a.value
  {
    if a.Some? && b.Some? && Leq(a.value, b.value) && Leq(b.value, a.value) {
      LeqAntisymmetric(a.value, b.value);
    }
  }

  /** compareVectorClocks: two scans with flags. Equal clocks count as `Older`. */
  method CompareVectorClocks(a: Option<Clock>, b: Option<Clock>) returns (r: Causality)
    ensures r.Older? <==> a.Some? && b.Some? && Leq(b.value, a.value)
    ensures r.Newer? <==> a.Some? && b.Some? && Leq(a.value, b.value) && a != b
    ensures r == Causal(a, b)
  {
    if a.None? || b.None? {
      return Concurrent;
    }
    var ca, cb := a.value, b.value;
    var aGreater, bGreater := false, false;
    var todo := ca.Keys;
    while todo != {}
      invariant todo <= ca.Keys
      invariant !aGreater <==> forall n :: n in ca.Keys - todo ==> n in cb && ca[n] <= cb[n]
      invariant !bGreater <==> forall n :: n in ca.Keys - todo && n in cb ==> cb[n] <= ca[n]
    {
      var n :| n in todo;
      if n in cb {
        if ca[n] > cb[n] {
          aGreater := true;
        } else if ca[n] < cb[n] {
          bGreater := true;
        }
      } else {
        aGreater := true;
      }
      todo := todo - {n};
    }
    assert !aGreater <==> Leq(ca, cb);
    todo := cb.Keys;
    while todo != {}
      invariant todo <= cb.Keys
      invariant !bGreater <==>
                (forall n :: n in ca && n in cb ==> cb[n] <= ca[n]) && (forall n :: n in cb.Keys - todo ==> n in ca)
    {
      var n :| n in todo;
      if n !in ca {
        bGreater := true;
      }
      todo := todo - {n};
    }
    assert !bGreater <==> Leq(cb, ca);
    if Leq(ca, cb) && Leq(cb, ca) { LeqAntisymmetric(ca, cb); }
    r := if aGreater && bGreater then Concurrent else if bGreater then Newer else Older;
  }

  /** The clock object of the store: its map is updated in place. */
  class VectorClock {
    var clock: Clock

    constructor ()
      ensures clock == map[]
    {
      clock := map[];
    }

    method Increment(nodeId: NodeId)
      modifies this
      ensures clock == Incremented(old(clock), nodeId)
      ensures Leq(old(clock), clock) && !Leq(clock, old(clock)) && forall n :: n != nodeId ==>
              EntryOf(clock, n) == EntryOf(old(clock), n)
      ensures EntryOf(clock, nodeId) == Some(if nodeId in old(clock) then old(clock)[nodeId] + 1 else 1)
    {
      clock := clock[nodeId := (if nodeId in clock then clock[nodeId] else 0) + 1];
    }

    method Merge(other: VectorClock?)
      modifies this
      ensures clock == if other == null then old(clock) else Join(old(clock), old(other.clock))
    {
      if other == null {
        return;
      }
      var todo := other.clock.Keys;
      while todo != {}
        invariant todo <= old(other.clock).Keys
        invariant other != this ==> other.clock == old(other.clock)
        invariant clock.Keys == old(clock).Keys + (old(other.clock).Keys - todo)
        invariant forall n :: n in clock ==>
                  clock[n] == if n in todo then old(clock)[n] else Join(old(clock), old(other.clock))[n]
      {
        var n :| n in todo;
        if n !in clock || other.clock[n] > clock[n] {
          clock := clock[n := other.clock[n]];
        }
        todo := todo - {n};
      }
    }

    method Clone() returns (c: VectorClock)
      ensures fresh(c) && c.clock == clock
    {
      c := new VectorClock();
      var todo := clock.Keys;
      while todo != {}
        invariant todo <= clock.Keys
        invariant c.clock.Keys == clock.Keys - todo
        invariant forall n :: n in c.clock ==> c.clock[n] == clock[n]
      {
        var n :| n in todo;
        c.clock := c.clock[n := clock[n]];
        todo := todo - {n};
      }
      assert c.clock.Keys == clock.Keys;
    }

    /** 1 when the receiver strictly dominates, -1 when it is strictly dominated, and 0 both for
        equal and for concurrent clocks; a missing clock lies strictly below every other. */
    static method Compare(vc: VectorClock?, other: VectorClock?) returns (r: int)
      ensures vc == null || other == null ==> r == (if vc == other then 0 else if vc == null then -1 else 1)
      ensures vc != null && other != null ==>
                && (r == 1 <==> Leq(other.clock, vc.clock) && vc.clock != other.clock)
                && (r == -1 <==> Leq(vc.clock, other.clock) && vc.clock != other.clock)
                && -1 <= r <= 1
    {
      if vc == null && other == null {
        return 0;
      }
      if vc == null {
        return -1;
      }
      if other == null {
        return 1;
      }
      var a, b := vc.clock, other.clock;
      var vcDominates, otherDominates := false, false;
      var todo := a.Keys;
      while todo != {}
        invariant todo <= a.Keys
        invariant !vcDominates <==> forall n :: n in a.Keys - todo ==> n in b && a[n] <= b[n]
        invariant !otherDominates <==> forall n :: n in a.Keys - todo && n in b ==> b[n] <= a[n]
      {
        var n :| n in todo;
        if n in b {
          if a[n] < b[n] {
            otherDominates := true;
          } else if a[n] > b[n] {
            vcDominates := true;
          }
        } else {
          vcDominates := true;
        }
        todo := todo - {n};
      }
      assert !vcDominates <==> Leq(a, b);
      todo := b.Keys;
      while todo != {}
        invariant todo <= b.Keys
        invariant !otherDominates <==>
                  (forall n :: n in a && n in b ==> b[n] <= a[n]) && (forall n :: n in b.Keys - todo ==> n in a)
      {
        var n :| n in todo;
        if n !in a {
          otherDominates := true;
        }
        todo := todo - {n};
      }
      assert !otherDominates <==> Leq(b, a);
      if Leq(a, b) && Leq(b, a) { LeqAntisymmetric(a, b); }
      r := if vcDominates && !otherDominates then 1 else if !vcDominates && otherDominates then -1 else 0;
    }

    static method Equals(vc: VectorClock?, other: VectorClock?) returns (r: bool)
      ensures r <==> (vc == null && other == null) || (vc != null && other != null && vc.clock == other.clock)
    {
      if vc == null && other == null {
        return true;
      }
      if vc == null || other == null {
        return false;
      }
      if |vc.clock| != |other.clock| {
        return false;
      }
      var todo := vc.clock.Keys;
      while todo != {}
        invariant todo <= vc.clock.Keys
        invariant forall n :: n in vc.clock.Keys - todo ==> n in other.clock && other.clock[n] == vc.clock[n]
      {
        var n :| n in todo;
        if n !in other.clock || other.clock[n] != vc.clock[n] {
          return false;
        }
        todo := todo - {n};
      }
      SameSizeSubset(vc.clock.Keys, other.clock.Keys);
      return true;
    }
  }

  lemma {:induction false} SameSizeSubset<T>(a: set<T>, b: set<T>)
    requires a <= b && |a| == |b|
    ensures a == b
  {
    assert |b - a| == |b| - |a|;
  }
}
