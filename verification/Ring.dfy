/** The consistent-hash ring: every node contributes a fixed number of positions, and a key
    belongs to the node whose position follows the key's hash. */
module Ring {
  import opened Clocks
  import opened Sequences
  import opened Sorting

  const VIRTUAL_NODES: nat := 256

  /** `points(n, i)` is the hash of the i-th virtual node of n. */
  type PointHash = (NodeId, nat) -> nat

  datatype RingState = RingState(virtualNodes: seq<nat>, nodeMap: map<nat, NodeId>, nodes: set<NodeId>)

  const EMPTY_RING := RingState([], map[], {})

  function PointList(points: PointHash, n: NodeId, count: nat): (r: seq<nat>)
    ensures |r| == count
    ensures forall i :: 0 <= i < count ==> r[i] == points(n, i)
  {
    if count == 0 then [] else PointList(points, n, count - 1) + [points(n, count - 1)]
  }

  function Claim(m: map<nat, NodeId>, points: PointHash, n: NodeId, count: nat): map<nat, NodeId> {
    if count == 0 then m else Claim(m, points, n, count - 1)[points(n, count - 1) := n]
  }

  function Add(r: RingState, points: PointHash, n: NodeId): RingState {
    RingState(Sort(NatLess, r.virtualNodes + PointList(points, n, VIRTUAL_NODES)),
              Claim(r.nodeMap, points, n, VIRTUAL_NODES),
              r.nodes + {n})
  }

  /** The owner recorded for a position; a missing one reads as the empty name. */
  function Owner(m: map<nat, NodeId>, h: nat): NodeId {
    if h in m then m[h] else ""
  }

  /** The removal loop: positions of `n` are dropped and forgotten as they are met. */
  function Filter(vs: seq<nat>, m: map<nat, NodeId>, n: NodeId): (seq<nat>, map<nat, NodeId>) {
    if vs == [] then ([], m)
    else
      var (kept, m') := Filter(vs[..|vs| - 1], m, n);
      var h := vs[|vs| - 1];
      if Owner(m', h) != n then (kept + [h], m') else (kept, m' - {h})
  }

  function Remove(r: RingState, n: NodeId): RingState {
    var (kept, m) := Filter(r.virtualNodes, r.nodeMap, n);
    RingState(kept, m, r.nodes - {n})
  }

  function AddAll(points: PointHash, order: seq<NodeId>): RingState {
    if order == [] then EMPTY_RING else Add(AddAll(points, order[..|order| - 1]), points, order[|order| - 1])
  }

  // ---------- What a ring built from a set of nodes looks like ----------

  function Points(points: PointHash, s: set<NodeId>): set<nat> {
    set n, i: nat | n in s && 0 <= i < VIRTUAL_NODES :: points(n, i)
  }

  /** No two virtual nodes of the set share a position. */
  ghost predicate Collisionless(points: PointHash, s: set<NodeId>) {
    forall n, m, i: nat, j: nat {:trigger points(n, i), points(m, j)} ::
      n in s && m in s && i < VIRTUAL_NODES && j < VIRTUAL_NODES && points(n, i) == points(m, j) ==> n == m && i == j
  }

  ghost predicate Represents(r: RingState, points: PointHash, s: set<NodeId>) {
    && r.nodes == s
    && Enumerates(r.virtualNodes, Points(points, s)) && Increasing(r.virtualNodes)
    && r.nodeMap.Keys == Points(points, s)
    && forall n, i: nat {:trigger points(n, i)} :: n in s && i < VIRTUAL_NODES ==> Owner(r.nodeMap, points(n, i)) == n
  }

  ghost predicate Increasing(vs: seq<nat>) {
    forall i, j :: 0 <= i < j < |vs| ==> vs[i] <= vs[j]
  }

  lemma {:induction false} NatSorted(vs: seq<nat>)
    ensures StrictTotal(NatLess)
    ensures Sorted(NatLess, vs) <==> Increasing(vs)
  {
  }

  /** The set of nodes determines the whole ring. */
  lemma {:induction false} RepresentsUnique(r: RingState, q: RingState, points: PointHash, s: set<NodeId>)
    requires Represents(r, points, s) && Represents(q, points, s)
    ensures r == q
  {
    NatSorted(r.virtualNodes);
    NatSorted(q.virtualNodes);
    EnumerationMultiset(r.virtualNodes, Points(points, s));
    EnumerationMultiset(q.virtualNodes, Points(points, s));
    SortedUnique(NatLess, r.virtualNodes, q.virtualNodes);
    forall h | h in r.nodeMap ensures r.nodeMap[h] == q.nodeMap[h] {
      var n, i: nat :| n in s && i < VIRTUAL_NODES && points(n, i) == h;
    }
  }

  lemma {:induction false} EmptyRepresents(points: PointHash)
    ensures Represents(EMPTY_RING, points, {})
  {
  }

  // ---------- Adding ----------

  lemma {:induction false} PointListEnumerates(points: PointHash, n: NodeId)
    requires Collisionless(points, {n})
    ensures Enumerates(PointList(points, n, VIRTUAL_NODES), Points(points, {n}))
  {
  }

  function FirstPoints(points: PointHash, n: NodeId, count: nat): set<nat> {
    set i: nat | 0 <= i < count :: points(n, i)
  }

  lemma {:induction false} ClaimOwners(m: map<nat, NodeId>, points: PointHash, n: NodeId, count: nat)
    ensures Claim(m, points, n, count).Keys == m.Keys + FirstPoints(points, n, count)
    ensures forall h :: Owner(Claim(m, points, n, count), h) == if h in FirstPoints(points, n, count) then n
            else Owner(m, h)
  {
    if count > 0 {
      ClaimOwners(m, points, n, count - 1);
      assert FirstPoints(points, n, count) == FirstPoints(points, n, count - 1) + {points(n, count - 1)};
    }
  }

  lemma {:induction false} PointsGrow(points: PointHash, s: set<NodeId>, n: NodeId)
    requires n !in s && Collisionless(points, s + {n})
    ensures Points(points, s + {n}) == Points(points, s) + Points(points, {n})
    ensures Points(points, s) !! Points(points, {n})
    ensures Points(points, {n}) == set i: nat | 0 <= i < VIRTUAL_NODES :: points(n, i)
    ensures Collisionless(points, s) && Collisionless(points, {n})
  {
  }

  lemma {:induction false} ConcatEnumerates(a: seq<nat>, s: set<nat>, b: seq<nat>, t: set<nat>)
    requires Enumerates(a, s) && Enumerates(b, t) && s !! t
    ensures Enumerates(a + b, s + t)
  {
  }

  lemma {:induction false} SortEnumerates(a: seq<nat>, s: set<nat>)
    requires Enumerates(a, s)
    ensures Enumerates(Sort(NatLess, a), s) && Increasing(Sort(NatLess, a))
  {
    NatSorted(Sort(NatLess, a));
    SortIsSorted(NatLess, a);
    EnumerationMultiset(a, s);
    MultisetEnumerates(Sort(NatLess, a), s);
  }

  lemma {:induction false} AddRepresents(r: RingState, points: PointHash, s: set<NodeId>, n: NodeId)
    requires Represents(r, points, s) && n !in s && Collisionless(points, s + {n})
    ensures Represents(Add(r, points, n), points, s + {n})
  {
    PointsGrow(points, s, n);
    PointListEnumerates(points, n);
    ConcatEnumerates(r.virtualNodes, Points(points, s), PointList(points, n, VIRTUAL_NODES), Points(points, {n}));
    SortEnumerates(r.virtualNodes + PointList(points, n, VIRTUAL_NODES), Points(points, s + {n}));
    ClaimOwners(r.nodeMap, points, n, VIRTUAL_NODES);
    forall x, i: nat {:trigger points(x, i)} | x in s + {n} && i < VIRTUAL_NODES
      ensures Owner(Claim(r.nodeMap, points, n, VIRTUAL_NODES), points(x, i)) == x
    {
      ClaimKeeps(r, points, s, n, x, i);
    }
  }

  lemma {:induction false} ClaimKeeps(r: RingState, points: PointHash, s: set<NodeId>, n: NodeId, x: NodeId, i: nat)
    requires Represents(r, points, s) && n !in s && Collisionless(points, s + {n}) && x in s + {n} && i < VIRTUAL_NODES
    ensures Owner(Claim(r.nodeMap, points, n, VIRTUAL_NODES), points(x, i)) == x
  {
    ClaimOwners(r.nodeMap, points, n, VIRTUAL_NODES);
    if x != n {
      assert n in s + {n};
      forall j: nat {:trigger points(n, j)} | j < VIRTUAL_NODES ensures points(n, j) != points(x, i) {
      }
    }
  }

  lemma {:induction false} AddAllRepresents(points: PointHash, order: seq<NodeId>, s: set<NodeId>)
    requires Enumerates(order, s) && Collisionless(points, s)
    ensures Represents(AddAll(points, order), points, s)
  {
    if order == [] {
      assert forall x :: x in s ==> x in order;
      assert s == {};
      EmptyRepresents(points);
    } else {
      var front, n := order[..|order| - 1], order[|order| - 1];
      forall x | x in s - {n} ensures x in front {
        var i :| 0 <= i < |order| && order[i] == x;
        assert front[i] == x;
      }
      assert s == (s - {n}) + {n};
      PointsGrow(points, s - {n}, n);
      AddAllRepresents(points, front, s - {n});
      AddRepresents(AddAll(points, front), points, s - {n}, n);
    }
  }

  /** The order in which the nodes were added cannot be seen in the ring. */
  lemma {:induction false} BuildOrderImmaterial(points: PointHash, order: seq<NodeId>, other: seq<NodeId>,
                                                s: set<NodeId>)
    requires Enumerates(order, s) && Enumerates(other, s) && Collisionless(points, s)
    ensures AddAll(points, order) == AddAll(points, other)
  {
    AddAllRepresents(points, order, s);
    AddAllRepresents(points, other, s);
    RepresentsUnique(AddAll(points, order), AddAll(points, other), points, s);
  }

  // ---------- Removing ----------

  function OwnedOnce(vs: seq<nat>, m: map<nat, NodeId>, n: NodeId, h: nat): nat {
    if h in vs && Owner(m, h) == n then 1 else 0
  }

  /** Of the positions of `n`, removal drops one occurrence each and forgets the owner; a second
      occurrence no longer looks like a position of `n` and stays. */
  ghost predicate FilterAt(vs: seq<nat>, m: map<nat, NodeId>, n: NodeId, kept: seq<nat>, m': map<nat, NodeId>, h: nat) {
    var once := OwnedOnce(vs, m, n, h);
    && multiset(kept)[h] == multiset(vs)[h] - once
    && Owner(m', h) == (if once == 1 then "" else Owner(m, h))
    && (h in m' <==> h in m && once == 0)
  }

  lemma {:induction false} FilterCounts(vs: seq<nat>, m: map<nat, NodeId>, n: NodeId, h: nat)
    requires n != ""
    ensures FilterAt(vs, m, n, Filter(vs, m, n).0, Filter(vs, m, n).1, h)
  {
    if vs != [] {
      var front, last := vs[..|vs| - 1], vs[|vs| - 1];
      var before := Filter(front, m, n);
      FilterCounts(front, m, n, h);
      FilterCounts(front, m, n, last);
      assert vs == front + [last];
      FilterStep(vs, front, last, m, n, before.0, before.1, Filter(vs, m, n), h);
    }
  }

  lemma {:induction false} FilterStep(vs: seq<nat>, front: seq<nat>, last: nat, m: map<nat, NodeId>, n: NodeId,
                                      kept: seq<nat>, m': map<nat, NodeId>, r: (seq<nat>, map<nat, NodeId>), h: nat)
    requires n != "" && FilterAt(front, m, n, kept, m', h) && FilterAt(front, m, n, kept, m', last)
    requires vs == front + [last] && r == if Owner(m', last) != n then (kept + [last], m') else (kept, m' - {last})
    ensures FilterAt(vs, m, n, r.0, r.1, h)
  {
  }

  lemma {:induction false} FilterSorted(vs: seq<nat>, m: map<nat, NodeId>, n: NodeId)
    requires Increasing(vs)
    ensures var kept := Filter(vs, m, n).0;
            Increasing(kept) && forall h :: h in kept ==> h in vs
  {
    if vs != [] {
      var front := vs[..|vs| - 1];
      FilterSorted(front, m, n);
      var kept: seq<nat> := Filter(front, m, n).0;
      forall i | 0 <= i < |kept| ensures kept[i] <= vs[|vs| - 1] {
        assert kept[i] in front;
        var k :| 0 <= k < |front| && front[k] == kept[i];
      }
    }
  }

  lemma {:induction false} RemoveRepresents(r: RingState, points: PointHash, s: set<NodeId>, n: NodeId)
    requires Represents(r, points, s) && Collisionless(points, s) && n != ""
    ensures Represents(Remove(r, n), points, s - {n})
  {
    var kept: seq<nat>, m: map<nat, NodeId> := Remove(r, n).virtualNodes, Remove(r, n).nodeMap;
    var left: set<nat> := Points(points, s - {n});
    FilterSorted(r.virtualNodes, r.nodeMap, n);
    RemovedPoints(r, points, s, n);
    MultisetEnumerates(kept, left);
    forall x, i: nat {:trigger points(x, i)} | x in s - {n} && i < VIRTUAL_NODES ensures Owner(m, points(x, i)) == x {
      RemovedOwner(r, points, s, n, x, i);
    }
  }

  lemma {:induction false} RemovedOwner(r: RingState, points: PointHash, s: set<NodeId>, n: NodeId, x: NodeId, i: nat)
    requires Represents(r, points, s) && Collisionless(points, s) && n != "" && x in s - {n} && i < VIRTUAL_NODES
    ensures Owner(Remove(r, n).nodeMap, points(x, i)) == x
  {
    assert points(x, i) in Points(points, s - {n});
    RemovedAt(r, points, s, n, points(x, i));
  }

  lemma {:induction false} RemovedPoints(r: RingState, points: PointHash, s: set<NodeId>, n: NodeId)
    requires Represents(r, points, s) && Collisionless(points, s) && n != ""
    ensures multiset(Remove(r, n).virtualNodes) == multiset(Points(points, s - {n}))
    ensures Remove(r, n).nodeMap.Keys == Points(points, s - {n})
  {
    forall h: nat
      ensures multiset(Remove(r, n).virtualNodes)[h] == multiset(Points(points, s - {n}))[h]
      ensures h in Remove(r, n).nodeMap <==> h in Points(points, s - {n})
    {
      RemovedAt(r, points, s, n, h);
    }
  }

  lemma {:induction false} RemovedAt(r: RingState, points: PointHash, s: set<NodeId>, n: NodeId, h: nat)
    requires Represents(r, points, s) && Collisionless(points, s) && n != ""
    ensures var kept: seq<nat>, m: map<nat, NodeId> := Remove(r, n).virtualNodes, Remove(r, n).nodeMap;
            && multiset(kept)[h] == multiset(Points(points, s - {n}))[h]
            && (h in m <==> h in Points(points, s - {n}))
            && (h in Points(points, s - {n}) ==> Owner(m, h) == Owner(r.nodeMap, h))
  {
    FilterCounts(r.virtualNodes, r.nodeMap, n, h);
    EnumerationMultiset(r.virtualNodes, Points(points, s));
    OwnedPoints(r, points, s, n, h);
  }

  lemma {:induction false} OwnedPoints(r: RingState, points: PointHash, s: set<NodeId>, n: NodeId, h: nat)
    requires Represents(r, points, s) && Collisionless(points, s) && n != ""
    ensures h in Points(points, s - {n}) <==> h in Points(points, s) && Owner(r.nodeMap, h) != n
    ensures h in r.virtualNodes <==> h in Points(points, s)
    ensures h !in Points(points, s) ==> Owner(r.nodeMap, h) == ""
  {
  }

  /** Removing a node that was just added restores the ring exactly. */
  lemma {:induction false} AddRemoveRestores(r: RingState, points: PointHash, s: set<NodeId>, n: NodeId)
    requires Represents(r, points, s) && n !in s && n != "" && Collisionless(points, s + {n})
    ensures Remove(Add(r, points, n), n) == r
  {
    AddRepresents(r, points, s, n);
    RemoveRepresents(Add(r, points, n), points, s + {n}, n);
    assert s + {n} - {n} == s;
    RepresentsUnique(Remove(Add(r, points, n), n), r, points, s);
  }

  /** Removal leaves positions without an owner behind exactly when some position of the node
      occurs more than once, as after adding the node twice. */
  lemma {:induction false} OrphansExactly(r: RingState, n: NodeId)
    requires n != "" && forall h :: h in r.virtualNodes ==> h in r.nodeMap
    ensures var q := Remove(r, n);
            (exists h :: h in q.virtualNodes && h !in q.nodeMap) <==>
            (exists h :: h in r.virtualNodes && Owner(r.nodeMap, h) == n && multiset(r.virtualNodes)[h] >= 2)
  {
    var q := Remove(r, n);
    forall h: nat
      ensures h in q.virtualNodes && h !in q.nodeMap <==>
              h in r.virtualNodes && Owner(r.nodeMap, h) == n && multiset(r.virtualNodes)[h] >= 2
    {
      FilterCounts(r.virtualNodes, r.nodeMap, n, h);
      assert h in q.virtualNodes <==> multiset(q.virtualNodes)[h] > 0;
      assert h in r.virtualNodes <==> multiset(r.virtualNodes)[h] > 0;
    }
  }

  // ---------- Looking up ----------

  /** The number of leading positions below `h`: on a sorted ring, the index of the first
      position at or after it. */
  function FirstAtLeast(vs: seq<nat>, h: nat): (i: nat)
    ensures i <= |vs|
    ensures forall j :: 0 <= j < i ==> vs[j] < h
    ensures i < |vs| ==> h <= vs[i]
  {
    if vs == [] || h <= vs[0] then 0 else 1 + FirstAtLeast(vs[1..], h)
  }

  lemma {:induction false} FirstAtLeastUnique(vs: seq<nat>, h: nat, i: nat)
    requires i <= |vs| && (forall j :: 0 <= j < i ==> vs[j] < h) && (i < |vs| ==> h <= vs[i])
    ensures i == FirstAtLeast(vs, h)
  {
  }

  function Lookup(r: RingState, h: nat): NodeId {
    if r.virtualNodes == [] then ""
    else
      var i := FirstAtLeast(r.virtualNodes, h);
      Owner(r.nodeMap, r.virtualNodes[if i == |r.virtualNodes| then 0 else i])
  }

  /** The position that serves hash `h`: the next one, or the smallest when there is no next. */
  ghost predicate Serves(ps: set<nat>, h: nat, p: nat) {
    && p in ps
    && ((h <= p && forall q :: q in ps && h <= q ==> p <= q) ||
        ((forall q :: q in ps ==> q < h) && forall q :: q in ps ==> p <= q))
  }

  lemma {:induction false} LookupServes(r: RingState, points: PointHash, s: set<NodeId>, h: nat) returns (p: nat)
    requires Represents(r, points, s) && r.virtualNodes != []
    ensures Serves(Points(points, s), h, p) && Lookup(r, h) == Owner(r.nodeMap, p)
  {
    var vs := r.virtualNodes;
    var i := FirstAtLeast(vs, h);
    p := vs[if i == |vs| then 0 else i];
    forall q | q in Points(points, s) ensures i < |vs| && h <= q ==> p <= q {
      var j :| 0 <= j < |vs| && vs[j] == q;
    }
    forall q | q in Points(points, s) ensures i == |vs| ==> q < h && p <= q {
      var j :| 0 <= j < |vs| && vs[j] == q;
    }
  }

  /** Every key has an owner among the nodes. */
  lemma {:induction false} OwnerListed(r: RingState, points: PointHash, s: set<NodeId>, h: nat)
    requires Represents(r, points, s) && s != {}
    ensures Lookup(r, h) in s
  {
    var n :| n in s;
    assert points(n, 0) in Points(points, s);
    var p := LookupServes(r, points, s, h);
  }

  /** Minimal remapping: a new node takes keys over, and no key moves between old nodes. */
  lemma {:induction false} Remapping(r: RingState, q: RingState, points: PointHash, s: set<NodeId>, n: NodeId, h: nat)
    requires Represents(r, points, s) && Represents(q, points, s + {n}) && n !in s && Collisionless(points, s + {n})
    ensures Lookup(q, h) == n || Lookup(q, h) == Lookup(r, h)
  {
    PointsGrow(points, s, n);
    assert points(n, 0) in Points(points, {n});
    assert points(n, 0) in q.virtualNodes;
    var p := LookupServes(q, points, s + {n}, h);
    var x, i: nat :| x in s + {n} && i < VIRTUAL_NODES && points(x, i) == p;
    if x != n {
      assert p in Points(points, s) && p in r.virtualNodes;
      var p' := LookupServes(r, points, s, h);
      assert p' == p;
    }
  }

  lemma {:induction false} AddTakesOver(r: RingState, points: PointHash, s: set<NodeId>, n: NodeId, h: nat)
    requires Represents(r, points, s) && n !in s && Collisionless(points, s + {n})
    ensures Lookup(Add(r, points, n), h) == n || Lookup(Add(r, points, n), h) == Lookup(r, h)
  {
    AddRepresents(r, points, s, n);
    Remapping(r, Add(r, points, n), points, s, n, h);
  }

  /** Removing a node moves only the keys it owned. */
  lemma {:induction false} RemoveHandsOver(r: RingState, points: PointHash, s: set<NodeId>, n: NodeId, h: nat)
    requires Represents(r, points, s) && n in s && n != "" && Collisionless(points, s)
    ensures Lookup(r, h) != n ==> Lookup(Remove(r, n), h) == Lookup(r, h)
  {
    RemoveRepresents(r, points, s, n);
    assert s == (s - {n}) + {n};
    Remapping(Remove(r, n), r, points, s - {n}, n, h);
  }

  // ---------- The ring object ----------

  class ConsistentHashRing {
    const points: PointHash
    const hashKey: string -> nat
    var virtualNodes: seq<nat>
    var nodeMap: map<nat, NodeId>
    var nodes: set<NodeId>

    constructor (points: PointHash, hashKey: string -> nat)
      ensures State() == EMPTY_RING && this.points == points && this.hashKey == hashKey
    {
      this.points, this.hashKey := points, hashKey;
      virtualNodes, nodeMap, nodes := [], map[], {};
    }

    function State(): RingState
      reads this
    {
      RingState(virtualNodes, nodeMap, nodes)
    }

    method AddNode(nodeId: NodeId)
      modifies this
      ensures State() == Add(old(State()), points, nodeId)
    {
      nodes := nodes + {nodeId};
      for i := 0 to VIRTUAL_NODES
        invariant nodes == old(nodes) + {nodeId}
        invariant virtualNodes == old(virtualNodes) + PointList(points, nodeId, i)
        invariant nodeMap == Claim(old(nodeMap), points, nodeId, i)
      {
        var hash := points(nodeId, i);
        virtualNodes := virtualNodes + [hash];
        nodeMap := nodeMap[hash := nodeId];
      }
      virtualNodes := Sort(NatLess, virtualNodes);
    }

    method RemoveNode(nodeId: NodeId)
      modifies this
      ensures State() == Remove(old(State()), nodeId)
    {
      nodes := nodes - {nodeId};
      var newVirtualNodes: seq<nat> := [];
      for i := 0 to |virtualNodes|
        invariant nodes == old(nodes) - {nodeId} && virtualNodes == old(virtualNodes)
        invariant (newVirtualNodes, nodeMap) == Filter(virtualNodes[..i], old(nodeMap), nodeId)
      {
        var hash := virtualNodes[i];
        assert virtualNodes[..i + 1][..i] == virtualNodes[..i];
        if Owner(nodeMap, hash) != nodeId {
          newVirtualNodes := newVirtualNodes + [hash];
        } else {
          nodeMap := nodeMap - {hash};
        }
      }
      assert virtualNodes[..|virtualNodes|] == virtualNodes;
      virtualNodes := newVirtualNodes;
    }

    method GetAllNodeIDs() returns (ids: seq<NodeId>)
      ensures Enumerates(ids, nodes)
    {
      ids := Listing(nodes);
    }

    /** Binary search for the first position at or after the key's hash, wrapping to the start. */
    method GetNode(key: string) returns (owner: NodeId)
      requires Increasing(virtualNodes)
      ensures owner == Lookup(State(), hashKey(key))
    {
      if virtualNodes == [] {
        return "";
      }
      var hash := hashKey(key);
      var lo, hi := 0, |virtualNodes|;
      while lo < hi
        invariant 0 <= lo <= hi <= |virtualNodes|
        invariant forall j :: 0 <= j < lo ==> virtualNodes[j] < hash
        invariant forall j :: hi <= j < |virtualNodes| ==> hash <= virtualNodes[j]
      {
        var mid := (lo + hi) / 2;
        if virtualNodes[mid] >= hash {
          hi := mid;
        } else {
          lo := mid + 1;
        }
      }
      FirstAtLeastUnique(virtualNodes, hash, lo);
      var idx := if lo == |virtualNodes| then 0 else lo;
      owner := Owner(nodeMap, virtualNodes[idx]);
    }
  }
}
