/** Choosing the replicas of a key: the window of nodes that starts at the key's primary, with
    unavailable nodes replaced by available ones further along (sloppy quorum). */
module Placement {
  import opened Sequences
  import opened Clocks

  function PrimaryIndex(all: seq<NodeId>, primary: NodeId): (i: nat)
    requires all != []
    ensures i < |all|
    ensures primary in all ==> all[i] == primary && primary !in all[..i]
    ensures primary !in all ==> i == 0
  {
    if primary in all then IndexOf(all, primary) else 0
  }

  function IndexOf(all: seq<NodeId>, x: NodeId): (i: nat)
    requires x in all
    ensures i < |all| && all[i] == x && x !in all[..i]
  {
    if all[0] == x then 0 else 1 + IndexOf(all[1..], x)
  }

  /** The listing read from position `start` on, wrapping around. */
  function Rotated(all: seq<NodeId>, start: nat): (r: seq<NodeId>)
    requires all != []
    ensures |r| == |all|
  {
    var q := start % |all|;
    all[q..] + all[..q]
  }

  lemma {:induction false} RotatedAt(all: seq<NodeId>, start: nat, i: nat)
    requires all != [] && i < |all|
    ensures all[(start + i) % |all|] == Rotated(all, start)[i]
  {
    var n, q := |all|, start % |all|;
    ModShift(start, i, n);
  }

  lemma {:induction false} ModShift(a: nat, i: nat, n: nat)
    requires i < n
    ensures (a + i) % n == if a % n + i < n then a % n + i else a % n + i - n
  {
    var q, m := a % n, a / n;
    assert a == n * m + q;
    if q + i < n {
      ModUnique(a + i, m, q + i, n);
    } else {
      assert a + i == n * (m + 1) + (q + i - n);
      ModUnique(a + i, m + 1, q + i - n, n);
    }
  }

  lemma {:induction false} MultipleGap(n: nat, m: nat, q: nat)
    ensures m < q ==> n * q >= n * m + n
    decreases q
  {
    if m < q {
      MultipleGap(n, m, q - 1);
      assert n * q == n * (q - 1) + n;
    }
  }

  lemma {:induction false} ModUnique(a: nat, m: nat, r: nat, n: nat)
    requires r < n && a == n * m + r
    ensures a % n == r
  {
    assert a == n * (a / n) + a % n;
    MultipleGap(n, m, a / n);
    MultipleGap(n, a / n, m);
  }

  lemma {:induction false} RotatedElements(all: seq<NodeId>, start: nat)
    requires all != []
    ensures Elements(Rotated(all, start)) == Elements(all)
    ensures Distinct(all) ==> Distinct(Rotated(all, start))
  {
  }

  function WindowSize(count: nat, replication: nat): nat {
    if replication < count then replication else count
  }

  /** The preferred replicas: as many nodes as the replication factor (or the ring) allows. */
  function Window(all: seq<NodeId>, p: nat, replication: nat): seq<NodeId>
    requires all != []
  {
    Rotated(all, p)[..WindowSize(|all|, replication)]
  }

  /** The first available node of `scan` not chosen yet. */
  function FirstFree(scan: seq<NodeId>, avail: set<NodeId>, nodes: seq<NodeId>): (r: Option<NodeId>)
    ensures r.Some? ==> r.value in scan && r.value in avail && r.value !in nodes
    ensures r.None? ==> forall x :: x in scan && x in avail ==> x in nodes
  {
    if scan == [] then None
    else if scan[0] in avail && scan[0] !in nodes then Some(scan[0])
    else FirstFree(scan[1..], avail, nodes)
  }

  function Pick(preferred: NodeId, scan: seq<NodeId>, avail: set<NodeId>, nodes: seq<NodeId>): NodeId {
    if preferred in avail then preferred
    else
      var free := FirstFree(scan, avail, nodes);
      if free.Some? then free.value else preferred
  }

  /** The replicas chosen for a window: one pick per preferred node, in order. */
  function Chosen(window: seq<NodeId>, scan: seq<NodeId>, avail: set<NodeId>): (r: seq<NodeId>)
    ensures |r| == |window|
  {
    if window == [] then []
    else
      var before := Chosen(window[..|window| - 1], scan, avail);
      before + [Pick(window[|window| - 1], scan, avail, before)]
  }

  /** The replicas that replaced an unavailable preferred node, by that node. */
  ghost predicate RecordsReplacements(replacements: map<NodeId, NodeId>, window: seq<NodeId>, nodes: seq<NodeId>,
                                      avail: set<NodeId>)
    requires |nodes| == |window|
  {
    && (forall i :: 0 <= i < |nodes| && nodes[i] != window[i] ==>
        window[i] in replacements && replacements[window[i]] == nodes[i])
    && (forall x :: x in replacements ==>
          exists i :: 0 <= i < |nodes| && x == window[i] && x !in avail && replacements[x] == nodes[i] &&
              nodes[i] in avail)
  }

  function Usable(all: seq<NodeId>, sloppy: bool, online: set<NodeId>): set<NodeId> {
    if sloppy then online else Elements(all)
  }

  /** The preferred nodes of a key, before unavailable ones are replaced. */
  function Preferred(all: seq<NodeId>, primary: NodeId, replication: nat): seq<NodeId> {
    if all == [] then [] else Window(all, PrimaryIndex(all, primary), replication)
  }

  function Replicas(all: seq<NodeId>, primary: NodeId, replication: nat, avail: set<NodeId>): (r: seq<NodeId>)
    ensures |r| == |Preferred(all, primary, replication)|
  {
    if all == [] then []
    else
      var p := PrimaryIndex(all, primary);
      Chosen(Window(all, p, replication), Rotated(all, p + replication), avail)
  }

  lemma {:induction false} AllUpIsWindow(window: seq<NodeId>, scan: seq<NodeId>, avail: set<NodeId>)
    requires Elements(window) <= avail
    ensures Chosen(window, scan, avail) == window
  {
    if window != [] {
      var front, last := window[..|window| - 1], window[|window| - 1];
      assert window == front + [last];
      assert last in Elements(window) && Elements(front) <= Elements(window);
      AllUpIsWindow(front, scan, avail);
    }
  }

  /** determineResponsibleNodes, given one listing of the ring's nodes. */
  method DetermineResponsibleNodes(all: seq<NodeId>, primary: NodeId, replication: nat, sloppy: bool,
                                   online: set<NodeId>)
    returns (nodes: seq<NodeId>, replacements: map<NodeId, NodeId>)
    requires Distinct(all)
    ensures nodes == Replicas(all, primary, replication, Usable(all, sloppy, online))
    ensures !sloppy ==> nodes == Preferred(all, primary, replication)
    ensures all == [] ==> replacements == map[]
    ensures all != [] ==>
              RecordsReplacements(replacements, Window(all, PrimaryIndex(all, primary), replication), nodes,
                                  Usable(all, sloppy, online))
  {
    nodes, replacements := [], map[];
    if all == [] {
      return;
    }
    var primaryIndex := FindPrimary(all, primary);
    nodes, replacements := ChooseReplicas(all, primaryIndex, replication, sloppy, online);
    if !sloppy {
      WindowInside(all, primaryIndex, replication);
      AllUpIsWindow(Window(all, primaryIndex, replication), Rotated(all, primaryIndex + replication), Elements(all));
    }
  }

  method ChooseReplicas(all: seq<NodeId>, primaryIndex: nat, replication: nat, sloppy: bool, online: set<NodeId>)
    returns (nodes: seq<NodeId>, replacements: map<NodeId, NodeId>)
    requires all != [] && Distinct(all)
    ensures nodes == Chosen(Window(all, primaryIndex, replication), Rotated(all, primaryIndex + replication),
                            Usable(all, sloppy, online))
    ensures RecordsReplacements(replacements, Window(all, primaryIndex, replication), nodes,
                                Usable(all, sloppy, online))
  {
    nodes, replacements := [], map[];
    ghost var avail, window, scan := Usable(all, sloppy, online), Window(all, primaryIndex, replication),
        Rotated(all, primaryIndex + replication);
    WindowInside(all, primaryIndex, replication);
    var i := 0;
    while i < replication && i < |all|
      invariant 0 <= i <= |window|
      invariant nodes == Chosen(window[..i], scan, avail)
      invariant RecordsReplacements(replacements, window[..i], nodes, avail)
    {
      var nodeId := all[(primaryIndex + i) % |all|];
      WindowAt(all, primaryIndex, replication, i);
      var picked := nodeId;
      if sloppy && nodeId !in online {
        picked := FindReplacement(all, primaryIndex, replication, online, nodes, nodeId);
      }
      ChosenMore(window, scan, avail, i);
      RecordMore(replacements, window, i, nodes, avail, picked);
      if picked != nodeId {
        replacements := replacements[nodeId := picked];
      }
      nodes := nodes + [picked];
      i := i + 1;
    }
    assert window[..|window|] == window;
  }

  lemma {:induction false} WindowAt(all: seq<NodeId>, p: nat, replication: nat, i: nat)
    requires all != [] && i < WindowSize(|all|, replication)
    ensures all[(p + i) % |all|] == Window(all, p, replication)[i] && Window(all, p, replication)[i] in Elements(all)
  {
    RotatedAt(all, p, i);
  }

  lemma {:induction false} ChosenMore(window: seq<NodeId>, scan: seq<NodeId>, avail: set<NodeId>, i: nat)
    requires i < |window|
    ensures var before := Chosen(window[..i], scan, avail);
            Chosen(window[..i + 1], scan, avail) == before + [Pick(window[i], scan, avail, before)]
  {
    assert window[..i + 1][..i] == window[..i];
  }

  lemma {:induction false} RecordMore(replacements: map<NodeId, NodeId>, window: seq<NodeId>, i: nat,
                                      nodes: seq<NodeId>, avail: set<NodeId>, picked: NodeId)
    requires Distinct(window) && i < |window| && |nodes| == i &&
             RecordsReplacements(replacements, window[..i], nodes, avail)
    requires picked != window[i] ==> window[i] !in avail && picked in avail
    ensures var more := if picked != window[i] then replacements[window[i] := picked] else replacements;
            RecordsReplacements(more, window[..i + 1], nodes + [picked], avail)
  {
  }

  method FindPrimary(all: seq<NodeId>, primary: NodeId) returns (primaryIndex: nat)
    requires all != []
    ensures primaryIndex == PrimaryIndex(all, primary)
  {
    for i := 0 to |all|
      invariant primary !in all[..i]
    {
      if all[i] == primary {
        return i;
      }
    }
    return 0;
  }

  method FindReplacement(all: seq<NodeId>, primaryIndex: nat, replication: nat, online: set<NodeId>,
                         nodes: seq<NodeId>, nodeId: NodeId)
    returns (picked: NodeId)
    requires all != [] && nodeId !in online
    ensures picked == Pick(nodeId, Rotated(all, primaryIndex + replication), online, nodes)
    ensures picked != nodeId ==> picked in online
  {
    ghost var scan := Rotated(all, primaryIndex + replication);
    for j := 0 to |all|
      invariant FirstFree(scan, online, nodes) == FirstFree(scan[j..], online, nodes)
    {
      var candidate := all[(primaryIndex + replication + j) % |all|];
      RotatedAt(all, primaryIndex + replication, j);
      if candidate in online && candidate !in nodes {
        return candidate;
      }
    }
    return nodeId;
  }

  // ---------- What each replica is ----------

  /** The i-th replica against the i-th preferred node: an available preferred node is taken; an
      unavailable one gives way to the first node of the scan that is available and not chosen yet, and
      stays when there is none. */
  ghost predicate RightReplica(nodes: seq<NodeId>, i: nat, preferred: NodeId, scan: seq<NodeId>, avail: set<NodeId>)
    requires i < |nodes|
  {
    && (preferred in avail ==> nodes[i] == preferred)
    && (preferred !in avail && (exists x :: x in scan && x in avail && x !in nodes[..i]) ==>
          exists j :: 0 <= j < |scan| && nodes[i] == scan[j] && FirstFreeAt(scan, j, avail, nodes[..i]))
    && (preferred !in avail && (forall x :: x in scan && x in avail ==> x in nodes[..i]) ==> nodes[i] == preferred)
  }

  ghost predicate FirstFreeAt(scan: seq<NodeId>, j: nat, avail: set<NodeId>, chosen: seq<NodeId>)
    requires j < |scan|
  {
    scan[j] in avail && scan[j] !in chosen && forall i :: 0 <= i < j ==> scan[i] !in avail || scan[i] in chosen
  }

  lemma {:induction false} FirstFreeFound(scan: seq<NodeId>, avail: set<NodeId>, chosen: seq<NodeId>) returns (j: nat)
    requires FirstFree(scan, avail, chosen).Some?
    ensures j < |scan| && scan[j] == FirstFree(scan, avail, chosen).value && FirstFreeAt(scan, j, avail, chosen)
  {
    if scan[0] in avail && scan[0] !in chosen {
      j := 0;
    } else {
      j := FirstFreeFound(scan[1..], avail, chosen);
      j := j + 1;
    }
  }

  lemma {:induction false} ChosenPrefix(window: seq<NodeId>, scan: seq<NodeId>, avail: set<NodeId>, i: nat)
    requires i <= |window|
    ensures Chosen(window[..i], scan, avail) == Chosen(window, scan, avail)[..i]
    decreases |window|
  {
    var n := |window|;
    if i == n {
      assert window[..i] == window;
    } else {
      ChosenPrefix(window[..n - 1], scan, avail, i);
      assert window[..n - 1][..i] == window[..i];
    }
  }

  lemma {:induction false} ChosenAt(window: seq<NodeId>, scan: seq<NodeId>, avail: set<NodeId>, i: nat)
    requires i < |window|
    ensures RightReplica(Chosen(window, scan, avail), i, window[i], scan, avail)
  {
    var nodes := Chosen(window, scan, avail);
    ChosenPrefix(window, scan, avail, i);
    ChosenPrefix(window, scan, avail, i + 1);
    ChosenMore(window, scan, avail, i);
    assert nodes[i] == nodes[..i + 1][i] == Pick(window[i], scan, avail, nodes[..i]);
    if window[i] !in avail && FirstFree(scan, avail, nodes[..i]).Some? {
      var j := FirstFreeFound(scan, avail, nodes[..i]);
    }
  }

  /** The node `i` places after position `start` of the listing, wrapping around. */
  function PlacesOn(all: seq<NodeId>, start: nat, i: nat): NodeId
    requires all != []
  {
    all[(start + i) % |all|]
  }

  /** The scan passes the node over: it is unavailable or chosen already. */
  predicate Passed(x: NodeId, avail: set<NodeId>, chosen: seq<NodeId>) {
    x !in avail || x in chosen
  }

  /** For every listing and availability, where each replica comes from. It is the preferred node exactly
      when this is available or every available node is chosen already; and otherwise it is the first
      node, from the end of the window on, that is available and not chosen yet. */
  lemma {:induction false} ReplicaAt(all: seq<NodeId>, primary: NodeId, replication: nat, avail: set<NodeId>, i: nat)
    requires all != [] && i < WindowSize(|all|, replication)
    ensures |Replicas(all, primary, replication, avail)| == WindowSize(|all|, replication)
    ensures var nodes, p := Replicas(all, primary, replication, avail), PrimaryIndex(all, primary);
            ReplicaStands(all, p, replication, avail, nodes, i)
  {
    var p := PrimaryIndex(all, primary);
    var nodes := Chosen(Window(all, p, replication), Rotated(all, p + replication), avail);
    assert Replicas(all, primary, replication, avail) == nodes;
    ReplicaStandsAt(all, p, replication, avail, i);
  }

  ghost predicate ReplicaStands(all: seq<NodeId>, p: nat, replication: nat, avail: set<NodeId>, nodes: seq<NodeId>,
                                i: nat)
    requires all != [] && i < |nodes|
  {
    var preferred, chosen := PlacesOn(all, p, i), nodes[..i];
    && (preferred in avail || AllPassed(all, avail, chosen) ==> nodes[i] == preferred)
    && (preferred !in avail && !AllPassed(all, avail, chosen) ==>
        StandsIn(all, p + replication, avail, chosen, nodes[i]))
  }

  ghost predicate AllPassed(all: seq<NodeId>, avail: set<NodeId>, chosen: seq<NodeId>) {
    forall x :: x in all ==> Passed(x, avail, chosen)
  }

  /** The first node from `start` on that the scan does not pass over. */
  ghost predicate StandsIn(all: seq<NodeId>, start: nat, avail: set<NodeId>, chosen: seq<NodeId>, x: NodeId)
    requires all != []
  {
    && x in all && x in avail && x !in chosen
    && exists j :: 0 <= j < |all| && PlacesOn(all, start, j) == x && forall k :: 0 <= k < j ==>
       Passed(PlacesOn(all, start, k), avail, chosen)
  }

  lemma {:induction false} ReplicaStandsAt(all: seq<NodeId>, p: nat, replication: nat, avail: set<NodeId>, i: nat)
    requires all != [] && i < WindowSize(|all|, replication)
    ensures ReplicaStands(all, p, replication, avail,
                          Chosen(Window(all, p, replication), Rotated(all, p + replication), avail), i)
  {
    var window, scan := Window(all, p, replication), Rotated(all, p + replication);
    var nodes := Chosen(window, scan, avail);
    WindowAt(all, p, replication, i);
    ChosenAt(window, scan, avail, i);
    RotatedElements(all, p + replication);
    ScanMembers(scan, all);
    if window[i] !in avail && exists x :: x in scan && x in avail && x !in nodes[..i] {
      var j :| 0 <= j < |scan| && nodes[i] == scan[j] && FirstFreeAt(scan, j, avail, nodes[..i]);
      StandsInFrom(all, p + replication, j, avail, nodes[..i]);
    }
  }

  lemma {:induction false} ScanMembers(scan: seq<NodeId>, all: seq<NodeId>)
    requires Elements(scan) == Elements(all)
    ensures forall x :: x in scan <==> x in all
  {
    forall x ensures x in scan <==> x in all {
      assert x in scan <==> x in Elements(scan);
      assert x in all <==> x in Elements(all);
    }
  }

  lemma {:induction false} StandsInFrom(all: seq<NodeId>, start: nat, j: nat, avail: set<NodeId>, chosen: seq<NodeId>)
    requires all != [] && j < |all| && FirstFreeAt(Rotated(all, start), j, avail, chosen)
    ensures StandsIn(all, start, avail, chosen, Rotated(all, start)[j])
  {
    RotatedAt(all, start, j);
    assert PlacesOn(all, start, j) == Rotated(all, start)[j];
    forall k | 0 <= k < j ensures Passed(PlacesOn(all, start, k), avail, chosen) {
      RotatedAt(all, start, k);
    }
  }

  // ---------- When the choice yields enough distinct available replicas ----------

  lemma {:induction false} ElementsSize(s: seq<NodeId>)
    ensures |Elements(s)| <= |s|
    ensures Distinct(s) ==> |Elements(s)| == |s|
  {
    if s != [] {
      var front, last := s[..|s| - 1], s[|s| - 1];
      ElementsSize(front);
      assert Elements(s) == Elements(front) + {last};
      if Distinct(s) {
        assert last !in front;
      }
    }
  }

  /** The scan meets every node outside the window before any node inside it. */
  ghost predicate SparesFirst(scan: seq<NodeId>, window: seq<NodeId>) {
    forall i, j :: 0 <= i < j < |scan| && scan[i] in window ==> scan[j] in window
  }

  lemma {:induction false} SpareFound(scan: seq<NodeId>, window: seq<NodeId>, avail: set<NodeId>, nodes: seq<NodeId>,
                                      x: NodeId)
    requires SparesFirst(scan, window) && x in scan && x in avail && x !in nodes && x !in window
    ensures FirstFree(scan, avail, nodes).Some? && FirstFree(scan, avail, nodes).value !in window
  {
    if scan[0] == x || (scan[0] in avail && scan[0] !in nodes) {
      var i :| 0 <= i < |scan| && scan[i] == x;
      assert 0 < i ==> (scan[0] in window ==> x in window);
    } else {
      SpareFound(scan[1..], window, avail, nodes, x);
    }
  }

  /** Progress of the choice: the replicas so far are distinct and available, and they use
      exactly one spare for each preferred node that was unavailable. */
  ghost predicate Progress(window: seq<NodeId>, i: nat, avail: set<NodeId>, nodes: seq<NodeId>)
    requires i <= |window|
  {
    Distinct(nodes) && Balanced(Elements(nodes), Elements(window), Elements(window[..i]), avail)
  }

  ghost predicate Balanced(nodes: set<NodeId>, window: set<NodeId>, visited: set<NodeId>, avail: set<NodeId>) {
    nodes <= avail && nodes * window <= visited && |nodes - window| == |visited - avail|
  }

  lemma {:induction false} BalancedPreferred(nodes: set<NodeId>, window: set<NodeId>, visited: set<NodeId>,
                                             avail: set<NodeId>, w: NodeId)
    requires Balanced(nodes, window, visited, avail) && w in window && w in avail
    ensures Balanced(nodes + {w}, window, visited + {w}, avail)
  {
    assert nodes + {w} - window == nodes - window;
    assert visited + {w} - avail == visited - avail;
  }

  lemma {:induction false} BalancedSpare(nodes: set<NodeId>, window: set<NodeId>, visited: set<NodeId>,
                                         avail: set<NodeId>, w: NodeId, x: NodeId)
    requires Balanced(nodes, window, visited, avail) && w !in avail && w !in visited
    requires x in avail && x !in nodes && x !in window
    ensures Balanced(nodes + {x}, window, visited + {w}, avail)
  {
    var spares, missing := nodes - window, visited - avail;
    assert nodes + {x} - window == spares + {x} && |spares + {x}| == |spares| + 1;
    assert visited + {w} - avail == missing + {w} && |missing + {w}| == |missing| + 1;
    assert (nodes + {x}) * window == nodes * window;
  }

  lemma {:induction false} ChosenFrom(window: seq<NodeId>, scan: seq<NodeId>, avail: set<NodeId>)
    ensures forall x :: x in Chosen(window, scan, avail) ==> x in window || x in scan
  {
    if window != [] {
      ChosenFrom(window[..|window| - 1], scan, avail);
    }
  }

  lemma {:induction false} ChosenProgress(window: seq<NodeId>, scan: seq<NodeId>, avail: set<NodeId>, i: nat)
    requires i <= |window| && Distinct(window) && SparesFirst(scan, window)
    requires |Elements(window) - avail| <= |(Elements(scan) * avail) - Elements(window)|
    ensures Progress(window, i, avail, Chosen(window[..i], scan, avail))
  {
    if i == 0 {
      assert Elements(window[..0]) - avail == {};
    } else {
      ChosenProgress(window, scan, avail, i - 1);
      ChosenMore(window, scan, avail, i - 1);
      ChosenFrom(window[..i - 1], scan, avail);
      var before := Chosen(window[..i - 1], scan, avail);
      forall x | x in before ensures x in window || x in scan {
        assert x in window[..i - 1] ==> x in window;
      }
      if window[i - 1] in avail {
        PreferredProgress(window, avail, i - 1, before);
      } else {
        SpareExists(window, scan, avail, i - 1, before);
        SpareProgress(window, avail, i - 1, before, Pick(window[i - 1], scan, avail, before));
      }
    }
  }

  lemma {:induction false} GrowMembers(s: seq<NodeId>, x: NodeId)
    ensures Elements(s + [x]) == Elements(s) + {x}
    ensures Distinct(s) && x !in s ==> Distinct(s + [x])
  {
  }

  lemma {:induction false} NextOfWindow(window: seq<NodeId>, i: nat)
    requires Distinct(window) && i < |window|
    ensures Elements(window[..i + 1]) == Elements(window[..i]) + {window[i]} && window[i] !in Elements(window[..i])
  {
  }

  lemma {:induction false} PreferredProgress(window: seq<NodeId>, avail: set<NodeId>, i: nat, nodes: seq<NodeId>)
    requires i < |window| && Distinct(window) && window[i] in avail && Progress(window, i, avail, nodes)
    ensures Progress(window, i + 1, avail, nodes + [window[i]])
  {
    var w := window[i];
    NextOfWindow(window, i);
    GrowMembers(nodes, w);
    assert w !in Elements(nodes) by {
      assert w in Elements(nodes) ==> w in Elements(nodes) * Elements(window);
    }
    BalancedPreferred(Elements(nodes), Elements(window), Elements(window[..i]), avail, w);
  }

  lemma {:induction false} SpareProgress(window: seq<NodeId>, avail: set<NodeId>, i: nat, nodes: seq<NodeId>, x: NodeId)
    requires i < |window| && Distinct(window) && window[i] !in avail && Progress(window, i, avail, nodes)
    requires x in avail && x !in nodes && x !in window
    ensures Progress(window, i + 1, avail, nodes + [x])
  {
    NextOfWindow(window, i);
    GrowMembers(nodes, x);
    BalancedSpare(Elements(nodes), Elements(window), Elements(window[..i]), avail, window[i], x);
  }

  lemma {:induction false} SpareExists(window: seq<NodeId>, scan: seq<NodeId>, avail: set<NodeId>, i: nat,
                                       nodes: seq<NodeId>)
    requires i < |window| && Distinct(window) && SparesFirst(scan, window) && window[i] !in avail
    requires |Elements(window) - avail| <= |(Elements(scan) * avail) - Elements(window)|
    requires Progress(window, i, avail, nodes) && forall x :: x in nodes ==> x in window || x in scan
    ensures var x := Pick(window[i], scan, avail, nodes);
            x in avail && x !in nodes && x !in window
  {
    var used, spares := Elements(nodes) - Elements(window), (Elements(scan) * avail) - Elements(window);
    var lacking := Elements(window[..i]) - avail;
    NextOfWindow(window, i);
    SmallerSet(lacking + {window[i]}, Elements(window) - avail);
    assert used <= spares;
    var x := Unused(used, spares);
    SpareFound(scan, window, avail, nodes, x);
  }

  lemma {:induction false} Unused(used: set<NodeId>, spares: set<NodeId>) returns (x: NodeId)
    requires used <= spares && |used| < |spares|
    ensures x in spares && x !in used
  {
    assert |spares - used| > 0;
    x :| x in spares - used;
  }

  lemma {:induction false} ScanSparesFirst(all: seq<NodeId>, p: nat, replication: nat)
    requires all != [] && Distinct(all) && p < |all|
    ensures SparesFirst(Rotated(all, p + replication), Window(all, p, replication))
  {
    var n, ring, window, scan := |all|, Rotated(all, p), Window(all, p, replication), Rotated(all, p + replication);
    if replication < n {
      forall j | 0 <= j < n
        ensures scan[j] == ring[if replication + j < n then replication + j else replication + j - n] {
        RotatedAt(all, p + replication, j);
        var i := if replication + j < n then replication + j else replication + j - n;
        RotatedAt(all, p, i);
        if i != replication + j {
          ModShift(p + i, 0, n);
          AddWhole(p + i, n);
        }
      }
      RotatedElements(all, p);
      forall i, j | 0 <= i < j < n && scan[i] in window ensures scan[j] in window {
        var k :| 0 <= k < replication && ring[k] == scan[i];
        assert replication + i >= n;
        assert scan[j] == ring[replication + j - n] == window[replication + j - n];
      }
    } else {
      RotatedElements(all, p);
      RotatedElements(all, p + replication);
      assert window == ring;
      forall j | 0 <= j < n ensures scan[j] in window {
        assert scan[j] in Elements(scan);
      }
    }
  }

  lemma {:induction false} AddWhole(a: nat, n: nat)
    requires n > 0
    ensures (a + n) % n == a % n
  {
    ModUnique(a + n, a / n + 1, a % n, n);
  }

  ghost predicate AllServing(nodes: seq<NodeId>, avail: set<NodeId>) {
    Distinct(nodes) && Elements(nodes) <= avail
  }

  ghost predicate Enough(all: seq<NodeId>, replication: nat, avail: set<NodeId>) {
    |Elements(all) * avail| >= WindowSize(|all|, replication)
  }

  lemma {:induction false} EnoughGivesDistinct(all: seq<NodeId>, p: nat, replication: nat, avail: set<NodeId>)
    requires all != [] && Distinct(all) && p < |all|
    requires Enough(all, replication, avail)
    ensures var nodes := Chosen(Window(all, p, replication), Rotated(all, p + replication), avail);
            AllServing(nodes, avail)
  {
    WindowInside(all, p, replication);
    RotatedElements(all, p + replication);
    ScanSparesFirst(all, p, replication);
    SparesServe(Window(all, p, replication), Rotated(all, p + replication), Elements(all), avail);
  }

  lemma {:induction false} SparesServe(window: seq<NodeId>, scan: seq<NodeId>, ring: set<NodeId>, avail: set<NodeId>)
    requires Distinct(window) && Elements(window) <= ring == Elements(scan) && SparesFirst(scan, window)
    requires |ring * avail| >= |window|
    ensures AllServing(Chosen(window, scan, avail), avail)
  {
    CountSpares(window, ring, avail);
    ChosenProgress(window, scan, avail, |window|);
    assert window[..|window|] == window;
  }

  lemma {:induction false} DistinctNeedsEnough(all: seq<NodeId>, p: nat, replication: nat, avail: set<NodeId>)
    requires all != [] && Distinct(all) && p < |all|
    requires var nodes := Chosen(Window(all, p, replication), Rotated(all, p + replication), avail);
             AllServing(nodes, avail)
    ensures Enough(all, replication, avail)
  {
    WindowInside(all, p, replication);
    RotatedElements(all, p + replication);
    ServingNeeds(Window(all, p, replication), Rotated(all, p + replication), Elements(all), avail);
  }

  lemma {:induction false} ServingNeeds(window: seq<NodeId>, scan: seq<NodeId>, ring: set<NodeId>, avail: set<NodeId>)
    requires Elements(window) <= ring == Elements(scan) && AllServing(Chosen(window, scan, avail), avail)
    ensures |ring * avail| >= |window|
  {
    var nodes := Chosen(window, scan, avail);
    ChosenFrom(window, scan, avail);
    forall x | x in nodes ensures x in ring {
      assert x in Elements(window) || x in Elements(scan);
    }
    ElementsSize(nodes);
    SmallerSet(Elements(nodes), ring * avail);
  }

  /** The chosen replicas are pairwise distinct and all available exactly when enough of the
      ring's nodes are available to fill the window at all. */
  lemma {:induction false} ReplicasExact(all: seq<NodeId>, primary: NodeId, replication: nat, avail: set<NodeId>)
    requires all != [] && Distinct(all)
    ensures var nodes := Replicas(all, primary, replication, avail);
            && |nodes| == WindowSize(|all|, replication)
            && (AllServing(nodes, avail) <==> Enough(all, replication, avail))
  {
    var p := PrimaryIndex(all, primary);
    var nodes := Chosen(Window(all, p, replication), Rotated(all, p + replication), avail);
    assert Replicas(all, primary, replication, avail) == nodes;
    ChoiceExact(all, p, replication, avail);
  }

  lemma {:induction false} ChoiceExact(all: seq<NodeId>, p: nat, replication: nat, avail: set<NodeId>)
    requires all != [] && Distinct(all) && p < |all|
    ensures var nodes := Chosen(Window(all, p, replication), Rotated(all, p + replication), avail);
            && |nodes| == WindowSize(|all|, replication)
            && (AllServing(nodes, avail) <==> Enough(all, replication, avail))
  {
    var window, scan := Window(all, p, replication), Rotated(all, p + replication);
    var nodes := Chosen(window, scan, avail);
    if Enough(all, replication, avail) {
      EnoughGivesDistinct(all, p, replication, avail);
    }
    if AllServing(nodes, avail) {
      DistinctNeedsEnough(all, p, replication, avail);
    }
  }

  /** With too few, a replacement can come up again as a preferred node: here one node is chosen
      twice, and its single copy counts as two replicas. */
  lemma {:induction false} ReplicaCountedTwice(x: NodeId, y: NodeId)
    requires x != y
    ensures Replicas([x, y], x, 2, {y}) == [y, y]
  {
    var all := [x, y];
    assert PrimaryIndex(all, x) == 0;
    assert Rotated(all, 0) == all && Rotated(all, 2) == all;
    assert Window(all, 0, 2) == all;
    PairChosen(x, y);
    assert Replicas(all, x, 2, {y}) == Chosen(all, all, {y});
  }

  lemma {:induction false} PairChosen(x: NodeId, y: NodeId)
    requires x != y
    ensures Chosen([x, y], [x, y], {y}) == [y, y]
  {
  }

  /** With enough available nodes, no two unavailable preferred nodes share a replacement, and
      every replacement is an available node outside the window. */
  lemma {:induction false} ReplacementsInjective(window: seq<NodeId>, nodes: seq<NodeId>, avail: set<NodeId>,
                                                 replacements: map<NodeId, NodeId>)
    requires |nodes| == |window| && RecordsReplacements(replacements, window, nodes, avail)
    requires Distinct(window) && Distinct(nodes)
    ensures forall x, y :: x in replacements && y in replacements && x != y ==> replacements[x] != replacements[y]
    ensures forall x :: x in replacements ==> replacements[x] in avail && replacements[x] !in window
  {
  }

  lemma {:induction false} WindowInside(all: seq<NodeId>, p: nat, replication: nat)
    requires all != [] && Distinct(all)
    ensures Distinct(Window(all, p, replication)) && Elements(Window(all, p, replication)) <= Elements(all)
  {
  }

  lemma {:induction false} CountSpares(window: seq<NodeId>, ring: set<NodeId>, avail: set<NodeId>)
    requires Distinct(window) && Elements(window) <= ring && |ring * avail| >= |window|
    ensures |Elements(window) - avail| <= |(ring * avail) - Elements(window)|
  {
    var w := Elements(window);
    ElementsSize(window);
    assert ring * avail == ((ring * avail) - w) + (w * avail);
    assert w == (w - avail) + (w * avail);
    assert |ring * avail| == |(ring * avail) - w| + |w * avail|;
    assert |w| == |w - avail| + |w * avail|;
  }
}
