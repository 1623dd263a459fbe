/** Hash trees over the payloads of one bucket. SHA-256 is symbolic: a hash is the term that was
    hashed, so hashes are injective, and leaf hashes (whose preimage contains a colon) differ
    from inner hashes (whose preimage is two hexadecimal digests). */
module Merkle {
  import opened Sequences
  import opened Clocks
  import opened Sorting
  import opened Versions
  import opened Payloads

  datatype Hash = Leaf(key: Key, payload: Payload) | Inner(left: Hash, right: Hash)

  type Data = map<Key, Payload>

  // ---------- Levels ----------

  /** One level up: neighbours are paired, an odd last node with itself. */
  function Up(level: seq<Hash>): (r: seq<Hash>)
    ensures |r| == (|level| + 1) / 2
    ensures forall i :: 0 <= i < |r| ==>
              r[i] == Inner(level[2 * i], level[if 2 * i + 1 < |level| then 2 * i + 1 else 2 * i])
  {
    if level == [] then []
    else if |level| == 1 then [Inner(level[0], level[0])]
    else [Inner(level[0], level[1])] + Up(level[2..])
  }

  function Levels(level: seq<Hash>): (r: seq<seq<Hash>>)
    ensures r != [] && r[0] == level
    decreases |level|
  {
    [level] + if |level| > 1 then Levels(Up(level)) else []
  }

  /** The root; an empty tree has none. */
  function RootOf(level: seq<Hash>): Option<Hash>
    decreases |level|
  {
    if level == [] then None
    else if |level| == 1 then Some(level[0])
    else RootOf(Up(level))
  }

  lemma {:induction false} RootIsLastLevel(level: seq<Hash>)
    ensures var top := Levels(level)[|Levels(level)| - 1];
            RootOf(level) == if top == [] then None else Some(top[0])
    decreases |level|
  {
    if |level| > 1 {
      RootIsLastLevel(Up(level));
    }
  }

  function Depth(h: Hash): nat {
    match h
    case Leaf(_, _) => 0
    case Inner(l, _) => 1 + Depth(l)
  }

  ghost predicate AtDepth(level: seq<Hash>, d: nat) {
    forall i :: 0 <= i < |level| ==> Depth(level[i]) == d
  }

  lemma {:induction false} UpDistinct(level: seq<Hash>, d: nat)
    requires Distinct(level) && AtDepth(level, d)
    ensures Distinct(Up(level)) && AtDepth(Up(level), d + 1)
  {
  }

  /** The depth of the root tells how many levels there are. */
  lemma {:induction false} RootDepth(level: seq<Hash>, d: nat)
    requires level != [] && AtDepth(level, d) && Distinct(level)
    ensures RootOf(level).Some? && Depth(RootOf(level).value) >= d
    ensures |level| > 1 ==> Depth(RootOf(level).value) > d
    decreases |level|
  {
    if |level| > 1 {
      UpDistinct(level, d);
      RootDepth(Up(level), d + 1);
    }
  }

  /** The last parent shows whether the level below had an odd number of nodes. */
  lemma {:induction false} OddLevel(level: seq<Hash>)
    requires level != [] && Distinct(level)
    ensures var last := Up(level)[|Up(level)| - 1];
            last.left == last.right <==> |level| % 2 == 1
  {
  }

  /** Equal parents mean equal children: duplicating an odd last node cannot be mistaken for a
      genuine pair, because the nodes of a level are pairwise distinct. */
  lemma {:induction false} UpInjective(s: seq<Hash>, t: seq<Hash>)
    requires Up(s) == Up(t) && Distinct(s) && Distinct(t)
    ensures s == t
  {
    assert |Up(s)| == |Up(t)|;
    if s != [] {
      OddLevel(s);
      OddLevel(t);
    }
    assert |s| == |t|;
    forall k | 0 <= k < |s| ensures s[k] == t[k] {
      var i := k / 2;
      assert Up(s)[i] == Up(t)[i];
      assert k == 2 * i || k == 2 * i + 1;
    }
  }

  /** Equal roots force equal levels, whatever the two sizes and heights. */
  lemma {:induction false} RootInjective(s: seq<Hash>, t: seq<Hash>, d: nat)
    requires Distinct(s) && Distinct(t) && AtDepth(s, d) && AtDepth(t, d)
    requires RootOf(s) == RootOf(t)
    ensures s == t
    decreases |s| + |t|
  {
    if s != [] { RootDepth(s, d); }
    if t != [] { RootDepth(t, d); }
    if |s| > 1 && |t| > 1 {
      UpDistinct(s, d);
      UpDistinct(t, d);
      RootInjective(Up(s), Up(t), d + 1);
      UpInjective(s, t);
    }
  }

  // ---------- Leaves ----------

  function LeafAt(data: Data, k: Key): Hash
    requires k in data
  {
    Leaf(k, data[k])
  }

  /** The leaves of a data map: one per key, in key order. */
  ghost predicate LeavesOf(leaves: seq<Hash>, keys: seq<Key>, data: Data) {
    && Enumerates(keys, data.Keys) && Sorted(TextLess, keys)
    && |leaves| == |keys|
    && forall i :: 0 <= i < |keys| ==> leaves[i] == LeafAt(data, keys[i])
  }

  lemma {:induction false} LeavesDistinct(leaves: seq<Hash>, keys: seq<Key>, data: Data)
    requires LeavesOf(leaves, keys, data)
    ensures Distinct(leaves) && AtDepth(leaves, 0)
    ensures forall h :: h in leaves <==> h.Leaf? && h.key in data && data[h.key] == h.payload
  {
  }

  lemma {:induction false} LeavesUnique(ls: seq<Hash>, ks: seq<Key>, ms: seq<Hash>, js: seq<Key>, data: Data)
    requires LeavesOf(ls, ks, data) && LeavesOf(ms, js, data)
    ensures ls == ms
  {
    EnumerationMultiset(ks, data.Keys);
    EnumerationMultiset(js, data.Keys);
    TextStrictTotal();
    SortedUnique(TextLess, ks, js);
  }

  lemma {:induction false} SameLeavesSameData(leaves: seq<Hash>, ks: seq<Key>, data: Data, js: seq<Key>, other: Data)
    requires LeavesOf(leaves, ks, data) && LeavesOf(leaves, js, other)
    ensures data == other
  {
  }

  /** Two trees have the same root exactly when they were built from the same data. */
  lemma {:induction false} RootsAgree(ls: seq<Hash>, ks: seq<Key>, data: Data, ms: seq<Hash>, js: seq<Key>, other: Data)
    requires LeavesOf(ls, ks, data) && LeavesOf(ms, js, other)
    ensures RootOf(ls) == RootOf(ms) <==> data == other
  {
    LeavesDistinct(ls, ks, data);
    LeavesDistinct(ms, js, other);
    if data == other {
      LeavesUnique(ls, ks, ms, js, data);
    } else if RootOf(ls) == RootOf(ms) {
      RootInjective(ls, ms, 0);
      SameLeavesSameData(ls, ks, data, js, other);
    }
  }

  /** The keys on which two data maps disagree, in presence or in payload. */
  function DifferingKeys(data: Data, other: Data): set<Key> {
    set k | k in data.Keys + other.Keys && !(k in data && k in other && data[k] == other[k])
  }

  lemma {:induction false} LevelsStep(below: seq<seq<Hash>>, current: seq<Hash>)
    requires |current| > 1
    ensures below + Levels(current) == (below + [current]) + Levels(Up(current))
  {
  }

  method BuildLevel(current: seq<Hash>) returns (next: seq<Hash>)
    ensures next == Up(current)
  {
    next := [];
    var i := 0;
    ghost var above := Up(current);
    while i < |current|
      invariant i % 2 == 0 && 0 <= i <= |current| + 1 && |next| == i / 2
      invariant next == above[..|next|]
    {
      var a := current[i];
      var b := if i + 1 < |current| then current[i + 1] else a;
      assert above[i / 2] == Inner(a, b);
      next := next + [Inner(a, b)];
      i := i + 2;
    }
  }

  class MerkleTree {
    var leaves: seq<Hash>
    var levels: seq<seq<Hash>>
    var keyMap: map<Hash, Key>
    var version: int

    /** The tree was built from `data`. */
    ghost predicate Represents(data: Data)
      reads this
    {
      && (exists keys :: LeavesOf(leaves, keys, data))
      && levels == Levels(leaves)
      && (forall h :: h in keyMap <==> h in leaves)
      && (forall h :: h in keyMap ==> h.Leaf? && keyMap[h] == h.key)
    }

    /** NewMerkleTree. */
    constructor (data: Data)
      ensures Represents(data)
    {
      leaves, levels, keyMap, version := [], [], map[], 0;
      new;
      var keys := SortedKeyList(data.Keys);
      for i := 0 to |keys|
        invariant |leaves| == i
        invariant forall j :: 0 <= j < i ==> leaves[j] == LeafAt(data, keys[j])
        invariant forall h :: h in keyMap <==> h in leaves
        invariant forall h :: h in keyMap ==> h.Leaf? && keyMap[h] == h.key
      {
        var leafHash := Leaf(keys[i], data[keys[i]]);
        leaves := leaves + [leafHash];
        keyMap := keyMap[leafHash := keys[i]];
      }
      assert LeavesOf(leaves, keys, data);
      BuildTree();
    }

    method BuildTree()
      modifies this`levels, this`version
      ensures levels == Levels(leaves) && version == old(version) + 1
    {
      levels := [leaves];
      var current := leaves;
      ghost var below: seq<seq<Hash>>, all := [], Levels(leaves);
      while |current| > 1
        invariant version == old(version)
        invariant levels == below + [current]
        invariant below + Levels(current) == all
        decreases |current|
      {
        var next := BuildLevel(current);
        LevelsStep(below, current);
        below := below + [current];
        levels := levels + [next];
        current := next;
      }
      version := version + 1;
    }

    function Root(): (r: Option<Hash>)
      reads this
    {
      var n := |levels|;
      if n == 0 || levels[n - 1] == [] then None else Some(levels[n - 1][0])
    }

    /** Exactly the keys on which the two data maps disagree, each once, in no particular order;
        equal roots are taken as a proof that there are none. */
    method CompareTrees(other: MerkleTree, ghost data: Data, ghost otherData: Data) returns (diffs: seq<Key>)
      requires Represents(data) && other.Represents(otherData)
      ensures Enumerates(diffs, DifferingKeys(data, otherData))
      ensures Root() == other.Root() <==> data == otherData
    {
      TreesAgree(this, other, data, otherData);
      if Root() == other.Root() {
        return [];
      }
      diffs := FindDifferingKeys(other, data, otherData);
    }

    method FindDifferingKeys(other: MerkleTree, ghost data: Data, ghost otherData: Data) returns (result: seq<Key>)
      requires Represents(data) && other.Represents(otherData)
      ensures Enumerates(result, DifferingKeys(data, otherData))
    {
      var otherLeaves := set h | h in other.leaves;
      var mine := CollectKeys(leaves, otherLeaves, keyMap);
      var theirs := CollectKeys(other.leaves, keyMap.Keys, other.keyMap);
      CollectedDiffer(this, other, data, otherData);
      result := Listing(mine + theirs);
    }
  }

  method SortedKeyList(s: set<Key>) returns (ids: seq<Key>)
    ensures Enumerates(ids, s) && Sorted(TextLess, ids)
  {
    ids := Listing(s);
    SortedEnumerates(ids, s);
    ids := Sort(TextLess, ids);
  }

  /** The keys of the leaves that are not `known`. */
  function UnknownKeys(leaves: seq<Hash>, known: set<Hash>, keyMap: map<Hash, Key>): set<Key> {
    set h | h in leaves && h !in known && h in keyMap :: keyMap[h]
  }

  method CollectKeys(leaves: seq<Hash>, known: set<Hash>, keyMap: map<Hash, Key>) returns (diffs: set<Key>)
    ensures diffs == UnknownKeys(leaves, known, keyMap)
  {
    diffs := {};
    for i := 0 to |leaves|
      invariant diffs == UnknownKeys(leaves[..i], known, keyMap)
    {
      var leaf := leaves[i];
      assert leaves[..i + 1] == leaves[..i] + [leaf];
      if leaf !in known {
        if leaf in keyMap {
          diffs := diffs + {keyMap[leaf]};
        }
      }
    }
    assert leaves[..|leaves|] == leaves;
  }

  lemma {:induction false} RepresentedLeaves(tree: MerkleTree, data: Data)
    requires tree.Represents(data)
    ensures forall h :: h in tree.leaves <==> h.Leaf? && h.key in data && data[h.key] == h.payload
  {
  }

  lemma {:induction false} CollectedDiffer(tree: MerkleTree, other: MerkleTree, data: Data, otherData: Data)
    requires tree.Represents(data) && other.Represents(otherData)
    ensures UnknownKeys(tree.leaves, (set h | h in other.leaves), tree.keyMap)
            + UnknownKeys(other.leaves, tree.keyMap.Keys, other.keyMap) == DifferingKeys(data, otherData)
  {
    RepresentedLeaves(tree, data);
    RepresentedLeaves(other, otherData);
    var mine := UnknownKeys(tree.leaves, (set h | h in other.leaves), tree.keyMap);
    var theirs := UnknownKeys(other.leaves, tree.keyMap.Keys, other.keyMap);
    forall k | k in DifferingKeys(data, otherData) ensures k in mine + theirs {
      if k in data {
        assert LeafAt(data, k) in tree.leaves && LeafAt(data, k) !in other.leaves;
        assert k in mine;
      } else {
        assert LeafAt(otherData, k) in other.leaves && LeafAt(otherData, k) !in tree.leaves;
        assert k in theirs;
      }
    }
  }

  lemma {:induction false} TreesAgree(tree: MerkleTree, other: MerkleTree, data: Data, otherData: Data)
    requires tree.Represents(data) && other.Represents(otherData)
    ensures tree.Root() == other.Root() <==> data == otherData
  {
    var keys :| LeavesOf(tree.leaves, keys, data);
    var otherKeys :| LeavesOf(other.leaves, otherKeys, otherData);
    RootsAgree(tree.leaves, keys, data, other.leaves, otherKeys, otherData);
    RootIsLastLevel(tree.leaves);
    RootIsLastLevel(other.leaves);
  }

  lemma {:induction false} SortedEnumerates(ids: seq<Key>, s: set<Key>)
    requires Enumerates(ids, s)
    ensures Enumerates(Sort(TextLess, ids), s) && Sorted(TextLess, Sort(TextLess, ids))
  {
    TextStrictTotal();
    SortIsSorted(TextLess, ids);
    EnumerationMultiset(ids, s);
    MultisetEnumerates(Sort(TextLess, ids), s);
  }

}
