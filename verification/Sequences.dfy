/** Sequences read as multisets and as listings of sets. */
module Sequences {

  function Elements<T>(s: seq<T>): set<T> {
    set x | x in s
  }

  function Without<T>(s: seq<T>, i: nat): (r: seq<T>)
    requires i < |s|
  {
    s[..i] + s[i + 1..]
  }

  lemma {:induction false} WithoutMapped<S, T>(s: seq<S>, j: nat, f: S -> T, image: seq<T>, shorter: seq<T>)
    requires j < |s| == |image| && |shorter| == |Without(s, j)|
    requires forall i :: 0 <= i < |s| ==> image[i] == f(s[i])
    requires forall i :: 0 <= i < |shorter| ==> shorter[i] == f(Without(s, j)[i])
    ensures shorter == Without(image, j)
  {
  }

  lemma {:induction false} MultisetWithout<T>(s: seq<T>, j: nat)
    requires j < |s|
    ensures multiset(s) == multiset(Without(s, j)) + multiset{s[j]}
  {
    assert s == s[..j] + [s[j]] + s[j + 1..];
  }

  /** Removing matching elements from two sequences preserves and reflects being permutations. */
  lemma {:induction false} MatchHead<T>(s: seq<T>, t: seq<T>, j: nat)
    requires s != [] && j < |t| && s[0] == t[j]
    ensures multiset(s) == multiset(t) <==> multiset(s[1..]) == multiset(Without(t, j))
  {
    MultisetWithout(t, j);
    MultisetWithout(s, 0);
    assert Without(s, 0) == s[1..];
    var a, b, p := multiset(s[1..]), multiset(Without(t, j)), multiset{s[0]};
    if multiset(s) == multiset(t) {
      assert a == (a + p) - p == (b + p) - p == b;
    }
  }

  lemma {:induction false} SameMembers<T>(s: seq<T>, t: seq<T>)
    requires multiset(s) == multiset(t)
    ensures forall x :: x in s <==> x in t
  {
    forall x ensures x in s <==> x in t {
      assert x in s <==> x in multiset(s);
      assert x in t <==> x in multiset(t);
    }
  }

  ghost predicate Distinct<T>(s: seq<T>) {
    forall i, j :: 0 <= i < j < |s| ==> s[i] != s[j]
  }

  lemma {:induction false} NextDistinct<T>(s: seq<T>, i: nat)
    requires Distinct(s) && i < |s|
    ensures s[i] !in s[..i] && s[..i + 1] == s[..i] + [s[i]]
  {
  }

  /** `ids` lists the elements of `s`, each once. */
  ghost predicate Enumerates<T>(ids: seq<T>, s: set<T>) {
    && (forall i :: 0 <= i < |ids| ==> ids[i] in s)
    && (forall x :: x in s ==> x in ids)
    && Distinct(ids)
  }

  lemma {:induction false} EnumerateMore<T>(ids: seq<T>, s: set<T>, x: T)
    requires Enumerates(ids, s) && x !in s
    ensures Enumerates(ids + [x], s + {x})
  {
  }

  /** The elements of a set in an arbitrary order, as when a map is ranged over. */
  method Listing<T(==)>(s: set<T>) returns (ids: seq<T>)
    ensures Enumerates(ids, s)
  {
    ids := [];
    var todo := s;
    while todo != {}
      invariant todo <= s && Enumerates(ids, s - todo)
    {
      var x :| x in todo;
      EnumerateMore(ids, s - todo, x);
      assert s - (todo - {x}) == (s - todo) + {x};
      ids := ids + [x];
      todo := todo - {x};
    }
    assert s - todo == s;
  }

  lemma {:induction false} EnumerationMultiset<T>(ids: seq<T>, s: set<T>)
    requires Enumerates(ids, s)
    ensures multiset(ids) == multiset(s)
  {
    if ids != [] {
      var front, last := ids[..|ids| - 1], ids[|ids| - 1];
      forall x | x in s - {last} ensures x in front {
        var i :| 0 <= i < |ids| && ids[i] == x;
        assert front[i] == x;
      }
      EnumerationMultiset(front, s - {last});
      assert ids == front + [last];
      assert s == (s - {last}) + {last};
    } else {
      assert forall x :: x in s ==> x in ids;
      assert s == {};
    }
  }

  lemma {:induction false} EnumerationSize<T>(ids: seq<T>, s: set<T>)
    requires Enumerates(ids, s)
    ensures |ids| == |s|
  {
    EnumerationMultiset(ids, s);
    assert |multiset(ids)| == |ids| && |multiset(s)| == |s|;
  }

  lemma {:induction false} DuplicateCount<T>(t: seq<T>, i: nat, j: nat)
    requires i < j < |t| && t[i] == t[j]
    ensures multiset(t)[t[i]] >= 2
  {
    assert t == t[..i] + [t[i]] + t[i + 1..j] + [t[j]] + t[j + 1..];
  }

  lemma {:induction false} MultisetEnumerates<T>(t: seq<T>, s: set<T>)
    requires multiset(t) == multiset(s)
    ensures Enumerates(t, s)
  {
    forall x ensures x in t <==> x in s {
      assert x in t <==> x in multiset(t);
    }
    forall i, j | 0 <= i < j < |t| ensures t[i] != t[j] {
      if t[i] == t[j] {
        DuplicateCount(t, i, j);
      }
    }
  }

  // ---------- Sizes of sets ----------

  lemma {:induction false} SmallerSet<T>(a: set<T>, b: set<T>)
    requires a <= b
    ensures |a| <= |b|
  {
    assert |b| == |a| + |b - a|;
  }

  /** Two subsets that are together larger than the whole have a common element. */
  lemma {:induction false} Overlap<T>(whole: set<T>, a: set<T>, b: set<T>) returns (x: T)
    requires a <= whole && b <= whole && |a| + |b| > |whole|
    ensures x in a && x in b
  {
    assert |a + b| + |a * b| == |a| + |b|;
    SmallerSet(a + b, whole);
    assert |a * b| > 0;
    x :| x in a * b;
  }
}
