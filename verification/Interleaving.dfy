/** Anti-entropy by many nodes at once. Every node runs passes of its own, so the reconciles of
    different nodes interleave, key by key, in any order. The clocks still converge: once one node
    has met every other twice, with anything in between, every clock is the join of the first ones. */
module Interleaving {
  import opened Clocks
  import opened Sorting
  import opened Versions
  import opened Payloads
  import opened Reconciliation
  import opened AntiEntropy

  /** Node `a` reconciles `key` with node `b`. */
  datatype Meeting = Meeting(a: NodeId, b: NodeId, key: Key, now: int)

  predicate Possible(cl: Cluster, m: Meeting) {
    m.a in cl && m.b in cl && m.a != m.b
  }

  function Exchanged(cl: Cluster, m: Meeting, l: Option<StoredValue>, r: Option<StoredValue>): Cluster
    requires Possible(cl, m)
  {
    cl[m.a := WithEntry(cl[m.a], m.key, l)][m.b := WithEntry(cl[m.b], m.key, r)]
  }

  function Meet(less: PayloadOrder, cl: Cluster, m: Meeting): Cluster {
    if !Possible(cl, m) then cl
    else
      var (l, r) := SyncKey(less, Entry(cl[m.a], m.key), Entry(cl[m.b], m.key), m.now);
      Exchanged(cl, m, l, r)
  }

  function After(less: PayloadOrder, cl: Cluster, ms: seq<Meeting>): Cluster {
    if ms == [] then cl else Meet(less, After(less, cl, ms[..|ms| - 1]), ms[|ms| - 1])
  }

  function ClockAt(cl: Cluster, n: NodeId, k: Key): Clock {
    if n in cl then EntryClock(Entry(cl[n], k)) else map[]
  }

  /** Every entry of the key is live and fits the wire. */
  ghost predicate SoundKey(cl: Cluster, k: Key) {
    forall n :: n in cl ==> Sound(Entry(cl[n], k))
  }

  ghost predicate AllUnder(cl: Cluster, k: Key, u: Clock) {
    forall n :: n in cl ==> Leq(ClockAt(cl, n, k), u)
  }

  /** What one meeting does to the clocks of a key: both sides get the join, the others stay. */
  ghost predicate ClocksMeet(cl: Cluster, dl: Cluster, a: NodeId, b: NodeId, k: Key) {
    && dl.Keys == cl.Keys
    && ClockAt(dl, a, k) == ClockAt(dl, b, k) == Join(ClockAt(cl, a, k), ClockAt(cl, b, k))
    && forall n :: n != a && n != b ==> ClockAt(dl, n, k) == ClockAt(cl, n, k)
  }

  lemma {:induction false} ExchangedEntries(cl: Cluster, m: Meeting, l: Option<StoredValue>, r: Option<StoredValue>,
                                            n: NodeId, k: Key)
    requires Possible(cl, m) && n in cl
    ensures Exchanged(cl, m, l, r).Keys == cl.Keys
    ensures Entry(Exchanged(cl, m, l, r)[n], k) ==
            if m.key != k then Entry(cl[n], k) else if n == m.a then l else if n == m.b then r else Entry(cl[n], k)
  {
  }

  lemma {:induction false} ExchangeElsewhere(cl: Cluster, m: Meeting, l: Option<StoredValue>, r: Option<StoredValue>,
                                             k: Key)
    requires Possible(cl, m) && SoundKey(cl, k) && m.key != k
    ensures var dl := Exchanged(cl, m, l, r);
            SoundKey(dl, k) && dl.Keys == cl.Keys && forall n :: ClockAt(dl, n, k) == ClockAt(cl, n, k)
  {
    var dl := Exchanged(cl, m, l, r);
    forall n | n in cl ensures Entry(dl[n], k) == Entry(cl[n], k) {
      ExchangedEntries(cl, m, l, r, n, k);
    }
  }

  lemma {:induction false} ExchangeJoins(cl: Cluster, m: Meeting, l: Option<StoredValue>, r: Option<StoredValue>)
    requires Possible(cl, m) && SoundKey(cl, m.key) && Sound(l) && Sound(r)
    requires EntryClock(l) == EntryClock(r) == Join(ClockAt(cl, m.a, m.key), ClockAt(cl, m.b, m.key))
    ensures var dl := Exchanged(cl, m, l, r);
            SoundKey(dl, m.key) && ClocksMeet(cl, dl, m.a, m.b, m.key)
  {
    var dl := Exchanged(cl, m, l, r);
    forall n | n in cl
      ensures Entry(dl[n], m.key) == if n == m.a then l else if n == m.b then r else Entry(cl[n], m.key) {
      ExchangedEntries(cl, m, l, r, n, m.key);
    }
  }

  lemma {:induction false} MeetingJoins(less: PayloadOrder, cl: Cluster, m: Meeting, k: Key)
    requires StrictTotal(less) && SoundKey(cl, k)
    ensures var dl := Meet(less, cl, m);
            && SoundKey(dl, k) && dl.Keys == cl.Keys
            && (Possible(cl, m) && m.key == k ==> ClocksMeet(cl, dl, m.a, m.b, k))
            && (!Possible(cl, m) || m.key != k ==> forall n :: ClockAt(dl, n, k) == ClockAt(cl, n, k))
  {
    if Possible(cl, m) {
      var l, r := Entry(cl[m.a], m.key), Entry(cl[m.b], m.key);
      var met := SyncKey(less, l, r, m.now);
      if m.key == k {
        SyncKeySound(less, l, r, m.now);
        ExchangeJoins(cl, m, met.0, met.1);
      } else {
        ExchangeElsewhere(cl, m, met.0, met.1, k);
      }
    }
  }

  /** A meeting lowers no clock and takes none above a common bound. */
  lemma {:induction false} MeetingBounds(less: PayloadOrder, cl: Cluster, m: Meeting, k: Key, u: Clock)
    requires StrictTotal(less) && SoundKey(cl, k)
    ensures var dl := Meet(less, cl, m);
            && SoundKey(dl, k) && dl.Keys == cl.Keys
            && (forall n :: Leq(ClockAt(cl, n, k), ClockAt(dl, n, k)))
            && (AllUnder(cl, k, u) ==> AllUnder(dl, k, u))
  {
    MeetingJoins(less, cl, m, k);
    JoinLeast(ClockAt(cl, m.a, k), ClockAt(cl, m.b, k), u);
  }

  lemma {:induction false} RunBounds(less: PayloadOrder, cl: Cluster, ms: seq<Meeting>, k: Key, u: Clock)
    requires StrictTotal(less) && SoundKey(cl, k)
    ensures var dl := After(less, cl, ms);
            && SoundKey(dl, k) && dl.Keys == cl.Keys
            && (forall n :: Leq(ClockAt(cl, n, k), ClockAt(dl, n, k)))
            && (AllUnder(cl, k, u) ==> AllUnder(dl, k, u))
    decreases |ms|
  {
    if ms != [] {
      RunBounds(less, cl, ms[..|ms| - 1], k, u);
      MeetingBounds(less, After(less, cl, ms[..|ms| - 1]), ms[|ms| - 1], k, u);
    }
  }

  lemma {:induction false} AfterAppend(less: PayloadOrder, cl: Cluster, xs: seq<Meeting>, ys: seq<Meeting>)
    ensures After(less, cl, xs + ys) == After(less, After(less, cl, xs), ys)
    decreases |ys|
  {
    if ys == [] {
      assert xs + ys == xs;
    } else {
      assert (xs + ys)[..|xs + ys| - 1] == xs + ys[..|ys| - 1];
      AfterAppend(less, cl, xs, ys[..|ys| - 1]);
    }
  }

  /** `c` reconciles the key with `n` at some point of the run. */
  ghost predicate Meets(ms: seq<Meeting>, c: NodeId, n: NodeId, k: Key) {
    exists i :: 0 <= i < |ms| && ms[i].a == c && ms[i].b == n && ms[i].key == k
  }

  ghost predicate MeetsAll(ms: seq<Meeting>, c: NodeId, s: set<NodeId>, k: Key) {
    forall n :: n in s && n != c ==> Meets(ms, c, n, k)
  }

  /** Two nodes that met each cover what the other had before. */
  lemma {:induction false} MetCovers(less: PayloadOrder, cl: Cluster, ms: seq<Meeting>, c: NodeId, n: NodeId, k: Key)
    requires StrictTotal(less) && SoundKey(cl, k) && c in cl && n in cl && c != n && Meets(ms, c, n, k)
    ensures var dl := After(less, cl, ms);
            Leq(ClockAt(cl, n, k), ClockAt(dl, c, k)) && Leq(ClockAt(cl, c, k), ClockAt(dl, n, k))
  {
    var i :| 0 <= i < |ms| && ms[i].a == c && ms[i].b == n && ms[i].key == k;
    AfterSplit(less, cl, ms, i);
    MetAt(less, cl, ms[..i], ms[i], ms[i + 1..], k);
  }

  lemma {:induction false} AfterSplit(less: PayloadOrder, cl: Cluster, ms: seq<Meeting>, i: nat)
    requires i < |ms|
    ensures After(less, cl, ms) == After(less, Meet(less, After(less, cl, ms[..i]), ms[i]), ms[i + 1..])
  {
    assert ms[..i + 1][..i] == ms[..i];
    AfterAppend(less, cl, ms[..i + 1], ms[i + 1..]);
    assert ms == ms[..i + 1] + ms[i + 1..];
  }

  lemma {:induction false} MetAt(less: PayloadOrder, cl: Cluster, xs: seq<Meeting>, m: Meeting, ys: seq<Meeting>,
                                 k: Key)
    requires StrictTotal(less) && SoundKey(cl, k) && Possible(cl, m) && m.key == k
    ensures var dl := After(less, Meet(less, After(less, cl, xs), m), ys);
            Leq(ClockAt(cl, m.b, k), ClockAt(dl, m.a, k)) && Leq(ClockAt(cl, m.a, k), ClockAt(dl, m.b, k))
  {
    var before := After(less, cl, xs);
    var met := Meet(less, before, m);
    RunBounds(less, cl, xs, k, map[]);
    MeetingJoins(less, before, m, k);
    RunBounds(less, met, ys, k, map[]);
    JoinLeast(ClockAt(before, m.a, k), ClockAt(before, m.b, k), ClockAt(met, m.a, k));
    var dl := After(less, met, ys);
    Rises(ClockAt(cl, m.b, k), ClockAt(before, m.b, k), ClockAt(met, m.a, k), ClockAt(dl, m.a, k));
    Rises(ClockAt(cl, m.a, k), ClockAt(before, m.a, k), ClockAt(met, m.b, k), ClockAt(dl, m.b, k));
  }

  lemma {:induction false} Rises(a: Clock, b: Clock, c: Clock, d: Clock)
    requires Leq(a, b) && Leq(b, c) && Leq(c, d)
    ensures Leq(a, d)
  {
  }

  /** After meeting everyone once, with anything in between, a node's clock is the join of all the
      clocks at the start. */
  lemma {:induction false} OnceAround(less: PayloadOrder, cl: Cluster, ms: seq<Meeting>, c: NodeId, k: Key, u: Clock)
    requires StrictTotal(less) && SoundKey(cl, k) && c in cl && MeetsAll(ms, c, cl.Keys, k)
    ensures Leq(ClockAt(After(less, cl, ms), c, k), u) <==> AllUnder(cl, k, u)
  {
    RunBounds(less, cl, ms, k, u);
    forall n | n in cl && Leq(ClockAt(After(less, cl, ms), c, k), u) ensures Leq(ClockAt(cl, n, k), u) {
      if n != c {
        MetCovers(less, cl, ms, c, n, k);
      }
    }
  }

  /** After it met everyone twice, every node's clock is that join, whatever reconciles the other
      nodes ran meanwhile; and it stays so under any further reconciles. */
  lemma {:induction false} ClocksConverge(less: PayloadOrder, cl: Cluster, first: seq<Meeting>, second: seq<Meeting>,
                                          c: NodeId, n: NodeId, k: Key, u: Clock)
    requires StrictTotal(less) && SoundKey(cl, k) && c in cl && n in cl
    requires MeetsAll(first, c, cl.Keys, k) && MeetsAll(second, c, cl.Keys, k)
    ensures Leq(ClockAt(After(less, cl, first + second), n, k), u) <==> AllUnder(cl, k, u)
  {
    AfterAppend(less, cl, first, second);
    RunBounds(less, cl, first + second, k, u);
    RunBounds(less, cl, first, k, u);
    OnceAround(less, cl, first, c, k, u);
    var mid := After(less, cl, first);
    StaysAbove(less, mid, second, c, n, k);
  }

  /** In the second round everyone comes to cover what the node had after the first. */
  lemma {:induction false} StaysAbove(less: PayloadOrder, mid: Cluster, second: seq<Meeting>, c: NodeId, n: NodeId,
                                      k: Key)
    requires StrictTotal(less) && SoundKey(mid, k) && c in mid && n in mid && MeetsAll(second, c, mid.Keys, k)
    ensures Leq(ClockAt(mid, c, k), ClockAt(After(less, mid, second), n, k))
  {
    if n != c {
      MetCovers(less, mid, second, c, n, k);
    } else {
      RunBounds(less, mid, second, k, map[]);
    }
  }
}
