/** What interleaved anti-entropy does to payloads once the clocks agree. Equal clocks compare as
    "older", so a meeting then overwrites the peer with the node's own version: payloads spread, they
    do not merge. Whether all nodes end with one payload is a matter of the schedule alone. */
module Schedules {
  import opened Clocks
  import opened Sorting
  import opened Versions
  import opened Payloads
  import opened Merging
  import opened Writes
  import opened Wire
  import opened Reconciliation
  import opened AntiEntropy
  import opened Interleaving

  ghost predicate Even(e: Option<StoredValue>, c: Clock) {
    e.Some? && Sound(e) && e.value.clock == Some(c)
  }

  /** Every node holds the key under the clock `c`. */
  ghost predicate EqualClocks(cl: Cluster, k: Key, c: Clock) {
    forall n :: n in cl ==> Even(Entry(cl[n], k), c)
  }

  ghost predicate OnePayload(less: PayloadOrder, cl: Cluster, k: Key) {
    forall n, m :: n in cl && m in cl ==> PayloadAt(less, cl, n, k) == PayloadAt(less, cl, m, k)
  }

  function PayloadAt(less: PayloadOrder, cl: Cluster, n: NodeId, k: Key): Option<Payload> {
    if n in cl then EntryPayload(less, Entry(cl[n], k)) else None
  }

  // ---------- Following a payload back ----------

  /** The meeting overwrites node `n`, on key `k`, in a cluster of the nodes `s`. */
  predicate Overwrites(s: set<NodeId>, m: Meeting, k: Key, n: NodeId) {
    m.key == k && m.a in s && m.b in s && m.a != m.b && n == m.b
  }

  /** The node whose payload `n` ends with: follow n back through the meetings that overwrote it. */
  function Origin(s: set<NodeId>, ms: seq<Meeting>, k: Key, n: NodeId): NodeId
    decreases |ms|
  {
    if ms == [] then n
    else
      var front, m := ms[..|ms| - 1], ms[|ms| - 1];
      Origin(s, front, k, if Overwrites(s, m, k, n) then m.a else n)
  }

  ghost predicate OneOrigin(s: set<NodeId>, ms: seq<Meeting>, k: Key) {
    forall n, m :: n in s && m in s ==> Origin(s, ms, k, n) == Origin(s, ms, k, m)
  }

  lemma {:induction false} EvenSync(less: PayloadOrder, l: Option<StoredValue>, r: Option<StoredValue>, c: Clock,
                                    now: int)
    requires Even(l, c) && Even(r, c)
    ensures var (l', r') := SyncKey(less, l, r, now);
            && l' == l && Even(r', c) && EntryPayload(less, r') == EntryPayload(less, l)
            && (EntryPayload(less, l) != EntryPayload(less, r) ==> r' == Some(Sent(l.value, now)))
  {
    if EntryPayload(less, l) != EntryPayload(less, r) {
      SentSame(less, l.value, now);
      EvenReconcile(less, l.value, r.value, now);
    }
  }

  lemma {:induction false} EvenReconcile(less: PayloadOrder, l: StoredValue, r: StoredValue, now: int)
    requires l.clock.Some? && l.clock == r.clock && l.value != Nil && r.value != Nil && Fits(l) && Fits(r)
    ensures Reconcile(less, Some(l), Some(r), true, true, now) == (Some(l), Some(Sent(l, now)))
  {
    SentSame(less, r, now);
    var f := Sent(r, now);
    ReconcileVisible(less, l, r, true, now, f, Merge(less, l, f));
  }

  lemma {:induction false} EvenMeeting(less: PayloadOrder, cl: Cluster, m: Meeting, k: Key, c: Clock)
    requires EqualClocks(cl, k, c)
    ensures var dl := Meet(less, cl, m);
            && dl.Keys == cl.Keys && EqualClocks(dl, k, c)
            && forall n :: n in cl ==>
                 PayloadAt(less, dl, n, k) == PayloadAt(less, cl, if Overwrites(cl.Keys, m, k, n) then m.a else n, k)
  {
    forall n | n in cl
      ensures Even(Entry(Meet(less, cl, m)[n], k), c)
      ensures PayloadAt(less, Meet(less, cl, m), n, k) ==
              PayloadAt(less, cl, if Overwrites(cl.Keys, m, k, n) then m.a else n, k)
    {
      EvenMeetingAt(less, cl, m, k, c, n);
    }
  }

  lemma {:induction false} EvenMeetingAt(less: PayloadOrder, cl: Cluster, m: Meeting, k: Key, c: Clock, n: NodeId)
    requires EqualClocks(cl, k, c) && n in cl
    ensures Even(Entry(Meet(less, cl, m)[n], k), c)
    ensures PayloadAt(less, Meet(less, cl, m), n, k) ==
            PayloadAt(less, cl, if Overwrites(cl.Keys, m, k, n) then m.a else n, k)
  {
    if Possible(cl, m) {
      var l, r := Entry(cl[m.a], m.key), Entry(cl[m.b], m.key);
      var met := SyncKey(less, l, r, m.now);
      if m.key == k {
        EvenSync(less, l, r, c, m.now);
      }
      ExchangedEntries(cl, m, met.0, met.1, n, k);
    }
  }

  lemma {:induction false} EvenRun(less: PayloadOrder, cl: Cluster, ms: seq<Meeting>, k: Key, c: Clock)
    requires EqualClocks(cl, k, c)
    ensures After(less, cl, ms).Keys == cl.Keys && EqualClocks(After(less, cl, ms), k, c)
    decreases |ms|
  {
    if ms != [] {
      EvenRun(less, cl, ms[..|ms| - 1], k, c);
      EvenMeeting(less, After(less, cl, ms[..|ms| - 1]), ms[|ms| - 1], k, c);
    }
  }

  lemma {:induction false} OriginListed(s: set<NodeId>, ms: seq<Meeting>, k: Key, n: NodeId)
    requires n in s
    ensures Origin(s, ms, k, n) in s
    decreases |ms|
  {
    if ms != [] {
      var m := ms[|ms| - 1];
      OriginListed(s, ms[..|ms| - 1], k, if Overwrites(s, m, k, n) then m.a else n);
    }
  }

  /** Under equal clocks, every node ends with the payload its origin started with. */
  lemma {:induction false} OriginPayload(less: PayloadOrder, cl: Cluster, ms: seq<Meeting>, k: Key, c: Clock, n: NodeId)
    requires EqualClocks(cl, k, c) && n in cl
    ensures PayloadAt(less, After(less, cl, ms), n, k) == PayloadAt(less, cl, Origin(cl.Keys, ms, k, n), k)
    decreases |ms|
  {
    if ms != [] {
      var front, m := ms[..|ms| - 1], ms[|ms| - 1];
      var x := if Overwrites(cl.Keys, m, k, n) then m.a else n;
      EvenRun(less, cl, front, k, c);
      EvenMeetingAt(less, After(less, cl, front), m, k, c, n);
      OriginPayload(less, cl, front, k, c, x);
    }
  }

  lemma {:induction false} SameOrigins(less: PayloadOrder, cl: Cluster, ms: seq<Meeting>, k: Key, c: Clock)
    requires EqualClocks(cl, k, c) && OneOrigin(cl.Keys, ms, k)
    ensures OnePayload(less, After(less, cl, ms), k)
  {
    EvenRun(less, cl, ms, k, c);
    forall n, m | n in cl && m in cl
      ensures PayloadAt(less, After(less, cl, ms), n, k) == PayloadAt(less, After(less, cl, ms), m, k)
    {
      OriginPayload(less, cl, ms, k, c, n);
      OriginPayload(less, cl, ms, k, c, m);
    }
  }

  // ---------- Which schedules agree ----------

  /** Every node holds a version of its own, under the same clock. */
  function Labelled(s: set<NodeId>, k: Key): Cluster {
    map n | n in s :: map[k := StoredValue(Json(n), Some(map["a" := 1]), [], 1)]
  }

  lemma {:induction false} LabelledEven(less: PayloadOrder, s: set<NodeId>, k: Key)
    ensures EqualClocks(Labelled(s, k), k, map["a" := 1]) && Labelled(s, k).Keys == s
    ensures forall n, m :: n in s && m in s && n != m ==>
            PayloadAt(less, Labelled(s, k), n, k) != PayloadAt(less, Labelled(s, k), m, k)
  {
    var cl := Labelled(s, k);
    forall n | n in s
      ensures Even(Entry(cl[n], k), map["a" := 1])
      ensures PayloadAt(less, cl, n, k).Some? && PayloadAt(less, cl, n, k).value.value == Json(n)
    {
      var v := StoredValue(Json(n), Some(map["a" := 1]), [], 1);
      assert cl[n] == map[k := v] && Entry(cl[n], k) == Some(v);
      assert ClockOf(v) == map["a" := 1] && ClockFits(ClockOf(v)) && EachFits(v.conflicts) && Fits(v);
      assert Sound(Some(v));
    }
    forall n, m | n in s && m in s && n != m ensures PayloadAt(less, cl, n, k) != PayloadAt(less, cl, m, k) {
      assert PayloadAt(less, cl, n, k).value.value == Json(n);
    }
  }

  /** A schedule brings every cluster with equal clocks to one payload exactly when all nodes have the
      same origin in it. */
  lemma {:induction false} PayloadsAgreeExactly(less: PayloadOrder, s: set<NodeId>, ms: seq<Meeting>, k: Key)
    ensures (forall cl: Cluster, c: Clock :: cl.Keys == s && EqualClocks(cl, k, c) ==>
             OnePayload(less, After(less, cl, ms), k)) <==>
            OneOrigin(s, ms, k)
  {
    if OneOrigin(s, ms, k) {
      forall cl: Cluster, c: Clock | cl.Keys == s && EqualClocks(cl, k, c)
        ensures OnePayload(less, After(less, cl, ms), k) {
        SameOrigins(less, cl, ms, k, c);
      }
    } else {
      var cl := Labelled(s, k);
      var n, m :| n in s && m in s && Origin(s, ms, k, n) != Origin(s, ms, k, m);
      LabelledEven(less, s, k);
      EvenRun(less, cl, ms, k, map["a" := 1]);
      OriginPayload(less, cl, ms, k, map["a" := 1], n);
      OriginPayload(less, cl, ms, k, map["a" := 1], m);
      OriginListed(s, ms, k, n);
      OriginListed(s, ms, k, m);
      assert PayloadAt(less, After(less, cl, ms), n, k) != PayloadAt(less, After(less, cl, ms), m, k);
    }
  }

  lemma {:induction false} OriginAppend(s: set<NodeId>, xs: seq<Meeting>, ys: seq<Meeting>, k: Key, n: NodeId)
    ensures Origin(s, xs + ys, k, n) == Origin(s, xs, k, Origin(s, ys, k, n))
    decreases |ys|
  {
    if ys == [] {
      assert xs + ys == xs;
    } else {
      var m := ys[|ys| - 1];
      assert (xs + ys)[..|xs + ys| - 1] == xs + ys[..|ys| - 1];
      OriginAppend(s, xs, ys[..|ys| - 1], k, if Overwrites(s, m, k, n) then m.a else n);
    }
  }

  /** A pass by `c` over all nodes in which nobody else reconciles the key. */
  ghost predicate Undisturbed(ms: seq<Meeting>, c: NodeId, s: set<NodeId>, k: Key) {
    MeetsAll(ms, c, s, k) && forall i :: 0 <= i < |ms| && ms[i].key == k ==> ms[i].a == c
  }

  lemma {:induction false} PassOrigin(s: set<NodeId>, ms: seq<Meeting>, c: NodeId, k: Key, n: NodeId)
    requires c in s && n in s && (n != c ==> Meets(ms, c, n, k))
    requires forall i :: 0 <= i < |ms| && ms[i].key == k ==> ms[i].a == c
    ensures Origin(s, ms, k, n) == c
    decreases |ms|
  {
    if ms != [] {
      var front, m := ms[..|ms| - 1], ms[|ms| - 1];
      if Overwrites(s, m, k, n) {
        PassOrigin(s, front, c, k, c);
      } else {
        if n != c {
          var i :| 0 <= i < |ms| && ms[i].a == c && ms[i].b == n && ms[i].key == k;
          assert i < |front| && front[i] == ms[i];
        }
        PassOrigin(s, front, c, k, n);
      }
    }
  }

  /** After an undisturbed pass all nodes have the same origin, whatever went before. */
  lemma {:induction false} UndisturbedOneOrigin(s: set<NodeId>, first: seq<Meeting>, pass: seq<Meeting>, c: NodeId,
                                                k: Key)
    requires c in s && Undisturbed(pass, c, s, k)
    ensures OneOrigin(s, first + pass, k)
  {
    forall n | n in s ensures Origin(s, first + pass, k, n) == Origin(s, first, k, c) {
      OriginAppend(s, first, pass, k, n);
      PassOrigin(s, pass, c, k, n);
    }
  }

  // ---------- From any clocks to one payload ----------

  lemma {:induction false} ConvergedEven(less: PayloadOrder, cl: Cluster, first: seq<Meeting>, second: seq<Meeting>,
                                         c: NodeId, k: Key, holder: NodeId)
    requires StrictTotal(less) && SoundKey(cl, k) && c in cl
    requires MeetsAll(first, c, cl.Keys, k) && MeetsAll(second, c, cl.Keys, k)
    requires holder in cl && ClockAt(cl, holder, k) != map[]
    ensures var dl := After(less, cl, first + second);
            dl.Keys == cl.Keys && SoundKey(dl, k) && EqualClocks(dl, k, ClockAt(dl, c, k))
  {
    var dl := After(less, cl, first + second);
    RunBounds(less, cl, first + second, k, map[]);
    forall n | n in cl ensures ClockAt(dl, n, k) == ClockAt(dl, c, k) && ClockAt(dl, n, k) != map[] {
      ClocksConverge(less, cl, first, second, c, n, k, ClockAt(dl, c, k));
      ClocksConverge(less, cl, first, second, c, n, k, ClockAt(dl, n, k));
      ClocksConverge(less, cl, first, second, c, c, k, ClockAt(dl, n, k));
      ClocksConverge(less, cl, first, second, c, c, k, ClockAt(dl, c, k));
      LeqAntisymmetric(ClockAt(dl, n, k), ClockAt(dl, c, k));
      var x :| x in ClockAt(cl, holder, k);
      assert Leq(ClockAt(cl, holder, k), ClockAt(dl, n, k));
    }
  }

  /** However many nodes reconcile at once: after one node met everyone twice, and then some node had
      one pass to itself, all nodes hold one payload, under the join of all the first clocks. */
  lemma {:induction false} PayloadsConverge(less: PayloadOrder, cl: Cluster, first: seq<Meeting>, second: seq<Meeting>,
                                            pass: seq<Meeting>, c: NodeId, d: NodeId, k: Key, holder: NodeId,
                                            n: NodeId, u: Clock)
    requires StrictTotal(less) && SoundKey(cl, k) && c in cl && d in cl
    requires MeetsAll(first, c, cl.Keys, k) && MeetsAll(second, c, cl.Keys, k) && Undisturbed(pass, d, cl.Keys, k)
    requires holder in cl && ClockAt(cl, holder, k) != map[] && n in cl
    ensures OnePayload(less, After(less, cl, first + second + pass), k)
    ensures Leq(ClockAt(After(less, cl, first + second + pass), n, k), u) <==> AllUnder(cl, k, u)
  {
    var dl := After(less, cl, first + second);
    ConvergedEven(less, cl, first, second, c, k, holder);
    AfterAppend(less, cl, first + second, pass);
    EvenPass(less, dl, pass, d, k, ClockAt(dl, c, k), n);
    ClocksConverge(less, cl, first, second, c, c, k, u);
  }

  lemma {:induction false} EvenPass(less: PayloadOrder, dl: Cluster, pass: seq<Meeting>, d: NodeId, k: Key, v: Clock,
                                    n: NodeId)
    requires EqualClocks(dl, k, v) && d in dl && n in dl && Undisturbed(pass, d, dl.Keys, k)
    ensures OnePayload(less, After(less, dl, pass), k) && ClockAt(After(less, dl, pass), n, k) == v
  {
    UndisturbedOneOrigin(dl.Keys, [], pass, d, k);
    assert [] + pass == pass;
    SameOrigins(less, dl, pass, k, v);
    EvenRun(less, dl, pass, k, v);
    assert Even(Entry(After(less, dl, pass)[n], k), v);
  }

  // ---------- A schedule that never agrees ----------

  /** One pass by each of three nodes. */
  function Rounds(p: NodeId, q: NodeId, r: NodeId, k: Key, now: int): seq<Meeting> {
    [Meeting(r, q, k, now), Meeting(p, r, k, now), Meeting(q, r, k, now),
     Meeting(p, q, k, now), Meeting(r, p, k, now), Meeting(q, p, k, now)]
  }

  /** The key is held by these three nodes and nobody else, and they hold nothing else. */
  ghost predicate Holding(cl: Cluster, p: NodeId, v: StoredValue, q: NodeId, w: StoredValue, r: NodeId, x: StoredValue,
                          k: Key) {
    && p in cl && q in cl && r in cl && (forall n :: n in cl ==> n == p || n == q || n == r)
    && cl[p] == map[k := v] && cl[q] == map[k := w] && cl[r] == map[k := x]
  }

  /** Two versions that no meeting merges: same clock, different payload, unchanged by the wire. */
  ghost predicate Stubborn(less: PayloadOrder, v: StoredValue, w: StoredValue, c: Clock, now: int) {
    && Even(Some(v), c) && Even(Some(w), c) && PayloadOf(less, v) != PayloadOf(less, w)
    && Sent(v, now) == v && Sent(w, now) == w
  }

  lemma {:induction false} StubbornMeeting(less: PayloadOrder, cl: Cluster, a: NodeId, b: NodeId, v: StoredValue,
                                           w: StoredValue, k: Key, c: Clock, now: int)
    requires a in cl && b in cl && a != b && cl[a] == map[k := v] && cl[b] == map[k := w] &&
             Stubborn(less, v, w, c, now)
    ensures Meet(less, cl, Meeting(a, b, k, now)) == cl[b := map[k := v]]
  {
    EvenSync(less, Some(v), Some(w), c, now);
    assert SyncKey(less, Some(v), Some(w), now) == (Some(v), Some(v));
    SameExchange(cl, Meeting(a, b, k, now), v);
  }

  lemma {:induction false} SameExchange(cl: Cluster, m: Meeting, v: StoredValue)
    requires Possible(cl, m) && cl[m.a] == map[m.key := v] && cl[m.b].Keys == {m.key}
    ensures Exchanged(cl, m, Some(v), Some(v)) == cl[m.b := map[m.key := v]]
  {
    assert WithEntry(cl[m.a], m.key, Some(v)) == cl[m.a] && WithEntry(cl[m.b], m.key, Some(v)) == map[m.key := v];
    assert cl[m.a := cl[m.a]] == cl;
  }

  lemma {:induction false} AfterOne(less: PayloadOrder, cl: Cluster, ms: seq<Meeting>, m: Meeting)
    ensures After(less, cl, ms + [m]) == Meet(less, After(less, cl, ms), m)
  {
    assert (ms + [m])[..|ms|] == ms;
  }

  /** One pass by each node, with the meetings interleaved, leads back to the very same stores. */
  lemma {:induction false} RoundsReturn(less: PayloadOrder, cl: Cluster, p: NodeId, q: NodeId, r: NodeId,
                                        v: StoredValue, w: StoredValue, k: Key, c: Clock, now: int)
    requires p != q && q != r && p != r && Stubborn(less, v, w, c, now) && Holding(cl, p, v, q, v, r, w, k)
    ensures After(less, cl, Rounds(p, q, r, k, now)) == cl
  {
    StubbornSwap(less, v, w, c, now);
    var mid := FirstHalf(less, cl, p, q, r, v, w, k, c, now);
    var back := SecondHalf(less, mid, p, q, r, v, w, k, c, now);
    RoundsAfter(less, cl, p, q, r, k, now);
    SameHolding(back, cl, p, v, q, v, r, w, k);
  }

  lemma {:induction false} FirstHalf(less: PayloadOrder, cl: Cluster, p: NodeId, q: NodeId, r: NodeId, v: StoredValue,
                                     w: StoredValue, k: Key, c: Clock, now: int) returns (mid: Cluster)
    requires p != q && q != r && p != r && Stubborn(less, v, w, c, now) && Stubborn(less, w, v, c, now)
    requires Holding(cl, p, v, q, v, r, w, k)
    ensures Holding(mid, p, v, q, w, r, w, k)
    ensures mid == ThreeMeetings(less, cl, Meeting(r, q, k, now), Meeting(p, r, k, now), Meeting(q, r, k, now))
  {
    var c1 := HeldMeeting(less, cl, r, w, q, v, p, v, k, c, now);
    var c2 := HeldMeeting(less, c1, p, v, r, w, q, w, k, c, now);
    mid := HeldMeeting(less, c2, q, w, r, v, p, v, k, c, now);
  }

  lemma {:induction false} SecondHalf(less: PayloadOrder, mid: Cluster, p: NodeId, q: NodeId, r: NodeId, v: StoredValue,
                                      w: StoredValue, k: Key, c: Clock, now: int) returns (back: Cluster)
    requires p != q && q != r && p != r && Stubborn(less, v, w, c, now) && Stubborn(less, w, v, c, now)
    requires Holding(mid, p, v, q, w, r, w, k)
    ensures Holding(back, p, v, q, v, r, w, k)
    ensures back == ThreeMeetings(less, mid, Meeting(p, q, k, now), Meeting(r, p, k, now), Meeting(q, p, k, now))
  {
    var c4 := HeldMeeting(less, mid, p, v, q, w, r, w, k, c, now);
    var c5 := HeldMeeting(less, c4, r, w, p, v, q, v, k, c, now);
    back := HeldMeeting(less, c5, q, v, p, w, r, w, k, c, now);
  }

  lemma {:induction false} StubbornSwap(less: PayloadOrder, v: StoredValue, w: StoredValue, c: Clock, now: int)
    requires Stubborn(less, v, w, c, now)
    ensures Stubborn(less, w, v, c, now)
  {
  }

  /** Node `a` meets `b`; `o` looks on. */
  lemma {:induction false} HeldMeeting(less: PayloadOrder, cl: Cluster, a: NodeId, v: StoredValue, b: NodeId,
                                       w: StoredValue, o: NodeId, x: StoredValue, k: Key, c: Clock, now: int)
    returns (dl: Cluster)
    requires a != b && b != o && a != o && Holding(cl, a, v, b, w, o, x, k)
    requires Stubborn(less, v, w, c, now)
    ensures dl == Meet(less, cl, Meeting(a, b, k, now)) && Holding(dl, a, v, b, v, o, x, k)
  {
    StubbornMeeting(less, cl, a, b, v, w, k, c, now);
    dl := Meet(less, cl, Meeting(a, b, k, now));
  }

  lemma {:induction false} SameHolding(a: Cluster, b: Cluster, p: NodeId, v: StoredValue, q: NodeId, w: StoredValue,
                                       r: NodeId, x: StoredValue, k: Key)
    requires Holding(a, p, v, q, w, r, x, k) && Holding(b, p, v, q, w, r, x, k)
    ensures a == b
  {
  }

  function ThreeMeetings(less: PayloadOrder, cl: Cluster, a: Meeting, b: Meeting, c: Meeting): Cluster {
    Meet(less, Meet(less, Meet(less, cl, a), b), c)
  }

  lemma {:induction false} RoundsAfter(less: PayloadOrder, cl: Cluster, p: NodeId, q: NodeId, r: NodeId, k: Key,
                                       now: int)
    ensures After(less, cl, Rounds(p, q, r, k, now)) ==
            ThreeMeetings(less,
                          ThreeMeetings(less, cl, Meeting(r, q, k, now), Meeting(p, r, k, now), Meeting(q, r, k, now)),
                          Meeting(p, q, k, now), Meeting(r, p, k, now), Meeting(q, p, k, now))
  {
    var ms := Rounds(p, q, r, k, now);
    AfterThree(less, cl, ms, 0);
    AfterThree(less, cl, ms, 3);
    assert ms[..0] == [] && ms[..6] == ms;
  }

  lemma {:induction false} AfterThree(less: PayloadOrder, cl: Cluster, ms: seq<Meeting>, i: nat)
    requires i + 3 <= |ms|
    ensures After(less, cl, ms[..i + 3]) == ThreeMeetings(less, After(less, cl, ms[..i]), ms[i], ms[i + 1], ms[i + 2])
  {
    AfterOne(less, cl, ms[..i], ms[i]);
    AfterOne(less, cl, ms[..i + 1], ms[i + 1]);
    AfterOne(less, cl, ms[..i + 2], ms[i + 2]);
    assert ms[..i + 1] == ms[..i] + [ms[i]] && ms[..i + 2] == ms[..i + 1] + [ms[i + 1]];
    assert ms[..i + 3] == ms[..i + 2] + [ms[i + 2]];
  }

  function Repeated(ms: seq<Meeting>, times: nat): seq<Meeting> {
    if times == 0 then [] else Repeated(ms, times - 1) + ms
  }

  lemma {:induction false} RoundsComplete(p: NodeId, q: NodeId, r: NodeId, k: Key, now: int)
    ensures forall n :: n in {p, q, r} ==> MeetsAll(Rounds(p, q, r, k, now), n, {p, q, r}, k)
  {
    var ms := Rounds(p, q, r, k, now);
    assert ms[0] == Meeting(r, q, k, now) && ms[1] == Meeting(p, r, k, now) && ms[2] == Meeting(q, r, k, now);
    assert ms[3] == Meeting(p, q, k, now) && ms[4] == Meeting(r, p, k, now) && ms[5] == Meeting(q, p, k, now);
  }

  /** Three nodes that never agree. Two of them took in the concurrent writes x and y in this order, the
      third in the other order; so their clocks are equal. Each round is a complete pass by every node, and
      after any number of rounds the payloads still differ. */
  lemma {:induction false} RoundsNeverAgree(less: PayloadOrder, cl: Cluster, p: NodeId, q: NodeId, r: NodeId, x: Write,
                                            y: Write, k: Key, now: int, times: nat)
    requires p != q && q != r && p != r && now != 0 && x.value != y.value && Plain(x) && Plain(y)
    requires Causal(Some(x.clock), Some(y.clock)) == Concurrent
    requires Holding(cl, p, PutAll([x, y]).value, q, PutAll([x, y]).value, r, PutAll([y, x]).value, k)
    ensures EqualClocks(cl, k, Join(x.clock, y.clock)) && !OnePayload(less, cl, k)
    ensures After(less, cl, Repeated(Rounds(p, q, r, k, now), times)) == cl
    ensures forall n :: n in {p, q, r} ==> MeetsAll(Rounds(p, q, r, k, now), n, {p, q, r}, k)
  {
    var v, w := PutAll([x, y]).value, PutAll([y, x]).value;
    RoundsComplete(p, q, r, k, now);
    OrdersStubborn(less, x, y, now);
    HoldingEven(less, cl, p, q, r, v, w, k, Join(x.clock, y.clock), now);
    RoundsReturn(less, cl, p, q, r, v, w, k, Join(x.clock, y.clock), now);
    RepeatReturns(less, cl, Rounds(p, q, r, k, now), times);
  }

  lemma {:induction false} HoldingEven(less: PayloadOrder, cl: Cluster, p: NodeId, q: NodeId, r: NodeId, v: StoredValue,
                                       w: StoredValue, k: Key, c: Clock, now: int)
    requires p != q && q != r && p != r && Stubborn(less, v, w, c, now) && Holding(cl, p, v, q, v, r, w, k)
    ensures EqualClocks(cl, k, c) && !OnePayload(less, cl, k)
  {
    assert Entry(cl[p], k) == Some(v) && Entry(cl[q], k) == Some(v) && Entry(cl[r], k) == Some(w);
    assert PayloadAt(less, cl, p, k) != PayloadAt(less, cl, r, k);
  }

  lemma {:induction false} RepeatReturns(less: PayloadOrder, cl: Cluster, ms: seq<Meeting>, times: nat)
    requires After(less, cl, ms) == cl
    ensures After(less, cl, Repeated(ms, times)) == cl
    decreases times
  {
    if times > 0 {
      RepeatReturns(less, cl, ms, times - 1);
      AfterAppend(less, cl, Repeated(ms, times - 1), ms);
    }
  }

  lemma {:induction false} TwoPuts(x: Write, y: Write)
    requires Causal(Some(x.clock), Some(y.clock)) == Concurrent
    ensures PutAll([x, y]) == Some(StoredValue(y.value, Some(Join(x.clock, y.clock)), [Fresh(x)], y.time))
  {
    assert [x, y][..1] == [x] && [x][..0] == [];
    assert PutAll([x]) == Some(Fresh(x)) && [] + [Fresh(x)] == [Fresh(x)];
    JoinCommutes(x.clock, y.clock);
  }

  lemma {:induction false} OrdersStubborn(less: PayloadOrder, x: Write, y: Write, now: int)
    requires Plain(x) && Plain(y) && now != 0 && x.value != y.value
    requires Causal(Some(x.clock), Some(y.clock)) == Concurrent
    ensures Stubborn(less, PutAll([x, y]).value, PutAll([y, x]).value, Join(x.clock, y.clock), now)
  {
    TwoPuts(x, y);
    TwoPuts(y, x);
    JoinCommutes(x.clock, y.clock);
    PairSent(x, y, now);
    PairSent(y, x, now);
  }

  lemma {:induction false} PairSent(x: Write, y: Write, now: int)
    requires Plain(x) && Plain(y) && now != 0
    ensures var v := StoredValue(y.value, Some(Join(x.clock, y.clock)), [Fresh(x)], y.time);
            Fits(v) && Sent(v, now) == v
  {
    var v := StoredValue(y.value, Some(Join(x.clock, y.clock)), [Fresh(x)], y.time);
    assert [Fresh(x)][1..] == [];
    FreshFixed(x);
    assert ClockedEach(v.conflicts)[0] == Fresh(x);
    assert EachFits(v.conflicts[1..]) && EachDated(v.conflicts[1..]);
    assert ClockFits(Join(x.clock, y.clock));
    assert ClockedEach(v.conflicts) == v.conflicts;
    assert Clocked(v) == StoredValue(v.value, Some(ClockOf(v)), ClockedEach(v.conflicts), v.time);
    assert Fits(v) && Dated(v) && Clocked(v) == v;
    RoundTrip(v, now);
  }
}
