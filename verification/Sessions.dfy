/** A write and a later read of the same key, each by any node and on the replicas of its own listing
    of the ring, with anything monotone happening in between: whether the read is bound to resolve to
    a clock that covers the write's, and whether the replicas are bound to take the written value. */
module Sessions {
  import opened Sequences
  import opened Clocks
  import opened Versions
  import opened Payloads
  import opened Resolution
  import opened Writes
  import opened Wire
  import opened Reconciliation
  import opened AntiEntropy
  import opened Placement
  import opened Quorum
  import Histories
  import opened NodeSpecs

  /** A Put by `writer` to the replicas `targets`, in which the calls to `reached` go through; then
      `steps`; then a Get by `reader` from the replicas `sources`, in which the calls to `asked` go
      through and the responses are resolved in the order `order`. */
  datatype Session = Session(before: Cluster, writer: NodeId, targets: seq<NodeId>, reached: set<NodeId>, value: Value,
                             putTime: int, steps: seq<Step>, reader: NodeId, sources: seq<NodeId>, asked: set<NodeId>,
                             getTime: int, order: seq<NodeId>)

  /** The settings that all sessions share. */
  datatype Setting = Setting(less: PayloadOrder, ring: set<NodeId>, key: Key, primary: NodeId, replication: nat,
                             w: nat, r: nat)

  /** The replicas of the key for some listing of the ring, all nodes being available. */
  ghost predicate ReplicaList(g: Setting, nodes: seq<NodeId>) {
    exists all, avail ::
      Enumerates(all, g.ring) && g.ring <= avail && nodes == Replicas(all, g.primary, g.replication, avail)
  }

  function WriteClock(g: Setting, s: Session): Clock
    requires s.writer in s.before
  {
    Incremented(EntryClock(Entry(s.before[s.writer], g.key)), s.writer)
  }

  /** The nodes that took the write: those of the writer's replicas that it reached. */
  function Success(g: Setting, s: Session): seq<NodeId> {
    Reached(s.targets, s.before.Keys, s.writer, s.reached)
  }

  function WrittenCluster(g: Setting, s: Session): Cluster
    requires s.writer in s.before
  {
    AfterWrite(s.before, s.writer, Success(g, s), g.key, s.value, WriteClock(g, s), s.putTime)
  }

  function ReadCluster(g: Setting, s: Session): Cluster
    requires s.writer in s.before
  {
    After(g.less, WrittenCluster(g, s), s.steps)
  }

  /** What the reader's replicas answer. */
  function Answers(g: Setting, s: Session): map<NodeId, StoredValue>
    requires s.writer in s.before
  {
    Responses(ReadCluster(g, s), s.reader, Reached(s.sources, g.ring, s.reader, s.asked), g.key, s.getTime)
  }

  /** The write met the write quorum; versions are live and their counters fit the wire. */
  ghost predicate WriteDone(g: Setting, s: Session) {
    && s.before.Keys == g.ring && SoundCluster(s.before) && s.writer in g.ring
    && ReplicaList(g, s.targets) && s.value != Nil && ClockFits(WriteClock(g, s))
    && |Success(g, s)| >= g.w
  }

  /** The write met its quorum, the read met the read quorum, and nothing in between lowers a clock. */
  ghost predicate Completed(g: Setting, s: Session) {
    && WriteDone(g, s) && s.reader in g.ring && ReplicaList(g, s.sources)
    && AllowedRun(g.less, WrittenCluster(g, s), s.steps)
    && |Answers(g, s)| >= g.r && Enumerates(s.order, Answers(g, s).Keys)
  }

  /** The history is one of this ring: a Put of the key is written at its coordinator exactly when the
      coordinator is among the replicas of its listing. */
  ghost predicate RingHistory(g: Setting, past: seq<Histories.Act>) {
    && Histories.Run(g.less, Histories.EmptyRing(g.ring), past)
    && forall i :: 0 <= i < |past| && past[i].Begin? && past[i].key == g.key ==> OwnFits(g, past[i])
  }

  ghost predicate OwnFits(g: Setting, act: Histories.Act)
    requires act.Begin?
  {
    exists nodes :: ReplicaList(g, nodes) && (act.own <==> act.c in nodes)
  }

  /** The session starts from stores that Puts and reconciles led to, from empty ones. */
  ghost predicate FromPuts(g: Setting, s: Session) {
    exists past :: RingHistory(g, past) && s.before == PastStores(g, past)
  }

  function PastStores(g: Setting, past: seq<Histories.Act>): Cluster {
    Histories.Outcome(g.less, Histories.EmptyRing(g.ring), past).stores
  }

  /** The read resolves to a clock that covers the write's. */
  ghost predicate CoversWrite(g: Setting, s: Session)
    requires Completed(g, s)
  {
    Leq(WriteClock(g, s), EntryClock(Resolve(g.less, ValuesIn(Answers(g, s), s.order))))
  }

  ghost predicate Sensible(g: Setting) {
    g.primary in g.ring && g.replication > 0 && g.w > 0 && g.r > 0
  }

  // ---------- Bound to meet: the read sees the write ----------

  lemma {:induction false} WrittenSound(cl: Cluster, c: NodeId, success: seq<NodeId>, key: Key, value: Value,
                                        vc: Clock, now: int)
    requires SoundCluster(cl) && value != Nil && ClockFits(vc) && vc != map[]
    ensures SoundCluster(AfterWrite(cl, c, success, key, value, vc, now))
  {
    forall n | n in cl && n in success ensures SoundStore(Written(cl[n], c, n, key, value, vc, now)) {
      assert SoundStore(cl[n]);
      WrittenPuts(cl[n], c, n, key, value, vc, now);
      PutFits(Entry(cl[n], key), Write(value, vc, now));
      PutVisible(Entry(cl[n], key), Write(value, vc, now));
    }
  }

  lemma {:induction false} DistinctReached(nodes: seq<NodeId>, known: set<NodeId>, c: NodeId, reach: set<NodeId>)
    requires Distinct(nodes)
    ensures Distinct(Reached(nodes, known, c, reach))
    decreases |nodes|
  {
    if nodes != [] {
      DistinctReached(nodes[..|nodes| - 1], known, c, reach);
    }
  }

  lemma {:induction false} ListingOf(g: Setting, nodes: seq<NodeId>) returns (all: seq<NodeId>)
    requires Sensible(g) && ReplicaList(g, nodes)
    ensures Enumerates(all, g.ring) && all != [] && nodes == Replicas(all, g.primary, g.replication, g.ring)
  {
    var listing, avail :|
      Enumerates(listing, g.ring) && g.ring <= avail && nodes == Replicas(listing, g.primary, g.replication, avail);
    assert listing != [] by {
      assert g.primary in listing;
    }
    ReplicasMoreUp(listing, g.ring, g.primary, g.replication, avail);
    all := listing;
  }

  /** Reaching a quorum of the listed replicas is reaching a quorum of nodes. */
  lemma {:induction false} SuccessReachable(g: Setting, nodes: seq<NodeId>, c: NodeId, reach: set<NodeId>, quorum: nat)
    requires Sensible(g) && ReplicaList(g, nodes) && |Reached(nodes, g.ring, c, reach)| >= quorum
    ensures Reachable(g.ring, g.primary, g.replication, quorum, Elements(Reached(nodes, g.ring, c, reach)))
  {
    var all := ListingOf(g, nodes);
    ReplicasAllUp(all, g.ring, g.primary, g.replication);
    WindowInside(all, PrimaryIndex(all, g.primary), g.replication);
    DistinctReached(nodes, g.ring, c, reach);
    ElementsSize(Reached(nodes, g.ring, c, reach));
  }

  lemma {:induction false} AnswersReachable(g: Setting, s: Session)
    requires Sensible(g) && Completed(g, s)
    ensures Reachable(g.ring, g.primary, g.replication, g.r, Answers(g, s).Keys)
  {
    var all := ListingOf(g, s.sources);
    assert Answers(g, s).Keys <= Elements(s.sources);
  }

  /** What took the write covers it until it is read. */
  lemma {:induction false} WriteStays(g: Setting, s: Session, n: NodeId)
    requires Completed(g, s) && n in Success(g, s)
    ensures SoundCluster(ReadCluster(g, s)) && n in ReadCluster(g, s)
    ensures Leq(WriteClock(g, s), EntryClock(Entry(ReadCluster(g, s)[n], g.key)))
  {
    var vc, after := WriteClock(g, s), WrittenCluster(g, s);
    assert s.writer in vc;
    WrittenSound(s.before, s.writer, Success(g, s), g.key, s.value, vc, s.putTime);
    WrittenCovers(s.before[n], s.writer, n, g.key, s.value, vc, s.putTime);
    RunGrows(g.less, after, s.steps);
    assert StoreGrows(after[n], ReadCluster(g, s)[n]);
  }

  lemma {:induction false} MeetingSees(g: Setting, s: Session, n: NodeId)
    requires Completed(g, s) && n in Success(g, s) && n in Answers(g, s)
    ensures CoversWrite(g, s)
  {
    var answers := Answers(g, s);
    WriteStays(g, s, n);
    ResponsesSound(ReadCluster(g, s), s.reader, Reached(s.sources, g.ring, s.reader, s.asked), g.key, s.getTime);
    ResolvedBelow(g.less, answers, s.order, EntryClock(Resolve(g.less, ValuesIn(answers, s.order))));
    assert Leq(WriteClock(g, s), ClockOf(answers[n]));
  }

  lemma {:induction false} BoundSessionsSee(g: Setting, s: Session)
    requires Sensible(g) && Completed(g, s) && QuorumsMeet(g.ring, g.primary, g.replication, g.w, g.r)
    ensures CoversWrite(g, s)
  {
    SuccessReachable(g, s.targets, s.writer, s.reached, g.w);
    AnswersReachable(g, s);
    var n :| n in Elements(Success(g, s)) * Answers(g, s).Keys;
    MeetingSees(g, s, n);
  }

  // ---------- Not bound to meet: a read that misses the write ----------

  /** Every node holds the version `held` of the key, and nothing else. */
  ghost predicate Uniform(cl: Cluster, ring: set<NodeId>, key: Key, held: StoredValue) {
    cl.Keys == ring && forall n :: n in ring ==> cl[n].Keys == {key} && cl[n][key] == held
  }

  /** The nodes of `a` take a new write over the version `held`, and at once those of `b` answer. */
  ghost predicate Misses(g: Setting, s: Session, a: set<NodeId>, b: set<NodeId>, held: StoredValue) {
    && Uniform(s.before, g.ring, g.key, held) && s.value != Nil && s.steps == []
    && s.reached == a && s.writer in a && a <= g.ring && |a| >= g.w && a <= Elements(s.targets)
    && s.asked == b && s.reader in b && b <= g.ring && |b| >= g.r && b <= Elements(s.sources)
    && a * b == {} && Enumerates(s.order, b)
  }

  lemma {:induction false} ReachedAre(nodes: seq<NodeId>, known: set<NodeId>, c: NodeId, a: set<NodeId>)
    requires c in a && a <= known && a <= Elements(nodes)
    ensures Elements(Reached(nodes, known, c, a)) == a && |Reached(nodes, known, c, a)| >= |a|
  {
    ElementsSize(Reached(nodes, known, c, a));
  }

  lemma {:induction false} MissedSuccess(g: Setting, s: Session, a: set<NodeId>, b: set<NodeId>, held: StoredValue)
    requires Misses(g, s, a, b, held)
    ensures Elements(Success(g, s)) == a && |Success(g, s)| >= g.w
  {
    ReachedAre(s.targets, g.ring, s.writer, a);
  }

  lemma {:induction false} MissedStore(g: Setting, s: Session, a: set<NodeId>, b: set<NodeId>, held: StoredValue,
                                       n: NodeId)
    requires Misses(g, s, a, b, held) && n in b
    ensures n in ReadCluster(g, s) && ReadCluster(g, s)[n] == s.before[n]
  {
    MissedSuccess(g, s, a, b, held);
    assert n in a ==> n in a * b;
    assert n in Success(g, s) ==> n in Elements(Success(g, s));
  }

  lemma {:induction false} MissedAnswers(g: Setting, s: Session, a: set<NodeId>, b: set<NodeId>, held: StoredValue)
    requires Misses(g, s, a, b, held) && Sound(Some(held))
    ensures Answers(g, s).Keys == b && forall n :: n in b ==> ClockOf(Answers(g, s)[n]) == ClockOf(held)
  {
    ReachedAre(s.sources, g.ring, s.reader, b);
    SentFits(held, s.getTime);
    var asked := Reached(s.sources, g.ring, s.reader, b);
    forall n | n in b ensures n in ReadCluster(g, s) && Entry(ReadCluster(g, s)[n], g.key) == Some(held) {
      MissedStore(g, s, a, b, held, n);
    }
    OldAnswers(ReadCluster(g, s), s.reader, asked, b, g.key, held, s.getTime);
  }

  lemma {:induction false} OldAnswers(cl: Cluster, d: NodeId, asked: seq<NodeId>, b: set<NodeId>, key: Key,
                                      held: StoredValue, now: int)
    requires Elements(asked) == b && held.value != Nil && ClockOf(Sent(held, now)) == ClockOf(held)
    requires forall n :: n in b ==> n in cl && Entry(cl[n], key) == Some(held)
    ensures Responses(cl, d, asked, key, now).Keys == b
    ensures forall n :: n in b ==> ClockOf(Responses(cl, d, asked, key, now)[n]) == ClockOf(held)
  {
    forall n ensures n in Responses(cl, d, asked, key, now) <==> n in b {
      assert n in b <==> n in Elements(asked);
    }
  }

  lemma {:induction false} MissedClock(g: Setting, s: Session, a: set<NodeId>, b: set<NodeId>, held: StoredValue)
    requires Misses(g, s, a, b, held)
    ensures s.writer in s.before && WriteClock(g, s) == Incremented(ClockOf(held), s.writer)
  {
    assert Entry(s.before[s.writer], g.key) == Some(held);
  }

  lemma {:induction false} UniformSound(cl: Cluster, ring: set<NodeId>, key: Key, held: StoredValue)
    requires Uniform(cl, ring, key, held) && Sound(Some(held))
    ensures SoundCluster(cl)
  {
    forall n | n in cl ensures SoundStore(cl[n]) {
      assert cl[n].Keys == {key};
    }
  }

  lemma {:induction false} MissedCompletes(g: Setting, s: Session, a: set<NodeId>, b: set<NodeId>, held: StoredValue)
    requires Misses(g, s, a, b, held) && Sound(Some(held)) && ReplicaList(g, s.targets) && ReplicaList(g, s.sources)
    requires ClockFits(Incremented(ClockOf(held), s.writer))
    ensures Completed(g, s)
  {
    MissedClock(g, s, a, b, held);
    UniformSound(s.before, g.ring, g.key, held);
    MissedSuccess(g, s, a, b, held);
    MissedAnswers(g, s, a, b, held);
    assert s.writer in g.ring && s.reader in g.ring;
    assert AllowedRun(g.less, WrittenCluster(g, s), s.steps);
  }

  lemma {:induction false} MissedSession(g: Setting, s: Session, a: set<NodeId>, b: set<NodeId>, held: StoredValue)
    requires Misses(g, s, a, b, held) && Sound(Some(held)) && ReplicaList(g, s.targets) && ReplicaList(g, s.sources)
    requires ClockFits(Incremented(ClockOf(held), s.writer))
    ensures Completed(g, s) && !CoversWrite(g, s)
  {
    MissedCompletes(g, s, a, b, held);
    MissedClock(g, s, a, b, held);
    MissedAnswers(g, s, a, b, held);
    var answers := Answers(g, s);
    ResolvedBelow(g.less, answers, s.order, ClockOf(held));
    NotBelow(ClockOf(held), s.writer, EntryClock(Resolve(g.less, ValuesIn(answers, s.order))));
  }

  lemma {:induction false} NotBelow(c: Clock, n: NodeId, u: Clock)
    requires Leq(u, c)
    ensures !Leq(Incremented(c, n), u)
  {
    assert n in Incremented(c, n);
  }

  lemma {:induction false} ReplicasAround(g: Setting, quorum: nat, q: set<NodeId>) returns (nodes: seq<NodeId>)
    requires Sensible(g) && quorum > 0 && Reachable(g.ring, g.primary, g.replication, quorum, q)
    ensures ReplicaList(g, nodes) && q <= Elements(nodes) && q <= g.ring && q != {}
  {
    var all :| Enumerates(all, g.ring) && q <= Elements(Replicas(all, g.primary, g.replication, g.ring));
    nodes := Replicas(all, g.primary, g.replication, g.ring);
    ReachableShape(g.ring, g.primary, g.replication, quorum, q);
  }

  lemma {:induction false} MissedExists(g: Setting)
    requires Sensible(g) && !QuorumsMeet(g.ring, g.primary, g.replication, g.w, g.r)
    ensures exists s :: Completed(g, s) && FromPuts(g, s) && !CoversWrite(g, s)
  {
    var a, b :| && Reachable(g.ring, g.primary, g.replication, g.w, a)
                && Reachable(g.ring, g.primary, g.replication, g.r, b) && a * b == {};
    var targets := ReplicasAround(g, g.w, a);
    var sources := ReplicasAround(g, g.r, b);
    var s, held := MissingSession(g, a, targets, b, sources);
    MissedSession(g, s, a, b, held);
  }

  lemma {:induction false} MissingSession(g: Setting, a: set<NodeId>, targets: seq<NodeId>, b: set<NodeId>,
                                          sources: seq<NodeId>)
    returns (s: Session, held: StoredValue)
    requires Sensible(g) && a <= g.ring && |a| >= g.w > 0 && b <= g.ring && |b| >= g.r > 0 && a * b == {}
    requires a <= Elements(targets) && b <= Elements(sources)
    ensures Misses(g, s, a, b, held) && s.targets == targets && s.sources == sources && FromPuts(g, s)
    ensures Sound(Some(held)) && ClockFits(Incremented(ClockOf(held), s.writer))
  {
    var c :| c in a;
    var d :| d in b;
    var order := SomeListing(b);
    var past, x := UniformHistory(g);
    held := Fresh(x);
    FewCounts(x.clock, c);
    s := Session(PastStores(g, past), c, targets, a, held.value, 2, [], d, sources, b, 3, order);
  }

  lemma {:induction false} FewCounts(clock: Clock, n: NodeId)
    requires forall m :: m in clock ==> clock[m] == 1
    ensures ClockFits(clock) && ClockFits(Incremented(clock, n))
  {
  }

  // ---------- Histories that spread one version ----------

  /** The nodes of `done` hold the version `held` of the key and nothing else, the others nothing. */
  ghost predicate Spread(cl: Cluster, ring: set<NodeId>, key: Key, held: StoredValue, done: set<NodeId>) {
    cl.Keys == ring && forall n :: n in ring ==> cl[n] == if n in done then map[key := held] else map[]
  }

  lemma {:induction false} SpreadSet(cl: Cluster, ring: set<NodeId>, key: Key, held: StoredValue, done: set<NodeId>,
                                     n: NodeId)
    requires Spread(cl, ring, key, held, done) && n in ring
    ensures Spread(cl[n := map[key := held]], ring, key, held, done + {n})
  {
  }

  lemma {:induction false} NoPast(g: Setting)
    ensures RingHistory(g, []) &&
            Histories.Outcome(g.less, Histories.EmptyRing(g.ring), []) == Histories.EmptyRing(g.ring)
  {
  }

  lemma {:induction false} PastMore(g: Setting, past: seq<Histories.Act>, act: Histories.Act)
    requires RingHistory(g, past) &&
             Histories.Enabled(Histories.Outcome(g.less, Histories.EmptyRing(g.ring), past), act)
    requires act.Begin? && act.key == g.key ==> OwnFits(g, act)
    ensures RingHistory(g, past + [act])
    ensures Histories.Outcome(g.less, Histories.EmptyRing(g.ring), past + [act]) ==
            Histories.Apply(g.less, Histories.Outcome(g.less, Histories.EmptyRing(g.ring), past), act)
  {
    assert (past + [act])[..|past|] == past;
  }

  lemma {:induction false} SpreadMeeting(g: Setting, past: seq<Histories.Act>, c: NodeId, x: Write, done: set<NodeId>,
                                         n: NodeId)
    requires RingHistory(g, past) && Spread(PastStores(g, past), g.ring, g.key, Fresh(x), done) && Plain(x)
    requires c in done && c in g.ring && n in g.ring && n !in done
    ensures var longer := past + [Histories.Meet(c, n, g.key, true, 1)];
            RingHistory(g, longer) && Spread(PastStores(g, longer), g.ring, g.key, Fresh(x), done + {n})
  {
    var cl := PastStores(g, past);
    PastMore(g, past, Histories.Meet(c, n, g.key, true, 1));
    FreshSent(x, 1);
    assert Entry(cl[c], g.key) == Some(Fresh(x)) && Entry(cl[n], g.key) == None;
    assert Reconcile(g.less, Some(Fresh(x)), None, true, true, 1) == (Some(Fresh(x)), Some(Fresh(x)));
    FreshOverwrites(cl, c, n, g.key, Fresh(x));
    SpreadSet(cl, g.ring, g.key, Fresh(x), done, n);
  }

  lemma {:induction false} FreshOverwrites(cl: Cluster, c: NodeId, n: NodeId, key: Key, held: StoredValue)
    requires c in cl && n in cl && c != n && cl[c] == map[key := held] && cl[n] == map[]
    ensures cl[c := WithEntry(cl[c], key, Some(held))][n := WithEntry(cl[n], key, Some(held))] ==
            cl[n := map[key := held]]
  {
    assert WithEntry(cl[c], key, Some(held)) == cl[c] && WithEntry(cl[n], key, Some(held)) == map[key := held];
    assert cl[c := cl[c]] == cl;
  }

  lemma {:induction false} SpreadAll(g: Setting, past: seq<Histories.Act>, c: NodeId, x: Write, done: set<NodeId>)
    returns (longer: seq<Histories.Act>)
    requires RingHistory(g, past) && Spread(PastStores(g, past), g.ring, g.key, Fresh(x), done) && Plain(x)
    requires c in done && done <= g.ring
    ensures RingHistory(g, longer) && Spread(PastStores(g, longer), g.ring, g.key, Fresh(x), g.ring)
    decreases |g.ring - done|
  {
    longer := past;
    if done != g.ring {
      assert done == g.ring - (g.ring - done);
      var n :| n in g.ring - done;
      SpreadMeeting(g, past, c, x, done, n);
      assert g.ring - (done + {n}) == (g.ring - done) - {n};
      longer := SpreadAll(g, past + [Histories.Meet(c, n, g.key, true, 1)], c, x, done + {n});
    }
  }

  lemma {:induction false} PrimaryOwns(g: Setting, value: Value)
    requires Sensible(g)
    ensures OwnFits(g, Histories.Begin(g.primary, g.key, value, true, 1))
  {
    var all := SomeListing(g.ring);
    ChosenShape(all, g.ring, g.primary, g.replication);
    assert ReplicaList(g, Replicas(all, g.primary, g.replication, g.ring));
  }

  /** The primary writes a first version and reconciles with everybody. */
  lemma {:induction false} UniformHistory(g: Setting) returns (past: seq<Histories.Act>, x: Write)
    requires Sensible(g)
    ensures RingHistory(g, past) && Uniform(PastStores(g, past), g.ring, g.key, Fresh(x)) && Sound(Some(Fresh(x)))
    ensures x.value != Nil && forall m :: m in x.clock ==> x.clock[m] == 1
  {
    x := Write(Json("old"), map[g.primary := 1], 1);
    FreshSent(x, 1);
    PrimaryOwns(g, x.value);
    var empty: seq<Histories.Act> := [];
    var begin := Histories.Begin(g.primary, g.key, x.value, true, 1);
    NoPast(g);
    assert Histories.NewClock(Histories.EmptyRing(g.ring), g.primary, g.key) == x.clock;
    PastMore(g, empty, begin);
    SpreadSet(PastStores(g, empty), g.ring, g.key, Fresh(x), {}, g.primary);
    past := SpreadAll(g, empty + [begin], g.primary, x, {g.primary});
  }

  // ---------- The exact condition ----------

  /** Every completed read covers every write completed before it, whichever listings the two drew and
      whatever replicas acknowledged and answered, exactly when the quorums are bound to meet. This
      holds whether all sound stores are allowed at the start or only those that Puts lead to. */
  lemma {:induction false} ReadsCoverWritesExactly(g: Setting)
    requires Sensible(g)
    ensures (forall s :: Completed(g, s) ==> CoversWrite(g, s)) <==> BoundToMeet(g.ring, g.replication, g.w, g.r)
    ensures (forall s :: Completed(g, s) && FromPuts(g, s) ==> CoversWrite(g, s)) <==>
            BoundToMeet(g.ring, g.replication, g.w, g.r)
  {
    QuorumsMeetExactly(g.ring, g.primary, g.replication, g.w, g.r);
    if BoundToMeet(g.ring, g.replication, g.w, g.r) {
      forall s | Completed(g, s) ensures CoversWrite(g, s) {
        BoundSessionsSee(g, s);
      }
    } else {
      MissedExists(g);
    }
  }

  /** The cluster as shipped has four nodes, replication 3 and quorums of 2: a write that two nodes
      acknowledged is followed by a read that two nodes answered and that misses it. */
  lemma {:induction false} ShippedReadMisses(g: Setting)
    requires g.primary in g.ring && |g.ring| == 4 && g.replication == 3 && g.w == 2 && g.r == 2
    ensures exists s :: Completed(g, s) && FromPuts(g, s) && !CoversWrite(g, s)
  {
    ReadsCoverWritesExactly(g);
  }
}
