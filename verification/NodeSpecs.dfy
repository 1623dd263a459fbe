/** What the operations of a node do to the stores of the cluster and to its own hint queues, as
    functions of the state before. `now` stands for the clock readings made during one operation. */
module NodeSpecs {
  import opened Sequences
  import opened Clocks
  import opened Versions
  import opened Payloads
  import opened Writes
  import opened Wire
  import opened Merkle
  import opened Reconciliation
  import opened AntiEntropy
  import opened Hints
  import opened Resolution
  import opened Placement

  const MERKLE_BUCKETS: nat := 100

  function BucketOf(hashKey: Key -> nat): Key -> nat {
    k => hashKey(k) % MERKLE_BUCKETS
  }

  function BucketData(less: PayloadOrder, bucketOf: Key -> nat, s: Store, bucket: nat): Data {
    map k | k in s && bucketOf(k) == bucket :: PayloadOf(less, s[k])
  }

  lemma {:induction false} OneStoreChanged(cl: Cluster, next: Cluster, n: NodeId, s: Store)
    requires n in cl && next.Keys == cl.Keys && next[n] == s
    requires forall m :: m in cl && m != n ==> next[m] == cl[m]
    ensures next == cl[n := s]
  {
  }

  /** The nodes of a list that a coordinator reaches, in order and as often as they are listed. */
  function Reached(nodes: seq<NodeId>, known: set<NodeId>, c: NodeId, reach: set<NodeId>): (r: seq<NodeId>)
    ensures forall n :: n in r <==> n in nodes && n in known && (n == c || n in reach)
  {
    if nodes == [] then []
    else
      var n := nodes[|nodes| - 1];
      Reached(nodes[..|nodes| - 1], known, c, reach) + if n in known && (n == c || n in reach) then [n] else []
  }

  lemma {:induction false} ReachedMore(nodes: seq<NodeId>, i: nat, known: set<NodeId>, c: NodeId, reach: set<NodeId>)
    requires i < |nodes|
    ensures Reached(nodes[..i + 1], known, c, reach) ==
            Reached(nodes[..i], known, c, reach) + if nodes[i] in known && (nodes[i] == c || nodes[i] in reach)
                then [nodes[i]] else []
  {
    assert nodes[..i + 1][..i] == nodes[..i];
  }

  // ---------- Writing ----------

  /** The store of `n` after a write coordinated by `c`; a remote replica gets it over the wire. */
  function Written(s: Store, c: NodeId, n: NodeId, key: Key, value: Value, vc: Clock, now: int): Store {
    if n == c then s[key := Put(Entry(s, key), Write(value, vc, now))]
    else s[key := ReplicaWrite(Entry(s, key), Sent(StoredValue(value, Some(vc), [], now), now), false, n, now)]
  }

  function AfterWrite(cl: Cluster, c: NodeId, success: seq<NodeId>, key: Key, value: Value, vc: Clock, now: int)
    : Cluster
  {
    map n | n in cl :: if n in success then Written(cl[n], c, n, key, value, vc, now) else cl[n]
  }

  lemma {:induction false} WriteMore(cl: Cluster, c: NodeId, success: seq<NodeId>, key: Key, value: Value, vc: Clock,
                                     now: int, n: NodeId)
    requires n in cl
    ensures var after := AfterWrite(cl, c, success, key, value, vc, now);
            after[n := Written(after[n], c, n, key, value, vc, now)] ==
            AfterWrite(cl, c, success + [n], key, value, vc, now)
  {
    var after := AfterWrite(cl, c, success, key, value, vc, now);
    assert after[n := Written(after[n], c, n, key, value, vc, now)].Keys == cl.Keys;
    WrittenTwice(cl[n], c, n, key, value, vc, now);
  }

  /** The write as `n` takes it in. */
  function Delivered(c: NodeId, n: NodeId, value: Value, vc: Clock, now: int): Write {
    if n == c then Write(value, vc, now)
    else
      var v := Stamped(Sent(StoredValue(value, Some(vc), [], now), now), n);
      Write(v.value, ClockOf(v), now)
  }

  lemma {:induction false} WrittenPuts(s: Store, c: NodeId, n: NodeId, key: Key, value: Value, vc: Clock, now: int)
    ensures Written(s, c, n, key, value, vc, now) == s[key := Put(Entry(s, key), Delivered(c, n, value, vc, now))]
    ensures ClockFits(vc) && vc != map[] ==> Delivered(c, n, value, vc, now) == Write(value, vc, now)
  {
    if ClockFits(vc) {
      SentFits(StoredValue(value, Some(vc), [], now), now);
    }
  }

  /** A repeated delivery changes nothing. */
  lemma {:induction false} WrittenTwice(s: Store, c: NodeId, n: NodeId, key: Key, value: Value, vc: Clock, now: int)
    ensures var t := Written(s, c, n, key, value, vc, now);
            Written(t, c, n, key, value, vc, now) == t
  {
    var w := Delivered(c, n, value, vc, now);
    var t := Written(s, c, n, key, value, vc, now);
    WrittenPuts(s, c, n, key, value, vc, now);
    WrittenPuts(t, c, n, key, value, vc, now);
    PutTwice(Entry(s, key), w);
  }

  lemma {:induction false} PutTwice(existing: Option<StoredValue>, w: Write)
    ensures Put(Some(Put(existing, w)), w) == Put(existing, w)
  {
  }

  /** A replica that took a write in covers it, as long as its counters fit the wire. */
  lemma {:induction false} WrittenCovers(s: Store, c: NodeId, n: NodeId, key: Key, value: Value, vc: Clock, now: int)
    requires ClockFits(vc) && vc != map[]
    ensures Leq(vc, EntryClock(Entry(Written(s, c, n, key, value, vc, now), key)))
    ensures Leq(EntryClock(Entry(s, key)), EntryClock(Entry(Written(s, c, n, key, value, vc, now), key)))
  {
    WrittenPuts(s, c, n, key, value, vc, now);
    PutJoins(Entry(s, key), Write(value, vc, now));
    JoinLeast(EntryClock(Entry(s, key)), vc, map[]);
  }

  // ---------- Hints of a Put ----------

  /** The preferred nodes that were replaced by a node that took the write. */
  function HintTargets(window: seq<NodeId>, nodes: seq<NodeId>, success: seq<NodeId>): set<NodeId>
    requires |nodes| == |window|
  {
    set i | 0 <= i < |nodes| && nodes[i] != window[i] && nodes[i] in success :: window[i]
  }

  function Replaced(replacements: map<NodeId, NodeId>, success: seq<NodeId>): set<NodeId> {
    set t | t in replacements && replacements[t] in success
  }

  lemma {:induction false} ReplacedAre(replacements: map<NodeId, NodeId>, window: seq<NodeId>, nodes: seq<NodeId>,
                                       avail: set<NodeId>, success: seq<NodeId>)
    requires |nodes| == |window| && RecordsReplacements(replacements, window, nodes, avail)
    ensures Replaced(replacements, success) == HintTargets(window, nodes, success)
  {
    var targets := HintTargets(window, nodes, success);
    forall t | t in Replaced(replacements, success) ensures t in targets {
      var i :| 0 <= i < |nodes| && t == window[i] && t !in avail && replacements[t] == nodes[i] && nodes[i] in avail;
      assert nodes[i] != window[i];
    }
  }

  function QueueFor(hints: map<NodeId, HintQueue>, t: NodeId): HintQueue {
    if t in hints then hints[t] else []
  }

  /** The queues after a Put stored its hints. */
  function HintedFor(hints: map<NodeId, HintQueue>, targets: set<NodeId>, key: Key, value: Value, vc: Clock, now: int)
    : map<NodeId, HintQueue>
  {
    map t | t in hints.Keys + targets ::
      if t in targets then AddHint(QueueFor(hints, t), HintedWrite(key, value, vc, t, now, 0)) else hints[t]
  }

  lemma {:induction false} HintMore(hints: map<NodeId, HintQueue>, targets: set<NodeId>, key: Key, value: Value,
                                    vc: Clock, now: int, t: NodeId)
    requires t !in targets
    ensures var before := HintedFor(hints, targets, key, value, vc, now);
            HintedFor(hints, targets + {t}, key, value, vc, now) ==
            before[t := AddHint(QueueFor(before, t), HintedWrite(key, value, vc, t, now, 0))]
  {
  }

  /** A Put leaves a hint exactly for the preferred nodes that were replaced by a node that took the write: at
      the end of their queues, which keep the last hints up to the limit. All other queues stay. */
  lemma {:induction false} PutLeavesHints(hints: map<NodeId, HintQueue>, window: seq<NodeId>, nodes: seq<NodeId>,
                                          success: seq<NodeId>, key: Key, value: Value, vc: Clock, now: int, t: NodeId)
    requires |nodes| == |window| && |QueueFor(hints, t)| <= HINT_LIMIT
    ensures var after := HintedFor(hints, HintTargets(window, nodes, success), key, value, vc, now);
            var hinted := exists i :: 0 <= i < |nodes| && window[i] == t && nodes[i] != t && nodes[i] in success;
            && (t in after <==> t in hints || hinted)
            && QueueFor(after, t) ==
               if hinted then Last(QueueFor(hints, t) + [HintedWrite(key, value, vc, t, now, 0)], HINT_LIMIT)
                   else QueueFor(hints, t)
  {
    AddedLast(QueueFor(hints, t), HintedWrite(key, value, vc, t, now, 0));
  }

  lemma {:induction false} AddedLast(q: HintQueue, h: HintedWrite)
    requires |q| <= HINT_LIMIT
    ensures AddHint(q, h) == Last(q + [h], HINT_LIMIT)
  {
    QueueHoldsLast(q, [h]);
    assert [h][..0] == [] && AddHints(q, [h]) == AddHint(q, h);
  }

  // ---------- Reading ----------

  /** What the nodes of `asked` answer: their visible entry, which comes over the wire except for
      the coordinator's own. */
  function Responses(cl: Cluster, c: NodeId, asked: seq<NodeId>, key: Key, now: int): map<NodeId, StoredValue> {
    map n | n in asked && n in cl && Visible(Entry(cl[n], key)).Some? ::
      if n == c then cl[n][key] else Sent(cl[n][key], now)
  }

  lemma {:induction false} ResponseMore(cl: Cluster, c: NodeId, nodes: seq<NodeId>, n: NodeId, known: set<NodeId>,
                                        reach: set<NodeId>, key: Key, now: int, answer: Option<StoredValue>)
    requires known == cl.Keys && c in cl
    requires answer == if n !in cl || (n != c && n !in reach) || Visible(Entry(cl[n], key)).None? then None
                       else Some(if n == c then cl[n][key] else Sent(cl[n][key], now))
    ensures var before := Responses(cl, c, Reached(nodes, known, c, reach), key, now);
            Responses(cl, c, Reached(nodes + [n], known, c, reach), key, now) ==
            if answer.Some? then before[n := answer.value] else before
  {
  }

  /** Exactly the asked nodes with a visible entry answer, each with the payload it holds. */
  lemma {:induction false} AnswersExactly(less: PayloadOrder, cl: Cluster, c: NodeId, asked: seq<NodeId>, key: Key,
                                          now: int, n: NodeId)
    requires n in cl ==> EntryFits(Entry(cl[n], key))
    ensures var responses := Responses(cl, c, asked, key, now);
            && (n in responses <==> n in asked && n in cl && Visible(Entry(cl[n], key)).Some?)
            && (n in responses ==> Some(PayloadOf(less, responses[n])) == EntryPayload(less, Entry(cl[n], key)))
  {
    if n in cl && Visible(Entry(cl[n], key)).Some? {
      SentSame(less, cl[n][key], now);
    }
  }

  lemma {:induction false} AnswersVisible(cl: Cluster, c: NodeId, asked: seq<NodeId>, key: Key, now: int)
    ensures forall n :: n in Responses(cl, c, asked, key, now) ==> Responses(cl, c, asked, key, now)[n].value != Nil
  {
  }

  /** What the background work after a Get goes on with. */
  datatype FollowUp = FollowUp(nodes: seq<NodeId>, replacements: map<NodeId, NodeId>,
                               responses: map<NodeId, StoredValue>)

  const NO_FOLLOW_UP := FollowUp([], map[], map[])

  // ---------- Hints from the responses of a Get ----------

  /** The replaced nodes whose replacement answered, as far as a key could be guessed for them. */
  function ReadHintTargets(f: FollowUp, guess: NodeId -> Option<Key>): set<NodeId> {
    set t | t in f.replacements && f.replacements[t] in f.responses && guess(t).Some?
  }

  function ReadHint(f: FollowUp, guess: NodeId -> Option<Key>, t: NodeId, now: int): HintedWrite
    requires t in ReadHintTargets(f, guess)
  {
    var v := f.responses[f.replacements[t]];
    HintedWrite(guess(t).value, v.value, ClockOf(v), t, now, 0)
  }

  function HintedFromRead(hints: map<NodeId, HintQueue>, f: FollowUp, guess: NodeId -> Option<Key>,
                          targets: set<NodeId>, now: int)
    : map<NodeId, HintQueue>
    requires targets <= ReadHintTargets(f, guess)
  {
    map t | t in hints.Keys + targets ::
      if t in targets then AddHint(QueueFor(hints, t), ReadHint(f, guess, t, now)) else hints[t]
  }

  lemma {:induction false} ReadHintMore(hints: map<NodeId, HintQueue>, f: FollowUp, guess: NodeId -> Option<Key>,
                                        targets: set<NodeId>, now: int, t: NodeId)
    requires targets + {t} <= ReadHintTargets(f, guess) && t !in targets
    ensures var before := HintedFromRead(hints, f, guess, targets, now);
            HintedFromRead(hints, f, guess, targets + {t}, now) ==
            before[t := AddHint(QueueFor(before, t), ReadHint(f, guess, t, now))]
  {
    var before := HintedFromRead(hints, f, guess, targets, now);
    assert QueueFor(before, t) == QueueFor(hints, t);
    assert HintedFromRead(hints, f, guess, targets + {t}, now).Keys == before.Keys + {t};
  }

  /** A Get leaves a hint, with the answer of the replacement, exactly for the replaced nodes whose replacement
      answered and for which a key was guessed. All other queues stay. */
  lemma {:induction false} GetLeavesHints(hints: map<NodeId, HintQueue>, f: FollowUp, guess: NodeId -> Option<Key>,
                                          now: int, t: NodeId)
    requires |QueueFor(hints, t)| <= HINT_LIMIT
    ensures var after := HintedFromRead(hints, f, guess, ReadHintTargets(f, guess), now);
            var hinted := t in f.replacements && f.replacements[t] in f.responses && guess(t).Some?;
            && (t in after <==> t in hints || hinted)
            && (hinted ==>
                  var v := f.responses[f.replacements[t]];
                  QueueFor(after, t) == Last(QueueFor(hints, t) +
                                             [HintedWrite(guess(t).value, v.value, ClockOf(v), t, now, 0)], HINT_LIMIT))
            && (!hinted ==> QueueFor(after, t) == QueueFor(hints, t))
  {
    if t in ReadHintTargets(f, guess) {
      AddedLast(QueueFor(hints, t), ReadHint(f, guess, t, now));
    }
  }

  // ---------- Read repair ----------

  /** The stores after the repairs that go through: every remote node of the list is overwritten. */
  function AfterRepairs(cl: Cluster, c: NodeId, nodes: seq<NodeId>, reach: set<NodeId>, key: Key, v: StoredValue,
                        now: int)
    : Cluster
  {
    map n | n in cl :: if n in nodes && n != c && n in reach then cl[n][key := Sent(v, now)] else cl[n]
  }

  lemma {:induction false} RepairMore(cl: Cluster, c: NodeId, nodes: seq<NodeId>, reach: set<NodeId>, key: Key,
                                      v: StoredValue, now: int, n: NodeId)
    ensures var before := AfterRepairs(cl, c, nodes, reach, key, v, now);
            AfterRepairs(cl, c, nodes + [n], reach, key, v, now) ==
            if n in cl && n != c && n in reach then before[n := before[n][key := Sent(v, now)]] else before
  {
    var before, after := AfterRepairs(cl, c, nodes, reach, key, v, now),
        AfterRepairs(cl, c, nodes + [n], reach, key, v, now);
    assert after.Keys == before.Keys == cl.Keys;
    if n in cl && n != c && n in reach {
      var once := cl[n][key := Sent(v, now)];
      assert once[key := Sent(v, now)] == once;
    }
  }

  /** All repaired nodes end with the payload of the resolved version, and no repair touches another
      key or another node. A repaired node loses ground exactly when the version does not cover what
      it held. */
  lemma {:induction false} RepairsAgree(less: PayloadOrder, cl: Cluster, c: NodeId, nodes: seq<NodeId>,
                                        reach: set<NodeId>, key: Key, v: StoredValue, now: int, n: NodeId, k: Key)
    requires Fits(v) && n in cl
    ensures var l, l' := Entry(cl[n], k), Entry(AfterRepairs(cl, c, nodes, reach, key, v, now)[n], k);
            var repaired := k == key && n in nodes && n != c && n in reach;
            && (repaired ==> EntryPayload(less, l') == Some(PayloadOf(less, v))) && (!repaired ==> l' == l)
            && (!Leq(EntryClock(l), EntryClock(l')) <==> repaired && !Leq(EntryClock(l), ClockOf(v)))
  {
    SentSame(less, v, now);
  }

  /** Repairing with the outcome of a read: of the nodes that hold what they held when asked, those
      that lose ground are exactly the repaired ones that gave no answer and that the answers of the
      others do not cover. */
  lemma {:induction false} ReadRepairLoses(less: PayloadOrder, cl: Cluster, c: NodeId, nodes: seq<NodeId>,
                                           reach: set<NodeId>, key: Key, now: int, order: seq<NodeId>,
                                           repairs: set<NodeId>, later: int, n: NodeId)
    requires SoundCluster(cl) && n in cl
    requires var responses := Responses(cl, c, Reached(nodes, cl.Keys, c, reach), key, now);
             responses != map[] && Enumerates(order, responses.Keys)
    ensures var responses := Responses(cl, c, Reached(nodes, cl.Keys, c, reach), key, now);
            var result := Resolve(less, ValuesIn(responses, order)).value;
            !Leq(EntryClock(Entry(cl[n], key)),
                 EntryClock(Entry(AfterRepairs(cl, c, nodes, repairs, key, result, later)[n], key))) <==>
            n in nodes && n != c && n in repairs && n !in responses &&
                exists u :: CoversAnswers(cl, key, responses, u) && !Leq(EntryClock(Entry(cl[n], key)), u)
  {
    var responses := Responses(cl, c, Reached(nodes, cl.Keys, c, reach), key, now);
    ResponsesSound(cl, c, Reached(nodes, cl.Keys, c, reach), key, now);
    ResolvedResponses(less, responses, order);
    var result := Resolve(less, ValuesIn(responses, order));
    ResolvedFits(less, ValuesIn(responses, order));
    RepairsAgree(less, cl, c, nodes, repairs, key, result.value, later, n, key);
    CoveredByAnswers(less, cl, key, responses, order, EntryClock(Entry(cl[n], key)));
    ResolvedBelow(less, responses, order, EntryClock(result));
  }

  /** The clock covers what every answering node holds. */
  ghost predicate CoversAnswers(cl: Cluster, key: Key, responses: map<NodeId, StoredValue>, u: Clock) {
    forall m :: m in responses && m in cl ==> Leq(EntryClock(Entry(cl[m], key)), u)
  }

  /** The outcome covers a clock exactly when everything does that covers the answers. */
  lemma {:induction false} CoveredByAnswers(less: PayloadOrder, cl: Cluster, key: Key,
                                            responses: map<NodeId, StoredValue>, order: seq<NodeId>, clock: Clock)
    requires Enumerates(order, responses.Keys) && responses.Keys <= cl.Keys
    requires forall m :: m in responses ==> ClockOf(responses[m]) == EntryClock(Entry(cl[m], key))
    ensures Leq(clock, EntryClock(Resolve(less, ValuesIn(responses, order)))) <==>
            forall u :: CoversAnswers(cl, key, responses, u) ==> Leq(clock, u)
  {
    var r := EntryClock(Resolve(less, ValuesIn(responses, order)));
    ResolvedBelow(less, responses, order, r);
    assert CoversAnswers(cl, key, responses, r);
    forall u | CoversAnswers(cl, key, responses, u) && Leq(clock, r) ensures Leq(clock, u) {
      ResolvedBelow(less, responses, order, u);
    }
  }

  lemma {:induction false} ResponsesSound(cl: Cluster, c: NodeId, asked: seq<NodeId>, key: Key, now: int)
    requires SoundCluster(cl)
    ensures var responses := Responses(cl, c, asked, key, now);
            forall n :: n in responses ==>
              Fits(responses[n]) && ClockOf(responses[n]) == EntryClock(Entry(cl[n], key))
  {
    var responses := Responses(cl, c, asked, key, now);
    forall n | n in responses ensures Fits(responses[n]) && ClockOf(responses[n]) == EntryClock(Entry(cl[n], key)) {
      assert SoundStore(cl[n]) && Sound(Some(cl[n][key]));
      SentFits(cl[n][key], now);
    }
  }

  lemma {:induction false} ResolvedFits(less: PayloadOrder, order: seq<StoredValue>)
    requires forall i :: 0 <= i < |order| ==> Fits(order[i])
    ensures EntryFits(Resolve(less, order))
    decreases |order|
  {
    if order != [] {
      var front := order[..|order| - 1];
      ResolvedFits(less, front);
      if front != [] {
        MergeFits(less, Resolve(less, front).value, order[|order| - 1]);
      }
    }
  }

  // ---------- Handing hints off ----------

  function OutcomesFor(ok: (NodeId, nat) -> bool, target: NodeId): nat -> bool {
    (i: nat) => ok(target, i)
  }

  function AvailableHints(hints: map<NodeId, HintQueue>, up: set<NodeId>): (r: map<NodeId, HintQueue>)
    ensures r.Keys == hints.Keys * up && forall t :: t in r ==> r[t] == hints[t]
  {
    map t | t in hints && t in up :: hints[t]
  }

  /** The queues after the targets in `up` have been processed. */
  function ProcessedQueues(hints: map<NodeId, HintQueue>, up: set<NodeId>, ok: (NodeId, nat) -> bool)
    : map<NodeId, HintQueue>
  {
    map t | t in hints && (t in up ==> AfterProcessing(hints[t], OutcomesFor(ok, t)).Some?) ::
      if t in up then AfterProcessing(hints[t], OutcomesFor(ok, t)).value else hints[t]
  }

  lemma {:induction false} QueueProcessed(hints: map<NodeId, HintQueue>, up: set<NodeId>, ok: (NodeId, nat) -> bool,
                                          t: NodeId)
    requires t in hints && t !in up
    ensures var before, outcome := ProcessedQueues(hints, up, ok), AfterProcessing(hints[t], OutcomesFor(ok, t));
            ProcessedQueues(hints, up + {t}, ok) == if outcome.Some? then before[t := outcome.value] else before - {t}
  {
  }

  /** The stores after the hints for the targets in `up` were handed over. */
  function AfterHandOver(cl: Cluster, hints: map<NodeId, HintQueue>, up: set<NodeId>, ok: (NodeId, nat) -> bool,
                         now: int)
    : Cluster
  {
    map n | n in cl :: if n in up && n in hints then HandedOver(cl[n], hints[n], OutcomesFor(ok, n), n, now) else cl[n]
  }

  lemma {:induction false} HandOverMore(cl: Cluster, hints: map<NodeId, HintQueue>, up: set<NodeId>,
                                        ok: (NodeId, nat) -> bool, now: int, t: NodeId)
    requires t in hints && t !in up
    ensures AfterHandOver(cl, hints, up + {t}, ok, now) ==
            var before := AfterHandOver(cl, hints, up, ok, now);
            if t in cl then before[t := HandedOver(before[t], hints[t], OutcomesFor(ok, t), t, now)] else before
  {
    var before := AfterHandOver(cl, hints, up, ok, now);
    assert AfterHandOver(cl, hints, up + {t}, ok, now).Keys == before.Keys == cl.Keys;
  }

  lemma {:induction false} NothingToHandOver(cl: Cluster, hints: map<NodeId, HintQueue>, up: set<NodeId>,
                                             ok: (NodeId, nat) -> bool, now: int)
    requires up !! hints.Keys
    ensures ProcessedQueues(hints, up, ok) == hints && AfterHandOver(cl, hints, up, ok, now) == cl
  {
  }

  /** What processing the hints does to one target's queue and to one key it holds: only available targets
      are touched, their queues keep, in order, the hints whose key was not delivered, and their stores take
      the last hint delivered for the key. */
  lemma {:induction false} HandOffExactly(cl: Cluster, hints: map<NodeId, HintQueue>, up: set<NodeId>,
                                          ok: (NodeId, nat) -> bool, now: int, t: NodeId, k: Key)
    returns (ps: seq<nat>)
    requires t in hints && t in cl
    ensures var queues, after := ProcessedQueues(hints, up, ok), AfterHandOver(cl, hints, up, ok, now);
            var delivered := OutcomesFor(ok, t);
            && (t in up ==>
                  && PositionsLeft(ps, hints[t], DeliveredKeys(hints[t], delivered))
                  && (t in queues <==> ps != [] || forall i :: 0 <= i < |hints[t]| ==> !delivered(i))
                  && (t in queues ==> queues[t] == HintsAt(hints[t], ps))
                  && t in after && Entry(after[t], k) == HandedEntry(Entry(cl[t], k), hints[t], delivered, t, now, k))
            && (t !in up ==> t in queues && queues[t] == hints[t] && t in after && after[t] == cl[t])
  {
    ps := ProcessedExactly(hints[t], OutcomesFor(ok, t));
    TargetHoldsLast(cl[t], hints[t], OutcomesFor(ok, t), t, now, k);
    if LastDelivered(hints[t], OutcomesFor(ok, t), k).Some? {
      HandOverExactly(None, LastDelivered(hints[t], OutcomesFor(ok, t), k).value, t, now);
    }
  }

  /** The value and clock of the last hint delivered for the key, or what was there if there is none. */
  function HandedEntry(e: Option<StoredValue>, q: HintQueue, delivered: nat -> bool, t: NodeId, now: int, k: Key)
    : Option<StoredValue>
  {
    var last := LastDelivered(q, delivered, k);
    if last.None? then e
    else
      var h := last.value;
      Some(StoredValue(h.value, Some(HandedClock(h, t)), [], if h.time == 0 then now else h.time))
  }

  // ---------- Pushing the local copies to a node that came back ----------

  function PushedValue(v: StoredValue, c: NodeId, now: int): StoredValue {
    StoredValue(v.value, Some(if v.clock.Some? then v.clock.value else Incremented(map[], c)), [], now)
  }

  /** The store `theirs` of `target` after `c`, which holds `mine`, pushed the given keys. */
  function AfterPush(mine: Store, theirs: Store, keys: set<Key>, c: NodeId, target: NodeId, now: int): Store
    requires keys <= mine.Keys
  {
    map k | k in theirs.Keys + keys ::
      if k in keys then ReplicaWrite(Entry(theirs, k), Sent(PushedValue(mine[k], c, now), now), false, target, now)
      else theirs[k]
  }

  lemma {:induction false} PushMore(mine: Store, theirs: Store, keys: set<Key>, c: NodeId, target: NodeId, now: int,
                                    k: Key)
    requires keys <= mine.Keys && k in mine && k !in keys
    ensures var before := AfterPush(mine, theirs, keys, c, target, now);
            AfterPush(mine, theirs, keys + {k}, c, target, now) ==
            before[k := ReplicaWrite(Entry(before, k), Sent(PushedValue(mine[k], c, now), now), false, target, now)]
  {
  }

  /** A push lowers nothing, and the node ends covering what was pushed. */
  lemma {:induction false} PushCovers(mine: Store, theirs: Store, keys: set<Key>, c: NodeId, target: NodeId, now: int,
                                      k: Key)
    requires keys <= mine.Keys
    ensures var l, l' := Entry(theirs, k), Entry(AfterPush(mine, theirs, keys, c, target, now), k);
            && Leq(EntryClock(l), EntryClock(l'))
            && (k in keys && ClockFits(ClockOf(mine[k])) ==> Leq(ClockOf(mine[k]), EntryClock(l')))
            && (k !in keys ==> l' == l)
  {
    if k in keys {
      PushOne(Entry(theirs, k), mine[k], c, target, now);
    }
  }

  /** A pushed key that the node does not hold is stored with the pushed value; one that it holds is taken in
      like any other write, with the pushed clock. */
  lemma {:induction false} PushStores(mine: Store, theirs: Store, keys: set<Key>, c: NodeId, target: NodeId, now: int,
                                      k: Key)
    requires keys <= mine.Keys && k in keys && ClockFits(ClockOf(mine[k])) && ClockOf(mine[k]) != map[]
    ensures k in AfterPush(mine, theirs, keys, c, target, now)
    ensures AfterPush(mine, theirs, keys, c, target, now)[k] ==
            Put(Entry(theirs, k), Write(mine[k].value, ClockOf(mine[k]), now))
    ensures k !in theirs ==> AfterPush(mine, theirs, keys, c, target, now)[k].value == mine[k].value
  {
    SentFits(PushedValue(mine[k], c, now), now);
  }

  lemma {:induction false} PushOne(e: Option<StoredValue>, v: StoredValue, c: NodeId, target: NodeId, now: int)
    ensures var after := ReplicaWrite(e, Sent(PushedValue(v, c, now), now), false, target, now);
            Leq(EntryClock(e), ClockOf(after)) && (ClockFits(ClockOf(v)) ==> Leq(ClockOf(v), ClockOf(after)))
  {
    var p := PushedValue(v, c, now);
    var s := Stamped(Sent(p, now), target);
    PutJoins(e, Write(s.value, ClockOf(s), now));
    JoinLeast(EntryClock(e), ClockOf(s), map[]);
    if ClockFits(ClockOf(v)) {
      SentFits(p, now);
    }
  }

  // ---------- Progress of a synchronisation ----------

  /** One synchronisation: the stores it starts from, and which of its calls go through. */
  datatype Syncing = Syncing(less: PayloadOrder, bucketOf: Key -> nat, mine: Store, theirs: Store, calls: Calls,
                             now: int)

  predicate Differs(sy: Syncing, k: Key) {
    EntryPayload(sy.less, Entry(sy.mine, k)) != EntryPayload(sy.less, Entry(sy.theirs, k))
  }

  ghost predicate KeySynced(sy: Syncing, k: Key, l: Option<StoredValue>, r: Option<StoredValue>) {
    (l, r) == SyncKeyUnder(sy.less, Entry(sy.mine, k), Entry(sy.theirs, k),
                           sy.calls.fetch(sy.bucketOf(k)), sy.calls.get(k), sy.calls.repair(k), sy.now)
  }

  ghost predicate EntrySynced(sy: Syncing, k: Key, l: Option<StoredValue>, r: Option<StoredValue>, done: bool) {
    if done then KeySynced(sy, k, l, r) else l == Entry(sy.mine, k) && r == Entry(sy.theirs, k)
  }

  /** The keys of the buckets below `bucket`, and those in `done`, are synchronised; all others
      are as they were. */
  ghost predicate SyncedTo(sy: Syncing, a: Store, b: Store, bucket: nat, done: set<Key>) {
    forall k :: EntrySynced(sy, k, Entry(a, k), Entry(b, k), sy.bucketOf(k) < bucket || k in done)
  }

  lemma {:induction false} DiffersExactly(sy: Syncing, a: Store, b: Store, bucket: nat)
    requires SyncedTo(sy, a, b, bucket, {})
    ensures forall k ::
              k in DifferingKeys(BucketData(sy.less, sy.bucketOf, a, bucket),
                                 BucketData(sy.less, sy.bucketOf, b, bucket)) <==>
              sy.bucketOf(k) == bucket && Differs(sy, k)
  {
    forall k ensures sy.bucketOf(k) == bucket ==>
        Entry(a, k) == Entry(sy.mine, k) && Entry(b, k) == Entry(sy.theirs, k) {
      assert EntrySynced(sy, k, Entry(a, k), Entry(b, k), sy.bucketOf(k) < bucket || k in {});
    }
  }

  ghost predicate SameExcept(s: Store, t: Store, key: Key) {
    forall k :: k != key ==> Entry(t, k) == Entry(s, k)
  }

  ghost predicate ReconciledTo(less: PayloadOrder, l: Option<StoredValue>, r: Option<StoredValue>,
                               l': Option<StoredValue>, r': Option<StoredValue>, getOk: bool, repairOk: bool, now: int)
  {
    (l', r') == Reconcile(less, l, r, getOk, repairOk, now)
  }

  lemma {:induction false} DifferingSynced(sy: Syncing, k: Key, l: Option<StoredValue>, r: Option<StoredValue>)
    requires sy.calls.fetch(sy.bucketOf(k)) && Differs(sy, k)
    requires ReconciledTo(sy.less, Entry(sy.mine, k), Entry(sy.theirs, k), l, r, sy.calls.get(k), sy.calls.repair(k),
                          sy.now)
    ensures KeySynced(sy, k, l, r)
  {
  }

  lemma {:induction false} UntouchedKey(sy: Syncing, a: Store, b: Store, bucket: nat, done: seq<Key>, key: Key)
    requires SyncedTo(sy, a, b, bucket, Elements(done)) && sy.bucketOf(key) == bucket && key !in done
    ensures Entry(a, key) == Entry(sy.mine, key) && Entry(b, key) == Entry(sy.theirs, key)
  {
    assert EntrySynced(sy, key, Entry(a, key), Entry(b, key), sy.bucketOf(key) < bucket || key in Elements(done));
  }

  /** Synchronising one more key, where nothing else changes. */
  lemma {:induction false} SyncedMore(sy: Syncing, a: Store, b: Store, a': Store, b': Store, bucket: nat,
                                      done: seq<Key>, key: Key)
    requires SyncedTo(sy, a, b, bucket, Elements(done))
    requires SameExcept(a, a', key) && SameExcept(b, b', key) && KeySynced(sy, key, Entry(a', key), Entry(b', key))
    ensures SyncedTo(sy, a', b', bucket, Elements(done + [key]))
  {
    var before, after := Elements(done), Elements(done + [key]);
    assert after == before + {key};
    forall k ensures EntrySynced(sy, k, Entry(a', k), Entry(b', k), sy.bucketOf(k) < bucket || k in after) {
      assert EntrySynced(sy, k, Entry(a, k), Entry(b, k), sy.bucketOf(k) < bucket || k in before);
    }
  }

  lemma {:induction false} BucketDone(sy: Syncing, a: Store, b: Store, bucket: nat, done: set<Key>)
    requires SyncedTo(sy, a, b, bucket, done)
    requires forall k :: k in done ==> sy.bucketOf(k) == bucket
    requires sy.calls.fetch(bucket) ==> forall k :: sy.bucketOf(k) == bucket && Differs(sy, k) ==> k in done
    requires !sy.calls.fetch(bucket) ==> done == {}
    ensures SyncedTo(sy, a, b, bucket + 1, {})
  {
    forall k ensures EntrySynced(sy, k, Entry(a, k), Entry(b, k), sy.bucketOf(k) < bucket + 1 || k in {}) {
      assert EntrySynced(sy, k, Entry(a, k), Entry(b, k), sy.bucketOf(k) < bucket || k in done);
    }
  }

  lemma {:induction false} AllSynced(sy: Syncing, a: Store, b: Store)
    requires SyncedTo(sy, a, b, MERKLE_BUCKETS, {}) && forall k :: sy.bucketOf(k) < MERKLE_BUCKETS
    ensures (a, b) == SyncStoresUnder(sy.less, sy.mine, sy.theirs, sy.bucketOf, sy.calls, sy.now)
  {
    var (a', b') := SyncStoresUnder(sy.less, sy.mine, sy.theirs, sy.bucketOf, sy.calls, sy.now);
    forall k ensures Entry(a, k) == Entry(a', k) && Entry(b, k) == Entry(b', k) {
      assert EntrySynced(sy, k, Entry(a, k), Entry(b, k), true);
      SyncEntriesUnder(sy.less, sy.mine, sy.theirs, sy.bucketOf, sy.calls, sy.now, k);
    }
    SameEntries(a, a');
    SameEntries(b, b');
  }

  lemma {:induction false} SyncAtIs(less: PayloadOrder, bucketOf: Key -> nat, cl: Cluster, next: Cluster, c: NodeId,
                                    p: NodeId, up: set<NodeId>, calls: Calls, now: int)
    requires c in cl && p in cl && p != c && next.Keys == cl.Keys
    requires (next[c], next[p]) ==
             if p in up then SyncStoresUnder(less, cl[c], cl[p], bucketOf, calls, now) else (cl[c], cl[p])
    requires forall n :: n in cl && n != c && n != p ==> next[n] == cl[n]
    ensures next == SyncAtUnder(less, bucketOf, cl, c, p, up, calls, now)
  {
  }
}
