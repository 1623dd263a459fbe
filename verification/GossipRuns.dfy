/** Runs of the whole gossip protocol, from before the first service starts. Services start, and
    restart, at any time; a message stays in `sent` and may be delivered any number of times, late
    or never; a sender works with a copy of a record that may be out of date. `sighted` holds the
    latest time at which anyone had reason to date a record of a node: direct contact (a message
    from it was received, or it acknowledged one), the start of a service that lists it, or a
    question about it at a service that did not know it. */
module GossipRuns {
  import opened Clocks
  import opened Gossip

  datatype View = View(heartbeat: int, members: Members)

  datatype Message = Message(sender: NodeId, heartbeat: int, members: Members)

  /** `beats` is the highest heartbeat each node ever had, over all its restarts; `seen` holds every
      record that ever stood in some view. */
  datatype World = World(now: int, views: map<NodeId, View>, beats: map<NodeId, int>, sent: set<Message>,
                         seen: set<Member>, sighted: map<NodeId, int>)

  /** `Acked` and `Unreachable` are the two endings of a send to the node that `target` is a copy
      of. */
  datatype Step =
    | Tick(d: nat)
    | Start(n: NodeId, listed: set<NodeId>)
    | Beat(n: NodeId)
    | Send(n: NodeId)
    | Deliver(msg: Message, n: NodeId)
    | Acked(n: NodeId, target: Member)
    | Unreachable(n: NodeId, target: Member)
    | Check(n: NodeId)
    | Ask(n: NodeId, x: NodeId)
    | ForceDown(n: NodeId, x: NodeId)

  ghost predicate Enabled(w: World, s: Step) {
    match s
    case Tick(_) => true
    case Start(_, _) => true
    case Deliver(msg, n) => msg in w.sent && n in w.views && n != msg.sender
    case Acked(n, target) => n in w.views && target in w.seen && target.id != n
    case Unreachable(n, target) => n in w.views && target in w.seen && target.id != n
    case _ => s.n in w.views
  }

  function Beats(w: World, x: NodeId): int {
    if x in w.beats then w.beats[x] else 0
  }

  /** The nodes of `xs` were sighted at time t. */
  function Noted(sighted: map<NodeId, int>, xs: set<NodeId>, t: int): map<NodeId, int> {
    map x | x in sighted.Keys + xs :: if x in xs && (x !in sighted || sighted[x] < t) then t else sighted[x]
  }

  function WithMembers(w: World, n: NodeId, members: Members): World
    requires n in w.views
  {
    w.(views := w.views[n := w.views[n].(members := members)],
       seen := w.seen + (set x | x in members :: members[x]))
  }

  function Beaten(w: World, n: NodeId, heartbeat: int): World
    requires n in w.views
  {
    w.(views := w.views[n := w.views[n].(heartbeat := heartbeat)],
       beats := w.beats[n := if Beats(w, n) < heartbeat then heartbeat else Beats(w, n)])
  }

  /** What asking about an unknown node does. */
  function Suspecting(w: World, n: NodeId, x: NodeId): World
    requires n in w.views
  {
    WithMembers(w.(sighted := Noted(w.sighted, {x}, w.now - ASKED_AGE)), n, Asked(n, w.views[n].members, x, w.now))
  }

  function Next(w: World, s: Step): World {
    match s
    case Tick(d) => w.(now := w.now + d)
    case Start(n, listed) =>
      WithMembers(w.(views := w.views[n := View(0, map[])], sighted := Noted(w.sighted, listed - {n}, w.now)),
                  n, Listed(n, listed, w.now))
    case Beat(n) => if n in w.views then Beaten(w, n, w.views[n].heartbeat + 1) else w
    case Send(n) =>
      if n in w.views then w.(sent := w.sent + {Message(n, w.views[n].heartbeat, w.views[n].members)}) else w
    case Deliver(msg, n) =>
      if n !in w.views then w
      else WithMembers(w.(sighted := Noted(w.sighted, {msg.sender}, w.now)), n,
                       Received(n, w.views[n].members, msg.sender, msg.heartbeat, msg.members, w.now))
    case Acked(n, target) =>
      if n !in w.views then w
      else
        var met := w.(sighted := Noted(w.sighted, {target.id}, w.now));
        if target.status == Alive then met
        else WithMembers(met, n, w.views[n].members[target.id := target.(status := Alive, lastSeen := w.now)])
    case Unreachable(n, target) =>
      if n !in w.views then w
      else WithMembers(w, n, w.views[n].members[target.id := target.(status := Suspected)])
    case Check(n) =>
      if n !in w.views then w
      else WithMembers(w, n, CheckedAll(n, w.views[n].members, w.now))
    case Ask(n, x) => if n in w.views && x != n && x !in w.views[n].members then Suspecting(w, n, x) else w
    case ForceDown(n, x) =>
      if n !in w.views then w
      else WithMembers(w, n, Forced(n, w.views[n].members, x, w.now))
  }

  function After(w: World, steps: seq<Step>): World {
    if steps == [] then w else Next(After(w, steps[..|steps| - 1]), steps[|steps| - 1])
  }

  ghost predicate Run(w: World, steps: seq<Step>) {
    steps != [] ==> Run(w, steps[..|steps| - 1]) && Enabled(After(w, steps[..|steps| - 1]), steps[|steps| - 1])
  }

  /** No service has started yet. */
  ghost predicate Unstarted(w: World) {
    w.views == map[] && w.beats == map[] && w.sent == {} && w.seen == {} && w.sighted == map[]
  }

  // ---------- The global invariant ----------

  /** Nobody's record of a node runs ahead of the node: not its heartbeat, and not its last sighting,
      unless the record is too old to matter. */
  ghost predicate Truthful(w: World, m: Member) {
    && m.heartbeat <= Beats(w, m.id)
    && (w.now - m.lastSeen > FAILURE_TIMEOUT || (m.id in w.sighted && m.lastSeen <= w.sighted[m.id]))
  }

  ghost predicate AllTruthful(w: World, members: Members) {
    forall x :: x in members ==> members[x].id == x && Truthful(w, members[x])
  }

  ghost predicate TruthfulMessage(w: World, msg: Message) {
    msg.heartbeat <= Beats(w, msg.sender) && AllTruthful(w, msg.members)
  }

  ghost predicate TruthfulView(w: World, n: NodeId)
    requires n in w.views
  {
    0 <= w.views[n].heartbeat <= Beats(w, n) && AllTruthful(w, w.views[n].members)
  }

  ghost predicate Inv(w: World) {
    && (forall x :: x in w.sighted ==> w.sighted[x] <= w.now)
    && (forall x :: x in w.beats ==> 0 <= w.beats[x])
    && (forall n :: n in w.views ==> TruthfulView(w, n))
    && (forall msg :: msg in w.sent ==> TruthfulMessage(w, msg))
    && (forall m :: m in w.seen ==> Truthful(w, m))
  }

  /** What every step does to the measures that records are held against. */
  ghost predicate Grows(w: World, v: World) {
    && w.now <= v.now
    && (forall x {:trigger Beats(v, x)} :: Beats(w, x) <= Beats(v, x))
    && (forall x :: x in w.sighted ==> x in v.sighted && w.sighted[x] <= v.sighted[x])
  }

  lemma {:induction false} GrowsAllTruthful(w: World, v: World, members: Members)
    requires Grows(w, v) && AllTruthful(w, members)
    ensures AllTruthful(v, members)
  {
  }

  lemma {:induction false} ReceivedTruthful(w: World, self: NodeId, members: Members, sender: NodeId, heartbeat: int,
                                            reports: Members)
    requires AllTruthful(w, members) && AllTruthful(w, reports) && Truthful(w, Member(sender, heartbeat, Alive, w.now))
    ensures AllTruthful(w, Received(self, members, sender, heartbeat, reports, w.now))
  {
  }

  /** A step that changes no record keeps the invariant as long as the measures grow. */
  lemma {:induction false} GrowsInv(w: World, v: World)
    requires Inv(w) && Grows(w, v) && v.sent == w.sent && v.seen == w.seen && v.views.Keys == w.views.Keys
    requires forall n :: n in w.views ==>
               v.views[n].members == w.views[n].members && 0 <= v.views[n].heartbeat <= Beats(v, n)
    requires forall x :: x in v.sighted ==> v.sighted[x] <= v.now
    requires forall x :: x in v.beats ==> 0 <= v.beats[x]
    ensures Inv(v)
  {
    forall n | n in v.views ensures TruthfulView(v, n) {
      assert TruthfulView(w, n);
      GrowsAllTruthful(w, v, w.views[n].members);
    }
    forall msg | msg in v.sent ensures TruthfulMessage(v, msg) {
      GrowsAllTruthful(w, v, msg.members);
    }
  }

  /** A node may take any view made of truthful records. */
  lemma {:induction false} WithMembersInv(w: World, n: NodeId, members: Members)
    requires Inv(w) && n in w.views && AllTruthful(w, members)
    ensures Inv(WithMembers(w, n, members)) && Grows(w, WithMembers(w, n, members))
  {
    var v := WithMembers(w, n, members);
    assert Grows(w, v);
    forall x | x in v.views ensures TruthfulView(v, x) {
      assert TruthfulView(w, x);
      GrowsAllTruthful(w, v, v.views[x].members);
    }
    forall msg | msg in v.sent ensures TruthfulMessage(v, msg) {
      GrowsAllTruthful(w, v, msg.members);
    }
  }

  /** Sightings, at most now. */
  lemma {:induction false} NotedInv(w: World, xs: set<NodeId>, t: int)
    requires Inv(w) && t <= w.now
    ensures var v := w.(sighted := Noted(w.sighted, xs, t));
            Inv(v) && Grows(w, v)
  {
    var v := w.(sighted := Noted(w.sighted, xs, t));
    assert Grows(w, v);
    forall n | n in v.views ensures 0 <= v.views[n].heartbeat <= Beats(v, n) {
      assert TruthfulView(w, n);
    }
    GrowsInv(w, v);
  }

  lemma {:induction false} StartInv(w: World, n: NodeId, listed: set<NodeId>)
    requires Inv(w)
    ensures Inv(Next(w, Start(n, listed))) && Grows(w, Next(w, Start(n, listed)))
  {
    var noted := w.(sighted := Noted(w.sighted, listed - {n}, w.now));
    NotedInv(w, listed - {n}, w.now);
    EmptyViewInv(noted, n);
    var up := noted.(views := noted.views[n := View(0, map[])]);
    assert AllTruthful(up, Listed(n, listed, w.now));
    WithMembersInv(up, n, Listed(n, listed, w.now));
  }

  lemma {:induction false} EmptyViewInv(w: World, n: NodeId)
    requires Inv(w)
    ensures var v := w.(views := w.views[n := View(0, map[])]);
            Inv(v) && Grows(w, v)
  {
    var v := w.(views := w.views[n := View(0, map[])]);
    assert Grows(w, v);
    forall x | x in v.views ensures TruthfulView(v, x) {
      if x != n {
        assert TruthfulView(w, x);
        GrowsAllTruthful(w, v, w.views[x].members);
      }
    }
    forall msg | msg in v.sent ensures TruthfulMessage(v, msg) {
      GrowsAllTruthful(w, v, msg.members);
    }
  }

  lemma {:induction false} BeatInv(w: World, n: NodeId)
    requires Inv(w) && n in w.views
    ensures Inv(Next(w, Beat(n))) && Grows(w, Next(w, Beat(n)))
  {
    var v := Next(w, Beat(n));
    assert Grows(w, v);
    forall x | x in w.views ensures 0 <= v.views[x].heartbeat <= Beats(v, x) {
      assert TruthfulView(w, x);
    }
    GrowsInv(w, v);
  }

  lemma {:induction false} SendInv(w: World, n: NodeId)
    requires Inv(w) && n in w.views
    ensures Inv(Next(w, Send(n))) && Grows(w, Next(w, Send(n)))
  {
    var v := Next(w, Send(n));
    assert TruthfulView(w, n);
    forall msg | msg in v.sent ensures TruthfulMessage(v, msg) {
      GrowsAllTruthful(w, v, msg.members);
    }
    forall x | x in v.views ensures TruthfulView(v, x) {
      assert TruthfulView(w, x);
      GrowsAllTruthful(w, v, w.views[x].members);
    }
  }

  lemma {:induction false} DeliverInv(w: World, msg: Message, n: NodeId)
    requires Inv(w) && Enabled(w, Deliver(msg, n))
    ensures Inv(Next(w, Deliver(msg, n))) && Grows(w, Next(w, Deliver(msg, n)))
  {
    var met := w.(sighted := Noted(w.sighted, {msg.sender}, w.now));
    NotedInv(w, {msg.sender}, w.now);
    assert TruthfulMessage(met, msg) && TruthfulView(met, n);
    ReceivedTruthful(met, n, met.views[n].members, msg.sender, msg.heartbeat, msg.members);
    WithMembersInv(met, n, Received(n, met.views[n].members, msg.sender, msg.heartbeat, msg.members, w.now));
  }

  lemma {:induction false} StoredInv(w: World, n: NodeId, m: Member)
    requires Inv(w) && n in w.views && Truthful(w, m)
    ensures var v := WithMembers(w, n, w.views[n].members[m.id := m]);
            Inv(v) && Grows(w, v)
  {
    assert TruthfulView(w, n);
    assert AllTruthful(w, w.views[n].members[m.id := m]);
    WithMembersInv(w, n, w.views[n].members[m.id := m]);
  }

  lemma {:induction false} CheckInv(w: World, n: NodeId)
    requires Inv(w) && n in w.views
    ensures Inv(Next(w, Check(n))) && Grows(w, Next(w, Check(n)))
  {
    var checked := CheckedAll(n, w.views[n].members, w.now);
    assert TruthfulView(w, n);
    assert AllTruthful(w, checked);
    WithMembersInv(w, n, checked);
  }

  lemma {:induction false} AskInv(w: World, n: NodeId, x: NodeId)
    requires Inv(w) && n in w.views && x != n && x !in w.views[n].members
    ensures Inv(Suspecting(w, n, x)) && Grows(w, Suspecting(w, n, x))
  {
    var m := Member(x, 0, Suspected, w.now - ASKED_AGE);
    SuspectingIs(w, n, x, m);
    SightedStoredInv(w, n, m);
  }

  lemma {:induction false} SuspectingIs(w: World, n: NodeId, x: NodeId, m: Member)
    requires n in w.views && x != n && x !in w.views[n].members && m == Member(x, 0, Suspected, w.now - ASKED_AGE)
    ensures Suspecting(w, n, x) ==
            WithMembers(w.(sighted := Noted(w.sighted, {m.id}, m.lastSeen)), n, w.views[n].members[m.id := m])
  {
  }

  /** A new record that is dated by its own sighting. */
  lemma {:induction false} SightedStoredInv(w: World, n: NodeId, m: Member)
    requires Inv(w) && n in w.views && m.lastSeen <= w.now && m.heartbeat <= Beats(w, m.id)
    ensures var v := WithMembers(w.(sighted := Noted(w.sighted, {m.id}, m.lastSeen)), n, w.views[n].members[m.id := m]);
            Inv(v) && Grows(w, v)
  {
    var noted := w.(sighted := Noted(w.sighted, {m.id}, m.lastSeen));
    NotedInv(w, {m.id}, m.lastSeen);
    StoredInv(noted, n, m);
    GrowsTransitive(w, noted, WithMembers(noted, n, noted.views[n].members[m.id := m]));
  }

  lemma {:induction false} GrowsTransitive(u: World, v: World, w: World)
    requires Grows(u, v) && Grows(v, w)
    ensures Grows(u, w)
  {
  }

  /** A node forced down is dated too far back to be taken for alive. */
  lemma {:induction false} ForceDownInv(w: World, n: NodeId, x: NodeId)
    requires Inv(w) && n in w.views
    ensures Inv(Next(w, ForceDown(n, x))) && Grows(w, Next(w, ForceDown(n, x)))
  {
    assert TruthfulView(w, n);
    if x == n {
      WithMembersInv(w, n, w.views[n].members);
    } else {
      StoredInv(w, n, Forced(n, w.views[n].members, x, w.now)[x]);
    }
  }

  lemma {:induction false} NextInv(w: World, s: Step)
    requires Inv(w) && Enabled(w, s)
    ensures Inv(Next(w, s)) && Grows(w, Next(w, s))
  {
    match s {
      case Tick(_) => TickInv(w, s);
      case Start(n, listed) => StartInv(w, n, listed);
      case Beat(n) => BeatInv(w, n);
      case Send(n) => SendInv(w, n);
      case Deliver(msg, n) => DeliverInv(w, msg, n);
      case Acked(n, target) =>
        NotedInv(w, {target.id}, w.now);
        SightedStoredInv(w, n, target.(status := Alive, lastSeen := w.now));
      case Unreachable(n, target) => StoredInv(w, n, target.(status := Suspected));
      case Check(n) => CheckInv(w, n);
      case Ask(n, x) =>
        if x != n && x !in w.views[n].members {
          AskInv(w, n, x);
        }
      case ForceDown(n, x) => ForceDownInv(w, n, x);
    }
  }

  lemma {:induction false} TickInv(w: World, s: Step)
    requires Inv(w) && s.Tick?
    ensures Inv(Next(w, s)) && Grows(w, Next(w, s))
  {
    assert Grows(w, Next(w, s));
    forall n | n in w.views ensures 0 <= w.views[n].heartbeat <= Beats(Next(w, s), n) {
      assert TruthfulView(w, n);
    }
    GrowsInv(w, Next(w, s));
  }

  /** In every run, no record held or on its way claims more heartbeats than its subject ever had,
      or a later sighting than the last one there was reason for. */
  lemma {:induction false} RunInv(w: World, steps: seq<Step>)
    requires Unstarted(w) && Run(w, steps)
    ensures Inv(After(w, steps))
  {
    if steps != [] {
      RunInv(w, steps[..|steps| - 1]);
      NextInv(After(w, steps[..|steps| - 1]), steps[|steps| - 1]);
    }
  }

  /** A node that was started at most once. */
  ghost predicate NotRestarted(w: World, steps: seq<Step>, x: NodeId) {
    steps != [] ==>
      && NotRestarted(w, steps[..|steps| - 1], x)
      && (steps[|steps| - 1].Start? && steps[|steps| - 1].n == x ==> x !in After(w, steps[..|steps| - 1]).views)
  }

  /** Without a restart, the highest heartbeat of a node is the one it has now. */
  lemma {:induction false} OwnHeartbeat(w: World, steps: seq<Step>, x: NodeId)
    requires Unstarted(w) && Run(w, steps) && NotRestarted(w, steps, x)
    ensures BeatsIsOwn(After(w, steps), x)
  {
    if steps != [] {
      var front := steps[..|steps| - 1];
      OwnHeartbeat(w, front, x);
      OwnHeartbeatStep(After(w, front), steps[|steps| - 1], x);
    }
  }

  predicate BeatsIsOwn(w: World, x: NodeId) {
    Beats(w, x) == if x in w.views then w.views[x].heartbeat else 0
  }

  lemma {:induction false} OwnHeartbeatStep(w: World, s: Step, x: NodeId)
    requires BeatsIsOwn(w, x) && (s.Start? && s.n == x ==> x !in w.views)
    ensures BeatsIsOwn(Next(w, s), x)
  {
  }

  // ---------- Completeness of failure detection ----------

  function Later(a: Option<int>, b: Option<int>): Option<int> {
    if a.None? || (b.Some? && a.value < b.value) then b else a
  }

  /** The step is direct contact with `x`. */
  predicate Contact(s: Step, x: NodeId) {
    (s.Deliver? && s.msg.sender == x) || (s.Acked? && s.target.id == x)
  }

  /** The time at which a step sights `x`, if it does. */
  function Sighting(w: World, s: Step, x: NodeId): Option<int> {
    if Contact(s, x) || (s.Start? && x in s.listed && x != s.n) then Some(w.now)
    else if s.Ask? && s.x == x && x != s.n && s.n in w.views && x !in w.views[s.n].members then Some(w.now - ASKED_AGE)
    else None
  }

  function LastSighting(w: World, steps: seq<Step>, x: NodeId): Option<int> {
    if steps == [] then None
    else
      var front := steps[..|steps| - 1];
      Later(LastSighting(w, front, x), Sighting(After(w, front), steps[|steps| - 1], x))
  }

  function LastContact(w: World, steps: seq<Step>, x: NodeId): Option<int> {
    if steps == [] then None
    else
      var front := steps[..|steps| - 1];
      if Contact(steps[|steps| - 1], x) then Some(After(w, front).now) else LastContact(w, front, x)
  }

  function SightedAt(w: World, x: NodeId): Option<int> {
    if x in w.sighted then Some(w.sighted[x]) else None
  }

  lemma {:induction false} SightingMoves(w: World, s: Step, x: NodeId)
    requires Enabled(w, s)
    ensures SightedAt(Next(w, s), x) == Later(SightedAt(w, x), Sighting(w, s, x))
  {
  }

  lemma {:induction false} SightedIsLast(w: World, steps: seq<Step>, x: NodeId)
    requires Unstarted(w) && Run(w, steps)
    ensures SightedAt(After(w, steps), x) == LastSighting(w, steps, x)
  {
    if steps != [] {
      var front := steps[..|steps| - 1];
      SightedIsLast(w, front, x);
      SightingMoves(After(w, front), steps[|steps| - 1], x);
    }
  }

  /** However much gossip about `x` is still going around, any status check more than the failure
      timeout after the last sighting of `x` marks it down. */
  lemma {:induction false} DeadIsDown(w: World, steps: seq<Step>, n: NodeId, x: NodeId)
    requires Unstarted(w) && Run(w, steps)
    requires var v := After(w, steps);
             && n in v.views && x in v.views[n].members && x != n
             && forall t :: LastSighting(w, steps, x) == Some(t) ==> v.now > t + FAILURE_TIMEOUT
    ensures StatusAt(Next(After(w, steps), Check(n)), n, x) == Some(Down)
  {
    RunInv(w, steps);
    SightedIsLast(w, steps, x);
    StaleIsDown(After(w, steps), n, x);
  }

  lemma {:induction false} StaleIsDown(w: World, n: NodeId, x: NodeId)
    requires Inv(w) && n in w.views && x in w.views[n].members && x != n
    requires x in w.sighted ==> w.now > w.sighted[x] + FAILURE_TIMEOUT
    ensures StatusAt(Next(w, Check(n)), n, x) == Some(Down)
  {
    assert TruthfulView(w, n);
  }

  /** Only a timeout, or an explicit order, declares a known node down: reports of failure, however
      many, do not. */
  lemma {:induction false} DownOnlyByTimeout(w: World, s: Step, n: NodeId, x: NodeId)
    requires Inv(w) && Enabled(w, s) && n in w.views && x in w.views[n].members
    requires w.views[n].members[x].status != Down
    ensures StatusAt(Next(w, s), n, x) == Some(Down) <==>
            x != n && (s == ForceDown(n, x) ||
                       (s == Check(n) && w.now - w.views[n].members[x].lastSeen > FAILURE_TIMEOUT))
  {
    if s.Deliver? && s.n == n {
      ReportsOnlySuspect(w, s.msg, n, x);
    } else {
      assert TruthfulView(w, n);
    }
  }

  lemma {:induction false} ReportsOnlySuspect(w: World, msg: Message, n: NodeId, x: NodeId)
    requires n in w.views && x in w.views[n].members && w.views[n].members[x].status != Down
    ensures var m' := Next(w, Deliver(msg, n)).views[n].members;
            x in m' && m'[x].status != Down
  {
  }

  /** What a delivered message does to the record of a known node: it raises the heartbeat to the highest
      one reported, revives a node whose raised heartbeat somebody vouches for, and suspects one that is
      reported down. */
  lemma {:induction false} DeliveryTakenIn(w: World, msg: Message, n: NodeId, x: NodeId)
    requires Inv(w) && Enabled(w, Deliver(msg, n)) && x in w.views[n].members && x != n && x != ""
    ensures var m, v := w.views[n].members[x], Next(w, Deliver(msg, n));
            && n in v.views && x in v.views[n].members
            && (HeartbeatAt(v, n, x) == Max(Max(m.heartbeat, if x == msg.sender then msg.heartbeat else m.heartbeat),
                                            if x in msg.members then msg.members[x].heartbeat else m.heartbeat))
            && (Vouched(m, x, msg.sender, msg.heartbeat, msg.members) && !ReportedDown(x, msg.members) ==>
                  StatusAt(v, n, x) == Some(Alive))
            && (ReportedDown(x, msg.members) && m.status != Down ==> StatusAt(v, n, x) == Some(Suspected))
            && (!Vouched(m, x, msg.sender, msg.heartbeat, msg.members) && !ReportedDown(x, msg.members) ==>
                  StatusAt(v, n, x) == Some(m.status))
  {
    assert TruthfulView(w, n) && TruthfulMessage(w, msg);
    ReceivedRecord(n, w.views[n].members, msg.sender, msg.heartbeat, msg.members, w.now, x);
  }

  /** What the two endings of a send leave on record. */
  lemma {:induction false} SendRecorded(w: World, n: NodeId, target: Member, x: NodeId)
    requires n in w.views
    ensures var acked := Next(w, Acked(n, target)).views[n].members;
            && (target.status != Alive ==>
                target.id in acked && acked[target.id] == Member(target.id, target.heartbeat, Alive, w.now))
            && (x != target.id || target.status == Alive ==> RecordAt(acked, x) == RecordAt(w.views[n].members, x))
    ensures var failed := Next(w, Unreachable(n, target)).views[n].members;
            && target.id in failed &&
               failed[target.id] == Member(target.id, target.heartbeat, Suspected, target.lastSeen)
            && (x != target.id ==> RecordAt(failed, x) == RecordAt(w.views[n].members, x))
  {
  }

  /** A check leaves every record as it was, except that its status, but for the node's own, becomes the one
      due after the time since its date. */
  lemma {:induction false} CheckRecorded(w: World, n: NodeId, x: NodeId)
    requires Inv(w) && n in w.views
    ensures var m, m' := w.views[n].members, Next(w, Check(n)).views[n].members;
            && (x in m' <==> x in m)
            && (x in m ==>
                  m'[x] == m[x].(status := if x == n then m[x].status else Due(w.now - m[x].lastSeen)))
  {
    assert TruthfulView(w, n);
    assert x in w.views[n].members ==> w.views[n].members[x].id == x;
  }

  function RecordAt(members: Members, x: NodeId): Option<Member> {
    if x in members then Some(members[x]) else None
  }

  // ---------- Revivals are bounded ----------

  function StatusAt(w: World, n: NodeId, x: NodeId): Option<Status> {
    if n in w.views && x in w.views[n].members then Some(w.views[n].members[x].status) else None
  }

  function HeartbeatAt(w: World, n: NodeId, x: NodeId): int {
    if n in w.views && x in w.views[n].members then w.views[n].members[x].heartbeat else 0
  }

  /** Node `n` hears nothing directly from or to `x` in this step, does not restart, and checks
      statuses only when the suspicion timeout since the last sighting of `x` has passed. */
  ghost predicate Silent(w: World, s: Step, n: NodeId, x: NodeId) {
    match s
    case Start(m, _) => m != n
    case Deliver(msg, m) => m == n ==> msg.sender != x
    case Acked(m, target) => m == n ==> target.id != x
    case Unreachable(m, target) => m == n ==> target.id != x
    case Check(m) => m == n && x in w.sighted ==> w.now > w.sighted[x] + SUSPICION_TIMEOUT
    case _ => true
  }

  ghost predicate SilentRun(w: World, steps: seq<Step>, n: NodeId, x: NodeId) {
    steps != [] ==>
      && SilentRun(w, steps[..|steps| - 1], n, x)
      && Enabled(After(w, steps[..|steps| - 1]), steps[|steps| - 1])
      && Silent(After(w, steps[..|steps| - 1]), steps[|steps| - 1], n, x)
  }

  /** How often `x` goes from not alive to alive in the view of `n`. */
  function Revivals(w: World, steps: seq<Step>, n: NodeId, x: NodeId): nat {
    if steps == [] then 0
    else
      var front := steps[..|steps| - 1];
      Revivals(w, front, n, x) +
      if StatusAt(After(w, front), n, x) != Some(Alive) && StatusAt(After(w, steps), n, x) == Some(Alive) then 1 else 0
  }

  lemma {:induction false} SilentStep(w: World, s: Step, n: NodeId, x: NodeId)
    requires Inv(w) && Enabled(w, s) && Silent(w, s, n, x) && n in w.views && x in w.views[n].members && x != n
    ensures var v := Next(w, s);
            && n in v.views && x in v.views[n].members
            && HeartbeatAt(w, n, x) <= HeartbeatAt(v, n, x)
            && (StatusAt(w, n, x) != Some(Alive) && StatusAt(v, n, x) == Some(Alive) ==>
                  HeartbeatAt(w, n, x) < HeartbeatAt(v, n, x))
  {
    assert TruthfulView(w, n) && Truthful(w, w.views[n].members[x]);
    if s.Deliver? && s.n == n {
      SilentDelivery(w, s.msg, n, x);
    } else if s.Check? && s.n == n {
      SilentCheck(w, n, x);
    }
  }

  lemma {:induction false} SilentCheck(w: World, n: NodeId, x: NodeId)
    requires n in w.views && x in w.views[n].members && n != x && w.views[n].members[x].id == x
    requires Truthful(w, w.views[n].members[x]) && Silent(w, Check(n), n, x)
    ensures var m, m' := w.views[n].members[x], Next(w, Check(n)).views[n].members;
            x in m' && m.heartbeat == m'[x].heartbeat && m'[x].status != Alive
  {
  }

  /** A message from someone else. */
  lemma {:induction false} SilentDelivery(w: World, msg: Message, n: NodeId, x: NodeId)
    requires n in w.views && x in w.views[n].members && msg.sender != x && n != x
    ensures var m, m' := w.views[n].members[x], Next(w, Deliver(msg, n)).views[n].members;
            && x in m' && m.heartbeat <= m'[x].heartbeat
            && (m.status != Alive && m'[x].status == Alive ==> m.heartbeat < m'[x].heartbeat)
  {
  }

  /** Once `n` is out of touch with `x`, it revives `x` at most as often as reports can still raise
      the heartbeat it has on record, up to the highest heartbeat of `x` itself. */
  lemma {:induction false} RevivalsBounded(w: World, steps: seq<Step>, n: NodeId, x: NodeId)
    requires Inv(w) && SilentRun(w, steps, n, x) && n in w.views && x in w.views[n].members && x != n
    ensures var v := After(w, steps);
            && Inv(v) && n in v.views && x in v.views[n].members
            && HeartbeatAt(w, n, x) + Revivals(w, steps, n, x) <= HeartbeatAt(v, n, x) <= Beats(v, x)
  {
    if steps == [] {
      assert TruthfulView(w, n);
    } else {
      var front := steps[..|steps| - 1];
      RevivalsBounded(w, front, n, x);
      SilentStep(After(w, front), steps[|steps| - 1], n, x);
      NextInv(After(w, front), steps[|steps| - 1]);
      assert TruthfulView(After(w, steps), n);
    }
  }

  // ---------- Accuracy ----------

  /** The step makes `n` date its record of `x` now: a message from x, or a start that lists x. */
  predicate Dates(s: Step, n: NodeId, x: NodeId) {
    && x != n && x != ""
    && ((s.Deliver? && s.n == n && s.msg.sender == x) || (s.Start? && s.n == n && x in s.listed))
  }

  /** The step leaves the date of the record of `x` at `n` where it is, or moves it forward: it is
      not a failed send that puts an outdated copy back, nor an order to take x for down, and n does
      not lose its view. */
  predicate KeepsDate(s: Step, n: NodeId, x: NodeId) {
    match s
    case Unreachable(m, target) => !(m == n && target.id == x)
    case ForceDown(m, y) => !(m == n && y == x)
    case Start(m, listed) => m == n ==> x in listed
    case _ => true
  }

  ghost predicate DateKept(w: World, steps: seq<Step>, n: NodeId, x: NodeId) {
    steps != [] ==>
      && DateKept(w, steps[..|steps| - 1], n, x)
      && Enabled(After(w, steps[..|steps| - 1]), steps[|steps| - 1])
      && KeepsDate(steps[|steps| - 1], n, x)
  }

  /** The record of `x` at `n` dates from time t or later. */
  ghost predicate DatedFrom(w: World, n: NodeId, x: NodeId, t: int) {
    n in w.views && x in w.views[n].members && w.views[n].members[x].lastSeen >= t && w.now >= t
  }

  lemma {:induction false} StepKeepsDate(w: World, s: Step, n: NodeId, x: NodeId, t: int)
    requires Inv(w) && Enabled(w, s) && x != n && x != "" && DatedFrom(w, n, x, t) && KeepsDate(s, n, x)
    ensures DatedFrom(Next(w, s), n, x, t)
  {
    if s.Deliver? && s.n == n {
      DeliveryKeepsDate(w, s.msg, n, x);
    } else {
      assert TruthfulView(w, n);
    }
  }

  lemma {:induction false} DeliveryKeepsDate(w: World, msg: Message, n: NodeId, x: NodeId)
    requires n in w.views && x in w.views[n].members
    ensures var m, m' := w.views[n].members[x], Next(w, Deliver(msg, n)).views[n].members;
            x in m' && m.lastSeen <= m'[x].lastSeen
  {
  }

  lemma {:induction false} DateHolds(w: World, steps: seq<Step>, n: NodeId, x: NodeId, t: int)
    requires Inv(w) && DateKept(w, steps, n, x) && x != n && x != "" && DatedFrom(w, n, x, t)
    ensures Inv(After(w, steps)) && DatedFrom(After(w, steps), n, x, t)
  {
    if steps != [] {
      var front := steps[..|steps| - 1];
      DateHolds(w, front, n, x, t);
      StepKeepsDate(After(w, front), steps[|steps| - 1], n, x, t);
      NextInv(After(w, front), steps[|steps| - 1]);
    }
  }

  lemma {:induction false} DatedNow(w: World, s: Step, n: NodeId, x: NodeId)
    requires Inv(w) && Enabled(w, s) && Dates(s, n, x)
    ensures DatedFrom(Next(w, s), n, x, w.now) && Next(w, s).now == w.now
  {
  }

  /** A node heard from directly, or listed at a start, is alive at every check within the suspicion
      timeout, as long as its record is not overwritten by an outdated one. */
  lemma {:induction false} HeardIsAlive(w: World, s: Step, steps: seq<Step>, n: NodeId, x: NodeId)
    requires Inv(w) && Enabled(w, s) && Dates(s, n, x) && DateKept(Next(w, s), steps, n, x)
    requires After(Next(w, s), steps).now <= w.now + SUSPICION_TIMEOUT
    ensures StatusAt(Next(After(Next(w, s), steps), Check(n)), n, x) == Some(Alive)
  {
    DatedAfter(w, s, steps, n, x);
    FreshIsAlive(After(Next(w, s), steps), n, x, w.now);
  }

  lemma {:induction false} DatedAfter(w: World, s: Step, steps: seq<Step>, n: NodeId, x: NodeId)
    requires Inv(w) && Enabled(w, s) && Dates(s, n, x) && DateKept(Next(w, s), steps, n, x)
    ensures Inv(After(Next(w, s), steps)) && DatedFrom(After(Next(w, s), steps), n, x, w.now)
  {
    NextInv(w, s);
    DatedNow(w, s, n, x);
    DateHolds(Next(w, s), steps, n, x, w.now);
  }

  lemma {:induction false} FreshIsAlive(w: World, n: NodeId, x: NodeId, t: int)
    requires Inv(w) && DatedFrom(w, n, x, t) && x != n && w.now <= t + SUSPICION_TIMEOUT
    ensures StatusAt(Next(w, Check(n)), n, x) == Some(Alive)
  {
    assert TruthfulView(w, n);
  }

  /** The status that the time since the last sighting calls for. */
  function Due(elapsed: int): Status {
    if elapsed > FAILURE_TIMEOUT then Down else if elapsed > SUSPICION_TIMEOUT then Suspected else Alive
  }

  /** Where nobody sighted `x` later than `n` did, the check at `n` says exactly what the time since
      then calls for, whatever was gossiped meanwhile. */
  lemma {:induction false} CheckDecides(w: World, s: Step, steps: seq<Step>, n: NodeId, x: NodeId)
    requires Inv(w) && Enabled(w, s) && Dates(s, n, x) && DateKept(Next(w, s), steps, n, x)
    requires SightedAt(After(Next(w, s), steps), x) == Some(w.now)
    ensures var v := After(Next(w, s), steps);
            StatusAt(Next(v, Check(n)), n, x) == Some(Due(v.now - w.now))
  {
    DatedAfter(w, s, steps, n, x);
    StatusDue(After(Next(w, s), steps), n, x, w.now);
  }

  lemma {:induction false} StatusDue(w: World, n: NodeId, x: NodeId, t: int)
    requires Inv(w) && DatedFrom(w, n, x, t) && SightedAt(w, x) == Some(t) && x != n
    ensures StatusAt(Next(w, Check(n)), n, x) == Some(Due(w.now - t))
  {
    assert TruthfulView(w, n);
    assert Truthful(w, w.views[n].members[x]);
  }

  // ---------- Starts count as sightings ----------

  /** A service `d` that lists `x` starts, gossips to `n`, and n checks. */
  function LateStart(w: World, d: NodeId, listed: set<NodeId>, n: NodeId, travel: nat, wait: nat): World {
    var up := Next(Next(w, Start(d, listed)), Send(d));
    Next(Next(Next(up, Tick(travel)), Deliver(Message(d, 0, Listed(d, listed, w.now)), n)), Tick(wait))
  }

  /** Then x is alive at n, however long ago anyone was in contact with it. */
  lemma {:induction false} LateStartRevives(w: World, d: NodeId, listed: set<NodeId>, n: NodeId, x: NodeId,
                                            travel: nat, wait: nat)
    requires Inv(w) && n in w.views && x in listed && x != d && x != n && x != "" && d != n
    requires travel + wait <= SUSPICION_TIMEOUT
    ensures StatusAt(Next(LateStart(w, d, listed, n, travel, wait), Check(n)), n, x) == Some(Alive)
    ensures LateStart(w, d, listed, n, travel, wait).now == w.now + travel + wait
  {
    var up := Next(w, Start(d, listed));
    var sent := Next(up, Send(d));
    var msg := Message(d, 0, Listed(d, listed, w.now));
    NextInv(w, Start(d, listed));
    NextInv(up, Send(d));
    NextInv(sent, Tick(travel));
    var arriving := Next(sent, Tick(travel));
    assert msg in sent.sent && msg.members[x] == Member(x, 0, Alive, w.now);
    ReportDates(arriving, msg, n, x);
    NextInv(arriving, Deliver(msg, n));
    var heard := Next(arriving, Deliver(msg, n));
    NextInv(heard, Tick(wait));
    FreshIsAlive(Next(heard, Tick(wait)), n, x, w.now);
  }

  /** A report moves the date of a record forward to its own. */
  lemma {:induction false} ReportDates(w: World, msg: Message, n: NodeId, x: NodeId)
    requires Inv(w) && Enabled(w, Deliver(msg, n)) && x in msg.members && x != n && x != ""
    requires w.now >= msg.members[x].lastSeen
    ensures DatedFrom(Next(w, Deliver(msg, n)), n, x, msg.members[x].lastSeen)
  {
  }

  lemma {:induction false} AfterMore(w: World, steps: seq<Step>, s: Step, x: NodeId)
    ensures After(w, steps + [s]) == Next(After(w, steps), s)
    ensures Run(w, steps + [s]) <==> Run(w, steps) && Enabled(After(w, steps), s)
    ensures LastContact(w, steps + [s], x) == if Contact(s, x) then Some(After(w, steps).now)
            else LastContact(w, steps, x)
  {
    assert (steps + [s])[..|steps|] == steps;
  }

  /** A late start can follow any run, and is no contact with x. */
  lemma {:induction false} LateStartRun(w: World, steps: seq<Step>, d: NodeId, listed: set<NodeId>, n: NodeId,
                                        x: NodeId, travel: nat, wait: nat) returns (longer: seq<Step>)
    requires Run(w, steps) && n in After(w, steps).views && d != n && x != d
    ensures Run(w, longer) && LastContact(w, longer, x) == LastContact(w, steps, x)
    ensures After(w, longer) == LateStart(After(w, steps), d, listed, n, travel, wait)
  {
    var msg := Message(d, 0, Listed(d, listed, After(w, steps).now));
    AfterMore(w, steps, Start(d, listed), x);
    longer := steps + [Start(d, listed)];
    AfterMore(w, longer, Send(d), x);
    longer := longer + [Send(d)];
    assert msg in After(w, longer).sent && n in After(w, longer).views;
    AfterMore(w, longer, Tick(travel), x);
    longer := longer + [Tick(travel)];
    AfterMore(w, longer, Deliver(msg, n), x);
    longer := longer + [Deliver(msg, n)];
    AfterMore(w, longer, Tick(wait), x);
    longer := longer + [Tick(wait)];
  }

  /** B hears from A, and then nobody does for six seconds. */
  lemma {:induction false} SilentFromZero() returns (w: World, steps: seq<Step>)
    ensures Unstarted(w) && Run(w, steps) && LastContact(w, steps, "A") == Some(0)
    ensures After(w, steps).now == FAILURE_TIMEOUT && "B" in After(w, steps).views
  {
    w := World(0, map[], map[], {}, {}, map[]);
    var msg := Message("A", 0, map[]);
    steps := [];
    AfterMore(w, steps, Start("A", {}), "A");
    steps := steps + [Start("A", {})];
    AfterMore(w, steps, Start("B", {"A"}), "A");
    steps := steps + [Start("B", {"A"})];
    AfterMore(w, steps, Send("A"), "A");
    steps := steps + [Send("A")];
    assert msg in After(w, steps).sent && "B" in After(w, steps).views && After(w, steps).now == 0;
    AfterMore(w, steps, Deliver(msg, "B"), "A");
    steps := steps + [Deliver(msg, "B")];
    AfterMore(w, steps, Tick(FAILURE_TIMEOUT), "A");
    steps := steps + [Tick(FAILURE_TIMEOUT)];
  }

  /** So contact alone does not decide: D starts six seconds after the last contact with A, B hears
      from D a second later, and a second after that, eight after the contact, B takes A for alive. */
  lemma {:induction false} DeadLooksAlive()
    ensures exists w, steps :: && Unstarted(w) && Run(w, steps) && LastContact(w, steps, "A") == Some(0)
                               && After(w, steps).now == 8_000_000_000
                               && StatusAt(Next(After(w, steps), Check("B")), "B", "A") == Some(Alive)
  {
    var w, steps := SilentFromZero();
    RunInv(w, steps);
    var longer := LateStartRun(w, steps, "D", {"A"}, "B", "A", 1_000_000_000, 1_000_000_000);
    LateStartRevives(After(w, steps), "D", {"A"}, "B", "A", 1_000_000_000, 1_000_000_000);
  }
}
