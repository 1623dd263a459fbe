/** One node's membership view: how gossip and timeouts change it. Times are nanoseconds on a
    clock all nodes share. */
module Gossip {
  import opened Clocks
  import opened Sequences

  datatype Status = Alive | Suspected | Down

  datatype Member = Member(id: NodeId, heartbeat: int, status: Status, lastSeen: int)

  type Members = map<NodeId, Member>

  const SUSPICION_TIMEOUT := 3_000_000_000
  const FAILURE_TIMEOUT := 6_000_000_000

  /** How far back an unknown node asked about, and a node forced down, is dated. */
  const ASKED_AGE := 4_000_000_000
  const FORCED_AGE := 15_000_000_000

  /** The view of a service that has just started: every listed node but itself is alive, with no
      heartbeat, seen now. */
  function Listed(self: NodeId, nodes: set<NodeId>, now: int): Members {
    map x | x in nodes && x != self :: Member(x, 0, Alive, now)
  }

  ghost predicate Filed(members: Members) {
    forall x :: x in members ==> members[x].id == x
  }

  /** A known member after a report about it. The last sighting only ever moves forward; the
      status turns alive only with a higher heartbeat; a report of failure merely suspects. */
  function Refreshed(current: Member, report: Member): Member {
    var lastSeen := if report.lastSeen > current.lastSeen then report.lastSeen else current.lastSeen;
    var raised := report.heartbeat > current.heartbeat;
    var heartbeat := if raised then report.heartbeat else current.heartbeat;
    var status := if raised && report.status == Alive then Alive else current.status;
    Member(current.id, heartbeat, if report.status == Down && status != Down then Suspected else status, lastSeen)
  }

  /** updateMember at node `self`. */
  function Updated(self: NodeId, members: Members, report: Member): Members {
    if report.id == "" || report.id == self then members
    else if report.id !in members then members[report.id := report]
    else members[report.id := Refreshed(members[report.id], report)]
  }

  /** The report shows a node back that was not taken for alive; its hints are then handed off. */
  predicate ComesBack(self: NodeId, members: Members, report: Member) {
    && report.id != "" && report.id != self && report.id in members
    && members[report.id].status != Alive && report.heartbeat > members[report.id].heartbeat
  }

  /** The nodes that a gossip message shows back. */
  function Returning(self: NodeId, members: Members, sender: Member, reports: Members): set<NodeId> {
    (if ComesBack(self, members, sender) then {sender.id} else {}) +
    BackAmong(self, Updated(self, members, sender), reports, reports.Keys)
  }

  function BackAmong(self: NodeId, heard: Members, reports: Members, done: set<NodeId>): set<NodeId> {
    set x | x in done && x in reports && ComesBack(self, heard, reports[x])
  }

  /** The view after the reports about `done` have been taken in. Reports are filed under the
      node they are about, so each touches an entry of its own. */
  function TakenIn(self: NodeId, heard: Members, reports: Members, done: set<NodeId>): Members {
    var about := set x | x in done && x in reports && x != "" && x != self;
    map x | x in heard.Keys + about ::
      if x !in about then heard[x] else if x in heard then Refreshed(heard[x], reports[x]) else reports[x]
  }

  lemma {:induction false} TakenInMore(self: NodeId, heard: Members, reports: Members, done: set<NodeId>, x: NodeId)
    requires x in reports && reports[x].id == x && x !in done
    ensures Updated(self, TakenIn(self, heard, reports, done), reports[x]) == TakenIn(self, heard, reports, done + {x})
  {
  }

  /** Whether a report shows a node back does not depend on the reports about other nodes. */
  lemma {:induction false} BackMore(self: NodeId, heard: Members, reports: Members, done: set<NodeId>, x: NodeId)
    requires x in reports && reports[x].id == x && x !in done
    ensures ComesBack(self, TakenIn(self, heard, reports, done), reports[x]) == ComesBack(self, heard, reports[x])
    ensures BackAmong(self, heard, reports, done + {x}) ==
            BackAmong(self, heard, reports, done) + if ComesBack(self, heard, reports[x]) then {x} else {}
  {
  }

  /** The view after a gossip message: the sender is seen now, then every report is taken in. */
  function Received(self: NodeId, members: Members, sender: NodeId, heartbeat: int, reports: Members, now: int)
    : Members
  {
    TakenIn(self, Updated(self, members, Member(sender, heartbeat, Alive, now)), reports, reports.Keys)
  }

  // ---------- What a gossip message does to each record ----------

  function Max(a: int, b: int): int {
    if a < b then b else a
  }

  /** The message raises the recorded heartbeat of x by a report that x is alive; the sender vouches for
      itself. */
  predicate Vouched(m: Member, x: NodeId, sender: NodeId, heartbeat: int, reports: Members) {
    || (x == sender && heartbeat > m.heartbeat)
    || (x in reports && reports[x].status == Alive && reports[x].heartbeat > m.heartbeat
        && (x == sender ==> reports[x].heartbeat > heartbeat))
  }

  predicate ReportedDown(x: NodeId, reports: Members) {
    x in reports && reports[x].status == Down
  }

  /** The record of a known node after a message: the highest heartbeat and the latest date of what was
      recorded and what was reported; alive when vouched for; suspected when reported down, unless it
      was down already; and otherwise with the status it had. */
  lemma {:induction false} ReceivedRecord(self: NodeId, members: Members, sender: NodeId, heartbeat: int,
                                          reports: Members, now: int, x: NodeId)
    requires Filed(members) && Filed(reports) && x in members && x != self && x != ""
    ensures var m, after := members[x], Received(self, members, sender, heartbeat, reports, now);
            && x in after && after[x].id == x
            && after[x].heartbeat == Max(Max(m.heartbeat, if x == sender then heartbeat else m.heartbeat),
                                         if x in reports then reports[x].heartbeat else m.heartbeat)
            && after[x].lastSeen == Max(Max(m.lastSeen, if x == sender then now else m.lastSeen),
                                        if x in reports then reports[x].lastSeen else m.lastSeen)
            && (Vouched(m, x, sender, heartbeat, reports) && !ReportedDown(x, reports) ==> after[x].status == Alive)
            && (ReportedDown(x, reports) && (m.status != Down || Vouched(m, x, sender, heartbeat, reports)) ==>
                  after[x].status == Suspected)
            && (!Vouched(m, x, sender, heartbeat, reports) && (!ReportedDown(x, reports) || m.status == Down) ==>
                  after[x].status == m.status)
  {
  }

  /** A node not known before is recorded as reported; one that is neither the sender nor reported on stays
      unknown, and so does the node itself. */
  lemma {:induction false} NewRecord(self: NodeId, members: Members, sender: NodeId, heartbeat: int, reports: Members,
                                     now: int, x: NodeId)
    requires Filed(members) && Filed(reports) && x !in members
    ensures var after := Received(self, members, sender, heartbeat, reports, now);
            && (x in after <==> x != self && x != "" && (x == sender || x in reports))
            && (x in after && x !in reports ==> after[x] == Member(x, heartbeat, Alive, now))
            && (x in after && x != sender ==> after[x] == reports[x])
  {
  }

  /** The nodes that come back are exactly those that were known and not alive and whose recorded heartbeat
      the message raises. */
  lemma {:induction false} ReturningExactly(self: NodeId, members: Members, sender: NodeId, heartbeat: int,
                                            reports: Members, now: int, x: NodeId)
    requires Filed(members) && Filed(reports)
    ensures x in Returning(self, members, Member(sender, heartbeat, Alive, now), reports) <==>
            && x in members && x != self && x != "" && members[x].status != Alive
            && Received(self, members, sender, heartbeat, reports, now)[x].heartbeat > members[x].heartbeat
  {
  }

  /** The status that the time since the last sighting calls for. */
  function Checked(m: Member, now: int): Member {
    if now - m.lastSeen > FAILURE_TIMEOUT then m.(status := Down)
    else if now - m.lastSeen > SUSPICION_TIMEOUT then m.(status := Suspected)
    else m.(status := Alive)
  }

  function CheckedAll(self: NodeId, members: Members, now: int): Members {
    map x | x in members :: if members[x].id == self then members[x] else Checked(members[x], now)
  }

  /** The view after the status of `x` was asked for: an unknown node is added as suspected. */
  function Asked(self: NodeId, members: Members, x: NodeId, now: int): Members {
    if x == self || x in members then members else members[x := Member(x, 0, Suspected, now - ASKED_AGE)]
  }

  function Forced(self: NodeId, members: Members, x: NodeId, now: int): Members {
    if x == self then members
    else members[x := Member(x, if x in members then members[x].heartbeat else 0, Down, now - FORCED_AGE)]
  }


  class GossipService {
    const self: NodeId
    var heartbeat: int
    var lastSeen: int
    var members: Members

    constructor (nodeId: NodeId, allNodes: seq<NodeId>, now: int)
      ensures self == nodeId && heartbeat == 0 && lastSeen == now && Filed(members)
      ensures members == Listed(nodeId, Elements(allNodes), now)
    {
      self, heartbeat, lastSeen, members := nodeId, 0, now, map[];
      new;
      for i := 0 to |allNodes|
        invariant heartbeat == 0 && lastSeen == now
        invariant members == Listed(nodeId, Elements(allNodes[..i]), now)
      {
        assert Elements(allNodes[..i + 1]) == Elements(allNodes[..i]) + {allNodes[i]};
        if allNodes[i] != nodeId {
          members := members[allNodes[i] := Member(allNodes[i], 0, Alive, now)];
        }
      }
      assert allNodes[..|allNodes|] == allNodes;
    }

    method IncrementHeartbeat(now: int)
      modifies this
      ensures heartbeat == old(heartbeat) + 1 && lastSeen == now && members == old(members)
    {
      heartbeat := heartbeat + 1;
      lastSeen := now;
    }

    method CollectMemberStates() returns (states: Members)
      requires Filed(members)
      ensures states == members
    {
      states := map[];
      var todo := members.Keys;
      while todo != {}
        invariant todo <= members.Keys
        invariant states.Keys == members.Keys - todo
        invariant forall x :: x in states ==> states[x] == members[x]
      {
        var x :| x in todo;
        states := states[members[x].id := members[x]];
        todo := todo - {x};
      }
      assert states.Keys == members.Keys;
    }

    /** `back` says whether the node came back, upon which hints for it are handed off. */
    method UpdateMember(report: Member, now: int) returns (back: bool)
      requires Filed(members)
      modifies this
      ensures back == ComesBack(self, old(members), report)
      ensures members == Updated(self, old(members), report) && Filed(members)
      ensures lastSeen == (if report.id == self && self != "" then now else old(lastSeen)) &&
              heartbeat == old(heartbeat)
    {
      if report.id == "" {
        return false;
      }
      if report.id == self {
        lastSeen := now;
        return false;
      }
      if report.id !in members {
        members := members[report.id := report];
        return false;
      }
      var current := members[report.id];
      back := (current.status == Down || current.status == Suspected) && report.heartbeat > current.heartbeat;
      if report.lastSeen > current.lastSeen {
        current := current.(lastSeen := report.lastSeen);
      }
      if report.heartbeat > current.heartbeat {
        current := current.(heartbeat := report.heartbeat);
        if report.status == Alive {
          current := current.(status := Alive);
        }
      }
      if report.status == Down && current.status != Down {
        current := current.(status := Suspected);
      }
      members := members[report.id := current];
    }

    /** The sender is heard first. The reports come out of a map in an arbitrary order, which does not
        matter. */
    method ProcessGossipPayload(sender: NodeId, heartbeat: int, reports: Members, now: int) returns (back: set<NodeId>)
      requires Filed(members) && Filed(reports)
      modifies this
      ensures back == Returning(self, old(members), Member(sender, heartbeat, Alive, now), reports)
      ensures members == Received(self, old(members), sender, heartbeat, reports, now) && Filed(members)
      ensures lastSeen == if self != "" && (sender == self || self in reports) then now else old(lastSeen)
      ensures this.heartbeat == old(this.heartbeat)
    {
      var senderBack := UpdateMember(Member(sender, heartbeat, Alive, now), now);
      var others := TakeReportsIn(reports, now);
      back := (if senderBack then {sender} else {}) + others;
    }

    method TakeReportsIn(reports: Members, now: int) returns (back: set<NodeId>)
      requires Filed(members) && Filed(reports)
      modifies this
      ensures back == BackAmong(self, old(members), reports, reports.Keys)
      ensures members == TakenIn(self, old(members), reports, reports.Keys) && Filed(members)
      ensures lastSeen == (if self != "" && self in reports then now else old(lastSeen)) && heartbeat == old(heartbeat)
    {
      ghost var heard := members;
      back := {};
      var todo := reports.Keys;
      assert TakenIn(self, heard, reports, {}) == heard;
      while todo != {}
        invariant todo <= reports.Keys && Filed(members) && heartbeat == old(heartbeat)
        invariant lastSeen == if self != "" && self in reports.Keys - todo then now else old(lastSeen)
        invariant members == TakenIn(self, heard, reports, reports.Keys - todo)
        invariant back == BackAmong(self, heard, reports, reports.Keys - todo)
      {
        var x :| x in todo;
        TakenInMore(self, heard, reports, reports.Keys - todo, x);
        BackMore(self, heard, reports, reports.Keys - todo, x);
        var reported := UpdateMember(reports[x], now);
        back := if reported then back + {x} else back;
        assert reports.Keys - (todo - {x}) == reports.Keys - todo + {x};
        todo := todo - {x};
      }
      assert reports.Keys - todo == reports.Keys;
    }

    method CheckMemberStatuses(now: int)
      modifies this`members
      ensures members == CheckedAll(self, old(members), now)
    {
      var todo := members.Keys;
      while todo != {}
        invariant todo <= old(members).Keys && members.Keys == old(members).Keys
        invariant forall x :: x in members ==>
                  members[x] == if x in todo then old(members)[x] else CheckedAll(self, old(members), now)[x]
      {
        var x :| x in todo;
        var member := members[x];
        if member.id != self {
          var timeSinceLastSeen := now - member.lastSeen;
          if timeSinceLastSeen > FAILURE_TIMEOUT {
            member := member.(status := Down);
          } else if timeSinceLastSeen > SUSPICION_TIMEOUT {
            member := member.(status := Suspected);
          } else {
            member := member.(status := Alive);
          }
          members := members[x := member];
        }
        todo := todo - {x};
      }
    }

    /** getNodeStatus: asking about an unknown node adds it to the view. */
    method GetNodeStatus(nodeId: NodeId, now: int) returns (status: Status)
      requires Filed(members)
      modifies this`members
      ensures members == Asked(self, old(members), nodeId, now) && Filed(members)
      ensures nodeId == self ==> status == Alive
      ensures nodeId != self ==> nodeId in members && status == members[nodeId].status
      ensures nodeId != self && nodeId !in old(members) ==> status == Checked(members[nodeId], now).status
    {
      if nodeId == self {
        return Alive;
      }
      if nodeId in members {
        return members[nodeId].status;
      }
      members := members[nodeId := Member(nodeId, 0, Suspected, now - ASKED_AGE)];
      return Suspected;
    }

    method ForceNodeDown(nodeId: NodeId, now: int)
      requires Filed(members)
      modifies this`members
      ensures members == Forced(self, old(members), nodeId, now) && Filed(members)
      ensures nodeId != self ==> nodeId in members && Checked(members[nodeId], now) == members[nodeId]
    {
      if nodeId == self {
        return;
      }
      if nodeId in members {
        var member := members[nodeId];
        member := member.(status := Down, lastSeen := now - FORCED_AGE);
        members := members[nodeId := member];
      } else {
        members := members[nodeId := Member(nodeId, 0, Down, now - FORCED_AGE)];
      }
    }
  }
}
