/** Group membership and the barrier entry of one node (cpp/metaspore/node_manager.cpp). */
module NodeManagers {
  import opened NodeEncoding
  import opened Sequences

  /** How many nodes of each role take part. */
  datatype Nodes = Nodes(workers: nat, servers: nat, coordinators: nat)

  predicate IsNodeId(nodes: Nodes, id: nat) {
    || (id % 16 == RankToNodeId(Worker, 0) && NodeIdToRank(id) < nodes.workers)
    || (id % 16 == RankToNodeId(Server, 0) && NodeIdToRank(id) < nodes.servers)
    || (id % 16 == RankToNodeId(Coordinator, 0) && NodeIdToRank(id) < nodes.coordinators)
  }

  function IdsOf(role: NodeRole, count: nat): (ids: seq<nat>)
    ensures |ids| == count
  {
    seq(count, rank requires 0 <= rank => RankToNodeId(role, rank))
  }

  /** How many nodes have the role. */
  function CountOf(nodes: Nodes, role: NodeRole): nat {
    match role
    case Worker => nodes.workers
    case Server => nodes.servers
    case Coordinator => nodes.coordinators
  }

  /** The members of a group mask, or the single node of an id; empty when there are none. */
  function NodeIds(nodes: Nodes, group: nat): seq<nat> {
    if group >= SINGLE_NODE_ID_TAG then
      if IsNodeId(nodes, group) then [group] else []
    else
      (if InGroup(Worker, group) then IdsOf(Worker, nodes.workers) else [])
      + (if InGroup(Server, group) then IdsOf(Server, nodes.servers) else [])
      + (if InGroup(Coordinator, group) then IdsOf(Coordinator, nodes.coordinators) else [])
  }

  /** What an unordered map of vectors holds for a key; a missing key holds nothing. */
  function Lookup(m: map<nat, seq<nat>>, group: nat): seq<nat> {
    if group in m then m[group] else []
  }

  /** The groups one node is appended to: its own id and the four masks with its role's bit. */
  ghost predicate GroupsOf(role: NodeRole, rank: nat, groups: seq<nat>) {
    && Unique(groups)
    && forall g: nat :: g in groups <==> g == RankToNodeId(role, rank) || (g < SINGLE_NODE_ID_TAG && InGroup(role, g))
  }

  lemma GroupLists(rank: nat)
    ensures GroupsOf(Worker, rank, [RankToNodeId(Worker, rank), 4, 6, 5, 7])
    ensures GroupsOf(Server, rank, [RankToNodeId(Server, rank), 2, 6, 3, 7])
    ensures GroupsOf(Coordinator, rank, [RankToNodeId(Coordinator, rank), 1, 3, 5, 7])
  {}

  lemma IdsOfSnoc(role: NodeRole, count: nat)
    ensures IdsOf(role, count + 1) == IdsOf(role, count) + [RankToNodeId(role, count)]
    ensures IdsOf(role, 0) == []
  {}

  /** `before` with one more node of the given role, the last so far. */
  ghost predicate OneMore(before: Nodes, after: Nodes, role: NodeRole, rank: nat) {
    match role
    case Worker =>
      before.workers == rank && after == before.(workers := rank + 1) && before.servers == before.coordinators == 0
    case Server => before.servers == rank && after == before.(servers := rank + 1) && before.coordinators == 0
    case Coordinator => before.coordinators == rank == 0 && after == before.(coordinators := 1)
  }

  lemma OneMoreNode(before: Nodes, after: Nodes, role: NodeRole, rank: nat, group: nat)
    requires OneMore(before, after, role, rank)
    ensures var id := RankToNodeId(role, rank);
            NodeIds(after, group) == NodeIds(before, group)
              + if group == id || (group < SINGLE_NODE_ID_TAG && InGroup(role, group)) then [id] else []
  {
    hide IdsOf;
    var id := RankToNodeId(role, rank);
    if group >= SINGLE_NODE_ID_TAG {
      assert id / 16 == rank && id % 16 == RankToNodeId(role, 0);
      assert group == group / 16 * 16 + group % 16;
    } else {
      IdsOfSnoc(role, rank);
      IdsOfSnoc(Server, 0);
      IdsOfSnoc(Coordinator, 0);
    }
  }

  /** The group in which `id` is the node of that role and rank lists it, and lists it once. */
  lemma MemberIff(nodes: Nodes, role: NodeRole, rank: nat, group: nat)
    requires group < SINGLE_NODE_ID_TAG
    requires rank < CountOf(nodes, role)
    ensures RankToNodeId(role, rank) in NodeIds(nodes, group) <==> InGroup(role, group)
  {
    hide InGroup;
    var id := RankToNodeId(role, rank);
    if InGroup(role, group) {
      assert IdsOf(role, CountOf(nodes, role))[rank] == id;
      assert id in IdsOf(role, CountOf(nodes, role));
    }
    if id in NodeIds(nodes, group) {
      OnlyOwnRole(Worker, nodes.workers, id);
      OnlyOwnRole(Server, nodes.servers, id);
      OnlyOwnRole(Coordinator, nodes.coordinators, id);
    }
  }

  lemma OnlyOwnRole(role: NodeRole, count: nat, id: nat)
    ensures id in IdsOf(role, count) ==> id % 16 == RankToNodeId(role, 0)
  {}

  lemma UniqueShort(id: nat)
    ensures Unique<nat>([]) && Unique([id])
  {}

  lemma IdsUnique(role: NodeRole, count: nat)
    ensures Unique(IdsOf(role, count))
  {}

  lemma NodeIdsDistinct(nodes: Nodes, group: nat)
    ensures Unique(NodeIds(nodes, group))
  {
    hide IdsOf, Unique, InGroup;
    var ws := if InGroup(Worker, group) then IdsOf(Worker, nodes.workers) else [];
    var ss := if InGroup(Server, group) then IdsOf(Server, nodes.servers) else [];
    var cs := if InGroup(Coordinator, group) then IdsOf(Coordinator, nodes.coordinators) else [];
    UniqueShort(group);
    IdsUnique(Worker, nodes.workers);
    IdsUnique(Server, nodes.servers);
    IdsUnique(Coordinator, nodes.coordinators);
    forall x ensures x in ws ==> x % 16 == 12 ensures x in ss ==> x % 16 == 10 ensures x in cs ==> x % 16 == 9 {
      OnlyOwnRole(Worker, nodes.workers, x);
      OnlyOwnRole(Server, nodes.servers, x);
      OnlyOwnRole(Coordinator, nodes.coordinators, x);
    }
    UniqueConcat(ws, ss);
    UniqueConcat(ws + ss, cs);
  }

  /** A request of the barrier protocol. */
  datatype BarrierRequest = BarrierRequest(receiver: nat, group: nat)

  datatype Outcome = GroupMissing | NothingToWait | NotMember | Wait

  class NodeManager {
    const role: NodeRole
    const nodes: Nodes
    var nodeIds: map<nat, seq<nat>>
    var barrierDone: bool

    ghost predicate Valid()
      reads this
    {
      forall g :: Lookup(nodeIds, g) == NodeIds(nodes, g) && (g in nodeIds ==> nodeIds[g] != [])
    }

    constructor (role: NodeRole, workers: nat, servers: nat)
      ensures Valid() && this.role == role && nodes == Nodes(workers, servers, 1)
    {
      this.role, nodes := role, Nodes(workers, servers, 1);
      barrierDone := *;
      new;
      InitNodeIds();
    }

    /** Fills the table: every worker, then every server, then the coordinator. */
    method InitNodeIds()
      requires nodes.coordinators == 1
      modifies this`nodeIds
      ensures Valid()
    {
      hide NodeIds, Lookup, InGroup, GroupsOf;
      nodeIds := map[];
      ghost var sofar := Nodes(0, 0, 0);
      NoNodes();
      for i := 0 to nodes.workers
        invariant sofar == Nodes(i, 0, 0)
        invariant forall g :: Lookup(nodeIds, g) == NodeIds(sofar, g) && (g in nodeIds ==> nodeIds[g] != [])
      {
        var id := RankToNodeId(Worker, i);
        GroupLists(i);
        AddNode(Worker, i, [id, 4, 6, 5, 7], sofar, Nodes(i + 1, 0, 0));
        sofar := Nodes(i + 1, 0, 0);
      }
      for i := 0 to nodes.servers
        invariant sofar == Nodes(nodes.workers, i, 0)
        invariant forall g :: Lookup(nodeIds, g) == NodeIds(sofar, g) && (g in nodeIds ==> nodeIds[g] != [])
      {
        var id := RankToNodeId(Server, i);
        GroupLists(i);
        AddNode(Server, i, [id, 2, 6, 3, 7], sofar, Nodes(nodes.workers, i + 1, 0));
        sofar := Nodes(nodes.workers, i + 1, 0);
      }
      GroupLists(0);
      AddNode(Coordinator, 0, [COORDINATOR_NODE_ID, 1, 3, 5, 7], sofar, nodes);
    }

    /** Appends one node to its own group and to the four masks of its role. */
    method AddNode(role: NodeRole, rank: nat, groups: seq<nat>, ghost before: Nodes, ghost after: Nodes)
      requires GroupsOf(role, rank, groups) && OneMore(before, after, role, rank)
      requires forall g :: Lookup(nodeIds, g) == NodeIds(before, g) && (g in nodeIds ==> nodeIds[g] != [])
      modifies this`nodeIds
      ensures forall g :: Lookup(nodeIds, g) == NodeIds(after, g) && (g in nodeIds ==> nodeIds[g] != [])
    {
      hide NodeIds, InGroup;
      var id := RankToNodeId(role, rank);
      for i := 0 to |groups|
        invariant forall g :: Lookup(nodeIds, g) == NodeIds(before, g) + if g in groups[..i] then [id] else []
        invariant forall g :: g in nodeIds ==> nodeIds[g] != []
      {
        assert groups[..i + 1] == groups[..i] + [groups[i]];
        nodeIds := nodeIds[groups[i] := Lookup(nodeIds, groups[i]) + [id]];
      }
      assert groups[..|groups|] == groups;
      forall g ensures Lookup(nodeIds, g) == NodeIds(after, g) {
        OneMoreNode(before, after, role, rank, g);
      }
    }

    /**
      Up to the wait: on Wait the flag is down and one request naming the group has been
      sent to the coordinator; the call returns once the flag is up.
     */
    method Barrier(group: nat) returns (outcome: Outcome, sent: seq<BarrierRequest>)
      requires Valid()
      modifies this`barrierDone
      ensures Valid() && (if outcome == Wait then !barrierDone else barrierDone == old(barrierDone))
      ensures sent == if outcome == Wait then [BarrierRequest(COORDINATOR_NODE_ID, group)] else []
      ensures outcome == GroupMissing <==> NodeIds(nodes, group) == []
      ensures outcome == NothingToWait <==> |NodeIds(nodes, group)| == 1
      ensures outcome == Wait <==> |NodeIds(nodes, group)| > 1 && InGroup(role, group)
    {
      if group !in nodeIds {
        return GroupMissing, [];
      }
      var ids := nodeIds[group];
      if |ids| <= 1 {
        return NothingToWait, [];
      }
      if (role == Coordinator && !InGroup(Coordinator, group))
        || (role == Server && !InGroup(Server, group))
        || (role == Worker && !InGroup(Worker, group)) {
        return NotMember, [];
      }
      barrierDone := false;
      outcome, sent := Wait, [BarrierRequest(COORDINATOR_NODE_ID, group)];
    }

    /** A barrier message that is no request lets the waiting thread go, whatever group it waits on. */
    method NotifyBarrierDone(isBarrier: bool, isRequest: bool)
      modifies this`barrierDone
      ensures barrierDone == (old(barrierDone) || (isBarrier && !isRequest))
    {
      if isBarrier && !isRequest {
        barrierDone := true;
      }
    }
  }

  lemma NoNodes()
    ensures forall g :: NodeIds(Nodes(0, 0, 0), g) == [] == Lookup(map[], g)
  {}

  /** A node waits exactly on the group masks of more than one node that list it. */
  lemma WaitsIffMember(nodes: Nodes, role: NodeRole, rank: nat, group: nat)
    requires rank < CountOf(nodes, role)
    ensures var ids := NodeIds(nodes, group);
            (|ids| > 1 && InGroup(role, group))
            <==> (|ids| > 1 && group < SINGLE_NODE_ID_TAG && RankToNodeId(role, rank) in ids)
  {
    if group < SINGLE_NODE_ID_TAG {
      MemberIff(nodes, role, rank, group);
    }
  }
}
