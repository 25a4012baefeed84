/** Integer encodings of roles, groups and nodes (cpp/metaspore/node_encoding.h). */
module NodeEncoding {

  datatype NodeRole = Coordinator | Server | Worker

  const COORDINATOR_GROUP := 1
  const SERVER_GROUP := 2
  const WORKER_GROUP := 4
  const SERVER_WORKER_GROUP := SERVER_GROUP + WORKER_GROUP
  const SINGLE_NODE_ID_TAG := 8

  function RoleGroup(role: NodeRole): int {
    match role
    case Coordinator => COORDINATOR_GROUP
    case Server => SERVER_GROUP
    case Worker => WORKER_GROUP
  }

  /** `rank << 4 | tag`: the tag fits in the four low bits, so the bits add up. */
  function RankToNodeId(role: NodeRole, rank: nat): nat {
    rank * 16 + RoleGroup(role) + SINGLE_NODE_ID_TAG
  }

  /** `id >> 4` */
  function NodeIdToRank(id: nat): nat {
    id / 16
  }

  /** `(group & roleGroup) != 0` for a group mask and one of its three bits. */
  predicate InGroup(role: NodeRole, group: nat) {
    group / RoleGroup(role) % 2 == 1
  }

  const COORDINATOR_NODE_ID: nat := RankToNodeId(Coordinator, 0)

  /** The bit expressions of the encoding are the sums above, and decode to the rank. */
  lemma ShiftOrIsSum(rank: bv32, tag: bv32)
    requires rank < 0x800_0000 && tag < 16
    ensures (rank << 4) | tag == rank * 16 + tag
    ensures ((rank << 4) | tag) >> 4 == rank
  {}

  lemma MaskIsDigit(group: bv32)
    ensures (group & 1 != 0) <==> group % 2 == 1
    ensures (group & 2 != 0) <==> group / 2 % 2 == 1
    ensures (group & 4 != 0) <==> group / 4 % 2 == 1
  {}

  /** The ids: 9 for the coordinator, 10, 26, 42, ... for servers and 12, 28, 44, ... for workers. */
  lemma NodeIdsAre(rank: nat)
    ensures RankToNodeId(Coordinator, rank) == 16 * rank + 9
    ensures RankToNodeId(Server, rank) == 16 * rank + 10
    ensures RankToNodeId(Worker, rank) == 16 * rank + 12
    ensures COORDINATOR_NODE_ID == 9 && SERVER_WORKER_GROUP == 6 && SINGLE_NODE_ID_TAG == 8
  {}

  /** Which of the masks 0 to 7 a role belongs to. */
  lemma GroupsAre(group: nat)
    requires group < 8
    ensures InGroup(Coordinator, group) <==> group in {1, 3, 5, 7}
    ensures InGroup(Server, group) <==> group in {2, 3, 6, 7}
    ensures InGroup(Worker, group) <==> group in {4, 5, 6, 7}
  {}

  /** An id determines its node: the rank is read back, and no two nodes share an id. */
  lemma NodeIdDecodes(role: NodeRole, rank: nat, role': NodeRole, rank': nat)
    ensures NodeIdToRank(RankToNodeId(role, rank)) == rank
    ensures RankToNodeId(role, rank) == RankToNodeId(role', rank') ==> role == role' && rank == rank'
    ensures RankToNodeId(role, rank) > 8
  {}
}
