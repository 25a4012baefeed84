/** The answers of all servers to one call, in the order they arrive. */
module Responses {
  import opened NodeEncoding

  /** Who answered, and the buffer it sent. */
  datatype Response<T> = Response(sender: nat, out: seq<T>)

  /** `ress` holds the buffer of every server; `order` is the ranks in arrival order. */
  ghost predicate FromServers<T>(ress: seq<Response<T>>, byRank: seq<seq<T>>, order: seq<nat>) {
    && |ress| == |order|
    && (forall j :: 0 <= j < |order| ==>
          order[j] < |byRank| && ress[j] == Response(RankToNodeId(Server, order[j]), byRank[order[j]]))
    && (forall p :: 0 <= p < |byRank| ==> p in order)
  }

  lemma SenderRank<T>(ress: seq<Response<T>>, byRank: seq<seq<T>>, order: seq<nat>, j: nat)
    requires FromServers(ress, byRank, order) && j < |ress|
    ensures j < |order| && NodeIdToRank(ress[j].sender) == order[j] < |byRank| && ress[j].out == byRank[order[j]]
  {
    NodeIdDecodes(Server, order[j], Server, order[j]);
  }

  lemma SomeSender<T>(ress: seq<Response<T>>, byRank: seq<seq<T>>, order: seq<nat>, p: nat) returns (j: nat)
    requires FromServers(ress, byRank, order) && p < |byRank|
    ensures j < |ress| == |order| && order[j] == p
  {
    assert p in order;
    j :| 0 <= j < |order| && order[j] == p;
  }
}
