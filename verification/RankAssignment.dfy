/** Node join and rank assignment at the coordinator (cpp/metaspore/actor_process.cpp). */
module RankAssignment {
  import opened Decimals
  import opened NodeEncoding
  import opened NodeManagers
  import opened Sequences
  import opened Wrappers

  const NO_ID := -1

  datatype NodeInfo = NodeInfo(role: NodeRole, id: int, host: string, port: int) {
    function Address(): string {
      host + ":" + Decimal(port)
    }
  }

  predicate SameAddress(x: NodeInfo, y: NodeInfo) {
    x.host == y.host && x.port == y.port
  }

  /** No two nodes share host and port. */
  predicate DistinctAddresses(ns: seq<NodeInfo>) {
    forall i, j :: 0 <= i < j < |ns| ==> !SameAddress(ns[i], ns[j])
  }

  /** A numeral has no colon, so the separator is the last one. */
  lemma LastColon(host: string, d: string)
    requires ':' !in d
    ensures forall k :: |host| < k < |host + ":" + d| ==> (host + ":" + d)[k] != ':'
  {
    forall k | |host| < k < |host + ":" + d| ensures (host + ":" + d)[k] in d {
      assert (host + ":" + d)[k] == d[k - |host| - 1];
    }
  }

  /** The address string determines host and port. */
  lemma AddressInjective(x: NodeInfo, y: NodeInfo)
    ensures x.Address() == y.Address() <==> SameAddress(x, y)
  {
    hide Decimal;
    var a, dx, dy := x.Address(), Decimal(x.port), Decimal(y.port);
    if a == y.Address() {
      assert a[|x.host|] == ':' && a[|y.host|] == ':';
      LastColon(x.host, dx);
      LastColon(y.host, dy);
      assert x.host == a[..|x.host|] && y.host == a[..|y.host|];
      assert dx == a[|x.host| + 1..] && dy == a[|y.host| + 1..];
      DecimalInjective(x.port, y.port);
    }
  }

  // ---- The order of the final node list ----

  /** Sign of a lexicographic string comparison. */
  function Compare(a: string, b: string): (c: int)
    ensures -1 <= c <= 1
    decreases |a|
  {
    if a == [] then if b == [] then 0 else -1
    else if b == [] then 1
    else if a[0] < b[0] then -1
    else if a[0] > b[0] then 1
    else Compare(a[1..], b[1..])
  }

  /** Bitwise or of a two's-complement `int` with 0 or 1, tested for being positive. */
  lemma OrOfComparison(c: bv32, less: bv32)
    requires less <= 1
    ensures 0 < c | less < 0x8000_0000 <==> 0 < c < 0x8000_0000 || (c == 0 && less == 1)
  {}

  /** The sort's comparator: hosts descending, then ports ascending. */
  predicate Before(x: NodeInfo, y: NodeInfo) {
    Compare(x.host, y.host) > 0 || (Compare(x.host, y.host) == 0 && x.port < y.port)
  }

  /** `a` is lexically after `b`: they agree up to a place where `b` ends or has the smaller character. */
  ghost predicate LexicallyAfter(a: string, b: string) {
    exists k: nat :: AfterAt(a, b, k)
  }

  ghost predicate AfterAt(a: string, b: string, k: nat) {
    k < |a| && k <= |b| && a[..k] == b[..k] && (k < |b| ==> a[k] > b[k])
  }

  lemma HeadsAgree(a: string, b: string, k: nat)
    requires AfterAt(a, b, k)
    ensures k > 0 ==> b != [] && a[0] == b[0]
  {
    assert k > 0 ==> a[0] == a[..k][0] && b[0] == b[..k][0];
  }

  lemma {:induction false} CompareIsLexical(a: string, b: string)
    ensures Compare(a, b) > 0 <==> LexicallyAfter(a, b)
    decreases |a|
  {
    if a != [] && (b == [] || a[0] != b[0]) {
      forall k: nat | AfterAt(a, b, k) ensures k == 0 {
        HeadsAgree(a, b, k);
      }
      assert Compare(a, b) > 0 ==> AfterAt(a, b, 0);
    } else if a != [] {
      CompareIsLexical(a[1..], b[1..]);
      if k: nat :| AfterAt(a, b, k) {
        assert k > 0 && a[1..][..k - 1] == a[..k][1..] && b[1..][..k - 1] == b[..k][1..];
        assert AfterAt(a[1..], b[1..], k - 1);
      }
      if k: nat :| AfterAt(a[1..], b[1..], k) {
        assert a[..k + 1] == [a[0]] + a[1..][..k] && b[..k + 1] == [b[0]] + b[1..][..k];
        assert AfterAt(a, b, k + 1);
      }
    }
  }

  /** The order the ranks are handed out in: hosts from the lexically last one on, ports from the smallest. */
  lemma BeforeIs(x: NodeInfo, y: NodeInfo)
    ensures Before(x, y) <==> LexicallyAfter(x.host, y.host) || (x.host == y.host && x.port < y.port)
  {
    CompareIsLexical(x.host, y.host);
    CompareAntisymmetric(x.host, y.host);
  }

  lemma {:induction false} CompareAntisymmetric(a: string, b: string)
    ensures Compare(b, a) == -Compare(a, b)
    ensures Compare(a, b) == 0 <==> a == b
    decreases |a|
  {
    if a != [] && b != [] && a[0] == b[0] {
      CompareAntisymmetric(a[1..], b[1..]);
      assert a == [a[0]] + a[1..] && b == [b[0]] + b[1..];
    }
  }

  lemma {:induction false} CompareTransitive(a: string, b: string, c: string)
    requires Compare(a, b) > 0 && Compare(b, c) > 0
    ensures Compare(a, c) > 0
    decreases |a|
  {
    if c != [] && a[0] == b[0] == c[0] {
      CompareTransitive(a[1..], b[1..], c[1..]);
    }
  }

  /** A strict total order on distinct addresses. */
  lemma BeforeIsTotalOrder(x: NodeInfo, y: NodeInfo, z: NodeInfo)
    ensures !Before(x, x)
    ensures Before(x, y) ==> !Before(y, x)
    ensures Before(x, y) && Before(y, z) ==> Before(x, z)
    ensures Before(x, y) || Before(y, x) || SameAddress(x, y)
  {
    CompareAntisymmetric(x.host, x.host);
    CompareAntisymmetric(x.host, y.host);
    CompareAntisymmetric(y.host, z.host);
    if Compare(x.host, y.host) > 0 && Compare(y.host, z.host) > 0 {
      CompareTransitive(x.host, y.host, z.host);
    }
  }

  predicate Sorted(ns: seq<NodeInfo>) {
    forall i, j :: 0 <= i < j < |ns| ==> Before(ns[i], ns[j])
  }

  function Insert(n: NodeInfo, ns: seq<NodeInfo>): seq<NodeInfo> {
    if ns == [] || Before(n, ns[0]) then [n] + ns else [ns[0]] + Insert(n, ns[1..])
  }

  /** Stands for `std::sort` with `Before`; `SortIsUnique` shows every sort agrees with it. */
  function Sort(ns: seq<NodeInfo>): seq<NodeInfo> {
    if ns == [] then [] else Insert(ns[|ns| - 1], Sort(ns[..|ns| - 1]))
  }

  lemma {:induction false} InsertKeeps(n: NodeInfo, ns: seq<NodeInfo>)
    ensures multiset(Insert(n, ns)) == multiset(ns) + multiset{n}
    ensures forall x :: x in Insert(n, ns) <==> x == n || x in ns
  {
    if ns != [] && !Before(n, ns[0]) {
      InsertKeeps(n, ns[1..]);
    }
    assert ns != [] ==> ns == [ns[0]] + ns[1..];
  }

  lemma {:induction false} InsertSorts(n: NodeInfo, ns: seq<NodeInfo>)
    requires Sorted(ns) && forall i :: 0 <= i < |ns| ==> !SameAddress(n, ns[i])
    ensures Sorted(Insert(n, ns))
  {
    hide Before;
    if ns == [] {
    } else if Before(n, ns[0]) {
      forall j | 0 < j < |ns| ensures Before(n, ns[j]) {
        BeforeIsTotalOrder(n, ns[0], ns[j]);
      }
    } else {
      BeforeIsTotalOrder(n, ns[0], n);
      InsertSorts(n, ns[1..]);
      InsertKeeps(n, ns[1..]);
      var rest := Insert(n, ns[1..]);
      forall j | 0 <= j < |rest| ensures Before(ns[0], rest[j]) {
        assert rest[j] in rest;
        if rest[j] != n {
          var k :| 0 <= k < |ns[1..]| && ns[1..][k] == rest[j];
          assert ns[k + 1] == rest[j];
        }
      }
    }
  }

  lemma {:induction false} SortPermutes(ns: seq<NodeInfo>)
    ensures multiset(Sort(ns)) == multiset(ns) && |Sort(ns)| == |ns|
  {
    hide Insert;
    if ns != [] {
      var front, last := ns[..|ns| - 1], ns[|ns| - 1];
      SortPermutes(front);
      assert ns == front + [last];
      InsertKeeps(last, Sort(front));
    }
    assert |multiset(Sort(ns))| == |Sort(ns)| && |multiset(ns)| == |ns|;
  }

  lemma {:induction false} SortSorts(ns: seq<NodeInfo>)
    requires DistinctAddresses(ns)
    ensures Sorted(Sort(ns))
  {
    hide Insert, SameAddress, Sorted;
    if ns == [] {
      SortedNone();
    } else {
      var front, last := ns[..|ns| - 1], ns[|ns| - 1];
      SortSorts(front);
      SortPermutes(front);
      forall x | x in Sort(front) ensures !SameAddress(x, last) {
        assert x in multiset(front);
        var j :| 0 <= j < |front| && front[j] == x;
        assert ns[j] == x;
      }
      forall x | x in Sort(front) ensures !SameAddress(last, x) {
        SameAddressSymmetric(last, x);
      }
      InsertSorts(last, Sort(front));
    }
  }

  lemma SortedNone()
    ensures Sorted([])
  {}

  lemma SameAddressSymmetric(x: NodeInfo, y: NodeInfo)
    ensures SameAddress(x, y) <==> SameAddress(y, x)
  {}

  /** The first node of a sorted list is before every other node in it. */
  lemma FirstIsBefore(a: seq<NodeInfo>, x: NodeInfo)
    requires Sorted(a) && x in a
    ensures x == a[0] || Before(a[0], x)
  {
    var k :| 0 <= k < |a| && a[k] == x;
  }

  lemma SameTails(a: seq<NodeInfo>, b: seq<NodeInfo>)
    requires a != [] && b != [] && a[0] == b[0] && multiset(a) == multiset(b)
    ensures multiset(a[1..]) == multiset(b[1..]) && (a[1..] == b[1..] ==> a == b)
  {
    assert a == [a[0]] + a[1..] && b == [b[0]] + b[1..];
    assert multiset(a[1..]) == multiset(a) - multiset{a[0]};
    assert multiset(b[1..]) == multiset(b) - multiset{b[0]};
  }

  lemma SortedTail(a: seq<NodeInfo>)
    requires Sorted(a) && a != []
    ensures Sorted(a[1..])
  {}

  /** Two sorted lists of the same nodes are the same list, whatever order they arrived in. */
  lemma {:induction false} SortIsUnique(a: seq<NodeInfo>, b: seq<NodeInfo>)
    requires Sorted(a) && Sorted(b) && multiset(a) == multiset(b)
    ensures a == b
  {
    hide Before, Sorted;
    assert |multiset(a)| == |a| && |multiset(b)| == |b|;
    if a != [] {
      assert a[0] in multiset(b) && b[0] in multiset(a);
      FirstIsBefore(a, b[0]);
      FirstIsBefore(b, a[0]);
      BeforeIsTotalOrder(a[0], b[0], a[0]);
      SameTails(a, b);
      SortedTail(a);
      SortedTail(b);
      SortIsUnique(a[1..], b[1..]);
    }
  }

  lemma SortedDistinct(ns: seq<NodeInfo>)
    requires Sorted(ns)
    ensures DistinctAddresses(ns)
  {
    forall i, j | 0 <= i < j < |ns| ensures !SameAddress(ns[i], ns[j]) {
      BeforeIsTotalOrder(ns[i], ns[j], ns[i]);
      CompareAntisymmetric(ns[i].host, ns[j].host);
    }
  }

  // ---- Handing out ids ----

  /** The coordinator's tables while it walks the sorted list. */
  datatype Table = Table(ranked: seq<NodeInfo>, connected: map<string, int>, shared: map<int, int>, servers: nat,
                         workers: nat)

  /** One node of the list; None when the node already carries an id, which throws. */
  function AssignNode(t: Table, node: NodeInfo): (r: Option<Table>) {
    var id := if node.role == Server then RankToNodeId(Server, t.servers) else RankToNodeId(Worker, t.workers);
    var addr := node.Address();
    if addr !in t.connected && node.id != NO_ID then None
    else
      var given := if addr in t.connected then t.connected[addr] else id;
      Some(Table(t.ranked + [node.(id := given)],
                 if addr in t.connected then t.connected else t.connected[addr := id],
                 if addr in t.connected then t.shared[id := given] else t.shared,
                 if node.role == Server then t.servers + 1 else t.servers,
                 if node.role == Worker then t.workers + 1 else t.workers))
  }

  function AssignAll(t: Table, ns: seq<NodeInfo>, i: nat): (r: Option<Table>)
    requires i <= |ns|
    ensures r.Some? ==> |r.value.ranked| == |t.ranked| + i
  {
    if i == 0 then Some(t)
    else
      var r := AssignAll(t, ns, i - 1);
      if r.None? then None else AssignNode(r.value, ns[i - 1])
  }

  /** How many of the first `i` nodes have the role: the rank the next one gets. */
  function CountRole(ns: seq<NodeInfo>, role: NodeRole, i: nat): nat
    requires i <= |ns|
  {
    if i == 0 then 0 else CountRole(ns, role, i - 1) + if ns[i - 1].role == role then 1 else 0
  }

  /** The node at `i` with the id its place in the list gives it. */
  function Ranked(ns: seq<NodeInfo>, i: nat): NodeInfo
    requires i < |ns|
  {
    ns[i].(id := RankToNodeId(ns[i].role, CountRole(ns, ns[i].role, i)))
  }

  /** Servers and workers that carry no id yet. */
  predicate Unassigned(ns: seq<NodeInfo>) {
    forall i :: 0 <= i < |ns| ==> ns[i].id == NO_ID && ns[i].role != Coordinator
  }

  function Addresses(ns: seq<NodeInfo>, i: nat): set<string>
    requires i <= |ns|
  {
    if i == 0 then {} else Addresses(ns, i - 1) + {ns[i - 1].Address()}
  }

  lemma {:induction false} AddressIsNew(ns: seq<NodeInfo>, i: nat, j: nat)
    requires i <= j < |ns| && DistinctAddresses(ns)
    ensures ns[j].Address() !in Addresses(ns, i)
  {
    if i > 0 {
      AddressIsNew(ns, i - 1, j);
      AddressInjective(ns[i - 1], ns[j]);
    }
  }

  lemma {:induction false} AssignedRanks(ns: seq<NodeInfo>, i: nat)
    requires i <= |ns| && DistinctAddresses(ns) && Unassigned(ns)
    ensures var r := AssignAll(Table([], map[], map[], 0, 0), ns, i);
            && r.Some?
            && r.value.ranked == seq(i, j requires 0 <= j < i => Ranked(ns, j))
            && r.value.shared == map[]
            && r.value.servers == CountRole(ns, Server, i) && r.value.workers == CountRole(ns, Worker, i)
            && r.value.connected.Keys == Addresses(ns, i)
  {
    hide RankToNodeId, DistinctAddresses, NodeInfo.Address;
    if i > 0 {
      AssignedRanks(ns, i - 1);
      AddressIsNew(ns, i - 1, i - 1);
    }
  }

  lemma {:induction false} CountRoleGrows(ns: seq<NodeInfo>, role: NodeRole, i: nat, j: nat)
    requires i < j <= |ns|
    ensures CountRole(ns, role, i) + (if ns[i].role == role then 1 else 0) <= CountRole(ns, role, j)
  {
    if i < j - 1 {
      CountRoleGrows(ns, role, i, j - 1);
    }
  }

  /** Some node of the list has the given rank in its role. */
  lemma {:induction false} RankTaken(ns: seq<NodeInfo>, role: NodeRole, rank: nat, i: nat) returns (j: nat)
    requires i <= |ns| && rank < CountRole(ns, role, i)
    ensures j < i && ns[j].role == role && CountRole(ns, role, j) == rank
  {
    if ns[i - 1].role == role && CountRole(ns, role, i - 1) == rank {
      j := i - 1;
    } else {
      j := RankTaken(ns, role, rank, i - 1);
    }
  }

  /** The ids handed out: pairwise different, decoding to the rank, and exactly the ids the groups list. */
  lemma RanksAreTheGroup(ns: seq<NodeInfo>, servers: nat, workers: nat)
    requires Unassigned(ns) && CountRole(ns, Server, |ns|) == servers && CountRole(ns, Worker, |ns|) == workers
    ensures forall i, j :: 0 <= i < j < |ns| ==> Ranked(ns, i).id != Ranked(ns, j).id
    ensures forall i :: 0 <= i < |ns| ==> NodeIdToRank(Ranked(ns, i).id) == CountRole(ns, ns[i].role, i)
    ensures forall id :: id in NodeIds(Nodes(workers, servers, 1), SERVER_WORKER_GROUP)
                         <==> exists i :: 0 <= i < |ns| && Ranked(ns, i).id == id
  {
    hide CountRole;
    forall i, j | 0 <= i < j < |ns| ensures Ranked(ns, i).id != Ranked(ns, j).id {
      NodeIdDecodes(ns[i].role, CountRole(ns, ns[i].role, i), ns[j].role, CountRole(ns, ns[j].role, j));
      CountRoleGrows(ns, ns[i].role, i, j);
    }
    forall i | 0 <= i < |ns|
      ensures NodeIdToRank(Ranked(ns, i).id) == CountRole(ns, ns[i].role, i)
      ensures Ranked(ns, i).id in NodeIds(Nodes(workers, servers, 1), SERVER_WORKER_GROUP)
    {
      CountRoleGrows(ns, ns[i].role, i, |ns|);
      MemberIff(Nodes(workers, servers, 1), ns[i].role, CountRole(ns, ns[i].role, i), SERVER_WORKER_GROUP);
    }
    forall id | id in NodeIds(Nodes(workers, servers, 1), SERVER_WORKER_GROUP)
      ensures exists i :: 0 <= i < |ns| && Ranked(ns, i).id == id
    {
      var role, rank := MemberRank(workers, servers, id);
      var j := RankTaken(ns, role, rank, |ns|);
      assert Ranked(ns, j).id == id;
    }
  }

  lemma IdRank(role: NodeRole, count: nat, id: nat)
    requires id in IdsOf(role, count)
    ensures NodeIdToRank(id) < count && id == RankToNodeId(role, NodeIdToRank(id))
  {
    var i :| 0 <= i < count && IdsOf(role, count)[i] == id;
    NodeIdDecodes(role, i, role, i);
  }

  lemma MemberRank(workers: nat, servers: nat, id: nat) returns (role: NodeRole, rank: nat)
    requires id in NodeIds(Nodes(workers, servers, 1), SERVER_WORKER_GROUP)
    ensures id == RankToNodeId(role, rank)
    ensures (role == Worker && rank < workers) || (role == Server && rank < servers)
  {
    hide IdsOf, RankToNodeId, NodeIdToRank;
    if id in IdsOf(Worker, workers) {
      IdRank(Worker, workers, id);
      role, rank := Worker, NodeIdToRank(id);
    } else {
      IdRank(Server, servers, id);
      role, rank := Server, NodeIdToRank(id);
    }
  }

  // ---- The coordinator, message by message ----

  datatype Cluster = Cluster(self: NodeInfo, servers: nat, workers: nat)

  /** The coordinator's state; `nodes` ends with the coordinator itself once it is ready. */
  datatype Roster = Roster(nodes: seq<NodeInfo>, connected: map<string, int>, shared: map<int, int>,
                           servers: nat, workers: nat, ready: bool)

  const EMPTY_ROSTER := Roster([], map[], map[], 0, 0, false)

  /** A message from a node without an id joins it to the list; None when that throws. */
  function Joined(c: Cluster, r: Roster, sender: int, announced: seq<NodeInfo>): Option<Roster> {
    if sender != NO_ID then Some(r)
    else if |announced| != 1 || |r.nodes| >= c.servers + c.workers then None
    else Some(r.(nodes := r.nodes + announced))
  }

  /** When the list is full, sorts it and hands out the ids. */
  function Completed(c: Cluster, r: Roster): Option<Roster> {
    if |r.nodes| != c.servers + c.workers then Some(r)
    else
      var t := AssignAll(Table([], r.connected, r.shared, r.servers, r.workers), Sort(r.nodes), |Sort(r.nodes)|);
      if t.None? || c.servers + c.workers == 0 then None
      else
        Some(Roster(t.value.ranked + [c.self], t.value.connected, t.value.shared,
                    t.value.servers, t.value.workers, true))
  }

  function Handled(c: Cluster, r: Roster, sender: int, announced: seq<NodeInfo>): Option<Roster> {
    var joined := Joined(c, r, sender, announced);
    if joined.None? then None else Completed(c, joined.value)
  }

  /** The message is the one that fills the list. */
  predicate Completes(c: Cluster, r: Roster, sender: int, announced: seq<NodeInfo>) {
    var joined := Joined(c, r, sender, announced);
    joined.Some? && |joined.value.nodes| == c.servers + c.workers
  }

  /**
    Handing out ids stopped after `done` nodes of the sorted list: those are ranked, the
    others as they were. After the whole list only an empty group is left to throw.
   */
  ghost predicate Stopped(c: Cluster, joined: Roster, now: Roster, done: nat) {
    var list, start := Sort(joined.nodes), Table([], joined.connected, joined.shared, joined.servers, joined.workers);
    && done <= |list| && now.ready == joined.ready
    && var t := AssignAll(start, list, done);
    && t.Some? && (if done < |list| then AssignAll(start, list, done + 1).None? else list == [])
    && now.nodes == t.value.ranked + list[done..] + (if done < |list| then [] else [c.self])
    && now.connected == t.value.connected && now.shared == t.value.shared
    && now.servers == t.value.servers && now.workers == t.value.workers
  }

  lemma StoppedIs(c: Cluster, joined: Roster, done: nat, t: Table)
    requires var start := Table([], joined.connected, joined.shared, joined.servers, joined.workers);
             var list := Sort(joined.nodes);
             && done <= |list| && AssignAll(start, list, done) == Some(t)
             && if done < |list| then AssignAll(start, list, done + 1).None? else list == []
    ensures var list := Sort(joined.nodes);
            var nodes := t.ranked + list[done..] + if done < |list| then [] else [c.self];
            Stopped(c, joined, Roster(nodes, t.connected, t.shared, t.servers, t.workers, joined.ready), done)
  {
    hide AssignAll, Sort;
  }

  /** Those ids of a group that have a socket of their own, in order. */
  function Told(ids: seq<nat>, shared: map<int, int>): seq<nat> {
    if ids == [] then []
    else
      var rest, id := Told(ids[..|ids| - 1], shared), ids[|ids| - 1];
      if id in shared then rest else rest + [id]
  }

  /** Exactly the members with a socket of their own are told. */
  lemma {:induction false} ToldIff(ids: seq<nat>, shared: map<int, int>)
    ensures forall id :: id in Told(ids, shared) <==> id in ids && id !in shared
  {
    if ids != [] {
      ToldIff(ids[..|ids| - 1], shared);
      assert ids == ids[..|ids| - 1] + [ids[|ids| - 1]];
    }
  }

  /** With no shared sockets, every member is told. */
  lemma {:induction false} EveryoneIsTold(ids: seq<nat>)
    ensures Told(ids, map[]) == ids
  {
    if ids != [] {
      EveryoneIsTold(ids[..|ids| - 1]);
    }
  }

  /** The coordinator's part of the actor process. */
  class CoordinatorProcess {
    const cluster: Cluster
    const manager: NodeManager
    var nodes: seq<NodeInfo>
    var connected: map<string, int>
    var shared: map<int, int>
    var numServers: nat
    var numWorkers: nat
    var ready: bool

    ghost predicate Valid()
      reads manager
    {
      && manager.Valid() && manager.nodes == Nodes(cluster.workers, cluster.servers, 1)
      && cluster.self.id == COORDINATOR_NODE_ID
    }

    ghost function Contents(): Roster
      reads this
    {
      Roster(nodes, connected, shared, numServers, numWorkers, ready)
    }

    constructor (cluster: Cluster, manager: NodeManager)
      requires manager.Valid() && manager.nodes == Nodes(cluster.workers, cluster.servers, 1)
      requires cluster.self.id == COORDINATOR_NODE_ID
      ensures Valid() && this.cluster == cluster && this.manager == manager && Contents() == EMPTY_ROSTER
    {
      this.cluster, this.manager := cluster, manager;
      nodes, connected, shared, numServers, numWorkers, ready := [], map[], map[], 0, 0, false;
    }

    /** An AddNode message; the answer goes to every node that shares no other's socket. */
    method HandleAddNodeMessage(sender: int, announced: seq<NodeInfo>)
      returns (ok: bool, receivers: seq<nat>, ghost done: nat)
      requires Valid()
      modifies this
      ensures ok <==> Handled(cluster, old(Contents()), sender, announced).Some?
      ensures ok ==> Contents() == Handled(cluster, old(Contents()), sender, announced).value
      ensures Joined(cluster, old(Contents()), sender, announced).None? ==> Contents() == old(Contents())
      ensures !ok ==>
                var joined := Joined(cluster, old(Contents()), sender, announced);
                joined.Some? ==> Stopped(cluster, joined.value, Contents(), done)
      ensures receivers == if ok && Completes(cluster, old(Contents()), sender, announced)
                           then Told(NodeIds(manager.nodes, SERVER_WORKER_GROUP), shared) else []
    {
      hide AssignAll, Sort, NodeIds, Stopped, Told;
      assert |announced| == 1 ==> announced == [announced[0]];
      receivers, done := [], 0;
      var numNodes := cluster.servers + cluster.workers;
      if sender == NO_ID {
        if |announced| != 1 {
          return false, [], done;
        }
        if |nodes| < numNodes {
          nodes := nodes + [announced[0]];
        } else {
          return false, [], done;
        }
      }
      var self := UpdateLocalId(cluster.self, announced);
      IdKept(cluster.self, announced, |announced|);
      assert self == cluster.self;
      ok := true;
      if |nodes| == numNodes {
        ok, receivers, done := CompleteRoster();
      }
    }

    /** The full list: sorted, numbered, closed by the coordinator itself, and announced. */
    method CompleteRoster() returns (ok: bool, receivers: seq<nat>, ghost done: nat)
      requires Valid() && |nodes| == cluster.servers + cluster.workers
      modifies this
      ensures ok <==> Completed(cluster, old(Contents())).Some?
      ensures ok ==> Contents() == Completed(cluster, old(Contents())).value
      ensures !ok ==> Stopped(cluster, old(Contents()), Contents(), done)
      ensures receivers == if ok then Told(NodeIds(manager.nodes, SERVER_WORKER_GROUP), shared) else []
    {
      hide AssignAll, Sort, NodeIds, Stopped, Told;
      ghost var joined := Contents();
      SortPermutes(nodes);
      nodes := Sort(nodes);
      ghost var list, t0 := nodes, Table([], connected, shared, numServers, numWorkers);
      ok, done := AssignIds();
      ghost var t := Table(nodes[..done], connected, shared, numServers, numWorkers);
      assert nodes == t.ranked + list[done..] + [];
      if !ok {
        NoneStays(t0, list, done + 1, |list|);
        StoppedIs(cluster, joined, done, t);
        return false, [], done;
      }
      assert t.ranked == nodes;
      nodes := nodes + [cluster.self];
      AnyoneToTell(cluster);
      if SERVER_WORKER_GROUP !in manager.nodeIds {
        StoppedIs(cluster, joined, done, t);
        assert nodes == t.ranked + list[done..] + [cluster.self];
        return false, [], done;
      }
      receivers := Receivers();
      ready := true;
    }

    /** Walks the sorted list; `done` is how far it got before a node already had an id. */
    method AssignIds() returns (ok: bool, ghost done: nat)
      modifies this
      ensures ready == old(ready)
      ensures done <= |old(nodes)| == |nodes| && (ok <==> done == |nodes|)
      ensures var start := Table([], old(connected), old(shared), old(numServers), old(numWorkers));
              var t := AssignAll(start, old(nodes), done);
              t == Some(Table(nodes[..done], connected, shared, numServers, numWorkers))
      ensures nodes[done..] == old(nodes)[done..]
      ensures !ok ==>
                var start := Table([], old(connected), old(shared), old(numServers), old(numWorkers));
                AssignAll(start, old(nodes), done + 1).None?
    {
      hide AssignAll, AssignNode;
      ghost var ns, t0 := nodes, Table([], connected, shared, numServers, numWorkers);
      ghost var ranked: seq<NodeInfo> := [];
      AssignStep(t0, ns, 0);
      for i := 0 to |nodes|
        invariant |ranked| == i && nodes == ranked + ns[i..] && ready == old(ready)
        invariant AssignAll(t0, ns, i) == Some(Table(ranked, connected, shared, numServers, numWorkers))
      {
        NextOf(ns, ranked, nodes, i);
        AssignStep(t0, ns, i + 1);
        var given, node := AssignOne(nodes[i], ranked);
        if !given {
          return false, i;
        }
        nodes := nodes[i := node];
        ranked := ranked + [node];
      }
      assert nodes == ranked && nodes[..|nodes|] == nodes;
      ok, done := true, |nodes|;
    }

    method AssignOne(node: NodeInfo, ghost done: seq<NodeInfo>) returns (ok: bool, now: NodeInfo)
      modifies this`connected, this`shared, this`numServers, this`numWorkers
      ensures var t := AssignNode(Table(done, old(connected), old(shared), old(numServers), old(numWorkers)), node);
              && (ok <==> t.Some?)
              && (ok ==> Table(done + [now], connected, shared, numServers, numWorkers) == t.value)
      ensures !ok ==> connected == old(connected) && shared == old(shared)
      ensures !ok ==> numServers == old(numServers) && numWorkers == old(numWorkers)
    {
      hide NodeInfo.Address, RankToNodeId;
      var id := if node.role == Server then RankToNodeId(Server, numServers) else RankToNodeId(Worker, numWorkers);
      var addr := node.Address();
      if addr !in connected {
        if node.id != NO_ID {
          return false, node;
        }
        now := node.(id := id);
        connected := connected[addr := id];
      } else {
        var nodeId := connected[addr];
        shared := shared[id := nodeId];
        now := node.(id := nodeId);
      }
      if node.role == Server {
        numServers := numServers + 1;
      }
      if node.role == Worker {
        numWorkers := numWorkers + 1;
      }
      ok := true;
    }

    method Receivers() returns (receivers: seq<nat>)
      requires Valid() && SERVER_WORKER_GROUP in manager.nodeIds
      ensures receivers == Told(NodeIds(manager.nodes, SERVER_WORKER_GROUP), shared)
    {
      hide NodeIds;
      var ids := manager.nodeIds[SERVER_WORKER_GROUP];
      receivers := [];
      for i := 0 to |ids|
        invariant receivers == Told(ids[..i], shared)
      {
        assert ids[..i + 1][..i] == ids[..i];
        if ids[i] !in shared {
          receivers := receivers + [ids[i]];
        }
      }
      assert ids[..|ids|] == ids;
    }
  }

  lemma AssignStep(t: Table, ns: seq<NodeInfo>, i: nat)
    requires i <= |ns|
    ensures i == 0 ==> AssignAll(t, ns, i) == Some(t)
    ensures i > 0 ==>
              var r := AssignAll(t, ns, i - 1);
              AssignAll(t, ns, i) == if r.None? then None else AssignNode(r.value, ns[i - 1])
  {}

  lemma {:induction false} NoneStays(t: Table, ns: seq<NodeInfo>, i: nat, j: nat)
    requires i <= j <= |ns| && AssignAll(t, ns, i).None?
    ensures AssignAll(t, ns, j).None?
  {
    hide AssignNode;
    if i < j {
      NoneStays(t, ns, i, j - 1);
    }
  }

  lemma AnyoneToTell(c: Cluster)
    ensures NodeIds(Nodes(c.workers, c.servers, 1), SERVER_WORKER_GROUP) == [] <==> c.servers + c.workers == 0
  {
    assert |NodeIds(Nodes(c.workers, c.servers, 1), SERVER_WORKER_GROUP)| == c.workers + c.servers;
  }

  // ---- Whole joins ----

  /** The roster after the first `i` nodes announced themselves, one message each. */
  function Join(c: Cluster, arrivals: seq<NodeInfo>, i: nat): Option<Roster>
    requires i <= |arrivals|
  {
    if i == 0 then Some(EMPTY_ROSTER)
    else
      var r := Join(c, arrivals, i - 1);
      if r.None? then None else Handled(c, r.value, NO_ID, [arrivals[i - 1]])
  }

  /** The expected nodes: the right number of each role, distinct addresses, no ids. */
  predicate Expected(c: Cluster, arrivals: seq<NodeInfo>) {
    && |arrivals| == c.servers + c.workers > 0
    && DistinctAddresses(arrivals) && Unassigned(arrivals)
    && CountRole(arrivals, Server, |arrivals|) == c.servers
  }

  lemma {:induction false} JoinCollects(c: Cluster, arrivals: seq<NodeInfo>, i: nat)
    requires i < |arrivals| == c.servers + c.workers
    ensures Join(c, arrivals, i) == Some(EMPTY_ROSTER.(nodes := arrivals[..i]))
  {
    hide AssignAll, AssignNode, Sort;
    if i > 0 {
      JoinCollects(c, arrivals, i - 1);
      assert arrivals[..i] == arrivals[..i - 1] + [arrivals[i - 1]];
    }
  }

  lemma {:induction false} CountSplits(ns: seq<NodeInfo>, i: nat)
    requires i <= |ns| && Unassigned(ns)
    ensures CountRole(ns, Server, i) + CountRole(ns, Worker, i) == i
  {
    if i > 0 {
      CountSplits(ns, i - 1);
    }
  }

  lemma RemoveOne(b: seq<NodeInfo>, k: nat)
    requires k < |b|
    ensures multiset(b[..k] + b[k + 1..]) == multiset(b) - multiset{b[k]}
  {
    assert b == b[..k] + ([b[k]] + b[k + 1..]);
    assert multiset([b[k]] + b[k + 1..]) == multiset{b[k]} + multiset(b[k + 1..]);
  }

  lemma CountWithout(b: seq<NodeInfo>, k: nat, role: NodeRole)
    requires k < |b|
    ensures var rest := b[..k] + b[k + 1..];
            CountRole(b, role, |b|) == CountRole(rest, role, |rest|) + if b[k].role == role then 1 else 0
  {
    CountAppend(b[..k], b[k + 1..], role);
    CountAppend(b[..k], [b[k]] + b[k + 1..], role);
    CountAppend([b[k]], b[k + 1..], role);
    assert b[..k] + ([b[k]] + b[k + 1..]) == b;
  }

  /** Role counts do not depend on the order. */
  lemma {:induction false} CountIsOrderless(a: seq<NodeInfo>, b: seq<NodeInfo>, role: NodeRole)
    requires multiset(a) == multiset(b)
    ensures CountRole(a, role, |a|) == CountRole(b, role, |b|)
    decreases |a|
  {
    hide CountRole;
    assert |multiset(a)| == |a| && |multiset(b)| == |b|;
    if a == [] {
      assert a == b;
    } else {
      var last := |a| - 1;
      assert a[last] in multiset(b);
      var k :| 0 <= k < |b| && b[k] == a[last];
      RemoveOne(a, last);
      RemoveOne(b, k);
      CountWithout(a, last, role);
      CountWithout(b, k, role);
      CountIsOrderless(a[..last] + a[last + 1..], b[..k] + b[k + 1..], role);
    }
  }

  lemma {:induction false} CountPrefix(a: seq<NodeInfo>, b: seq<NodeInfo>, role: NodeRole, i: nat)
    requires i <= |a|
    ensures CountRole(a + b, role, i) == CountRole(a, role, i)
  {
    if i > 0 {
      CountPrefix(a, b, role, i - 1);
    }
  }

  lemma {:induction false} CountAppend(a: seq<NodeInfo>, b: seq<NodeInfo>, role: NodeRole)
    ensures CountRole(a + b, role, |a + b|) == CountRole(a, role, |a|) + CountRole(b, role, |b|)
    decreases |b|
  {
    if b == [] {
      assert a + b == a;
    } else {
      var front, last := b[..|b| - 1], b[|b| - 1];
      CountAppend(a, front, role);
      CountPrefix(a + front, [last], role, |a + front|);
      CountPrefix(front, [last], role, |front|);
      assert a + b == (a + front) + [last] && b == front + [last];
    }
  }

  /** The list the coordinator ends with and broadcasts: sorted, ranked, itself last. */
  function FinalNodes(c: Cluster, arrivals: seq<NodeInfo>): seq<NodeInfo> {
    var ns := Sort(arrivals);
    seq(|ns|, i requires 0 <= i < |ns| => Ranked(ns, i)) + [c.self]
  }

  lemma JoinCompletes(c: Cluster, arrivals: seq<NodeInfo>)
    requires |arrivals| == c.servers + c.workers > 0
    ensures Join(c, arrivals, |arrivals|) == Completed(c, EMPTY_ROSTER.(nodes := arrivals))
  {
    hide Completed;
    var n := |arrivals|;
    JoinCollects(c, arrivals, n - 1);
    assert arrivals == arrivals[..n - 1] + [arrivals[n - 1]];
  }

  lemma JoinAssigns(c: Cluster, arrivals: seq<NodeInfo>)
    requires Expected(c, arrivals)
    ensures var r := Join(c, arrivals, |arrivals|);
            && r.Some? && r.value.ready && r.value.nodes == FinalNodes(c, arrivals) && r.value.shared == map[]
            && r.value.servers == c.servers && r.value.workers == c.workers
  {
    hide Join, AssignAll, AssignNode, Sort, CountRole, Ranked, Addresses, DistinctAddresses, Unassigned;
    var n, ns := |arrivals|, Sort(arrivals);
    JoinCompletes(c, arrivals);
    SortExpected(c, arrivals);
    AssignedRanks(ns, n);
    CountSplits(ns, n);
  }

  lemma SortExpected(c: Cluster, arrivals: seq<NodeInfo>)
    requires Expected(c, arrivals)
    ensures Expected(c, Sort(arrivals))
  {
    var ns := Sort(arrivals);
    SortSorts(arrivals);
    SortPermutes(arrivals);
    SortedDistinct(ns);
    CountIsOrderless(ns, arrivals, Server);
    forall i | 0 <= i < |ns| ensures ns[i].id == NO_ID && ns[i].role != Coordinator {
      assert ns[i] in multiset(ns);
      var j :| 0 <= j < |arrivals| && arrivals[j] == ns[i];
    }
  }

  /** Every arrival order of the expected nodes ends with the same list. */
  lemma JoinOrderIsIrrelevant(c: Cluster, a: seq<NodeInfo>, b: seq<NodeInfo>)
    requires Expected(c, a) && Expected(c, b) && multiset(a) == multiset(b)
    ensures Join(c, a, |a|).Some? && Join(c, b, |b|).Some?
    ensures Join(c, a, |a|).value.nodes == Join(c, b, |b|).value.nodes
  {
    hide Join, Expected;
    JoinAssigns(c, a);
    JoinAssigns(c, b);
    assert DistinctAddresses(a) && DistinctAddresses(b) by { ExpectedDistinct(c, a); ExpectedDistinct(c, b); }
    SortSorts(a);
    SortSorts(b);
    SortPermutes(a);
    SortPermutes(b);
    SortIsUnique(Sort(a), Sort(b));
  }

  lemma ExpectedDistinct(c: Cluster, a: seq<NodeInfo>)
    requires Expected(c, a)
    ensures DistinctAddresses(a)
  {}

  /** The ids of that list are exactly those of the server and worker group, and decode to distinct ranks. */
  lemma FinalIds(c: Cluster, arrivals: seq<NodeInfo>)
    requires Expected(c, arrivals)
    ensures var final := FinalNodes(c, arrivals);
            && |final| == |arrivals| + 1
            && (forall i, j :: 0 <= i < j < |arrivals| ==> final[i].id != final[j].id)
            && (forall id :: id in NodeIds(Nodes(c.workers, c.servers, 1), SERVER_WORKER_GROUP)
                             <==> exists i :: 0 <= i < |arrivals| && final[i].id == id)
  {
    hide CountRole, Sort, NodeIds;
    var ns := Sort(arrivals);
    SortExpected(c, arrivals);
    CountSplits(ns, |ns|);
    RanksAreTheGroup(ns, c.servers, c.workers);
    var final := FinalNodes(c, arrivals);
    assert |ns| == |arrivals| && forall i :: 0 <= i < |ns| ==> final[i] == Ranked(ns, i);
  }

  /**
    Which node gets which rank: the list has the joined nodes from the lexically last host
    on, ports ascending, the coordinator last; a node's rank is the number of nodes of its
    role before it, and ids are 10, 26, ... for servers and 12, 28, ... for workers.
   */
  lemma FinalOrder(c: Cluster, arrivals: seq<NodeInfo>, i: nat)
    requires Expected(c, arrivals) && i < |arrivals|
    ensures var final := FinalNodes(c, arrivals);
            && |final| == |arrivals| + 1 && final[|arrivals|] == c.self
            && final[i].id == 16 * CountRole(final, final[i].role, i) + (if final[i].role == Server then 10 else 12)
            && final[i].(id := NO_ID) in multiset(arrivals)
            && forall j :: i < j < |arrivals| ==>
                 || LexicallyAfter(final[i].host, final[j].host)
                 || (final[i].host == final[j].host && final[i].port < final[j].port)
  {
    hide Sort, LexicallyAfter, CountRole, Before;
    var ns, final := Sort(arrivals), FinalNodes(c, arrivals);
    SortPermutes(arrivals);
    assert DistinctAddresses(arrivals) && Unassigned(arrivals);
    SortSorts(arrivals);
    assert ns[i] in multiset(ns);
    var k :| 0 <= k < |arrivals| && arrivals[k] == ns[i];
    SameCounts(ns, final, final[i].role, i);
    assert final[i] == Ranked(ns, i) && final[i].(id := NO_ID) == ns[i];
    forall j | i < j < |arrivals|
      ensures LexicallyAfter(final[i].host, final[j].host)
              || (final[i].host == final[j].host && final[i].port < final[j].port)
    {
      assert final[j] == Ranked(ns, j) && Before(ns[i], ns[j]);
      BeforeIs(ns[i], ns[j]);
    }
  }

  lemma {:induction false} SameCounts(a: seq<NodeInfo>, b: seq<NodeInfo>, role: NodeRole, i: nat)
    requires i <= |a| && i <= |b| && forall j :: 0 <= j < i ==> a[j].role == b[j].role
    ensures CountRole(a, role, i) == CountRole(b, role, i)
  {
    if i > 0 {
      SameCounts(a, b, role, i - 1);
    }
  }

  lemma {:induction false} TableCounts(ns: seq<NodeInfo>, n: nat)
    requires n <= |ns| && AssignAll(Table([], map[], map[], 0, 0), ns, n).Some?
    ensures var t := AssignAll(Table([], map[], map[], 0, 0), ns, n).value;
            t.servers == CountRole(ns, Server, n) && t.workers == CountRole(ns, Worker, n)
  {
    if n > 0 {
      TableCounts(ns, n - 1);
    }
  }

  lemma {:induction false} CountGrows(ns: seq<NodeInfo>, role: NodeRole, i: nat, n: nat)
    requires i < n <= |ns| && ns[i].role == role
    ensures CountRole(ns, role, i) < CountRole(ns, role, n)
  {
    if i < n - 1 {
      CountGrows(ns, role, i, n - 1);
    }
  }

  /** The id that a later node of an address would have had is noted as sharing the first one's socket. */
  lemma {:induction false} SharesSocket(ns: seq<NodeInfo>, i: nat, j: nat, n: nat)
    requires i < j < n <= |ns| && AssignAll(Table([], map[], map[], 0, 0), ns, n).Some?
    requires ns[j].Address() == ns[i].Address() && ns[j].role != Coordinator
    ensures var t := AssignAll(Table([], map[], map[], 0, 0), ns, n).value;
            var id := RankToNodeId(ns[j].role, CountRole(ns, ns[j].role, j));
            |t.ranked| == n && id in t.shared && t.shared[id] == t.ranked[i].id
  {
    hide RankToNodeId, NodeInfo.Address, CountRole;
    TableCounts(ns, n - 1);
    if j < n - 1 {
      SharesSocket(ns, i, j, n - 1);
      CountGrows(ns, ns[j].role, j, n - 1);
      NodeIdDecodes(ns[j].role, CountRole(ns, ns[j].role, j), Server, CountRole(ns, Server, n - 1));
      NodeIdDecodes(ns[j].role, CountRole(ns, ns[j].role, j), Worker, CountRole(ns, Worker, n - 1));
    } else {
      SameAddressSameId(ns, i, j);
    }
  }

  /** Nodes that announce the same address get the same id, the first one's. */
  lemma {:induction false} SameAddressSameId(ns: seq<NodeInfo>, i: nat, n: nat)
    requires i < n <= |ns| && AssignAll(Table([], map[], map[], 0, 0), ns, n).Some?
    ensures var t := AssignAll(Table([], map[], map[], 0, 0), ns, n).value;
            && |t.ranked| == n
            && ns[i].Address() in t.connected && t.connected[ns[i].Address()] == t.ranked[i].id
            && forall j :: 0 <= j < n && ns[j].Address() == ns[i].Address() ==> t.ranked[j].id == t.ranked[i].id
  {
    hide RankToNodeId, NodeInfo.Address;
    var start := Table([], map[], map[], 0, 0);
    if i < n - 1 {
      SameAddressSameId(ns, i, n - 1);
    } else {
      forall j | 0 <= j < n - 1
        ensures var t := AssignAll(start, ns, n - 1).value;
                ns[j].Address() in t.connected && t.connected[ns[j].Address()] == t.ranked[j].id
      {
        SameAddressSameId(ns, j, n - 1);
      }
    }
  }

  // ---- What the other nodes learn ----

  /** A node without an id takes over its own entry of the list it is sent. */
  function Learned(self: NodeInfo, announced: seq<NodeInfo>, i: nat): NodeInfo
    requires i <= |announced|
  {
    if i == 0 then self
    else
      var node := Learned(self, announced, i - 1);
      if SameAddress(announced[i - 1], node) && node.id == NO_ID then announced[i - 1] else node
  }

  method UpdateLocalId(self: NodeInfo, announced: seq<NodeInfo>) returns (now: NodeInfo)
    ensures now == Learned(self, announced, |announced|)
  {
    now := self;
    for i := 0 to |announced|
      invariant now == Learned(self, announced, i)
    {
      var node := announced[i];
      if node.host == now.host && node.port == now.port {
        if now.id == NO_ID {
          now := node;
        }
      }
    }
  }

  /** A node that has an id, as the coordinator does from the start, keeps its entry whatever is announced. */
  lemma {:induction false} IdKept(self: NodeInfo, announced: seq<NodeInfo>, i: nat)
    requires i <= |announced| && self.id != NO_ID
    ensures Learned(self, announced, i) == self
  {
    if i > 0 {
      IdKept(self, announced, i - 1);
    }
  }

  /** With distinct addresses a node without an id takes its own entry. */
  lemma {:induction false} LearnsOwnEntry(self: NodeInfo, announced: seq<NodeInfo>, k: nat, i: nat)
    requires k < |announced| && i <= |announced| && DistinctAddresses(announced)
    requires SameAddress(self, announced[k]) && self.id == NO_ID
    ensures Learned(self, announced, i) == if k < i then announced[k] else self
  {
    if i > 0 {
      LearnsOwnEntry(self, announced, k, i - 1);
      if k < i - 1 {
        assert !SameAddress(announced[k], announced[i - 1]);
      } else if i - 1 < k {
        assert !SameAddress(announced[i - 1], announced[k]);
      }
    }
  }
}
