/**
  The counting barrier (cpp/metaspore/node_manager.cpp, cpp/metaspore/actor_process.cpp).

  The coordinator counts requests per group mask, not senders, and the message that
  releases a group names no group.  The network may delay and reorder messages.
 */
module Barriers {
  import opened NodeEncoding
  import opened NodeManagers
  import opened Sequences

  const GROUPS: nat := 8

  type Counters = c: seq<nat> | |c| == GROUPS witness seq(GROUPS, _ => 0)

  /** What one counted request does: the counters, and whether the group is released. */
  function Counted(counters: Counters, group: nat, size: nat): (Counters, bool)
    requires group < GROUPS
  {
    if counters[group] + 1 == size then (counters[group := 0], true)
    else (counters[group := counters[group] + 1], false)
  }

  /** The coordinator's side. */
  class BarrierCounter {
    const manager: NodeManager
    var counters: seq<nat>

    ghost predicate Valid()
      reads this, manager
    {
      manager.Valid() && (counters == [] || |counters| == GROUPS)
    }

    /** The counters, all zero before the first request. */
    ghost function Counts(): Counters
      reads this, manager
      requires Valid()
    {
      if counters == [] then seq(GROUPS, _ => 0) else counters
    }

    constructor (manager: NodeManager)
      requires manager.Valid()
      ensures Valid() && this.manager == manager && Counts() == seq(GROUPS, _ => 0)
    {
      this.manager := manager;
      counters := [];
    }

    /**
      Handles a request for `group`; the answer lists the receivers of done messages.
      A group that is no mask, or has no members, throws after the counters are set up.
     */
    method HandleBarrierMessage(group: nat) returns (ok: bool, receivers: seq<nat>)
      requires Valid()
      modifies this
      ensures Valid()
      ensures ok <==> group < GROUPS && NodeIds(manager.nodes, group) != []
      ensures ok ==>
                var (now, released) := Counted(old(Counts()), group, |NodeIds(manager.nodes, group)|);
                Counts() == now && receivers == if released then NodeIds(manager.nodes, group) else []
      ensures ok ==>
                var size := |NodeIds(manager.nodes, group)|;
                var full := old(Counts())[group] + 1 == size;
                && receivers == (if full then NodeIds(manager.nodes, group) else [])
                && Counts()[group] == (if full then 0 else old(Counts())[group] + 1)
                && forall g :: 0 <= g < GROUPS && g != group ==> Counts()[g] == old(Counts())[g]
      ensures !ok ==> receivers == []
      ensures !ok ==>
                Counts() == if group < GROUPS then old(Counts())[group := old(Counts())[group] + 1] else old(Counts())
    {
      hide NodeIds;
      receivers := [];
      if |counters| == 0 {
        counters := seq(GROUPS, _ => 0);
      }
      if group >= GROUPS {
        return false, [];
      }
      counters := counters[group := counters[group] + 1];
      if group !in manager.nodeIds {
        return false, [];
      }
      var ids := manager.nodeIds[group];
      if counters[group] == |ids| {
        counters := counters[group := 0];
        for i := 0 to |ids|
          invariant receivers == ids[..i]
        {
          receivers := receivers + [ids[i]];
        }
      }
      ok := true;
    }
  }

  // ---- The whole system ----

  /** A barrier request: its sender and the group it names. */
  type Request = (nat, nat)

  /**
    `waiting` maps a node whose thread is in the call to its group; `up` holds the nodes
    whose flag is up.  `entered`, `left` and `rounds` only record history.
   */
  datatype State = State(
    requests: multiset<Request>,
    dones: multiset<nat>,
    counters: Counters,
    waiting: map<nat, nat>,
    up: set<nat>,
    entered: multiset<Request>,
    left: multiset<Request>,
    rounds: multiset<nat>)

  datatype Step = Enter(node: nat, group: nat) | Receive(node: nat, group: nat) | Notify(node: nat) | Leave(node: nat)

  function Initial(up: set<nat>): State {
    State(multiset{}, multiset{}, seq(GROUPS, _ => 0), map[], up, multiset{}, multiset{}, multiset{})
  }

  /** Groups a node really waits on: masks of more than one node that list it. */
  predicate Waits(nodes: Nodes, node: nat, group: nat) {
    group < GROUPS && node in NodeIds(nodes, group) && |NodeIds(nodes, group)| > 1
  }

  predicate Enabled(nodes: Nodes, s: State, step: Step) {
    match step
    case Enter(n, g) => Waits(nodes, n, g) && n !in s.waiting
    case Receive(n, g) => (n, g) in s.requests && g < GROUPS
    case Notify(n) => n in s.dones
    case Leave(n) => n in s.waiting && n in s.up
  }

  function Next(nodes: Nodes, s: State, step: Step): State
    requires Enabled(nodes, s, step)
  {
    match step
    case Enter(n, g) =>
      s.(requests := s.requests + multiset{(n, g)}, waiting := s.waiting[n := g], up := s.up - {n},
         entered := s.entered + multiset{(n, g)})
    case Receive(n, g) =>
      var (counters, released) := Counted(s.counters, g, |NodeIds(nodes, g)|);
      var t := s.(requests := s.requests - multiset{(n, g)}, counters := counters);
      if released then t.(dones := s.dones + multiset(NodeIds(nodes, g)), rounds := s.rounds + multiset{g}) else t
    case Notify(n) => s.(dones := s.dones - multiset{n}, up := s.up + {n})
    case Leave(n) => s.(waiting := s.waiting - {n}, left := s.left + multiset{(n, s.waiting[n])})
  }

  /** Node `n` has been let go: its done message is in flight or its flag is up. */
  predicate Released(s: State, n: nat) {
    n in s.dones || n in s.up
  }

  /** The nodes waiting on `g` whose request was counted in the round under way. */
  ghost function CountedNodes(s: State, g: nat): (c: set<nat>)
    ensures forall n :: n in c <==> n in s.waiting && s.waiting[n] == g && (n, g) !in s.requests && !Released(s, n)
  {
    set n | n in s.waiting && s.waiting[n] == g && (n, g) !in s.requests && !Released(s, n)
  }

  /** A waiting node is in exactly one place: request in flight, counted, done in flight, flag up. */
  ghost predicate OnePlace(nodes: Nodes, s: State, n: nat) {
    && s.dones[n] <= 1
    && (n in s.dones ==> n in s.waiting && n !in s.up)
    && (forall g :: s.requests[(n, g)] <= 1)
    && (forall g :: (n, g) in s.requests ==> n in s.waiting && s.waiting[n] == g && !Released(s, n))
    && (n in s.waiting ==> Waits(nodes, n, s.waiting[n]))
  }

  ghost predicate Counts(nodes: Nodes, s: State, g: nat) {
    g < GROUPS ==> s.counters[g] == |CountedNodes(s, g)| && (s.counters[g] == 0 || s.counters[g] < |NodeIds(nodes, g)|)
  }

  /** A member has entered every finished round, and left all of them but one it is being released from. */
  ghost predicate History(nodes: Nodes, s: State, n: nat, g: nat) {
    Waits(nodes, n, g) ==>
      var here := n in s.waiting && s.waiting[n] == g;
      && s.entered[(n, g)] == s.rounds[g] + (if here && !Released(s, n) then 1 else 0)
      && s.left[(n, g)] + (if here && Released(s, n) then 1 else 0) == s.rounds[g]
  }

  ghost predicate Invariant(nodes: Nodes, s: State) {
    && (forall n :: OnePlace(nodes, s, n))
    && (forall g :: Counts(nodes, s, g))
    && (forall n, g :: History(nodes, s, n, g))
  }

  lemma InitialHolds(nodes: Nodes, up: set<nat>)
    ensures Invariant(nodes, Initial(up))
  {
    forall g ensures Counts(nodes, Initial(up), g) {
      assert CountedNodes(Initial(up), g) == {};
    }
  }

  // ---- Every step keeps the invariant ----

  lemma EnterKeeps(nodes: Nodes, s: State, n: nat, g: nat)
    requires Invariant(nodes, s) && Enabled(nodes, s, Enter(n, g))
    ensures Invariant(nodes, Next(nodes, s, Enter(n, g)))
  {
    hide NodeIds, Unique;
    var t := Next(nodes, s, Enter(n, g));
    assert OnePlace(nodes, s, n);
    forall x ensures OnePlace(nodes, t, x) {
      assert OnePlace(nodes, s, x);
    }
    forall h ensures Counts(nodes, t, h) {
      assert Counts(nodes, s, h);
      forall x ensures x in CountedNodes(t, h) <==> x in CountedNodes(s, h) {
        assert OnePlace(nodes, s, x);
      }
      assert CountedNodes(t, h) == CountedNodes(s, h);
    }
    forall x, h ensures History(nodes, t, x, h) {
      assert History(nodes, s, x, h) && OnePlace(nodes, s, x);
    }
  }

  lemma NotifyKeeps(nodes: Nodes, s: State, n: nat)
    requires Invariant(nodes, s) && Enabled(nodes, s, Notify(n))
    ensures Invariant(nodes, Next(nodes, s, Notify(n)))
  {
    hide NodeIds, Unique;
    var t := Next(nodes, s, Notify(n));
    assert OnePlace(nodes, s, n);
    forall x ensures Released(t, x) == Released(s, x) {
      assert OnePlace(nodes, s, x);
    }
    forall x ensures OnePlace(nodes, t, x) {
      assert OnePlace(nodes, s, x);
    }
    forall h ensures Counts(nodes, t, h) {
      assert Counts(nodes, s, h);
      assert CountedNodes(t, h) == CountedNodes(s, h);
    }
    forall x, h ensures History(nodes, t, x, h) {
      assert History(nodes, s, x, h);
    }
  }

  lemma LeaveKeeps(nodes: Nodes, s: State, n: nat)
    requires Invariant(nodes, s) && Enabled(nodes, s, Leave(n))
    ensures Invariant(nodes, Next(nodes, s, Leave(n)))
  {
    hide NodeIds, Unique;
    var t := Next(nodes, s, Leave(n));
    assert OnePlace(nodes, s, n);
    forall x ensures OnePlace(nodes, t, x) {
      assert OnePlace(nodes, s, x);
    }
    forall h ensures Counts(nodes, t, h) {
      assert Counts(nodes, s, h);
      assert CountedNodes(t, h) == CountedNodes(s, h);
    }
    forall x, h ensures History(nodes, t, x, h) {
      assert History(nodes, s, x, h);
    }
  }

  /** The counted nodes are members, so fewer than all of them leave a member out. */
  lemma CountedAreMembers(nodes: Nodes, s: State, g: nat)
    requires Invariant(nodes, s)
    ensures CountedNodes(s, g) <= SetOf(NodeIds(nodes, g))
    ensures |SetOf(NodeIds(nodes, g))| == |NodeIds(nodes, g)|
  {
    hide NodeIds, Unique;
    forall n | n in CountedNodes(s, g) ensures n in NodeIds(nodes, g) {
      assert OnePlace(nodes, s, n);
    }
    NodeIdsDistinct(nodes, g);
    DistinctSize(NodeIds(nodes, g));
  }

  function SetOf(ids: seq<nat>): (r: set<nat>)
    ensures forall n :: n in r <==> n in ids
  {
    set n | n in ids
  }

  lemma {:induction false} DistinctSize(ids: seq<nat>)
    requires Unique(ids)
    ensures |SetOf(ids)| == |ids|
    ensures forall n :: multiset(ids)[n] == if n in ids then 1 else 0
  {
    if ids != [] {
      var front, last := ids[..|ids| - 1], ids[|ids| - 1];
      DistinctSize(front);
      assert last !in front;
      assert ids == front + [last];
      assert SetOf(ids) == SetOf(front) + {last};
    }
  }

  lemma SubsetSize(a: set<nat>, b: set<nat>)
    requires a <= b
    ensures |a| <= |b| && (|a| == |b| ==> a == b)
  {
    assert b == a + (b - a);
  }

  lemma ReceiveCounts(nodes: Nodes, s: State, n: nat, g: nat)
    requires Invariant(nodes, s) && Enabled(nodes, s, Receive(n, g))
    requires !Counted(s.counters, g, |NodeIds(nodes, g)|).1
    ensures Invariant(nodes, Next(nodes, s, Receive(n, g)))
  {
    hide NodeIds, Unique, CountedNodes;
    var t := Next(nodes, s, Receive(n, g));
    assert OnePlace(nodes, s, n) && Counts(nodes, s, g);
    forall x ensures OnePlace(nodes, t, x) {
      assert OnePlace(nodes, s, x);
    }
    forall h ensures Counts(nodes, t, h) {
      assert Counts(nodes, s, h);
      OneMoreCounted(nodes, s, n, g, h);
    }
    forall x, h ensures History(nodes, t, x, h) {
      assert History(nodes, s, x, h);
    }
  }

  lemma OneMoreCounted(nodes: Nodes, s: State, n: nat, g: nat, h: nat)
    requires Invariant(nodes, s) && Enabled(nodes, s, Receive(n, g))
    requires !Counted(s.counters, g, |NodeIds(nodes, g)|).1
    ensures |CountedNodes(Next(nodes, s, Receive(n, g)), h)| == |CountedNodes(s, h)| + if h == g then 1 else 0
  {
    hide NodeIds, CountedNodes;
    assert OnePlace(nodes, s, n);
    assert CountedNodes(Next(nodes, s, Receive(n, g)), h)
        == if h == g then CountedNodes(s, h) + {n} else CountedNodes(s, h);
  }

  /** When the count reaches the group's size, every member's request of this round has arrived. */
  lemma AllArrived(nodes: Nodes, s: State, n: nat, g: nat)
    requires Invariant(nodes, s) && Enabled(nodes, s, Receive(n, g))
    requires Counted(s.counters, g, |NodeIds(nodes, g)|).1
    ensures forall x :: x in NodeIds(nodes, g) <==> x == n || x in CountedNodes(s, g)
    ensures n !in CountedNodes(s, g) && Waits(nodes, n, g) && n in s.waiting && s.waiting[n] == g && !Released(s, n)
  {
    hide NodeIds, Unique;
    assert OnePlace(nodes, s, n) && Counts(nodes, s, g);
    CountedAreMembers(nodes, s, g);
    SubsetSize(CountedNodes(s, g) + {n}, SetOf(NodeIds(nodes, g)));
    assert |CountedNodes(s, g) + {n}| == |NodeIds(nodes, g)|;
  }

  /** The counted request that releases the group, and what it leads to. */
  ghost predicate Releases(nodes: Nodes, s: State, n: nat, g: nat, t: State) {
    && Invariant(nodes, s) && Enabled(nodes, s, Receive(n, g)) && t == Next(nodes, s, Receive(n, g))
    && Counted(s.counters, g, |NodeIds(nodes, g)|).1
  }

  lemma ReleaseSets(nodes: Nodes, s: State, n: nat, g: nat, t: State, x: nat)
    requires Releases(nodes, s, n, g, t)
    ensures t.dones[x] == s.dones[x] + if x in NodeIds(nodes, g) then 1 else 0
    ensures Released(t, x) <==> Released(s, x) || x in NodeIds(nodes, g)
    ensures x in NodeIds(nodes, g) ==>
              x in s.waiting && s.waiting[x] == g && !Released(s, x) && (x == n || (x, g) !in s.requests)
  {
    hide NodeIds, Unique;
    AllArrived(nodes, s, n, g);
    NodeIdsDistinct(nodes, g);
    DistinctSize(NodeIds(nodes, g));
  }

  lemma ReceiveReleases(nodes: Nodes, s: State, n: nat, g: nat, t: State)
    requires Releases(nodes, s, n, g, t)
    ensures Invariant(nodes, t)
  {
    hide NodeIds;
    forall x ensures OnePlace(nodes, t, x) {
      ReleaseSets(nodes, s, n, g, t, x);
      assert OnePlace(nodes, s, x);
    }
    forall h ensures Counts(nodes, t, h) {
      ReleaseCounts(nodes, s, n, g, t, h);
    }
    forall x, h ensures History(nodes, t, x, h) {
      ReleaseSets(nodes, s, n, g, t, x);
      assert History(nodes, s, x, h);
    }
  }

  lemma ReleaseCounts(nodes: Nodes, s: State, n: nat, g: nat, t: State, h: nat)
    requires Releases(nodes, s, n, g, t)
    ensures Counts(nodes, t, h)
  {
    hide NodeIds, Released, CountedNodes;
    assert Counts(nodes, s, h);
    forall x ensures x in CountedNodes(t, h) <==> h != g && x in CountedNodes(s, h) {
      ReleaseSets(nodes, s, n, g, t, x);
      assert OnePlace(nodes, s, x);
    }
    assert CountedNodes(t, h) == if h == g then {} else CountedNodes(s, h);
  }

  lemma StepKeeps(nodes: Nodes, s: State, step: Step)
    requires Invariant(nodes, s) && Enabled(nodes, s, step)
    ensures Invariant(nodes, Next(nodes, s, step))
  {
    match step
    case Enter(n, g) => EnterKeeps(nodes, s, n, g);
    case Receive(n, g) =>
      if Counted(s.counters, g, |NodeIds(nodes, g)|).1 {
        ReceiveReleases(nodes, s, n, g, Next(nodes, s, step));
      } else {
        ReceiveCounts(nodes, s, n, g);
      }
    case Notify(n) => NotifyKeeps(nodes, s, n);
    case Leave(n) => LeaveKeeps(nodes, s, n);
  }

  // ---- Over whole runs ----

  ghost predicate Runs(nodes: Nodes, trace: seq<State>, steps: seq<Step>) {
    && |trace| == |steps| + 1
    && (exists up :: trace[0] == Initial(up))
    && (forall i :: 0 <= i < |steps| ==>
          Enabled(nodes, trace[i], steps[i]) && trace[i + 1] == Next(nodes, trace[i], steps[i]))
  }

  lemma {:induction false} RunKeeps(nodes: Nodes, trace: seq<State>, steps: seq<Step>, i: nat)
    requires Runs(nodes, trace, steps) && i <= |steps|
    ensures Invariant(nodes, trace[i])
  {
    if i == 0 {
      var up :| trace[0] == Initial(up);
      InitialHolds(nodes, up);
    } else {
      RunKeeps(nodes, trace, steps, i - 1);
      StepKeeps(nodes, trace[i - 1], steps[i - 1]);
    }
  }

  /**
    Safety.  Whenever a node leaves its barrier on `g`, for the k-th time, every member
    of `g` has entered its k-th barrier on `g`, whatever other groups overlap.
   */
  lemma NobodyLeavesEarly(nodes: Nodes, trace: seq<State>, steps: seq<Step>, i: nat, n: nat, g: nat, member: nat)
    requires Runs(nodes, trace, steps) && i < |steps| && steps[i] == Leave(n) && trace[i].waiting[n] == g
    requires member in NodeIds(nodes, g)
    ensures Waits(nodes, n, g)
    ensures trace[i + 1].left[(n, g)] == trace[i].left[(n, g)] + 1 <= trace[i].entered[(member, g)]
  {
    RunKeeps(nodes, trace, steps, i);
    assert OnePlace(nodes, trace[i], n);
    assert History(nodes, trace[i], n, g) && History(nodes, trace[i], member, g);
  }

  lemma AllCounted(nodes: Nodes, s: State, g: nat)
    requires Invariant(nodes, s)
    requires forall n :: n in NodeIds(nodes, g) ==> n in CountedNodes(s, g)
    ensures |CountedNodes(s, g)| == |NodeIds(nodes, g)|
    ensures g < GROUPS ==> |NodeIds(nodes, g)| == 0
  {
    hide NodeIds, Unique;
    assert Counts(nodes, s, g);
    CountedAreMembers(nodes, s, g);
    assert CountedNodes(s, g) == SetOf(NodeIds(nodes, g));
  }

  /** When all members of `g` wait on it, a message of theirs is in flight or one of them can leave. */
  lemma NeverStuck(nodes: Nodes, trace: seq<State>, steps: seq<Step>, i: nat, g: nat)
    requires Runs(nodes, trace, steps) && i <= |steps| && g < GROUPS && |NodeIds(nodes, g)| > 1
    requires forall n :: n in NodeIds(nodes, g) ==> n in trace[i].waiting && trace[i].waiting[n] == g
    ensures exists n :: n in NodeIds(nodes, g) && ((n, g) in trace[i].requests || Released(trace[i], n))
  {
    RunKeeps(nodes, trace, steps, i);
    var s := trace[i];
    if forall n :: n in NodeIds(nodes, g) ==> (n, g) !in s.requests && !Released(s, n) {
      AllCounted(nodes, s, g);
      assert false;
    }
  }

  /** Steps other than entering cannot go on for ever: each lowers this measure. */
  lemma DeliveryEnds(nodes: Nodes, s: State, step: Step)
    requires Enabled(nodes, s, step) && !step.Enter?
    ensures var t := Next(nodes, s, step);
            || |t.requests| < |s.requests|
            || (|t.requests| == |s.requests| && |t.dones| < |s.dones|)
            || (|t.requests| == |s.requests| && |t.dones| == |s.dones| && t.waiting.Keys < s.waiting.Keys)
  {
    if step.Leave? {
      assert step.node !in Next(nodes, s, step).waiting;
    }
  }

  /** So once nothing but entering is possible, no group has all its members waiting on it. */
  lemma QuietMeansServed(nodes: Nodes, trace: seq<State>, steps: seq<Step>, i: nat, g: nat)
    requires Runs(nodes, trace, steps) && i <= |steps| && g < GROUPS && |NodeIds(nodes, g)| > 1
    requires forall step :: Enabled(nodes, trace[i], step) ==> step.Enter?
    ensures exists n :: n in NodeIds(nodes, g) && (n in trace[i].waiting ==> trace[i].waiting[n] != g)
  {
    hide NodeIds;
    var s := trace[i];
    if forall n :: n in NodeIds(nodes, g) ==> n in s.waiting && s.waiting[n] == g {
      NeverStuck(nodes, trace, steps, i, g);
      var n :| n in NodeIds(nodes, g) && ((n, g) in s.requests || Released(s, n));
      assert !Enabled(nodes, s, Receive(n, g)) && !Enabled(nodes, s, Notify(n)) && !Enabled(nodes, s, Leave(n));
    }
  }
}
