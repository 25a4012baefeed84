/**
  A sparse tensor spread over n servers refines one map.

  The client side of cpp/metaspore/sparse_tensor.cpp scatters a request by `key % n`
  and gathers the answers; each server applies its part to its own map.
 */
module SparseSharding {
  import opened ArrayHashMaps
  import opened Responses
  import opened Rows
  import opened SparseStore
  import opened NodeEncoding

  // ---- Routing ----

  /** Those of the first `i` keys that go to server `p` of `n`, in order. */
  function PartKeys(ks: seq<Key>, n: nat, p: nat, i: nat): seq<Key>
    requires n > 0 && i <= |ks|
  {
    if i == 0 then []
    else
      var rest := PartKeys(ks, n, p, i - 1);
      if ks[i - 1] % n == p then rest + [ks[i - 1]] else rest
  }

  /** The rows of those keys. */
  function PartRows<T>(ks: seq<Key>, rows: seq<T>, n: nat, p: nat, i: nat): (r: seq<T>)
    requires n > 0 && i <= |ks| == |rows|
    ensures |r| == |PartKeys(ks, n, p, i)|
  {
    if i == 0 then []
    else
      var rest := PartRows(ks, rows, n, p, i - 1);
      if ks[i - 1] % n == p then rest + [rows[i - 1]] else rest
  }

  /** The part of a store that server `p` of `n` holds. */
  function Restrict(m: Store, n: nat, p: nat): Store
    requires n > 0
  {
    map k | k in m && k % n == p :: m[k]
  }

  lemma {:induction false} PartKeysMembers(ks: seq<Key>, n: nat, p: nat, i: nat)
    requires n > 0 && i <= |ks|
    ensures forall k :: k in PartKeys(ks, n, p, i) <==> k in ks[..i] && k % n == p
  {
    if i > 0 {
      PartKeysMembers(ks, n, p, i - 1);
      assert ks[..i] == ks[..i - 1] + [ks[i - 1]];
    }
  }

  /**
    The cursor invariant of the gather: the number of earlier keys routed to the
    owner of `ks[i]` is where `ks[i]` sits in the owner's request.
   */
  lemma {:induction false} CursorPoints(ks: seq<Key>, n: nat, i: nat, end: nat)
    requires n > 0 && i < end <= |ks|
    ensures var p := ks[i] % n;
            var c := |PartKeys(ks, n, p, i)|;
            c < |PartKeys(ks, n, p, end)| && PartKeys(ks, n, p, end)[c] == ks[i]
  {
    if i < end - 1 {
      CursorPoints(ks, n, i, end - 1);
    }
  }

  // ---- Requests ----

  datatype Command =
    | PushCmd(keys: seq<Key>, rows: seq<seq<Number>>, isValue: bool)
    | PullCmd(keys: seq<Key>, readOnly: bool, nanFill: bool)
    | PushPartitionCmd(keys: seq<Key>, slices: seq<Slice>, dataOnly: bool, skipExisting: bool)
    | ClearCmd
    | PruneSmallCmd(epsilon: real)
    | PruneOldCmd(maxAge: int)
  {
    predicate WellFormed() {
      && (PushCmd? ==> |keys| == |rows|)
      && (PushPartitionCmd? ==> |keys| == |slices|)
    }
  }

  datatype Answer = Done | Values(rows: seq<seq<Number>>) | Failed

  /** The state after a command on one store: what each handler of a server computes. */
  function Apply(meta: Meta, m: Store, c: Command): Store
    requires c.WellFormed()
  {
    match c
    case PushCmd(ks, rows, isValue) => Push(meta, m, ks, rows, isValue)
    case PullCmd(ks, readOnly, _) => Pulled(meta, m, ks, readOnly)
    case PushPartitionCmd(ks, slices, dataOnly, skipExisting) =>
      PushPartition(meta, m, ks, slices, dataOnly, skipExisting)
    case ClearCmd => map[]
    case PruneSmallCmd(epsilon) => if meta.isFloat then Pruned(m, SmallVisit(epsilon)) else m
    case PruneOldCmd(maxAge) => Pruned(m, AgeVisit(maxAge))
  }

  function AnswerTo(meta: Meta, m: Store, c: Command): Answer
    requires c.WellFormed()
  {
    match c
    case PullCmd(ks, readOnly, nanFill) =>
      if PullThrows(meta, m, ks, readOnly, nanFill) then Failed
      else Values(PullRows(meta, Apply(meta, m, c), ks, nanFill))
    case PruneSmallCmd(_) => if meta.isFloat then Done else Failed
    case _ => Done
  }

  /** What the client sends to server `p`. */
  function Routed(c: Command, n: nat, p: nat): (r: Command)
    requires n > 0 && c.WellFormed()
    ensures r.WellFormed()
  {
    match c
    case PushCmd(ks, rows, isValue) => PushCmd(PartKeys(ks, n, p, |ks|), PartRows(ks, rows, n, p, |ks|), isValue)
    case PullCmd(ks, readOnly, nanFill) => PullCmd(PartKeys(ks, n, p, |ks|), readOnly, nanFill)
    case PushPartitionCmd(ks, slices, dataOnly, skipExisting) =>
      PushPartitionCmd(PartKeys(ks, n, p, |ks|), PartRows(ks, slices, n, p, |ks|), dataOnly, skipExisting)
    case _ => c
  }

  /** The gathered rows: row i is read at the cursor of the owner of key i. */
  function GatheredRows(ks: seq<Key>, n: nat, byServer: seq<seq<seq<Number>>>): (rows: seq<seq<Number>>)
    requires n > 0 && |byServer| == n
    requires forall p :: 0 <= p < n ==> |byServer[p]| == |PartKeys(ks, n, p, |ks|)|
    ensures |rows| == |ks|
  {
    seq(|ks|, i requires 0 <= i < |ks| =>
      CursorPoints(ks, n, i, |ks|);
      byServer[ks[i] % n][|PartKeys(ks, n, ks[i] % n, i)|])
  }

  /** Every server answered the rows of the keys it was sent. */
  predicate Readable(ks: seq<Key>, n: nat, answers: seq<Answer>)
    requires n > 0 && |answers| == n
  {
    forall p :: 0 <= p < n ==> answers[p].Values? && |answers[p].rows| == |PartKeys(ks, n, p, |ks|)|
  }

  /**
    What the client makes of the answers, server by server.  Any exception fails the
    call; so does, here, a buffer too short to read, which `ClientStep` shows never comes.
   */
  function Combined(c: Command, n: nat, answers: seq<Answer>): Answer
    requires n > 0 && |answers| == n && c.WellFormed()
  {
    if exists p :: 0 <= p < n && answers[p].Failed? then Failed
    else if !c.PullCmd? then Done
    else if Readable(c.keys, n, answers) then
      Values(GatheredRows(c.keys, n, seq(n, p requires 0 <= p < n && answers[p].Values? => answers[p].rows)))
    else Failed
  }

  // ---- One command ----

  lemma EnsuredRestricts(meta: Meta, m: Store, ks: set<Key>, part: set<Key>, n: nat, p: nat)
    requires n > 0 && forall k :: k in part <==> k in ks && k % n == p
    ensures Ensured(meta, Restrict(m, n, p), part) == Restrict(Ensured(meta, m, ks), n, p)
  {}

  lemma RestrictPut(m: Store, k: Key, v: Slice, n: nat, p: nat)
    requires n > 0
    ensures Restrict(m[k := v], n, p) == if k % n == p then Restrict(m, n, p)[k := v] else Restrict(m, n, p)
    ensures k % n == p ==> (k in Restrict(m, n, p) <==> k in m) && (k in m ==> Restrict(m, n, p)[k] == m[k])
  {}

  lemma {:induction false} WrittenPrefix(meta: Meta, isValue: bool, m: Store, ks: seq<Key>, rows: seq<seq<Number>>,
                                         more: seq<Key>, moreRows: seq<seq<Number>>, i: nat)
    requires i <= |ks| == |rows| && |more| == |moreRows|
    ensures Written(meta, isValue, m, ks + more, rows + moreRows, i) == Written(meta, isValue, m, ks, rows, i)
  {
    if i > 0 {
      WrittenPrefix(meta, isValue, m, ks, rows, more, moreRows, i - 1);
    }
  }

  lemma {:induction false} WrittenRestricts(meta: Meta, isValue: bool, m: Store, ks: seq<Key>, rows: seq<seq<Number>>,
                                            n: nat, p: nat, i: nat)
    requires n > 0 && i <= |ks| == |rows|
    ensures Written(meta, isValue, Restrict(m, n, p), PartKeys(ks, n, p, i), PartRows(ks, rows, n, p, i),
            |PartKeys(ks, n, p, i)|)
            == Restrict(Written(meta, isValue, m, ks, rows, i), n, p)
  {
    hide Restrict;
    if i > 0 {
      var part, partRows := PartKeys(ks, n, p, i - 1), PartRows(ks, rows, n, p, i - 1);
      WrittenRestricts(meta, isValue, m, ks, rows, n, p, i - 1);
      WrittenPrefix(meta, isValue, Restrict(m, n, p), part, partRows, [ks[i - 1]], [rows[i - 1]], |part|);
      var r, k := Written(meta, isValue, m, ks, rows, i - 1), ks[i - 1];
      RestrictPut(r, k, if k in r then PushedSlice(meta, isValue, r[k], rows[i - 1]) else Slice([], [], 0), n, p);
    }
  }

  lemma {:induction false} ImportedPrefix(meta: Meta, m: Store, ks: seq<Key>, rows: seq<Slice>, more: seq<Key>,
                                          moreRows: seq<Slice>, dataOnly: bool, skipExisting: bool, i: nat)
    requires i <= |ks| == |rows| && |more| == |moreRows|
    ensures Imported(meta, m, ks + more, rows + moreRows, dataOnly, skipExisting, i)
            == Imported(meta, m, ks, rows, dataOnly, skipExisting, i)
  {
    if i > 0 {
      ImportedPrefix(meta, m, ks, rows, more, moreRows, dataOnly, skipExisting, i - 1);
    }
  }

  lemma {:induction false} ImportedRestricts(meta: Meta, m: Store, ks: seq<Key>, rows: seq<Slice>, dataOnly: bool,
                                             skipExisting: bool, n: nat, p: nat, i: nat)
    requires n > 0 && i <= |ks| == |rows|
    ensures Imported(meta, Restrict(m, n, p), PartKeys(ks, n, p, i), PartRows(ks, rows, n, p, i), dataOnly,
            skipExisting, |PartKeys(ks, n, p, i)|)
            == Restrict(Imported(meta, m, ks, rows, dataOnly, skipExisting, i), n, p)
  {
    hide Restrict;
    if i > 0 {
      var part, partRows := PartKeys(ks, n, p, i - 1), PartRows(ks, rows, n, p, i - 1);
      ImportedRestricts(meta, m, ks, rows, dataOnly, skipExisting, n, p, i - 1);
      ImportedPrefix(meta, Restrict(m, n, p), part, partRows, [ks[i - 1]], [rows[i - 1]], dataOnly, skipExisting,
          |part|);
      RestrictPut(Imported(meta, m, ks, rows, dataOnly, skipExisting, i - 1), ks[i - 1],
          ImportedSlice(meta, rows[i - 1], dataOnly), n, p);
    }
  }

  /** Server `p` applying its part does to its shard what the command does to the whole map. */
  lemma ServerStep(meta: Meta, m: Store, c: Command, n: nat, p: nat)
    requires n > 0 && c.WellFormed()
    ensures Apply(meta, Restrict(m, n, p), Routed(c, n, p)) == Restrict(Apply(meta, m, c), n, p)
  {
    match c
    case PushCmd(ks, rows, isValue) =>
      PartKeysMembers(ks, n, p, |ks|);
      assert ks[..|ks|] == ks;
      EnsuredRestricts(meta, m, (set k | k in ks), (set k | k in PartKeys(ks, n, p, |ks|)), n, p);
      WrittenRestricts(meta, isValue, Ensured(meta, m, set k | k in ks), ks, rows, n, p, |ks|);
    case PullCmd(ks, readOnly, _) =>
      PartKeysMembers(ks, n, p, |ks|);
      assert ks[..|ks|] == ks;
      EnsuredRestricts(meta, m, (set k | k in ks && k != PADDING_KEY),
                       (set k | k in PartKeys(ks, n, p, |ks|) && k != PADDING_KEY), n, p);
    case PushPartitionCmd(ks, slices, dataOnly, skipExisting) =>
      ImportedRestricts(meta, m, ks, slices, dataOnly, skipExisting, n, p, |ks|);
    case ClearCmd =>
    case PruneSmallCmd(epsilon) =>
    case PruneOldCmd(maxAge) =>
  }

  /** The answers of the n servers to their parts of a command. */
  function ServerAnswers(meta: Meta, m: Store, c: Command, n: nat): (answers: seq<Answer>)
    requires n > 0 && c.WellFormed()
    ensures |answers| == n
  {
    seq(n, p requires 0 <= p < n => AnswerTo(meta, Restrict(m, n, p), Routed(c, n, p)))
  }

  lemma FailsTogether(meta: Meta, m: Store, ks: seq<Key>, readOnly: bool, nanFill: bool, n: nat)
    requires n > 0
    ensures PullThrows(meta, m, ks, readOnly, nanFill) <==>
            exists p :: 0 <= p < n && PullThrows(meta, Restrict(m, n, p), PartKeys(ks, n, p, |ks|), readOnly, nanFill)
  {
    assert ks[..|ks|] == ks;
    forall p | 0 <= p < n ensures forall k :: k in PartKeys(ks, n, p, |ks|) <==> k in ks && k % n == p {
      PartKeysMembers(ks, n, p, |ks|);
    }
    if PullThrows(meta, m, ks, readOnly, nanFill) {
      var k :| k in ks && k != PADDING_KEY && k !in m;
      assert k in PartKeys(ks, n, k % n, |ks|);
      assert PullThrows(meta, Restrict(m, n, k % n), PartKeys(ks, n, k % n, |ks|), readOnly, nanFill);
    }
  }

  /** Row by row, the gather reads what the single map would answer. */
  lemma GatherReads(meta: Meta, m: Store, ks: seq<Key>, n: nat, nanFill: bool, byServer: seq<seq<seq<Number>>>)
    requires n > 0 && |byServer| == n
    requires forall p :: 0 <= p < n ==> |byServer[p]| == |PartKeys(ks, n, p, |ks|)|
    requires forall p :: 0 <= p < n ==>
               byServer[p] == PullRows(meta, Restrict(m, n, p), PartKeys(ks, n, p, |ks|), nanFill)
    ensures GatheredRows(ks, n, byServer) == PullRows(meta, m, ks, nanFill)
  {
    forall i | 0 <= i < |ks|
      ensures GatheredRows(ks, n, byServer)[i] == PullRows(meta, m, ks, nanFill)[i]
    {
      CursorPoints(ks, n, i, |ks|);
    }
  }

  /** The client's result is the single map's answer. */
  lemma ClientStep(meta: Meta, m: Store, c: Command, n: nat)
    requires n > 0 && c.WellFormed()
    ensures Combined(c, n, ServerAnswers(meta, m, c, n)) == AnswerTo(meta, m, c)
  {
    var answers := ServerAnswers(meta, m, c, n);
    match c
    case PullCmd(ks, readOnly, nanFill) =>
      FailsTogether(meta, m, ks, readOnly, nanFill, n);
      forall p | 0 <= p < n
        ensures answers[p].Failed? <==> PullThrows(meta, Restrict(m, n, p), PartKeys(ks, n, p, |ks|), readOnly, nanFill)
      {}
      if !PullThrows(meta, m, ks, readOnly, nanFill) {
        var byServer := seq(n, p requires 0 <= p < n && answers[p].Values? => answers[p].rows);
        forall p | 0 <= p < n
          ensures byServer[p] == PullRows(meta, Restrict(Apply(meta, m, c), n, p), PartKeys(ks, n, p, |ks|), nanFill)
        {
          ServerStep(meta, m, c, n, p);
        }
        GatherReads(meta, Apply(meta, m, c), ks, n, nanFill, byServer);
      }
    case PruneSmallCmd(_) =>
      assert answers[0] == AnswerTo(meta, Restrict(m, n, 0), c);
    case _ =>
  }

  // ---- Runs ----

  ghost predicate AllWellFormed(cs: seq<Command>) {
    forall j :: 0 <= j < |cs| ==> cs[j].WellFormed()
  }

  /** One map after the first `i` commands. */
  ghost function Run(meta: Meta, m: Store, cs: seq<Command>, i: nat): Store
    requires AllWellFormed(cs) && i <= |cs|
  {
    if i == 0 then m else Apply(meta, Run(meta, m, cs, i - 1), cs[i - 1])
  }

  /** Server `p` after receiving its parts of the first `i` commands, in that order. */
  ghost function ServerRun(meta: Meta, shard: Store, cs: seq<Command>, n: nat, p: nat, i: nat): Store
    requires n > 0 && AllWellFormed(cs) && i <= |cs|
  {
    if i == 0 then shard else Apply(meta, ServerRun(meta, shard, cs, n, p, i - 1), Routed(cs[i - 1], n, p))
  }

  /**
    Each server linearises its keys in the order its messages arrive: whatever the
    other servers do, the shard is the restriction of one map run in that order.
   */
  lemma {:induction false} ServerRefinesOneMap(meta: Meta, m: Store, cs: seq<Command>, n: nat, p: nat, i: nat)
    requires n > 0 && AllWellFormed(cs) && i <= |cs|
    ensures ServerRun(meta, Restrict(m, n, p), cs, n, p, i) == Restrict(Run(meta, m, cs, i), n, p)
  {
    if i > 0 {
      ServerRefinesOneMap(meta, m, cs, n, p, i - 1);
      ServerStep(meta, Run(meta, m, cs, i - 1), cs[i - 1], n, p);
    }
  }

  /** The whole system, one client call after another: n shards after the first `i` commands. */
  ghost function ShardedRun(meta: Meta, shards: seq<Store>, cs: seq<Command>, i: nat): (r: seq<Store>)
    requires |shards| > 0 && AllWellFormed(cs) && i <= |cs|
    ensures |r| == |shards|
  {
    if i == 0 then shards
    else
      var before := ShardedRun(meta, shards, cs, i - 1);
      seq(|shards|, p requires 0 <= p < |shards| => Apply(meta, before[p], Routed(cs[i - 1], |shards|, p)))
  }

  /** What the client of command `i` is told. */
  ghost function ShardedAnswer(meta: Meta, shards: seq<Store>, cs: seq<Command>, i: nat): Answer
    requires |shards| > 0 && AllWellFormed(cs) && i < |cs|
  {
    var before := ShardedRun(meta, shards, cs, i);
    var answers := seq(|shards|, p requires 0 <= p < |shards| => AnswerTo(meta, before[p], Routed(cs[i], |shards|, p)));
    Combined(cs[i], |shards|, answers)
  }

  ghost function Sharded(m: Store, n: nat): (shards: seq<Store>)
    requires n > 0
    ensures |shards| == n
  {
    seq(n, p requires 0 <= p < n => Restrict(m, n, p))
  }

  /** In every run over n servers the shards hold the one map's state ... */
  lemma {:induction false} ShardsRefineOneMap(meta: Meta, m: Store, n: nat, cs: seq<Command>, i: nat)
    requires n > 0 && AllWellFormed(cs) && i <= |cs|
    ensures ShardedRun(meta, Sharded(m, n), cs, i) == Sharded(Run(meta, m, cs, i), n)
  {
    hide Restrict, Apply, Routed;
    if i > 0 {
      ShardsRefineOneMap(meta, m, n, cs, i - 1);
      forall p | 0 <= p < n
        ensures ShardedRun(meta, Sharded(m, n), cs, i)[p] == Sharded(Run(meta, m, cs, i), n)[p]
      {
        ServerStep(meta, Run(meta, m, cs, i - 1), cs[i - 1], n, p);
      }
    }
  }

  /** ... and every call is answered as the one map would answer it. */
  lemma ShardsAnswerAsOneMap(meta: Meta, m: Store, n: nat, cs: seq<Command>, i: nat)
    requires n > 0 && AllWellFormed(cs) && i < |cs|
    ensures ShardedAnswer(meta, Sharded(m, n), cs, i) == AnswerTo(meta, Run(meta, m, cs, i), cs[i])
  {
    ShardsRefineOneMap(meta, m, n, cs, i);
    var now := Run(meta, m, cs, i);
    ClientStep(meta, now, cs[i], n);
    assert ServerAnswers(meta, now, cs[i], n)
        == seq(n, p requires 0 <= p < n => AnswerTo(meta, Sharded(now, n)[p], Routed(cs[i], n, p)));
  }

  /** What server `p` answers to the command at place `at` of its own arrival order. */
  ghost function AnswerInOrder(meta: Meta, m: Store, order: seq<Command>, at: nat, n: nat, p: nat): Answer
    requires n > 0 && AllWellFormed(order) && at < |order|
  {
    AnswerTo(meta, ServerRun(meta, Restrict(m, n, p), order, n, p, at), Routed(order[at], n, p))
  }

  /** Key `i` of a pull is one that its owner, holding part of `m`, would have to fill. */
  predicate Unfilled(m: Store, ks: seq<Key>, i: nat)
    requires i < |ks|
  {
    ks[i] != PADDING_KEY && ks[i] !in m
  }

  /** Server `p` owns such a key. */
  predicate OwnsUnfilled(m: Store, ks: seq<Key>, n: nat, p: nat)
    requires n > 0
  {
    exists i :: 0 <= i < |ks| && ks[i] % n == p && Unfilled(m, ks, i)
  }

  /** The pull asks for a NaN fill that the element type does not have. */
  predicate CannotFill(meta: Meta, c: Command)
    requires c.PullCmd?
  {
    c.readOnly && c.nanFill && !meta.isFloat
  }

  /** A server throws on its part of a pull exactly when it owns a key that cannot be filled. */
  lemma PartThrows(meta: Meta, m: Store, ks: seq<Key>, readOnly: bool, nanFill: bool, n: nat, p: nat)
    requires n > 0
    ensures PullThrows(meta, Restrict(m, n, p), PartKeys(ks, n, p, |ks|), readOnly, nanFill)
            <==> readOnly && nanFill && !meta.isFloat && OwnsUnfilled(m, ks, n, p)
  {
    hide PartKeys;
    PartKeysMembers(ks, n, p, |ks|);
    assert ks[..|ks|] == ks;
    if OwnsUnfilled(m, ks, n, p) {
      var i :| 0 <= i < |ks| && ks[i] % n == p && Unfilled(m, ks, i);
      assert ks[i] in PartKeys(ks, n, p, |ks|);
    }
  }

  /** In its own order, a server answers its part of a pull from the one map run in that order. */
  lemma AnswersInOrder(meta: Meta, m: Store, order: seq<Command>, at: nat, n: nat, p: nat)
    requires n > 0 && AllWellFormed(order) && at < |order| && order[at].PullCmd?
    ensures var c, answer := order[at], AnswerInOrder(meta, m, order, at, n, p);
            && (answer.Failed? <==> CannotFill(meta, c) && OwnsUnfilled(Run(meta, m, order, at), c.keys, n, p))
            && (!answer.Failed? ==>
                  answer == Values(PullRows(meta, Restrict(Run(meta, m, order, at + 1), n, p),
                                            PartKeys(c.keys, n, p, |c.keys|), c.nanFill)))
  {
    hide Restrict, PartKeys, PullRows, PullThrows, Pulled, Unfilled;
    var c := order[at];
    ServerRefinesOneMap(meta, m, order, n, p, at);
    ServerStep(meta, Run(meta, m, order, at), c, n, p);
    PartThrows(meta, Run(meta, m, order, at), c.keys, c.readOnly, c.nanFill, n, p);
  }

  lemma RestrictedRow(meta: Meta, m: Store, n: nat, k: Key, nanFill: bool)
    requires n > 0
    ensures PullRow(meta, Restrict(m, n, k % n), k, nanFill) == PullRow(meta, m, k, nanFill)
  {}

  /** The map that key `i` of a pull meets at its owner, in the owner's order. */
  ghost function AtOwner(meta: Meta, m: Store, c: Command, orders: seq<seq<Command>>, at: seq<nat>, i: nat): Store
    requires c.PullCmd? && Arrivals(c, orders, at) && i < |c.keys|
  {
    Run(meta, m, orders[c.keys[i] % |orders|], at[c.keys[i] % |orders|])
  }

  /** Each server has an arrival order of its own, in which the call comes at place `at[p]`. */
  ghost predicate Arrivals(c: Command, orders: seq<seq<Command>>, at: seq<nat>) {
    && |orders| == |at| > 0
    && forall p :: 0 <= p < |orders| ==> AllWellFormed(orders[p]) && at[p] < |orders[p]| && orders[p][at[p]] == c
  }

  ghost function ServersAnswers(meta: Meta, m: Store, c: Command, orders: seq<seq<Command>>,
                                at: seq<nat>)
    : (answers: seq<Answer>)
    requires Arrivals(c, orders, at)
    ensures |answers| == |orders|
  {
    seq(|orders|, p requires 0 <= p < |orders| => AnswerInOrder(meta, m, orders[p], at[p], |orders|, p))
  }

  /** What the client makes of the servers' answers to a call that reaches them in those orders. */
  ghost function ConcurrentAnswer(meta: Meta, m: Store, c: Command, orders: seq<seq<Command>>, at: seq<nat>): Answer
    requires c.WellFormed() && Arrivals(c, orders, at)
  {
    Combined(c, |orders|, ServersAnswers(meta, m, c, orders, at))
  }

  lemma CombinedPull(c: Command, n: nat, answers: seq<Answer>)
    requires n > 0 && |answers| == n && c.PullCmd?
    requires forall p :: 0 <= p < n && !answers[p].Failed? ==>
               answers[p].Values? && |answers[p].rows| == |PartKeys(c.keys, n, p, |c.keys|)|
    ensures Combined(c, n, answers).Failed? <==> exists p :: 0 <= p < n && answers[p].Failed?
  {
    hide PartKeys;
  }

  /** The pull names a key that its owner does not have when the pull gets there. */
  ghost predicate NamesUnfilled(meta: Meta, m: Store, c: Command, orders: seq<seq<Command>>, at: seq<nat>)
    requires c.PullCmd? && Arrivals(c, orders, at)
  {
    exists i :: 0 <= i < |c.keys| && Unfilled(AtOwner(meta, m, c, orders, at, i), c.keys, i)
  }

  /**
    A pull fails exactly when it is a read-only, NaN filling pull of an integer tensor and
    names a key that its owner does not have when the pull gets there.
   */
  lemma ConcurrentPullFails(meta: Meta, m: Store, c: Command, orders: seq<seq<Command>>, at: seq<nat>)
    requires c.PullCmd? && Arrivals(c, orders, at)
    ensures ConcurrentAnswer(meta, m, c, orders, at).Failed?
            <==> CannotFill(meta, c) && NamesUnfilled(meta, m, c, orders, at)
  {
    hide AnswerInOrder, PartKeys, PullRows, Run, Restrict, Unfilled, Combined;
    var n, answers := |orders|, ServersAnswers(meta, m, c, orders, at);
    forall p | 0 <= p < n
      ensures answers[p].Failed? <==> CannotFill(meta, c) && OwnsUnfilled(Run(meta, m, orders[p], at[p]), c.keys, n, p)
      ensures !answers[p].Failed? ==> answers[p].Values? && |answers[p].rows| == |PartKeys(c.keys, n, p, |c.keys|)|
    {
      AnswersInOrder(meta, m, orders[p], at[p], n, p);
    }
    CombinedPull(c, n, answers);
    if Combined(c, n, answers).Failed? {
      var p :| 0 <= p < n && answers[p].Failed?;
      var i :| 0 <= i < |c.keys| && c.keys[i] % n == p && Unfilled(Run(meta, m, orders[p], at[p]), c.keys, i);
      assert Unfilled(AtOwner(meta, m, c, orders, at, i), c.keys, i);
    }
    if CannotFill(meta, c) && NamesUnfilled(meta, m, c, orders, at) {
      var i :| 0 <= i < |c.keys| && Unfilled(AtOwner(meta, m, c, orders, at, i), c.keys, i);
      assert answers[c.keys[i] % n].Failed?;
    }
  }

  /**
    Concurrent calls.  Every server receives its messages in an order of its own; a pull
    that does not fail answers, for each key, the row of the one map run in the order of
    the key's owner up to and including the pull.
   */
  lemma ConcurrentPull(meta: Meta, m: Store, c: Command, orders: seq<seq<Command>>, at: seq<nat>, i: nat)
    requires c.PullCmd? && Arrivals(c, orders, at) && i < |c.keys|
    ensures var r := ConcurrentAnswer(meta, m, c, orders, at);
            || (r.Failed? && CannotFill(meta, c) && NamesUnfilled(meta, m, c, orders, at))
            || (r.Values? && |r.rows| == |c.keys|
                && r.rows[i] == PullRow(meta, Apply(meta, AtOwner(meta, m, c, orders, at, i), c), c.keys[i], c.nanFill))
  {
    hide AnswerInOrder, PartKeys, PullRow, Restrict, Unfilled, Apply;
    var n, answers := |orders|, ServersAnswers(meta, m, c, orders, at);
    forall p | 0 <= p < n
      ensures var now := Restrict(Run(meta, m, orders[p], at[p] + 1), n, p);
              || answers[p].Failed?
              || answers[p] == Values(PullRows(meta, now, PartKeys(c.keys, n, p, |c.keys|), c.nanFill))
    {
      AnswersInOrder(meta, m, orders[p], at[p], n, p);
    }
    ConcurrentPullFails(meta, m, c, orders, at);
    CursorPoints(c.keys, n, i, |c.keys|);
    RestrictedRow(meta, Run(meta, m, orders[c.keys[i] % n], at[c.keys[i] % n] + 1), n, c.keys[i], c.nanFill);
  }

  /** The shards hold the map between them, each key on server `key % n` only. */
  lemma ShardsPartition(m: Store, n: nat, k: Key)
    requires n > 0
    ensures forall p :: 0 <= p < n ==> (k in Sharded(m, n)[p] <==> k in m && p == k % n)
    ensures k in m ==> Sharded(m, n)[k % n][k] == m[k]
  {}

  /** A pull of key 0 answers zeros, even right after key 0 was pushed. */
  lemma PaddingPullsZeros(meta: Meta, m: Store, push: Command, readOnly: bool, nanFill: bool)
    requires push.PushCmd? && push.WellFormed() && PADDING_KEY in push.keys
    ensures PADDING_KEY in Apply(meta, m, push)
    ensures PADDING_KEY == 0
    ensures var answer := AnswerTo(meta, Apply(meta, m, push), PullCmd([PADDING_KEY], readOnly, nanFill));
            && answer.Values? && |answer.rows| == 1 && |answer.rows[0]| == meta.dataItems
            && forall i :: 0 <= i < meta.dataItems ==> answer.rows[0][i] == Num(0.0)
  {
    var after := Apply(meta, Apply(meta, m, push), PullCmd([PADDING_KEY], readOnly, nanFill));
    var pulled := PullRows(meta, after, [PADDING_KEY], nanFill);
    assert pulled == [Zeros(meta.dataItems)];
  }

  // ---- Row lengths ----

  /** The initializer and the updater keep the slice layout. */
  ghost predicate KeepsLayout(meta: Meta) {
    && (meta.initializer.Some? ==> forall k: Key :: |meta.initializer.value(k)| == meta.dataItems)
    && (meta.updater.Some? ==> forall s: Slice, row: seq<Number> :: |row| == meta.dataItems && HasLayout(meta, s) ==>
          |meta.updater.value(s, row).0| == meta.dataItems && |meta.updater.value(s, row).1| == meta.stateItems)
  }

  predicate HasLayout(meta: Meta, s: Slice) {
    |s.data| == meta.dataItems && |s.state| == meta.stateItems
  }

  predicate AllHaveLayout(meta: Meta, m: Store) {
    forall k :: k in m ==> HasLayout(meta, m[k])
  }

  predicate FitsLayout(meta: Meta, c: Command) {
    && c.WellFormed()
    && (c.PushCmd? ==> AllOfLength(c.rows, meta.dataItems))
    && (c.PushPartitionCmd? ==> forall i :: 0 <= i < |c.slices| ==>
          |c.slices[i].data| == meta.dataItems && (c.dataOnly || |c.slices[i].state| == meta.stateItems))
  }

  lemma {:induction false} WrittenKeepsLayout(meta: Meta, isValue: bool, m: Store, ks: seq<Key>, rows: seq<seq<Number>>,
                                              i: nat)
    requires KeepsLayout(meta) && AllHaveLayout(meta, m) && i <= |ks| == |rows| && AllOfLength(rows, meta.dataItems)
    ensures AllHaveLayout(meta, Written(meta, isValue, m, ks, rows, i))
  {
    if i > 0 {
      WrittenKeepsLayout(meta, isValue, m, ks, rows, i - 1);
    }
  }

  lemma {:induction false} ImportedKeepsLayout(meta: Meta, m: Store, c: Command, i: nat)
    requires AllHaveLayout(meta, m) && c.PushPartitionCmd? && FitsLayout(meta, c) && i <= |c.keys|
    ensures AllHaveLayout(meta, Imported(meta, m, c.keys, c.slices, c.dataOnly, c.skipExisting, i))
  {
    if i > 0 {
      ImportedKeepsLayout(meta, m, c, i - 1);
    }
  }

  /** Every command keeps every slice in its layout, so every answered row has the row length. */
  lemma ApplyKeepsLayout(meta: Meta, m: Store, c: Command)
    requires KeepsLayout(meta) && AllHaveLayout(meta, m) && FitsLayout(meta, c)
    ensures AllHaveLayout(meta, Apply(meta, m, c))
    ensures AnswerTo(meta, m, c).Values? ==> AllOfLength(AnswerTo(meta, m, c).rows, meta.dataItems)
  {
    match c
    case PushCmd(ks, rows, isValue) =>
      WrittenKeepsLayout(meta, isValue, Ensured(meta, m, set k | k in ks), ks, rows, |ks|);
    case PushPartitionCmd(ks, slices, dataOnly, skipExisting) => ImportedKeepsLayout(meta, m, c, |ks|);
    case _ =>
  }

  // ---- The client's buffers ----

  /** The keys of a request, server by server. */
  method ScatterKeys(keys: seq<Key>, numParts: nat) returns (partKeys: seq<seq<Key>>)
    requires numParts > 0
    ensures |partKeys| == numParts
    ensures forall p :: 0 <= p < numParts ==> partKeys[p] == PartKeys(keys, numParts, p, |keys|)
  {
    partKeys := seq(numParts, _ => []);
    for i := 0 to |keys|
      invariant |partKeys| == numParts
      invariant forall p :: 0 <= p < numParts ==> partKeys[p] == PartKeys(keys, numParts, p, i)
    {
      var part := keys[i] % numParts;
      partKeys := partKeys[part := partKeys[part] + [keys[i]]];
    }
  }

  /** Keys and rows of a push; `source` walks the flat input. */
  method ScatterPush(keys: seq<Key>, input: seq<Number>, sliceItems: nat, numParts: nat)
    returns (partKeys: seq<seq<Key>>, partData: seq<seq<Number>>)
    requires numParts > 0 && |input| == Offset(|keys|, sliceItems)
    ensures |partKeys| == |partData| == numParts
    ensures forall p :: 0 <= p < numParts ==> partKeys[p] == PartKeys(keys, numParts, p, |keys|)
    ensures forall p :: 0 <= p < numParts ==>
              partData[p] == Flatten(PartRows(keys, RowsOf(input, sliceItems, |keys|), numParts, p, |keys|))
  {
    hide Offset, RowsOf, Flatten, PartRows;
    partKeys, partData := seq(numParts, _ => []), seq(numParts, _ => []);
    ghost var rows := RowsOf(input, sliceItems, |keys|);
    OffsetStep(0, 1, sliceItems);
    PartRowsNone(keys, rows, numParts);
    var source := 0;
    for i := 0 to |keys|
      invariant |partKeys| == |partData| == numParts && source == Offset(i, sliceItems)
      invariant forall p :: 0 <= p < numParts ==> partKeys[p] == PartKeys(keys, numParts, p, i)
      invariant forall p :: 0 <= p < numParts ==> partData[p] == Flatten(PartRows(keys, rows, numParts, p, i))
    {
      RowIs(input, sliceItems, |keys|, i);
      var part := keys[i] % numParts;
      partKeys := partKeys[part := partKeys[part] + [keys[i]]];
      PartRowsStep(keys, rows, numParts, i);
      partData := partData[part := partData[part] + input[source..source + sliceItems]];
      source := source + sliceItems;
    }
  }

  lemma PartRowsNone<T>(ks: seq<Key>, rows: seq<seq<T>>, n: nat)
    requires n > 0 && |ks| == |rows|
    ensures forall p :: 0 <= p < n ==> Flatten(PartRows(ks, rows, n, p, 0)) == []
  {}

  lemma PartRowsStep<T>(ks: seq<Key>, rows: seq<seq<T>>, n: nat, i: nat)
    requires n > 0 && i < |ks| == |rows|
    ensures forall p :: 0 <= p < n ==>
              Flatten(PartRows(ks, rows, n, p, i + 1)) ==
              if p == ks[i] % n then Flatten(PartRows(ks, rows, n, p, i)) + rows[i]
              else Flatten(PartRows(ks, rows, n, p, i))
  {
    forall p | 0 <= p < n
      ensures Flatten(PartRows(ks, rows, n, p, i + 1)) ==
              if p == ks[i] % n then Flatten(PartRows(ks, rows, n, p, i)) + rows[i]
              else Flatten(PartRows(ks, rows, n, p, i))
    {
      FlattenSnoc(PartRows(ks, rows, n, p, i), rows[i]);
    }
  }

  lemma {:induction false} FlattenToPrefix<T>(rows: seq<seq<T>>, more: seq<seq<T>>, n: nat)
    requires n <= |rows|
    ensures FlattenTo(rows + more, n) == FlattenTo(rows, n)
  {
    if n > 0 {
      FlattenToPrefix(rows, more, n - 1);
    }
  }

  lemma FlattenSnoc<T>(rows: seq<seq<T>>, row: seq<T>)
    ensures Flatten(rows + [row]) == Flatten(rows) + row
  {
    FlattenToPrefix(rows, [row], |rows|);
  }

  lemma {:induction false} PartRowsLength<T>(ks: seq<Key>, rows: seq<seq<T>>, d: nat, n: nat, p: nat, i: nat)
    requires n > 0 && i <= |ks| == |rows| && AllOfLength(rows, d)
    ensures AllOfLength(PartRows(ks, rows, n, p, i), d)
  {
    if i > 0 {
      PartRowsLength(ks, rows, d, n, p, i - 1);
    }
  }

  /** The flat buffer sent to server `p` is cut there into the rows of exactly the keys it was sent. */
  lemma PushArrives(ks: seq<Key>, input: seq<Number>, sliceItems: nat, n: nat, p: nat)
    requires n > 0 && |input| == Offset(|ks|, sliceItems)
    ensures var rows := PartRows(ks, RowsOf(input, sliceItems, |ks|), n, p, |ks|);
            && |Flatten(rows)| == Offset(|PartKeys(ks, n, p, |ks|)|, sliceItems)
            && RowsOf(Flatten(rows), sliceItems, |PartKeys(ks, n, p, |ks|)|) == rows
  {
    hide Offset, Flatten, Row;
    var rows := RowsOf(input, sliceItems, |ks|);
    PartRowsLength(ks, rows, sliceItems, n, p, |ks|);
    RowsOfFlatten(PartRows(ks, rows, n, p, |ks|), sliceItems);
  }

  /** Points each server's source at the buffer it answered, whatever the arrival order. */
  method CollectSources(ress: seq<Response<Number>>, numParts: nat, ghost byRank: seq<seq<Number>>,
                        ghost order: seq<nat>)
    returns (buffers: seq<seq<Number>>)
    requires |byRank| == numParts && |ress| == |order| && FromServers(ress, byRank, order)
    ensures buffers == byRank
  {
    hide FromServers, NodeIdToRank;
    buffers := seq(numParts, _ => []);
    for k := 0 to |ress|
      invariant |buffers| == numParts
      invariant forall j :: 0 <= j < k ==> order[j] < numParts && buffers[order[j]] == byRank[order[j]]
    {
      SenderRank(ress, byRank, order, k);
      buffers := buffers[NodeIdToRank(ress[k].sender) := ress[k].out];
    }
    forall p | 0 <= p < numParts ensures buffers[p] == byRank[p] {
      var j := SomeSender(ress, byRank, order, p);
    }
  }

  ghost function Flattened(rows: seq<seq<seq<Number>>>): (b: seq<seq<Number>>)
    ensures |b| == |rows|
  {
    seq(|rows|, p requires 0 <= p < |rows| => Flatten(rows[p]))
  }

  /**
    The gather: one cursor per server, advanced each time one of its keys comes up.
    Slice i of the result is the row the owner of key i answered for it.
   */
  method Gather(keys: seq<Key>, ress: seq<Response<Number>>, sliceItems: nat, numParts: nat,
                ghost rows: seq<seq<seq<Number>>>, ghost order: seq<nat>)
    returns (out: seq<Number>)
    requires numParts > 0 && |rows| == numParts
    requires forall p :: 0 <= p < numParts ==>
             |rows[p]| == |PartKeys(keys, numParts, p, |keys|)| && AllOfLength(rows[p], sliceItems)
    requires |ress| == |order| && FromServers(ress, Flattened(rows), order)
    ensures out == Flatten(GatheredRows(keys, numParts, rows))
  {
    hide FromServers, Offset;
    var buffers := CollectSources(ress, numParts, Flattened(rows), order);
    var sources := new nat[numParts](_ => 0);
    OffsetStep(0, 1, sliceItems);
    out := [];
    for i := 0 to |keys|
      invariant forall p :: 0 <= p < numParts ==> sources[p] == Offset(|PartKeys(keys, numParts, p, i)|, sliceItems)
      invariant out == FlattenTo(GatheredRows(keys, numParts, rows), i)
    {
      var part := keys[i] % numParts;
      CursorPoints(keys, numParts, i, |keys|);
      ghost var c, len := |PartKeys(keys, numParts, part, i)|, |rows[part]|;
      RowOfFlatten(rows[part], sliceItems, len, c);
      OffsetStep(c, len, sliceItems);
      out := out + buffers[part][sources[part]..sources[part] + sliceItems];
      sources[part] := sources[part] + sliceItems;
    }
  }
}
