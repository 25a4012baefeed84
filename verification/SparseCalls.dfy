/**
  Whole client calls on a sparse tensor: scatter, the n servers' handlers, gather
  (cpp/metaspore/sparse_tensor.cpp on top of sparse_tensor_partition.cpp).
 */
module SparseCalls {
  import opened ArrayHashMaps
  import opened NodeEncoding
  import opened Responses
  import opened Rows
  import opened Sequences
  import opened SparsePartition
  import opened SparseSharding
  import opened SparseStore
  import opened Wrappers

  ghost predicate Holds(server: SparseTensorPartition, meta: Meta, shard: Store)
    reads server, server.data
  {
    server.Valid() && server.meta == meta && server.Contents() == shard
  }

  /** The servers, each with a table of its own, hold the parts of the map `m`. */
  ghost predicate Serving(servers: seq<SparseTensorPartition>, meta: Meta, m: Store)
    reads servers, set s | s in servers :: s.data
  {
    && |servers| > 0
    && (forall p, q :: 0 <= p < q < |servers| ==> servers[p].data != servers[q].data)
    && (forall p :: 0 <= p < |servers| ==> Holds(servers[p], meta, Restrict(m, |servers|, p)))
  }

  /** Server `p` has room for those of its keys that a request inserts. */
  ghost predicate RoomAt(m: Store, ks: seq<Key>, pull: bool, n: nat, p: nat)
    requires n > 0
  {
    HasRoom(Restrict(m, n, p), Wanted(PartKeys(ks, n, p, |ks|), pull))
  }

  /** The request got through at server `p`, or there was no room and it kept what it had. */
  ghost predicate Handled(server: SparseTensorPartition, meta: Meta, before: Store, after: Store, room: bool)
    reads server, server.data
  {
    if room then Holds(server, meta, after) else server.Valid() && Keeps(before, server.Contents())
  }

  method ToArray(keys: seq<Key>) returns (a: array<Key>)
    ensures fresh(a) && a[..] == keys
  {
    a := new Key[|keys|](i requires 0 <= i < |keys| => keys[i]);
  }

  // ---- Pull ----

  /** What server `p` answers to its part of a pull. */
  ghost function PartRowsPulled(meta: Meta, m: Store, c: Command, n: nat, p: nat): seq<seq<Number>>
    requires n > 0 && c.PullCmd?
  {
    PullRows(meta, Restrict(Pulled(meta, m, c.keys, c.readOnly), n, p), PartKeys(c.keys, n, p, |c.keys|), c.nanFill)
  }

  /** Server `p` gets through its part of the pull. */
  ghost predicate PartAnswers(meta: Meta, m: Store, c: Command, n: nat, p: nat)
    requires n > 0 && c.PullCmd?
  {
    && (c.readOnly || RoomAt(m, c.keys, true, n, p))
    && !PullThrows(meta, Restrict(m, n, p), PartKeys(c.keys, n, p, |c.keys|), c.readOnly, c.nanFill)
  }

  method PullPart(server: SparseTensorPartition, ghost meta: Meta, ghost m: Store, c: Command, part: seq<Key>,
                  n: nat, p: nat)
    returns (out: Option<seq<Number>>)
    requires n > 0 && c.PullCmd? && Holds(server, meta, Restrict(m, n, p))
    requires part == PartKeys(c.keys, n, p, |c.keys|)
    modifies server.data
    ensures Handled(server, meta, Restrict(m, n, p), Restrict(Pulled(meta, m, c.keys, c.readOnly), n, p),
                    c.readOnly || RoomAt(m, c.keys, true, n, p))
    ensures out.Some? <==> PartAnswers(meta, m, c, n, p)
    ensures out.Some? ==> out.value == Flatten(PartRowsPulled(meta, m, c, n, p))
  {
    hide Restrict, PartKeys, Pulled, PullThrows, PullRows, HasRoom, Wanted, Keeps, Flatten;
    hide ArrayHashMap.Valid, ArrayHashMap.Contents;
    PullStep(meta, m, c, n, p);
    var keys := ToArray(part);
    var _, rows := server.HandlePull(keys, c.readOnly, c.nanFill);
    out := rows;
  }

  lemma PullStep(meta: Meta, m: Store, c: Command, n: nat, p: nat)
    requires n > 0 && c.PullCmd?
    ensures Pulled(meta, Restrict(m, n, p), PartKeys(c.keys, n, p, |c.keys|), c.readOnly)
            == Restrict(Pulled(meta, m, c.keys, c.readOnly), n, p)
  {
    ServerStep(meta, m, c, n, p);
  }

  lemma ServingSome(servers: seq<SparseTensorPartition>, meta: Meta, m: Store)
    requires Serving(servers, meta, m)
    ensures |servers| > 0
  {}

  /** Every server handles its part. */
  method PullParts(servers: seq<SparseTensorPartition>, ghost meta: Meta, ghost m: Store, c: Command,
                   partKeys: seq<seq<Key>>)
    returns (outs: seq<Option<seq<Number>>>)
    requires Serving(servers, meta, m) && c.PullCmd? && |partKeys| == |servers|
    requires forall p :: 0 <= p < |servers| ==> partKeys[p] == PartKeys(c.keys, |servers|, p, |c.keys|)
    modifies set s | s in servers :: s.data
    ensures forall p, q :: 0 <= p < q < |servers| ==> servers[p].data != servers[q].data
    ensures var n := |servers|;
            forall p :: 0 <= p < n ==>
              Handled(servers[p], meta, Restrict(m, n, p), Restrict(Pulled(meta, m, c.keys, c.readOnly), n, p),
                      c.readOnly || RoomAt(m, c.keys, true, n, p))
    ensures |outs| == |servers|
    ensures forall p :: 0 <= p < |outs| ==> (outs[p].Some? <==> PartAnswers(meta, m, c, |servers|, p))
    ensures forall p :: 0 <= p < |outs| && outs[p].Some? ==>
              outs[p].value == Flatten(PartRowsPulled(meta, m, c, |servers|, p))
  {
    hide Holds, Handled, Restrict, Pulled, PartAnswers, PartRowsPulled, RoomAt, PartKeys, Flatten;
    hide ArrayHashMap.Valid;
    var n := |servers|;
    outs := [];
    for p := 0 to n
      invariant |outs| == p
      invariant forall q :: p <= q < n ==> Holds(servers[q], meta, Restrict(m, n, q))
      invariant forall q :: 0 <= q < p ==>
                  Handled(servers[q], meta, Restrict(m, n, q), Restrict(Pulled(meta, m, c.keys, c.readOnly), n, q),
                          c.readOnly || RoomAt(m, c.keys, true, n, q))
      invariant forall q :: 0 <= q < p ==> (outs[q].Some? <==> PartAnswers(meta, m, c, n, q))
      invariant forall q :: 0 <= q < p && outs[q].Some? ==>
                  outs[q].value == Flatten(PartRowsPulled(meta, m, c, n, q))
    {
      var out := PullPart(servers[p], meta, m, c, partKeys[p], n, p);
      outs := outs + [out];
    }
  }

  /** All servers get through exactly when the one map answers and every server has room. */
  lemma AnswersTogether(meta: Meta, m: Store, c: Command, n: nat)
    requires n > 0 && c.PullCmd?
    ensures (forall p :: 0 <= p < n ==> PartAnswers(meta, m, c, n, p)) <==>
            && !PullThrows(meta, m, c.keys, c.readOnly, c.nanFill)
            && forall p :: 0 <= p < n ==> c.readOnly || RoomAt(m, c.keys, true, n, p)
  {
    hide PullThrows, RoomAt, PartKeys, Restrict;
    FailsTogether(meta, m, c.keys, c.readOnly, c.nanFill, n);
    if forall p :: 0 <= p < n ==> PartAnswers(meta, m, c, n, p) {
      forall p | 0 <= p < n
        ensures !PullThrows(meta, Restrict(m, n, p), PartKeys(c.keys, n, p, |c.keys|), c.readOnly, c.nanFill)
        ensures c.readOnly || RoomAt(m, c.keys, true, n, p)
      {
        assert PartAnswers(meta, m, c, n, p);
      }
    }
  }

  lemma AllServed(servers: seq<SparseTensorPartition>, meta: Meta, now: Store, m: Store, c: Command)
    requires c.PullCmd? && now == Pulled(meta, m, c.keys, c.readOnly) && |servers| > 0
    requires forall p, q :: 0 <= p < q < |servers| ==> servers[p].data != servers[q].data
    requires forall p :: 0 <= p < |servers| ==> PartAnswers(meta, m, c, |servers|, p)
    requires forall p :: 0 <= p < |servers| ==>
               Handled(servers[p], meta, Restrict(m, |servers|, p), Restrict(now, |servers|, p),
                       c.readOnly || RoomAt(m, c.keys, true, |servers|, p))
    ensures Serving(servers, meta, now)
  {
    hide Restrict, Holds, Pulled, RoomAt, PullThrows;
    forall p | 0 <= p < |servers| ensures Holds(servers[p], meta, Restrict(now, |servers|, p)) {
      assert PartAnswers(meta, m, c, |servers|, p);
    }
  }

  lemma PartsHaveLayout(meta: Meta, m: Store, c: Command, n: nat)
    requires n > 0 && c.PullCmd? && KeepsLayout(meta) && AllHaveLayout(meta, m)
    ensures forall p :: 0 <= p < n ==>
              var rows := PartRowsPulled(meta, m, c, n, p);
              |rows| == |PartKeys(c.keys, n, p, |c.keys|)| && AllOfLength(rows, meta.dataItems)
  {
    ApplyKeepsLayout(meta, m, c);
  }

  lemma FlattenedIs(rows: seq<seq<seq<Number>>>, buffers: seq<seq<Number>>)
    requires |rows| == |buffers| && forall p :: 0 <= p < |rows| ==> buffers[p] == Flatten(rows[p])
    ensures Flattened(rows) == buffers
  {}

  /** The answers in the order they arrive. */
  method Replies(buffers: seq<seq<Number>>, order: seq<nat>) returns (ress: seq<Response<Number>>)
    requires forall j :: 0 <= j < |order| ==> order[j] < |buffers|
    requires forall p :: 0 <= p < |buffers| ==> p in order
    ensures |ress| == |order| && FromServers(ress, buffers, order)
  {
    hide RankToNodeId;
    ress := seq(|order|, j requires 0 <= j < |order| => Response(RankToNodeId(Server, order[j]), buffers[order[j]]));
  }

  lemma PartsGather(meta: Meta, m: Store, c: Command, n: nat, rows: seq<seq<seq<Number>>>)
    requires n > 0 && c.PullCmd? && |rows| == n
    requires forall p :: 0 <= p < n ==> rows[p] == PartRowsPulled(meta, m, c, n, p)
    ensures forall p :: 0 <= p < n ==> |rows[p]| == |PartKeys(c.keys, n, p, |c.keys|)|
    ensures GatheredRows(c.keys, n, rows)
            == PullRows(meta, Pulled(meta, m, c.keys, c.readOnly), c.keys, c.nanFill)
  {
    GatherReads(meta, Pulled(meta, m, c.keys, c.readOnly), c.keys, n, c.nanFill, rows);
  }

  /**
    A pull: the keys scattered, every server handling its part, the answers gathered in
    the order they arrive.  It answers what the one map answers, and fails exactly when
    that map would or when a server has no room for the keys it inserts.
   */
  method Pull(servers: seq<SparseTensorPartition>, ghost meta: Meta, ghost m: Store, c: Command, sliceItems: nat,
              order: seq<nat>)
    returns (out: Option<seq<Number>>)
    requires Serving(servers, meta, m) && c.PullCmd? && sliceItems == meta.dataItems
    requires KeepsLayout(meta) && AllHaveLayout(meta, m)
    requires (forall j :: 0 <= j < |order| ==> order[j] < |servers|)
    requires (forall p :: 0 <= p < |servers| ==> p in order)
    modifies set s | s in servers :: s.data
    ensures var n := |servers|;
            forall p :: 0 <= p < n ==>
              Handled(servers[p], meta, Restrict(m, n, p), Restrict(Pulled(meta, m, c.keys, c.readOnly), n, p),
                      c.readOnly || RoomAt(m, c.keys, true, n, p))
    ensures out.Some? <==>
            && !PullThrows(meta, m, c.keys, c.readOnly, c.nanFill)
            && forall p :: 0 <= p < |servers| ==> c.readOnly || RoomAt(m, c.keys, true, |servers|, p)
    ensures out.Some? ==>
              && Serving(servers, meta, Pulled(meta, m, c.keys, c.readOnly))
              && out.value == Flatten(PullRows(meta, Pulled(meta, m, c.keys, c.readOnly), c.keys, c.nanFill))
  {
    hide *;
    var n := |servers|;
    ServingSome(servers, meta, m);
    ghost var now := Pulled(meta, m, c.keys, c.readOnly);
    var partKeys := ScatterKeys(c.keys, n);
    var outs := PullParts(servers, meta, m, c, partKeys);
    AnswersTogether(meta, m, c, n);
    if exists p :: 0 <= p < n && outs[p].None? {
      return None;
    }
    AllServed(servers, meta, now, m, c);
    var buffers := seq(n, p requires 0 <= p < n => outs[p].value);
    ghost var rows := seq(n, p requires 0 <= p < n => PartRowsPulled(meta, m, c, n, p));
    PartsHaveLayout(meta, m, c, n);
    assert Flattened(rows) == buffers by { FlattenedIs(rows, buffers); }
    var ress := Replies(buffers, order);
    PartsGather(meta, m, c, n, rows);
    var gathered := Gather(c.keys, ress, sliceItems, n, rows, order);
    out := Some(gathered);
  }

  // ---- Push ----

  lemma {:induction false} PartKeysUnique(ks: seq<Key>, n: nat, p: nat, i: nat)
    requires n > 0 && i <= |ks| && Unique(ks)
    ensures Unique(PartKeys(ks, n, p, i))
  {
    if i > 0 {
      PartKeysUnique(ks, n, p, i - 1);
      PartKeysMembers(ks, n, p, i - 1);
      assert ks[i - 1] !in ks[..i - 1];
    }
  }

  /** What the flat buffer of a part means to its server. */
  lemma PushStep(meta: Meta, m: Store, ks: seq<Key>, input: seq<Number>, isValue: bool, n: nat, p: nat)
    requires n > 0 && |input| == Offset(|ks|, meta.dataItems)
    ensures var rows := RowsOf(input, meta.dataItems, |ks|);
            var part, data := PartKeys(ks, n, p, |ks|), Flatten(PartRows(ks, rows, n, p, |ks|));
            && |data| == Offset(|part|, meta.dataItems)
            && SparseStore.Push(meta, Restrict(m, n, p), part, RowsOf(data, meta.dataItems, |part|), isValue)
               == Restrict(SparseStore.Push(meta, m, ks, rows, isValue), n, p)
  {
    hide Offset, RowsOf, PartKeys, PartRows, Flatten, SparseStore.Push, Restrict;
    var rows := RowsOf(input, meta.dataItems, |ks|);
    PushArrives(ks, input, meta.dataItems, n, p);
    ServerStep(meta, m, PushCmd(ks, rows, isValue), n, p);
  }

  method PushPart(server: SparseTensorPartition, ghost meta: Meta, ghost m: Store, ghost ks: seq<Key>,
                  ghost input: seq<Number>, isValue: bool, part: seq<Key>, data: seq<Number>, n: nat, p: nat)
    returns (ok: bool)
    requires n > 0 && Holds(server, meta, Restrict(m, n, p)) && |input| == Offset(|ks|, meta.dataItems)
    requires meta.updater.None? || isValue || Unique(ks)
    requires part == PartKeys(ks, n, p, |ks|)
    requires data == Flatten(PartRows(ks, RowsOf(input, meta.dataItems, |ks|), n, p, |ks|))
    modifies server.data
    ensures ok <==> RoomAt(m, ks, false, n, p)
    ensures var now := SparseStore.Push(meta, m, ks, RowsOf(input, meta.dataItems, |ks|), isValue);
            Handled(server, meta, Restrict(m, n, p), Restrict(now, n, p), ok)
  {
    hide Restrict, PartKeys, PartRows, SparseStore.Push, HasRoom, Wanted, Keeps, Flatten, Offset, RowsOf, UpdatedOnly;
    hide Ensured, Unique, ArrayHashMap.Valid, ArrayHashMap.Contents;
    PushStep(meta, m, ks, input, isValue, n, p);
    if Unique(ks) {
      PartKeysUnique(ks, n, p, |ks|);
    }
    var keys := ToArray(part);
    ok := server.HandlePush(keys, data, isValue);
  }

  /** A push: keys and rows scattered, every server handling its part as the one map handles the whole. */
  method Push(servers: seq<SparseTensorPartition>, ghost meta: Meta, ghost m: Store, keys: seq<Key>,
              input: seq<Number>, sliceItems: nat, isValue: bool)
    returns (ok: bool)
    requires Serving(servers, meta, m) && sliceItems == meta.dataItems && |input| == Offset(|keys|, sliceItems)
    requires meta.updater.None? || isValue || Unique(keys)
    modifies set s | s in servers :: s.data
    ensures var n, now := |servers|, SparseStore.Push(meta, m, keys, RowsOf(input, sliceItems, |keys|), isValue);
            && (forall p :: 0 <= p < n ==>
                  Handled(servers[p], meta, Restrict(m, n, p), Restrict(now, n, p), RoomAt(m, keys, false, n, p)))
            && (ok <==> forall p :: 0 <= p < n ==> RoomAt(m, keys, false, n, p))
            && (ok ==> Serving(servers, meta, now))
    ensures var rows := RowsOf(input, sliceItems, |keys|);
            Unique(keys) ==> AllPushLeft(meta, m, SparseStore.Push(meta, m, keys, rows, isValue), keys, rows, isValue)
  {
    hide Holds, Handled, Restrict, RoomAt, PartKeys, PartRows, Flatten, SparseStore.Push, Offset, RowsOf, Unique;
    hide AllPushLeft;
    hide ArrayHashMap.Valid;
    var n := |servers|;
    ghost var now := SparseStore.Push(meta, m, keys, RowsOf(input, sliceItems, |keys|), isValue);
    var partKeys, partData := ScatterPush(keys, input, sliceItems, n);
    ok := true;
    for p := 0 to n
      invariant forall q :: p <= q < n ==> Holds(servers[q], meta, Restrict(m, n, q))
      invariant forall q :: 0 <= q < p ==>
                  Handled(servers[q], meta, Restrict(m, n, q), Restrict(now, n, q), RoomAt(m, keys, false, n, q))
      invariant ok <==> forall q :: 0 <= q < p ==> RoomAt(m, keys, false, n, q)
    {
      var done := PushPart(servers[p], meta, m, keys, input, isValue, partKeys[p], partData[p], n, p);
      ok := ok && done;
    }
    if Unique(keys) {
      PushLeavesAll(meta, m, keys, RowsOf(input, sliceItems, |keys|), isValue);
    }
    if ok {
      forall p | 0 <= p < n ensures Holds(servers[p], meta, Restrict(now, n, p)) {
        HandledHolds(servers[p], meta, Restrict(m, n, p), Restrict(now, n, p));
      }
    }
  }

  lemma HandledHolds(server: SparseTensorPartition, meta: Meta, before: Store, after: Store)
    requires Handled(server, meta, before, after, true)
    ensures Holds(server, meta, after)
  {}

  /** A pull of distinct keys just pushed as values answers the pushed rows, except zeros for key 0. */
  lemma PushedIsPulled(meta: Meta, m: Store, ks: seq<Key>, rows: seq<seq<Number>>, readOnly: bool, nanFill: bool,
                       i: nat)
    requires |ks| == |rows| && Unique(ks) && i < |ks|
    ensures var now := Pulled(meta, SparseStore.Push(meta, m, ks, rows, true), ks, readOnly);
            PullRows(meta, now, ks, nanFill)[i] == if ks[i] == PADDING_KEY then Zeros(meta.dataItems) else rows[i]
  {
    WrittenRow(meta, Ensured(meta, m, set k | k in ks), ks, rows, |ks|, i);
  }

  lemma {:induction false} WrittenRow(meta: Meta, m: Store, ks: seq<Key>, rows: seq<seq<Number>>, n: nat, i: nat)
    requires |ks| == |rows| && Unique(ks) && i < n <= |ks| && ks[i] in m
    ensures Written(meta, true, m, ks, rows, n)[ks[i]].data == rows[i]
  {
    if i < n - 1 {
      WrittenRow(meta, m, ks, rows, n - 1, i);
    }
  }
}
