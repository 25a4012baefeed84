/**
  Reloading a saved sparse tensor, possibly onto another number of servers
  (`Load` and `ImportFrom` of cpp/metaspore/sparse_tensor.cpp).
 */
module Repartition {
  import opened Wrappers
  import opened ArrayHashMaps
  import opened Sequences
  import opened SparseStore
  import opened SparseSharding

  // ---- Which worker imports which partition ----

  /** The partitions below `i` that worker `w` of `workers` imports, in order. */
  function Mine(workers: nat, w: nat, i: nat): seq<nat>
    requires workers > 0
  {
    if i == 0 then []
    else if (i - 1) % workers == w then Mine(workers, w, i - 1) + [i - 1]
    else Mine(workers, w, i - 1)
  }

  method PartitionIndices(count: nat, workers: nat, rank: nat) returns (indices: seq<nat>)
    requires workers > 0
    ensures indices == Mine(workers, rank, count)
    ensures forall i: nat :: i in indices <==> i < count && i % workers == rank
    ensures forall j, k :: 0 <= j < k < |indices| ==> indices[j] < indices[k]
  {
    indices := [];
    for i := 0 to count
      invariant indices == Mine(workers, rank, i)
      invariant forall k: nat :: k in indices <==> k < i && k % workers == rank
      invariant forall j, k :: 0 <= j < k < |indices| ==> indices[j] < indices[k]
    {
      if i % workers == rank {
        assert forall j :: 0 <= j < |indices| ==> indices[j] in indices;
        indices := indices + [i];
      }
    }
  }

  /** The callback object of an import: each call takes the next partition. */
  class ImportTask {
    const indices: seq<nat>
    var index: nat

    ghost predicate Valid()
      reads this
    {
      index <= |indices|
    }

    constructor (indices: seq<nat>)
      ensures Valid() && this.indices == indices && index == 0
    {
      this.indices := indices;
      index := 0;
    }

    /** The partition to push next; None calls the user back. */
    method Next() returns (partition: Option<nat>)
      requires Valid()
      modifies this
      ensures Valid()
      ensures old(index) == |indices| ==> partition == None && index == old(index)
      ensures old(index) < |indices| ==> partition == Some(indices[old(index)]) && index == old(index) + 1
    {
      if index >= |indices| {
        return None;
      }
      partition := Some(indices[index]);
      index := index + 1;
    }
  }

  /** The part of an arrival order that comes from worker `w`. */
  ghost function FromWorker(order: seq<nat>, workers: nat, w: nat): seq<nat>
    requires workers > 0
  {
    if order == [] then []
    else
      var n := |order| - 1;
      if order[n] % workers == w then FromWorker(order[..n], workers, w) + [order[n]]
      else FromWorker(order[..n], workers, w)
  }

  /** `order` interleaves the workers' messages: each worker's own come in its own order. */
  ghost predicate Interleaves(order: seq<nat>, count: nat, workers: nat)
    requires workers > 0
  {
    forall w :: 0 <= w < workers ==> FromWorker(order, workers, w) == Mine(workers, w, count)
  }

  lemma {:induction false} FromWorkerMembers(order: seq<nat>, workers: nat, w: nat, i: nat)
    requires workers > 0
    ensures i in FromWorker(order, workers, w) <==> i in order && i % workers == w
  {
    if order != [] {
      var n := |order| - 1;
      FromWorkerMembers(order[..n], workers, w, i);
      assert order == order[..n] + [order[n]];
    }
  }

  lemma {:induction false} MineMembers(workers: nat, w: nat, count: nat, i: nat)
    requires workers > 0
    ensures i in Mine(workers, w, count) <==> i < count && i % workers == w
  {
    if count > 0 {
      MineMembers(workers, w, count - 1, i);
    }
  }

  /** Whatever the interleaving, exactly the partitions of the saved tensor arrive. */
  lemma EveryPartitionArrives(order: seq<nat>, count: nat, workers: nat, i: nat)
    requires workers > 0 && Interleaves(order, count, workers)
    ensures i in order <==> i < count
  {
    FromWorkerMembers(order, workers, i % workers, i);
    MineMembers(workers, i % workers, count, i);
  }

  // ---- What the imports leave ----

  /** A saved partition: the dense arrays of one old server. */
  datatype File = File(keys: seq<Key>, slices: seq<Slice>)

  /** `files` is what the servers of a tensor holding `whole` save. */
  ghost predicate Saved(files: seq<File>, whole: Store) {
    && |files| > 0
    && (forall i :: 0 <= i < |files| ==> |files[i].keys| == |files[i].slices| && Unique(files[i].keys))
    && (forall i :: 0 <= i < |files| ==> ToMap(files[i].keys, files[i].slices) == Restrict(whole, |files|, i))
  }

  /** The message that pushes file `i`, with the flags `Load` passes unless told otherwise. */
  ghost function ImportCmd(f: File, skipExisting: bool): (c: Command)
  {
    PushPartitionCmd(f.keys, f.slices, false, skipExisting)
  }

  ghost function ImportCmds(files: seq<File>, order: seq<nat>, skipExisting: bool): (cs: seq<Command>)
    requires forall i :: 0 <= i < |files| ==> |files[i].keys| == |files[i].slices|
    requires forall j :: 0 <= j < |order| ==> order[j] < |files|
    ensures |cs| == |order| && AllWellFormed(cs)
  {
    seq(|order|, j requires 0 <= j < |order| => ImportCmd(files[order[j]], skipExisting))
  }

  /** Merges two maps; on common keys the old one wins exactly when existing keys are skipped. */
  ghost function Merge(m: Store, other: Store, skipExisting: bool): Store {
    if skipExisting then other + m else m + other
  }

  /** Merging with existing keys skipped overrides nothing; otherwise it does so only when both agree already. */
  lemma MergeOverridesNothing(m: Store, other: Store)
    ensures forall k :: k in m ==> Merge(m, other, true)[k] == m[k]
    ensures (forall k :: k in m ==> Merge(m, other, false)[k] == m[k])
            <==> (forall k :: k in m && k in other ==> other[k] == m[k])
  {
    if forall k :: k in m ==> Merge(m, other, false)[k] == m[k] {
      forall k | k in m && k in other ensures other[k] == m[k] {
        assert Merge(m, other, false)[k] == other[k];
      }
    }
  }

  lemma MergePut(m: Store, other: Store, skipExisting: bool, k: Key, v: Slice)
    requires k !in other
    ensures Merge(m, map[], skipExisting) == m
    ensures Merge(m, other[k := v], skipExisting)
            == if k in Merge(m, other, skipExisting) && skipExisting then Merge(m, other, skipExisting)
               else Merge(m, other, skipExisting)[k := v]
  {}

  lemma ImportedStep(meta: Meta, m: Store, ks: seq<Key>, slices: seq<Slice>, skipExisting: bool, i: nat)
    requires i <= |ks| == |slices|
    ensures Imported(meta, m, ks, slices, false, skipExisting, 0) == m
    ensures i > 0 ==>
              var before := Imported(meta, m, ks, slices, false, skipExisting, i - 1);
              Imported(meta, m, ks, slices, false, skipExisting, i)
              == if ks[i - 1] in before && skipExisting then before else before[ks[i - 1] := slices[i - 1]]
  {}

  /** Importing the arrays of a file merges in the map they store. */
  lemma {:induction false} ImportedIsMerge(meta: Meta, m: Store, ks: seq<Key>, slices: seq<Slice>, skipExisting: bool,
                                           i: nat)
    requires i <= |ks| == |slices| && Unique(ks) && Unique(ks[..i])
    ensures Imported(meta, m, ks, slices, false, skipExisting, i) == Merge(m, ToMap(ks[..i], slices[..i]), skipExisting)
  {
    hide Unique, ToMap, Merge, Imported;
    ImportedStep(meta, m, ks, slices, skipExisting, i);
    if i > 0 {
      UniquePrefix(ks, i - 1);
      ImportedIsMerge(meta, m, ks, slices, skipExisting, i - 1);
      ToMapAppend(ks[..i - 1], slices[..i - 1], ks[i - 1], slices[i - 1]);
      assert ks[..i] == ks[..i - 1] + [ks[i - 1]] && slices[..i] == slices[..i - 1] + [slices[i - 1]];
      MergePut(m, ToMap(ks[..i - 1], slices[..i - 1]), skipExisting, ks[i - 1], slices[i - 1]);
    } else {
      assert ToMap(ks[..0], slices[..0]) == map[];
      MergePut(m, map[], skipExisting, 0, Slice([], [], 0));
    }
  }

  /** The part of `whole` whose old partition is among the first `j` arrived. */
  ghost function Arrived(whole: Store, count: nat, order: seq<nat>, j: nat): Store
    requires count > 0 && j <= |order|
  {
    map k | k in whole && k % count in order[..j] :: whole[k]
  }

  lemma ArrivedStep(m: Store, whole: Store, count: nat, order: seq<nat>, j: nat, skipExisting: bool)
    requires count > 0 && j < |order|
    ensures Merge(Merge(m, Arrived(whole, count, order, j), skipExisting), Restrict(whole, count, order[j]),
            skipExisting)
            == Merge(m, Arrived(whole, count, order, j + 1), skipExisting)
  {
    assert order[..j + 1] == order[..j] + [order[j]];
  }

  /** Importing one whole file merges in the part of `whole` that it saved. */
  lemma FileMerges(meta: Meta, m: Store, files: seq<File>, whole: Store, skipExisting: bool, x: nat)
    requires Saved(files, whole) && x < |files|
    ensures ImportCmd(files[x], skipExisting).WellFormed()
    ensures Apply(meta, m, ImportCmd(files[x], skipExisting)) == Merge(m, Restrict(whole, |files|, x), skipExisting)
  {
    hide Unique, ToMap, Merge, Imported, Restrict;
    var f := files[x];
    assert f.keys[..|f.keys|] == f.keys && f.slices[..|f.slices|] == f.slices;
    ImportedIsMerge(meta, m, f.keys, f.slices, skipExisting, |f.keys|);
  }

  lemma {:induction false} ImportsMerge(meta: Meta, m: Store, files: seq<File>, whole: Store, order: seq<nat>,
                                        skipExisting: bool, j: nat)
    requires Saved(files, whole) && j <= |order| && forall x :: 0 <= x < |order| ==> order[x] < |files|
    ensures Run(meta, m, ImportCmds(files, order, skipExisting), j)
            == Merge(m, Arrived(whole, |files|, order, j), skipExisting)
  {
    hide Unique, ToMap, Merge, Apply, Restrict, Arrived;
    if j > 0 {
      ImportsMerge(meta, m, files, whole, order, skipExisting, j - 1);
      FileMerges(meta, Merge(m, Arrived(whole, |files|, order, j - 1), skipExisting), files, whole, skipExisting,
          order[j - 1]);
      ArrivedStep(m, whole, |files|, order, j - 1, skipExisting);
    } else {
      NoneArrived(m, whole, |files|, order, skipExisting);
    }
  }

  lemma NoneArrived(m: Store, whole: Store, count: nat, order: seq<nat>, skipExisting: bool)
    requires count > 0
    ensures Merge(m, Arrived(whole, count, order, 0), skipExisting) == m
  {}

  lemma AllArrived(whole: Store, count: nat, order: seq<nat>)
    requires count > 0 && forall i: nat :: i in order <==> i < count
    ensures Arrived(whole, count, order, |order|) == whole
  {
    assert order[..|order|] == order;
  }

  /**
    Server `p` of `n` ends with its part of the saved map merged into its part of the
    map it started from, for every interleaving of the workers' messages at `p`.
   */
  lemma ImportMerges(meta: Meta, m: Store, files: seq<File>, whole: Store, workers: nat, order: seq<nat>,
                     skipExisting: bool, n: nat, p: nat)
    requires n > 0 && workers > 0 && Saved(files, whole) && Interleaves(order, |files|, workers)
    ensures forall x :: 0 <= x < |order| ==> order[x] < |files|
    ensures ServerRun(meta, Restrict(m, n, p), ImportCmds(files, order, skipExisting), n, p, |order|)
            == Restrict(Merge(m, whole, skipExisting), n, p)
  {
    hide Unique, ToMap, Merge, Apply, Restrict, Run, ServerRun;
    forall i: nat ensures i in order <==> i < |files| {
      EveryPartitionArrives(order, |files|, workers, i);
    }
    forall x | 0 <= x < |order| ensures order[x] < |files| {
      assert order[x] in order;
    }
    ImportsMerge(meta, m, files, whole, order, skipExisting, |order|);
    AllArrived(whole, |files|, order);
    ServerRefinesOneMap(meta, m, ImportCmds(files, order, skipExisting), n, p, |order|);
  }

  /**
    What server `p` of `n` holds after `Load`: its own file when the number of servers
    is unchanged, otherwise whatever the workers' imports leave in `cleared`.
   */
  ghost function Loaded(meta: Meta, cleared: Store, files: seq<File>, workers: nat, order: seq<nat>,
                        n: nat, p: nat): Store
    requires n > 0 && workers > 0 && p < n
    requires forall i :: 0 <= i < |files| ==> |files[i].keys| == |files[i].slices| && Unique(files[i].keys)
    requires forall x :: 0 <= x < |order| ==> order[x] < |files|
  {
    if |files| == n then ToMap(files[p].keys, files[p].slices)
    else ServerRun(meta, cleared, ImportCmds(files, order, false), n, p, |order|)
  }

  /**
    Repartitioning conserves the tensor.  With cleared servers and every worker importing
    its share, in any interleaving at any server, server `p` holds exactly the saved keys
    with `key % n == p`, with their data, state and age.
   */
  lemma LoadConserves(meta: Meta, files: seq<File>, whole: Store, workers: nat, order: seq<nat>, n: nat, p: nat)
    requires n > 0 && workers > 0 && p < n && Saved(files, whole) && Interleaves(order, |files|, workers)
    ensures forall x :: 0 <= x < |order| ==> order[x] < |files|
    ensures Loaded(meta, map[], files, workers, order, n, p) == Sharded(whole, n)[p]
  {
    hide Unique, ToMap, ServerRun, Interleaves;
    ImportMerges(meta, map[], files, whole, workers, order, false, n, p);
    assert Restrict(map[], n, p) == map[];
    assert Merge(map[], whole, false) == whole;
  }
}
