/** The age of a key over runs of pushes, pulls and prunes. */
module AgeLaw {
  import opened ArrayHashMaps
  import opened SparseStore
  import opened SparseSharding

  predicate Pushes(c: Command, k: Key) {
    c.PushCmd? && k in c.keys
  }

  /** How many of the commands `i..j` prune by age. */
  function Prunes(cs: seq<Command>, i: nat, j: nat): nat
    requires i <= j <= |cs|
  {
    if i == j then 0 else Prunes(cs, i, j - 1) + if cs[j - 1].PruneOldCmd? then 1 else 0
  }

  /** Imports carry ages of their own, so the runs considered have none. */
  ghost predicate NoImports(cs: seq<Command>) {
    AllWellFormed(cs) && forall j :: 0 <= j < |cs| ==> !cs[j].PushPartitionCmd?
  }

  /** Command `i` creates `k` or pushes to it. */
  ghost predicate YoungAt(meta: Meta, cs: seq<Command>, k: Key, i: nat)
    requires AllWellFormed(cs) && i < |cs|
  {
    k in Run(meta, map[], cs, i + 1) && (Pushes(cs[i], k) || k !in Run(meta, map[], cs, i))
  }

  /** Command `i` is the last before `end` to do so, and `k` lives from then on. */
  ghost predicate LiveSince(meta: Meta, cs: seq<Command>, k: Key, i: nat, end: nat)
    requires AllWellFormed(cs) && i < end <= |cs|
  {
    && YoungAt(meta, cs, k, i)
    && (forall j :: i < j <= end ==> k in Run(meta, map[], cs, j))
    && (forall j :: i < j < end ==> !Pushes(cs[j], k))
  }

  /** One command's effect on the age of a key it leaves in the store. */
  lemma AgeStep(meta: Meta, m: Store, c: Command, k: Key)
    requires c.WellFormed() && !c.PushPartitionCmd? && k in Apply(meta, m, c)
    ensures Pushes(c, k) || k !in m ==> Apply(meta, m, c)[k].age == 0
    ensures !Pushes(c, k) && k in m ==> Apply(meta, m, c)[k].age == m[k].age + if c.PruneOldCmd? then 1 else 0
  {
    if c.PushCmd? {
      assert c.keys[..|c.keys|] == c.keys;
      WrittenAge(meta, c.isValue, Ensured(meta, m, set x | x in c.keys), c.keys, c.rows, |c.keys|, k);
    }
  }

  lemma PrunesStep(cs: seq<Command>, i: nat, j: nat)
    requires i <= j <= |cs|
    ensures i == j ==> Prunes(cs, i, j) == 0
    ensures i < j ==> Prunes(cs, i, j) == Prunes(cs, i, j - 1) + if cs[j - 1].PruneOldCmd? then 1 else 0
  {}

  /** A live key's age is the number of age prunes since its creation or last push, whichever is later. */
  lemma {:induction false} AgeCountsPrunes(meta: Meta, cs: seq<Command>, k: Key, end: nat) returns (i: nat)
    requires NoImports(cs) && end <= |cs| && k in Run(meta, map[], cs, end)
    ensures i < end && LiveSince(meta, cs, k, i, end)
    ensures Run(meta, map[], cs, end)[k].age == Prunes(cs, i + 1, end)
  {
    hide Apply, Prunes, Pushes;
    var m, c := Run(meta, map[], cs, end - 1), cs[end - 1];
    AgeStep(meta, m, c, k);
    if Pushes(c, k) || k !in m {
      i := end - 1;
    } else {
      i := AgeCountsPrunes(meta, cs, k, end - 1);
    }
    PrunesStep(cs, i + 1, end);
  }

  /** The creation or push the age counts from is the only one there can be. */
  lemma LiveSinceOnce(meta: Meta, cs: seq<Command>, k: Key, i: nat, i': nat, end: nat)
    requires AllWellFormed(cs) && i < end <= |cs| && i' < end
    requires LiveSince(meta, cs, k, i, end) && LiveSince(meta, cs, k, i', end)
    ensures i == i'
  {
    LiveSinceLatest(meta, cs, k, i, i', end);
    LiveSinceLatest(meta, cs, k, i', i, end);
  }

  lemma LiveSinceLatest(meta: Meta, cs: seq<Command>, k: Key, i: nat, j: nat, end: nat)
    requires AllWellFormed(cs) && i < end <= |cs| && j < end
    requires LiveSince(meta, cs, k, i, end) && YoungAt(meta, cs, k, j)
    ensures j <= i
  {
    hide Run, Pushes;
  }

  /** A key goes at the first age prune whose limit is below that count, and not before. */
  lemma PruneOldDrops(meta: Meta, cs: seq<Command>, k: Key, i: nat, end: nat)
    requires NoImports(cs) && i < end < |cs| && LiveSince(meta, cs, k, i, end) && cs[end].PruneOldCmd?
    ensures k in Run(meta, map[], cs, end + 1) <==> Prunes(cs, i + 1, end + 1) <= cs[end].maxAge
  {
    hide Apply, Prunes, Run;
    var i' := AgeCountsPrunes(meta, cs, k, end);
    LiveSinceOnce(meta, cs, k, i, i', end);
    PrunesStep(cs, i + 1, end + 1);
    PruneStep(meta, cs, k, end);
  }

  lemma PruneStep(meta: Meta, cs: seq<Command>, k: Key, end: nat)
    requires AllWellFormed(cs) && end < |cs| && cs[end].PruneOldCmd? && k in Run(meta, map[], cs, end)
    ensures k in Run(meta, map[], cs, end + 1) <==> Run(meta, map[], cs, end)[k].age + 1 <= cs[end].maxAge
  {}

  /** Pulling, read-only or not, never makes a key younger. */
  lemma PullKeepsAge(meta: Meta, m: Store, ks: seq<Key>, readOnly: bool, nanFill: bool, k: Key)
    requires k in m
    ensures var r := Apply(meta, m, PullCmd(ks, readOnly, nanFill)); k in r && r[k] == m[k]
  {}
}
