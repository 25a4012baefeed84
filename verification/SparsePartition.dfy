/** One shard of a sparse tensor (cpp/metaspore/sparse_tensor_partition.cpp). */
module SparsePartition {
  import opened Wrappers
  import opened ArrayHashMaps
  import opened Rows
  import opened Sequences
  import opened SparseStore

  const PADDING_INDEX: Key := 0xFFFF_FFFF_FFFF_FFFE
  const NOT_FOUND_INDEX: Key := 0xFFFF_FFFF_FFFF_FFFF

  /** `index` is what the request key `k` becomes, given the dense key array. */
  ghost predicate Resolved(keys: seq<Key>, pull: bool, k: Key, index: Key) {
    if pull && k == PADDING_KEY then index == PADDING_INDEX
    else if k in keys then index < |keys| && keys[index] == k
    else index == NOT_FOUND_INDEX
  }

  ghost predicate Found(keys: seq<Key>, pull: bool, k: Key, index: Key) {
    if pull && k == PADDING_KEY then index == PADDING_INDEX else index < |keys| && keys[index] == k
  }

  /** Every request key is found at its index, and each key beyond the first `n` was requested. */
  ghost predicate Inserted(keys: seq<Key>, n: nat, ks: seq<Key>, indices: seq<Key>, pull: bool) {
    && |ks| == |indices|
    && (forall j :: 0 <= j < |ks| ==> Found(keys, pull, ks[j], indices[j]))
    && (forall i :: n <= i < |keys| ==> keys[i] in ks && (pull ==> keys[i] != PADDING_KEY))
  }

  lemma InsertedSnoc(keys: seq<Key>, more: seq<Key>, n: nat, ks: seq<Key>, indices: seq<Key>, pull: bool, k: Key,
                     index: Key)
    requires Inserted(keys, n, ks, indices, pull) && n <= |keys| && keys <= more && |more| <= |keys| + 1
    requires |more| > |keys| ==> more[|keys|] == k && (pull ==> k != PADDING_KEY)
    requires Found(more, pull, k, index)
    ensures Inserted(more, n, ks + [k], indices + [index], pull)
  {}

  /** Entries were only added at the end. */
  ghost predicate Grown(oldKeys: seq<Key>, oldValues: seq<Slice>, keys: seq<Key>, values: seq<Slice>) {
    oldKeys <= keys && oldValues <= values
  }

  lemma GrownOn(ks0: seq<Key>, vs0: seq<Slice>, ks1: seq<Key>, vs1: seq<Slice>, ks2: seq<Key>, vs2: seq<Slice>)
    requires Grown(ks0, vs0, ks1, vs1) && Grown(ks1, vs1, ks2, vs2)
    ensures Grown(ks0, vs0, ks2, vs2) && |ks0| <= |ks1| && ks1 <= ks2
  {}

  /** The first `i` keys of a request have been rewritten in place, the others not yet. */
  ghost predicate Rewritten(keys: seq<Key>, n: nat, ks: seq<Key>, now: seq<Key>, i: nat, pull: bool) {
    i <= |ks| == |now| && now[i..] == ks[i..] && Inserted(keys, n, ks[..i], now[..i], pull)
  }

  lemma NoneRewritten(keys: seq<Key>, values: seq<Slice>, ks: seq<Key>, pull: bool)
    ensures Rewritten(keys, |keys|, ks, ks, 0, pull) && Grown(keys, values, keys, values)
  {}

  lemma NextKey(keys: seq<Key>, n: nat, ks: seq<Key>, now: seq<Key>, i: nat, pull: bool)
    requires Rewritten(keys, n, ks, now, i, pull) && i < |ks|
    ensures |now| == |ks| && now[i] == ks[i]
  {
    assert now[i..][0] == ks[i..][0];
  }

  lemma KeyRewritten(keys: seq<Key>, more: seq<Key>, n: nat, ks: seq<Key>, now: seq<Key>, i: nat, pull: bool,
                     index: Key)
    requires Rewritten(keys, n, ks, now, i, pull) && i < |ks| == |now| && n <= |keys|
    requires keys <= more && |more| <= |keys| + 1 && Found(more, pull, ks[i], index)
    requires |more| > |keys| ==> more[|keys|] == ks[i] && (pull ==> ks[i] != PADDING_KEY)
    ensures Rewritten(more, n, ks, now[i := index], i + 1, pull)
  {
    hide Inserted, Found;
    InsertedSnoc(keys, more, n, ks[..i], now[..i], pull, ks[i], index);
    assert now[i := index][..i + 1] == now[..i] + [index] && ks[..i + 1] == ks[..i] + [ks[i]];
    assert now[i := index][i + 1..] == now[i..][1..] && ks[i + 1..] == ks[i..][1..];
  }

  lemma AllRewritten(keys: seq<Key>, n: nat, ks: seq<Key>, now: seq<Key>, pull: bool)
    requires |now| == |ks| && Rewritten(keys, n, ks, now, |ks|, pull)
    ensures Inserted(keys, n, ks, now, pull)
  {
    assert ks[..|ks|] == ks && now[..|ks|] == now;
  }

  /** The keys a request may insert. */
  ghost function Wanted(ks: seq<Key>, pull: bool): set<Key> {
    set k | k in ks && (pull ==> k != PADDING_KEY)
  }

  /** A table with these keys, old and new, still has buckets for all of them. */
  ghost predicate HasRoom(m: Store, more: set<Key>) {
    |m.Keys + more| <= MAX_KEYS
  }

  /** A full table, and one more key wanted. */
  ghost predicate Overfull(keys: seq<Key>, n: nat, wanted: set<Key>) {
    && |keys| == MAX_KEYS
    && (forall i :: n <= i < |keys| ==> keys[i] in wanted)
    && exists k :: k in wanted && k !in keys
  }

  /** Inserting stops short exactly when there is no room for all keys. */
  lemma OverfullHasNoRoom(oldKeys: seq<Key>, oldValues: seq<Slice>, keys: seq<Key>, wanted: set<Key>)
    requires |oldKeys| == |oldValues| && Unique(oldKeys) && Unique(keys) && oldKeys <= keys
    requires Overfull(keys, |oldKeys|, wanted)
    ensures !HasRoom(ToMap(oldKeys, oldValues), wanted)
  {
    var k :| k in wanted && k !in keys;
    var all := ToMap(oldKeys, oldValues).Keys + wanted;
    UniqueAppend(keys, k);
    UniqueCount(keys + [k]);
    forall x | x in keys + [k] ensures x in all {
      var i :| 0 <= i < |keys + [k]| && (keys + [k])[i] == x;
      assert i < |oldKeys| ==> oldKeys[i] == x;
    }
    Larger(Elements(keys + [k]), all);
  }

  lemma Larger(a: set<Key>, b: set<Key>)
    requires a <= b
    ensures |a| <= |b|
  {
    assert b == a + (b - a);
  }

  lemma RoomFor(keys: seq<Key>, m: Store, more: set<Key>)
    requires Unique(keys) && |keys| <= MAX_KEYS
    requires forall k :: k in keys <==> k in m.Keys + more
    ensures HasRoom(m, more)
  {
    UniqueCount(keys);
    assert Elements(keys) == m.Keys + more;
  }

  /** What an import of the first `i` slices has keys for. */
  lemma {:induction false} ImportKeys(meta: Meta, m: Store, ks: seq<Key>, rows: seq<Slice>, dataOnly: bool,
                                      skipExisting: bool, i: nat)
    requires i <= |ks| == |rows|
    ensures Imported(meta, m, ks, rows, dataOnly, skipExisting, i).Keys == m.Keys + Wanted(ks[..i], false)
  {
    if i > 0 {
      ImportKeys(meta, m, ks, rows, dataOnly, skipExisting, i - 1);
      assert ks[..i] == ks[..i - 1] + [ks[i - 1]];
      assert Wanted(ks[..i], false) == Wanted(ks[..i - 1], false) + {ks[i - 1]};
    }
  }

  lemma ImportStops(meta: Meta, keys: seq<Key>, m: Store, ks: seq<Key>, rows: seq<Slice>, dataOnly: bool,
                    skipExisting: bool, i: nat)
    requires Unique(keys) && |keys| == MAX_KEYS && i < |ks| == |rows| && ks[i] !in keys
    requires forall k :: k in keys <==> k in Imported(meta, m, ks, rows, dataOnly, skipExisting, i)
    ensures !HasRoom(m, Wanted(ks, false))
  {
    hide Imported;
    ImportKeys(meta, m, ks, rows, dataOnly, skipExisting, i);
    UniqueAppend(keys, ks[i]);
    UniqueCount(keys + [ks[i]]);
    Larger(Elements(keys + [ks[i]]), m.Keys + Wanted(ks, false));
  }

  lemma ImportRoom(keys: seq<Key>, m: Store, ks: seq<Key>, now: Store)
    requires Unique(keys) && |keys| <= MAX_KEYS && now.Keys == m.Keys + Wanted(ks[..|ks|], false)
    requires forall k :: k in keys <==> k in now
    ensures HasRoom(m, Wanted(ks, false))
  {
    assert ks[..|ks|] == ks;
    RoomFor(keys, m, Wanted(ks, false));
  }

  ghost predicate AllResolved(keys: seq<Key>, pull: bool, ks: seq<Key>, indices: seq<Key>) {
    |ks| == |indices| && forall i :: 0 <= i < |ks| ==> Resolved(keys, pull, ks[i], indices[i])
  }

  /** Inserting what is missing and initialising exactly the appended block is `Ensured`. */
  lemma InsertedIsEnsured(meta: Meta, oldKeys: seq<Key>, oldValues: seq<Slice>, keys: seq<Key>, values: seq<Slice>,
                          ks: seq<Key>, indices: seq<Key>, pull: bool)
    requires |oldKeys| == |oldValues| <= |keys| == |values| && Unique(keys) && Unique(oldKeys)
    requires oldKeys <= keys && values[..|oldKeys|] == oldValues
    requires Inserted(keys, |oldKeys|, ks, indices, pull)
    requires forall i :: |oldKeys| <= i < |keys| ==> values[i] == InitSlice(meta, keys[i])
    ensures AllResolved(keys, pull, ks, indices)
    ensures ToMap(keys, values) == Ensured(meta, ToMap(oldKeys, oldValues), Wanted(ks, pull))
  {
    var want := Ensured(meta, ToMap(oldKeys, oldValues), Wanted(ks, pull));
    forall i | 0 <= i < |keys| ensures keys[i] in want && want[keys[i]] == values[i] {
      if i < |oldKeys| {
        assert oldKeys[i] == keys[i] && oldValues[i] == values[..|oldKeys|][i] == values[i];
      } else {
        assert keys[i] !in oldKeys;
      }
    }
    forall k | k in want ensures k in keys {
      if k !in oldKeys {
        var j :| 0 <= j < |ks| && ks[j] == k;
        assert Found(keys, pull, ks[j], indices[j]);
      }
    }
    ToMapIs(keys, values, want);
  }

  /** The key needs no new slot, or the table can still grow. */
  ghost predicate Insertable(keys: seq<Key>, pull: bool, k: Key) {
    (pull && k == PADDING_KEY) || k in keys || |keys| != MAX_KEYS
  }

  lemma StopsOverfull(keys: seq<Key>, n: nat, ks: seq<Key>, now: seq<Key>, i: nat, pull: bool)
    requires Rewritten(keys, n, ks, now, i, pull) && i < |ks| && !Insertable(keys, pull, ks[i])
    ensures Overfull(keys, n, Wanted(ks, pull))
  {
    assert ks[i] in Wanted(ks, pull);
    forall j | n <= j < |keys| ensures keys[j] in Wanted(ks, pull) {
      assert keys[j] in ks[..i];
    }
  }

  /** Every index points at its key. */
  ghost predicate PointTo(keys: seq<Key>, ks: seq<Key>, indices: seq<Key>) {
    |ks| == |indices| && forall i :: 0 <= i < |ks| ==> indices[i] < |keys| && keys[indices[i]] == ks[i]
  }

  lemma PointAt(keys: seq<Key>, ks: seq<Key>, indices: seq<Key>, i: nat)
    requires PointTo(keys, ks, indices) && i < |indices|
    ensures i < |ks| && indices[i] < |keys| && keys[indices[i]] == ks[i]
  {}

  lemma AllPointTo(meta: Meta, keys: seq<Key>, ks: seq<Key>, indices: seq<Key>, m: Store, r: Store)
    requires AllResolved(keys, false, ks, indices) && r == Ensured(meta, m, Wanted(ks, false))
    requires forall k :: k in r ==> k in keys
    ensures PointTo(keys, ks, indices)
    ensures r == Ensured(meta, m, set k | k in ks)
  {
    assert Wanted(ks, false) == set k | k in ks;
    forall i | 0 <= i < |ks| ensures indices[i] < |keys| && keys[indices[i]] == ks[i] {
      assert ks[i] in r && Resolved(keys, false, ks[i], indices[i]);
    }
  }

  lemma {:induction false} WrittenAsValue(meta: Meta, isValue: bool, m: Store, ks: seq<Key>, rows: seq<seq<Number>>,
                                          n: nat)
    requires n <= |ks| == |rows| && (meta.updater.None? || isValue)
    ensures Written(meta, isValue, m, ks, rows, n) == Written(meta, true, m, ks, rows, n)
  {
    if n > 0 {
      WrittenAsValue(meta, isValue, m, ks, rows, n - 1);
    }
  }

  /** The updater alone: the age is reset afterwards. */
  function UpdatedSlice(meta: Meta, s: Slice, row: seq<Number>): Slice
    requires meta.updater.Some?
  {
    var (data, state) := meta.updater.value(s, row);
    Slice(data, state, s.age)
  }

  ghost function Updated(meta: Meta, m: Store, ks: seq<Key>, rows: seq<seq<Number>>, n: nat): (r: Store)
    requires meta.updater.Some? && n <= |ks| == |rows|
  {
    if n == 0 then m
    else
      var r, k := Updated(meta, m, ks, rows, n - 1), ks[n - 1];
      if k in r then r[k := UpdatedSlice(meta, r[k], rows[n - 1])] else r
  }

  lemma {:induction false} UpdatedElsewhere(meta: Meta, m: Store, ks: seq<Key>, rows: seq<seq<Number>>, n: nat, k: Key)
    requires meta.updater.Some? && n <= |ks| == |rows| && k !in ks[..n]
    ensures (k in Updated(meta, m, ks, rows, n) <==> k in m) && (k in m ==> Updated(meta, m, ks, rows, n)[k] == m[k])
  {
    if n > 0 {
      assert ks[n - 1] in ks[..n] && forall x :: x in ks[..n - 1] ==> x in ks[..n];
      UpdatedElsewhere(meta, m, ks, rows, n - 1, k);
    }
  }

  ghost function AgesReset(m: Store, ks: seq<Key>, n: nat): Store
    requires n <= |ks|
  {
    if n == 0 then m
    else
      var r, k := AgesReset(m, ks, n - 1), ks[n - 1];
      if k in r then r[k := r[k].(age := 0)] else r
  }

  lemma {:induction false} ResetElsewhere(m: Store, ks: seq<Key>, n: nat, k: Key, s: Slice)
    requires n <= |ks| && k !in ks[..n]
    ensures AgesReset(m[k := s], ks, n) == AgesReset(m, ks, n)[k := s]
    ensures k in AgesReset(m, ks, n) <==> k in m
    ensures k in m ==> AgesReset(m, ks, n)[k] == m[k]
  {
    if n > 0 {
      assert ks[n - 1] in ks[..n] && forall x :: x in ks[..n - 1] ==> x in ks[..n];
      ResetElsewhere(m, ks, n - 1, k, s);
    }
  }

  /** On distinct keys, the batch update followed by the age loop is the in-order push. */
  lemma {:induction false} ResetUpdatedIsWritten(meta: Meta, m: Store, ks: seq<Key>, rows: seq<seq<Number>>, n: nat)
    requires meta.updater.Some? && n <= |ks| == |rows| && Unique(ks)
    ensures AgesReset(Updated(meta, m, ks, rows, n), ks, n) == Written(meta, false, m, ks, rows, n)
  {
    if n > 0 {
      ResetUpdatedIsWritten(meta, m, ks, rows, n - 1);
      UniquePrefix(ks, n - 1);
      var r, k := Updated(meta, m, ks, rows, n - 1), ks[n - 1];
      UpdatedElsewhere(meta, m, ks, rows, n - 1, k);
      if k in r {
        ResetElsewhere(r, ks, n - 1, k, UpdatedSlice(meta, r[k], rows[n - 1]));
      } else {
        ResetElsewhere(r, ks, n - 1, k, Slice([], [], 0));
      }
    }
  }

  /** `now` has the keys of `before`; the pushed ones are young, the others as they were. */
  ghost predicate UpdatedOnly(before: Store, now: Store, ks: seq<Key>) {
    && now.Keys == before.Keys
    && forall k :: k in before ==> if k in ks then now[k].age == 0 else now[k] == before[k]
  }

  lemma {:induction false} ResetMakesYoung(m: Store, ks: seq<Key>, n: nat, k: Key)
    requires n <= |ks|
    ensures k in AgesReset(m, ks, n) <==> k in m
    ensures k in m && k in ks[..n] ==> AgesReset(m, ks, n)[k].age == 0
  {
    if n > 0 {
      assert ks[..n] == ks[..n - 1] + [ks[n - 1]];
      ResetMakesYoung(m, ks, n - 1, k);
    }
  }

  lemma {:induction false} UpdatedKeys(meta: Meta, m: Store, ks: seq<Key>, rows: seq<seq<Number>>, n: nat, k: Key)
    requires meta.updater.Some? && n <= |ks| == |rows|
    ensures k in Updated(meta, m, ks, rows, n) <==> k in m
  {
    if n > 0 {
      UpdatedKeys(meta, m, ks, rows, n - 1, k);
    }
  }

  /** Even when a batch names a key twice, the other slices keep their values. */
  lemma UpdateTouchesOnly(meta: Meta, m: Store, ks: seq<Key>, rows: seq<seq<Number>>)
    requires meta.updater.Some? && |ks| == |rows|
    ensures UpdatedOnly(m, AgesReset(Updated(meta, m, ks, rows, |ks|), ks, |ks|), ks)
  {
    hide Updated, AgesReset;
    var updated := Updated(meta, m, ks, rows, |ks|);
    assert ks[..|ks|] == ks;
    forall k ensures k in AgesReset(updated, ks, |ks|) <==> k in m {
      ResetMakesYoung(updated, ks, |ks|, k);
      UpdatedKeys(meta, m, ks, rows, |ks|, k);
    }
    forall k | k in m
      ensures var now := AgesReset(updated, ks, |ks|)[k]; if k in ks then now.age == 0 else now == m[k]
    {
      ResetMakesYoung(updated, ks, |ks|, k);
      if k !in ks {
        UpdatedElsewhere(meta, m, ks, rows, |ks|, k);
        ResetElsewhere(updated, ks, |ks|, k, m[k]);
      }
    }
  }

  lemma WriteTouchesOnly(meta: Meta, m: Store, ks: seq<Key>, rows: seq<seq<Number>>)
    requires |ks| == |rows|
    ensures UpdatedOnly(m, Written(meta, true, m, ks, rows, |ks|), ks)
  {
    hide Written;
    assert ks[..|ks|] == ks;
    forall k | k in m
      ensures var now := Written(meta, true, m, ks, rows, |ks|)[k]; if k in ks then now.age == 0 else now == m[k]
    {
      WrittenAge(meta, true, m, ks, rows, |ks|, k);
    }
  }

  /** Key `k` needs a NaN fill that the element type does not have. */
  ghost predicate Unfillable(meta: Meta, m: Store, k: Key, nanFill: bool) {
    nanFill && !meta.isFloat && k != PADDING_KEY && k !in m
  }

  /** What one resolved index says about the row to answer. */
  lemma RowAtIndex(meta: Meta, keys: seq<Key>, ks: seq<Key>, indices: seq<Key>, m: Store, nanFill: bool, i: nat)
    requires AllResolved(keys, true, ks, indices) && |keys| <= NIL && i < |ks|
    requires forall k :: k in m <==> k in keys
    ensures var row, index := PullRows(meta, m, ks, nanFill)[i], indices[i];
            if index == NOT_FOUND_INDEX then
              ks[i] != PADDING_KEY && ks[i] !in m
              && row == if nanFill then NaNs(meta.dataItems) else Zeros(meta.dataItems)
            else if index == PADDING_INDEX then ks[i] == PADDING_KEY && row == Zeros(meta.dataItems)
            else index < |keys| && keys[index] == ks[i] && ks[i] in m && row == m[ks[i]].data
    ensures Unfillable(meta, m, ks[i], nanFill) <==> indices[i] == NOT_FOUND_INDEX && nanFill && !meta.isFloat
  {
    assert Resolved(keys, true, ks[i], indices[i]);
  }

  lemma PulledIs(meta: Meta, m: Store, ks: seq<Key>, readOnly: bool, nanFill: bool)
    ensures var r := if readOnly then m else Ensured(meta, m, Wanted(ks, true));
            && Pulled(meta, m, ks, readOnly) == r
            && (PullThrows(meta, m, ks, readOnly, nanFill)
                <==> exists i :: 0 <= i < |ks| && Unfillable(meta, r, ks[i], nanFill))
  {
    assert Wanted(ks, true) == set k | k in ks && k != PADDING_KEY;
  }

  /** Every slice of `before` is in `now`, unchanged. */
  ghost predicate Keeps(before: Store, now: Store) {
    forall k :: k in before ==> k in now && now[k] == before[k]
  }

  lemma PrefixKeeps(oldKeys: seq<Key>, oldValues: seq<Slice>, keys: seq<Key>, values: seq<Slice>)
    requires |oldKeys| == |oldValues| && |keys| == |values| && Unique(keys) && Unique(oldKeys)
    requires oldKeys <= keys && oldValues <= values
    ensures Keeps(ToMap(oldKeys, oldValues), ToMap(keys, values))
  {
    hide Unique;
    var before, now := ToMap(oldKeys, oldValues), ToMap(keys, values);
    forall k | k in before ensures k in now && now[k] == before[k] {
      var i :| 0 <= i < |oldKeys| && oldKeys[i] == k;
      assert keys[i] == k && values[i] == oldValues[i];
    }
  }

  class SparseTensorPartition {
    const meta: Meta
    const index: nat
    var data: ArrayHashMap<Slice>

    ghost predicate Valid()
      reads this, data
    {
      data.Valid()
    }

    ghost function Contents(): Store
      reads this, data
      requires Valid()
    {
      data.Contents()
    }

    constructor (meta: Meta, index: nat)
      ensures Valid() && fresh(data) && this.meta == meta && this.index == index && Contents() == map[]
    {
      this.meta, this.index := meta, index;
      data := new ArrayHashMap<Slice>();
    }

    /** Starts with an empty map; throws, with nothing changed, when the meta does not check. */
    method AllocateHashMap() returns (ok: bool)
      requires Valid()
      modifies this
      ensures Valid() && (ok <==> meta.name != [] && index < meta.partitionCount)
      ensures if ok then fresh(data) && Contents() == map[] else data == old(data) && Contents() == old(Contents())
    {
      if !meta.Checks(index) {
        return false;
      }
      Clear();
      ok := true;
    }

    method Clear()
      modifies this
      ensures Valid() && fresh(data) && Contents() == map[]
    {
      data := new ArrayHashMap<Slice>();
    }

    /**
      Overwrites each key of the request by its index in the dense arrays, inserting
      missing keys unless `readOnly`, and initialises the block of new slots in one go.
      Throws exactly when the table has no room for all of them; the slices that were there
      keep their values then.
     */
    method TransformIndices(indices: array<Key>, pull: bool, readOnly: bool) returns (ok: bool)
      requires Valid() && (readOnly ==> pull)
      modifies data, indices
      ensures Valid()
      ensures ok <==> readOnly || HasRoom(old(Contents()), Wanted(old(indices[..]), pull))
      ensures ok ==> Contents() == if readOnly then old(Contents())
              else Ensured(meta, old(Contents()), Wanted(old(indices[..]), pull))
      ensures ok ==> AllResolved(data.keys, pull, old(indices[..]), indices[..])
      ensures !ok ==> Keeps(old(Contents()), Contents())
    {
      if readOnly {
        FindAll(indices);
        ok := true;
      } else {
        ghost var ks, oldKeys, oldValues := indices[..], data.keys, data.values;
        var oldSize := |data.keys|;
        ok := FindOrInitAll(indices, pull);
        if !ok {
          PrefixKeeps(oldKeys, oldValues, data.keys, data.values);
          OverfullHasNoRoom(oldKeys, oldValues, data.keys, Wanted(ks, pull));
          return;
        }
        InitBlock(oldSize);
        InsertedIsEnsured(meta, oldKeys, oldValues, data.keys, data.values, ks, indices[..], pull);
        RoomFor(data.keys, ToMap(oldKeys, oldValues), Wanted(ks, pull));
      }
    }

    method FindAll(indices: array<Key>)
      requires data.Valid()
      modifies indices
      ensures AllResolved(data.keys, true, old(indices[..]), indices[..])
    {
      ghost var ks := indices[..];
      for i := 0 to indices.Length
        invariant indices[i..] == ks[i..]
        invariant AllResolved(data.keys, true, ks[..i], indices[..i])
      {
        ghost var done := indices[..i];
        assert indices[i] == indices[i..][0] == ks[i];
        if indices[i] == PADDING_KEY {
          indices[i] := PADDING_INDEX;
        } else {
          var found := data.Find(indices[i]);
          indices[i] := if found == -1 then NOT_FOUND_INDEX else found;
        }
        assert ks[..i + 1] == ks[..i] + [ks[i]] && indices[..i + 1] == done + [indices[i]];
      }
      assert ks[..|ks|] == ks && indices[..indices.Length] == indices[..];
    }

    /** Fills the slots from `begin` on; a missing initializer means zeros. */
    method InitBlock(begin: nat)
      requires data.Valid() && begin <= |data.keys|
      modifies data`values
      ensures data.Valid() && data.keys == old(data.keys) && data.values[..begin] == old(data.values[..begin])
      ensures forall i :: begin <= i < |data.keys| ==> data.values[i] == InitSlice(meta, data.keys[i])
    {
      for i := begin to |data.keys|
        invariant data.Valid() && data.values[..begin] == old(data.values[..begin])
        invariant forall j :: begin <= j < i ==> data.values[j] == InitSlice(meta, data.keys[j])
      {
        data.values := data.values[i := InitSlice(meta, data.keys[i])];
      }
    }

    method FindOrInitAll(indices: array<Key>, pull: bool) returns (ok: bool)
      requires data.Valid()
      modifies data, indices
      ensures data.Valid() && Grown(old(data.keys), old(data.values), data.keys, data.values)
      ensures ok ==> |data.keys| <= MAX_KEYS
      ensures !ok ==> Overfull(data.keys, |old(data.keys)|, Wanted(old(indices[..]), pull))
      ensures ok ==> Inserted(data.keys, |old(data.keys)|, old(indices[..]), indices[..], pull)
    {
      hide *;
      ghost var ks, keys0, values0 := indices[..], data.keys, data.values;
      NoneRewritten(keys0, values0, ks, pull);
      data.Bounds();
      for i := 0 to indices.Length
        invariant data.Valid() && |data.keys| <= MAX_KEYS
        invariant Grown(keys0, values0, data.keys, data.values)
        invariant Rewritten(data.keys, |keys0|, ks, indices[..], i, pull)
      {
        ghost var keys, values, now := data.keys, data.values, indices[..];
        NextKey(keys, |keys0|, ks, now, i, pull);
        var found, index := FindOrInitAt(indices, i, pull);
        GrownOn(keys0, values0, keys, values, data.keys, data.values);
        if !found {
          assert data.keys == keys;
          StopsOverfull(keys, |keys0|, ks, now, i, pull);
          return false;
        }
        KeyRewritten(keys, data.keys, |keys0|, ks, now, i, pull, index);
      }
      AllRewritten(data.keys, |keys0|, ks, indices[..], pull);
      ok := true;
    }

    /** Overwrites one request key by its index. */
    method FindOrInitAt(indices: array<Key>, i: nat, pull: bool) returns (ok: bool, index: Key)
      requires data.Valid() && i < indices.Length
      modifies data, indices
      ensures data.Valid() && Grown(old(data.keys), old(data.values), data.keys, data.values)
      ensures ok <==> Insertable(old(data.keys), pull, old(indices[i]))
      ensures |data.keys| <= MAX_KEYS && |data.keys| <= |old(data.keys)| + if ok then 1 else 0
      ensures |data.keys| > |old(data.keys)| ==>
                data.keys[|old(data.keys)|] == old(indices[i]) && (pull ==> old(indices[i]) != PADDING_KEY)
      ensures ok ==> Found(data.keys, pull, old(indices[i]), index)
      ensures indices[..] == if ok then old(indices[..])[i := index] else old(indices[..])
    {
      hide *;
      ok, index := FindOrInit(indices[i], pull);
      if ok {
        indices[i] := index;
      }
    }

    /** The index of one key, inserting it when it is missing. */
    method FindOrInit(key: Key, pull: bool) returns (ok: bool, index: Key)
      requires data.Valid()
      modifies data
      ensures data.Valid() && Grown(old(data.keys), old(data.values), data.keys, data.values)
      ensures ok <==> Insertable(old(data.keys), pull, key)
      ensures |data.keys| <= MAX_KEYS && |data.keys| <= |old(data.keys)| + if ok then 1 else 0
      ensures |data.keys| > |old(data.keys)| ==> data.keys[|old(data.keys)|] == key && (pull ==> key != PADDING_KEY)
      ensures ok ==> Found(data.keys, pull, key, index)
    {
      hide Unique, ToMap, ArrayHashMap.Valid, ArrayHashMap.Contents;
      data.Bounds();
      if pull && key == PADDING_KEY {
        return true, PADDING_INDEX;
      }
      var found, _, i := data.GetOrInit(key);
      if !found {
        return false, 0;
      }
      ok, index := true, i;
    }

    /**
      Values or gradients for `keys`, one row of `input` each; the keys are overwritten by
      indices.  Throws exactly when the table has no room for all of them.
     */
    method HandlePush(keys: array<Key>, input: seq<Number>, isValue: bool) returns (ok: bool)
      requires Valid() && |input| == Offset(keys.Length, meta.dataItems)
      modifies data, keys
      ensures Valid() && (ok <==> HasRoom(old(Contents()), Wanted(old(keys[..]), false)))
      ensures ok && (meta.updater.None? || isValue || Unique(old(keys[..]))) ==>
                var rows := RowsOf(input, meta.dataItems, keys.Length);
                Contents() == Push(meta, old(Contents()), old(keys[..]), rows, isValue)
      ensures ok && Unique(old(keys[..])) ==>
                var rows := RowsOf(input, meta.dataItems, keys.Length);
                AllPushLeft(meta, old(Contents()), Contents(), old(keys[..]), rows, isValue)
      ensures ok ==>
                var ensured := Ensured(meta, old(Contents()), set k | k in old(keys[..]));
                UpdatedOnly(ensured, Contents(), old(keys[..]))
      ensures !ok ==> Keeps(old(Contents()), Contents())
    {
      hide HasRoom, Keeps, Updated, AgesReset, Written, Unique, ToMap, RowsOf, Offset, UpdatedOnly, AllPushLeft;
      hide ArrayHashMap.Valid, ArrayHashMap.Contents;
      ghost var ks, rows := keys[..], RowsOf(input, meta.dataItems, keys.Length);
      ok := TransformIndices(keys, false, false);
      if !ok {
        return;
      }
      AllPointTo(meta, data.keys, ks, keys[..], old(Contents()), Contents());
      ghost var m := Contents();
      if meta.updater.None? || isValue {
        WriteRows(keys, ks, input);
        WrittenAsValue(meta, isValue, m, ks, rows, |ks|);
        WriteTouchesOnly(meta, m, ks, rows);
      } else {
        CallUpdater(keys, ks, input);
        ResetAges(keys, ks);
        UpdateTouchesOnly(meta, m, ks, rows);
        if Unique(ks) {
          ResetUpdatedIsWritten(meta, m, ks, rows, |ks|);
        }
      }
      if Unique(ks) {
        PushLeavesAll(meta, old(Contents()), ks, rows, isValue);
      }
    }

    /** Copies one row into each slice and makes the slice young. */
    method WriteRows(indices: array<Key>, ghost ks: seq<Key>, input: seq<Number>)
      requires data.Valid() && |ks| == indices.Length && PointTo(data.keys, ks, indices[..])
      requires |input| == Offset(indices.Length, meta.dataItems)
      modifies data`values
      ensures data.Valid() && data.keys == old(data.keys)
      ensures var rows := RowsOf(input, meta.dataItems, indices.Length);
              data.Contents() == Written(meta, true, old(data.Contents()), ks, rows, |ks|)
    {
      hide PointTo, Unique, ToMap, RowsOf, Offset, ArrayHashMap.Valid, ArrayHashMap.Contents;
      ghost var m, rows := data.Contents(), RowsOf(input, meta.dataItems, indices.Length);
      ghost var idx := indices[..];
      var source := 0;
      assert source == Offset(0, meta.dataItems) by { OffsetStep(0, 1, meta.dataItems); }
      for i := 0 to indices.Length
        invariant data.Valid() && data.keys == old(data.keys) && source == Offset(i, meta.dataItems)
        invariant data.Contents() == Written(meta, true, m, ks, rows, i)
      {
        RowIs(input, meta.dataItems, indices.Length, i);
        PointAt(data.keys, ks, idx, i);
        var slice := data.At(indices[i]);
        data.Write(indices[i], slice.(data := input[source..source + meta.dataItems], age := 0));
        source := source + meta.dataItems;
      }
    }

    /** The updater reads and rewrites data and state of the slices it is pointed at, once each. */
    method CallUpdater(indices: array<Key>, ghost ks: seq<Key>, input: seq<Number>)
      requires data.Valid() && meta.updater.Some? && |ks| == indices.Length && PointTo(data.keys, ks, indices[..])
      requires |input| == Offset(indices.Length, meta.dataItems)
      modifies data`values
      ensures data.Valid() && data.keys == old(data.keys)
      ensures var rows := RowsOf(input, meta.dataItems, indices.Length);
              data.Contents() == Updated(meta, old(data.Contents()), ks, rows, |ks|)
    {
      hide PointTo, Unique, ToMap, RowsOf, Offset, ArrayHashMap.Valid, ArrayHashMap.Contents;
      ghost var m, rows := data.Contents(), RowsOf(input, meta.dataItems, indices.Length);
      ghost var idx := indices[..];
      var source := 0;
      assert source == Offset(0, meta.dataItems) by { OffsetStep(0, 1, meta.dataItems); }
      for i := 0 to indices.Length
        invariant data.Valid() && data.keys == old(data.keys) && source == Offset(i, meta.dataItems)
        invariant data.Contents() == Updated(meta, m, ks, rows, i)
      {
        RowIs(input, meta.dataItems, indices.Length, i);
        PointAt(data.keys, ks, idx, i);
        var slice := data.At(indices[i]);
        data.Write(indices[i], UpdatedSlice(meta, slice, input[source..source + meta.dataItems]));
        source := source + meta.dataItems;
      }
    }

    method ResetAges(indices: array<Key>, ghost ks: seq<Key>)
      requires data.Valid() && |ks| == indices.Length && PointTo(data.keys, ks, indices[..])
      modifies data`values
      ensures data.Valid() && data.keys == old(data.keys)
      ensures data.Contents() == AgesReset(old(data.Contents()), ks, |ks|)
    {
      hide PointTo, Unique, ToMap, ArrayHashMap.Valid, ArrayHashMap.Contents;
      ghost var m := data.Contents();
      ghost var idx := indices[..];
      for i := 0 to indices.Length
        invariant data.Valid() && data.keys == old(data.keys)
        invariant data.Contents() == AgesReset(m, ks, i)
      {
        PointAt(data.keys, ks, idx, i);
        var slice := data.At(indices[i]);
        data.Write(indices[i], slice.(age := 0));
      }
    }

    /**
      One row per key; None when the NaN fill of an integer tensor throws.  Throws before
      that exactly when a pull that inserts has no room for all its keys.
     */
    method HandlePull(keys: array<Key>, readOnly: bool, nanFill: bool) returns (ok: bool, out: Option<seq<Number>>)
      requires Valid()
      modifies data, keys
      ensures Valid() && (ok <==> readOnly || HasRoom(old(Contents()), Wanted(old(keys[..]), true)))
      ensures ok ==> Contents() == Pulled(meta, old(Contents()), old(keys[..]), readOnly)
      ensures ok ==> (out.None? <==> PullThrows(meta, old(Contents()), old(keys[..]), readOnly, nanFill))
      ensures ok && out.Some? ==> out.value == Flatten(PullRows(meta, Contents(), old(keys[..]), nanFill))
      ensures !ok ==> out == None && Keeps(old(Contents()), Contents())
    {
      hide AllResolved, Resolved, Wanted, Ensured, PullRow, PullRows, PullThrows, Pulled, Unfillable, Unique, ToMap;
      hide ArrayHashMap.Valid, ArrayHashMap.Contents, Keeps;
      ghost var ks, m := keys[..], Contents();
      ok := TransformIndices(keys, true, readOnly);
      if !ok {
        return false, None;
      }
      PulledIs(meta, m, ks, readOnly, nanFill);
      out := FetchRows(keys, ks, nanFill);
    }

    method FetchRows(indices: array<Key>, ghost ks: seq<Key>, nanFill: bool) returns (out: Option<seq<Number>>)
      requires data.Valid() && |ks| == indices.Length && AllResolved(data.keys, true, ks, indices[..])
      ensures out.None? <==> exists i :: 0 <= i < |ks| && Unfillable(meta, data.Contents(), ks[i], nanFill)
      ensures out.Some? ==> out.value == Flatten(PullRows(meta, data.Contents(), ks, nanFill))
    {
      hide AllResolved, Resolved, PullRow, PullRows, Unfillable, Unique, ToMap, ArrayHashMap.Valid,
          ArrayHashMap.Contents;
      ghost var m, rows := data.Contents(), PullRows(meta, data.Contents(), ks, nanFill);
      var target: seq<Number> := [];
      ghost var idx := indices[..];
      for i := 0 to indices.Length
        invariant target == FlattenTo(rows, i)
        invariant forall j :: 0 <= j < i ==> !Unfillable(meta, m, ks[j], nanFill)
      {
        data.Bounds();
        RowAtIndex(meta, data.keys, ks, idx, m, nanFill, i);
        var index := indices[i];
        if index == NOT_FOUND_INDEX && nanFill {
          if !meta.isFloat {
            assert Unfillable(meta, m, ks[i], nanFill);
            return None;
          }
          target := target + NaNs(meta.dataItems);
        } else if index == NOT_FOUND_INDEX || index == PADDING_INDEX {
          target := target + Zeros(meta.dataItems);
        } else {
          target := target + data.At(index).data;
        }
      }
      out := Some(target);
    }

    /** Imports whole slices, or their data part with zero state and age; throws when the table cannot grow. */
    method HandlePushPartition(keys: seq<Key>, rows: seq<Slice>, dataOnly: bool, skipExisting: bool)
      returns (ok: bool, ghost done: nat)
      requires Valid() && |keys| == |rows|
      modifies data
      ensures Valid() && (ok <==> HasRoom(old(Contents()), Wanted(keys, false)))
      ensures done <= |keys| && (ok <==> done == |keys|)
      ensures ok ==> Contents() == PushPartition(meta, old(Contents()), keys, rows, dataOnly, skipExisting)
      ensures Contents() == Imported(meta, old(Contents()), keys, rows, dataOnly, skipExisting, done)
    {
      hide Unique, ToMap, ArrayHashMap.Valid, ArrayHashMap.Contents, HasRoom, Wanted;
      data.Bounds();
      for i := 0 to |keys|
        invariant Valid() && |data.keys| <= MAX_KEYS
        invariant Contents() == Imported(meta, old(Contents()), keys, rows, dataOnly, skipExisting, i)
      {
        var found, isNew, index := data.GetOrInit(keys[i]);
        if !found {
          data.Bounds();
          ImportStops(meta, data.keys, old(Contents()), keys, rows, dataOnly, skipExisting, i);
          return false, i;
        }
        if isNew || !skipExisting {
          data.Write(index, ImportedSlice(meta, rows[i], dataOnly));
        }
      }
      data.Bounds();
      ImportKeys(meta, old(Contents()), keys, rows, dataOnly, skipExisting, |keys|);
      ImportRoom(data.keys, old(Contents()), keys, Contents());
      ok, done := true, |keys|;
    }

    /** Drops every slice whose data items are all small; only float tensors have it. */
    method PruneSmall(epsilon: real) returns (ok: bool)
      requires Valid()
      modifies data
      ensures Valid() && ok == meta.isFloat
      ensures Contents() == if ok then Pruned(old(Contents()), SmallVisit(epsilon)) else old(Contents())
      ensures ok ==> forall k :: k in Contents() <==> k in old(Contents()) && IsLarge(old(Contents())[k], epsilon)
    {
      hide Pruned, SmallVisit, IsLarge, ArrayHashMap.Valid, ArrayHashMap.Contents;
      if !meta.isFloat {
        return false;
      }
      ghost var m := Contents();
      data.Prune(SmallVisit(epsilon));
      forall k {
        SmallPruned(m, epsilon, k);
      }
      ok := true;
    }

    method PruneOld(maxAge: int)
      requires Valid()
      modifies data
      ensures Valid() && Contents() == Pruned(old(Contents()), AgeVisit(maxAge))
      ensures forall k :: k in Contents() <==> k in old(Contents()) && old(Contents())[k].age + 1 <= maxAge
      ensures forall k :: k in Contents() ==>
                var s := old(Contents())[k]; Contents()[k] == Slice(s.data, s.state, s.age + 1)
    {
      hide Pruned, AgeVisit, ArrayHashMap.Valid, ArrayHashMap.Contents;
      ghost var m := Contents();
      data.Prune(AgeVisit(maxAge));
      forall k {
        OldPruned(m, maxAge, k);
      }
    }
  }
}
