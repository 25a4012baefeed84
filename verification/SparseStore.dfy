/**
  The meaning of every sparse-tensor request, as a function on one map.

  A single map is the reference that the n shards are proved to refine, and each
  shard's handlers are proved to compute these functions on the shard's own map.
 */
module SparseStore {
  import opened Wrappers
  import opened ArrayHashMaps
  import opened Sequences

  /** A float or double; rounding is not modelled. */
  datatype Number = Num(value: real) | NaN

  /** One embedding vector: its data part, its updater state and its age. */
  datatype Slice = Slice(data: seq<Number>, state: seq<Number>, age: int)

  type Store = map<Key, Slice>

  /** The updater reads a slice and a gradient and gives the new data and state. */
  datatype Meta = Meta(
    name: string,
    isFloat: bool,
    dataItems: nat,
    stateItems: nat,
    partitionCount: nat,
    initializer: Option<Key -> seq<Number>>,
    updater: Option<(Slice, seq<Number>) -> (seq<Number>, seq<Number>)>)
  {
    /** The check a partition makes before it allocates. */
    predicate Checks(index: nat) {
      name != [] && index < partitionCount
    }
  }

  const PADDING_KEY: Key := 0

  function Zeros(n: nat): (s: seq<Number>)
    ensures |s| == n && forall i :: 0 <= i < n ==> s[i] == Num(0.0)
  {
    seq(n, _ => Num(0.0))
  }

  function NaNs(n: nat): (s: seq<Number>)
    ensures |s| == n && forall i :: 0 <= i < n ==> s[i] == NaN
  {
    seq(n, _ => NaN)
  }

  /** What a new key holds: initialised data, zero state, age zero. */
  function InitSlice(meta: Meta, k: Key): Slice {
    var data := if meta.initializer.Some? then meta.initializer.value(k) else Zeros(meta.dataItems);
    Slice(data, Zeros(meta.stateItems), 0)
  }

  /** `m` with every key of `ks` present; present keys are untouched. */
  function Ensured(meta: Meta, m: Store, ks: set<Key>): Store {
    map k | k in m.Keys + ks :: if k in m then m[k] else InitSlice(meta, k)
  }

  /** What pushing `row` does to a slice. */
  function PushedSlice(meta: Meta, isValue: bool, s: Slice, row: seq<Number>): Slice {
    if meta.updater.None? || isValue then s.(data := row, age := 0)
    else
      var (data, state) := meta.updater.value(s, row);
      Slice(data, state, 0)
  }

  /** The first `n` rows pushed in order, each onto the slice of its key. */
  function Written(meta: Meta, isValue: bool, m: Store, ks: seq<Key>, rows: seq<seq<Number>>, n: nat): (r: Store)
    requires n <= |ks| == |rows|
    ensures r.Keys == m.Keys
  {
    if n == 0 then m
    else
      var r := Written(meta, isValue, m, ks, rows, n - 1);
      var k := ks[n - 1];
      if k in r then r[k := PushedSlice(meta, isValue, r[k], rows[n - 1])] else r
  }

  /** A push makes the slices it names young and leaves the others alone. */
  lemma {:induction false} WrittenAge(meta: Meta, isValue: bool, m: Store, ks: seq<Key>, rows: seq<seq<Number>>, n: nat,
                                      k: Key)
    requires n <= |ks| == |rows| && k in m
    ensures k in ks[..n] ==> Written(meta, isValue, m, ks, rows, n)[k].age == 0
    ensures k !in ks[..n] ==> Written(meta, isValue, m, ks, rows, n)[k] == m[k]
  {
    if n > 0 {
      WrittenAge(meta, isValue, m, ks, rows, n - 1, k);
      assert ks[..n] == ks[..n - 1] + [ks[n - 1]];
    }
  }

  function Push(meta: Meta, m: Store, ks: seq<Key>, rows: seq<seq<Number>>, isValue: bool): Store
    requires |ks| == |rows|
  {
    Written(meta, isValue, Ensured(meta, m, set k | k in ks), ks, rows, |ks|)
  }

  function Pulled(meta: Meta, m: Store, ks: seq<Key>, readOnly: bool): Store {
    if readOnly then m else Ensured(meta, m, set k | k in ks && k != PADDING_KEY)
  }

  /** The row answered for key `k` by a store in state `m`. */
  function PullRow(meta: Meta, m: Store, k: Key, nanFill: bool): seq<Number> {
    if k == PADDING_KEY then Zeros(meta.dataItems)
    else if k in m then m[k].data
    else if nanFill then NaNs(meta.dataItems)
    else Zeros(meta.dataItems)
  }

  function PullRows(meta: Meta, m: Store, ks: seq<Key>, nanFill: bool): (rows: seq<seq<Number>>)
    ensures |rows| == |ks|
  {
    seq(|ks|, i requires 0 <= i < |ks| => PullRow(meta, m, ks[i], nanFill))
  }

  /** Filling with NaN throws for an integer tensor. */
  predicate PullThrows(meta: Meta, m: Store, ks: seq<Key>, readOnly: bool, nanFill: bool) {
    readOnly && nanFill && !meta.isFloat && exists k :: k in ks && k != PADDING_KEY && k !in m
  }

  function ImportedSlice(meta: Meta, row: Slice, dataOnly: bool): Slice {
    if dataOnly then Slice(row.data, Zeros(meta.stateItems), 0) else row
  }

  /** The first `n` slices imported in order. */
  function Imported(meta: Meta, m: Store, ks: seq<Key>, rows: seq<Slice>, dataOnly: bool, skipExisting: bool,
                    n: nat): Store
    requires n <= |ks| == |rows|
  {
    if n == 0 then m
    else
      var r := Imported(meta, m, ks, rows, dataOnly, skipExisting, n - 1);
      var k := ks[n - 1];
      if k in r && skipExisting then r else r[k := ImportedSlice(meta, rows[n - 1], dataOnly)]
  }

  function PushPartition(meta: Meta, m: Store, ks: seq<Key>, rows: seq<Slice>, dataOnly: bool,
                         skipExisting: bool): Store
    requires |ks| == |rows|
  {
    Imported(meta, m, ks, rows, dataOnly, skipExisting, |ks|)
  }

  predicate Exceeds(x: Number, epsilon: real) {
    x.Num? && (if x.value < 0.0 then -x.value else x.value) > epsilon
  }

  function SmallVisit(epsilon: real): (Key, Slice) -> (bool, Slice) {
    (_, s: Slice) => (forall i :: 0 <= i < |s.data| ==> !Exceeds(s.data[i], epsilon), s)
  }

  /** `++age; return age > max_age` */
  function AgeVisit(maxAge: int): (Key, Slice) -> (bool, Slice) {
    (_, s: Slice) => (s.age + 1 > maxAge, s.(age := s.age + 1))
  }

  // ---- What the requests mean, slice by slice ----

  /** A new slice: data from the initializer, or zeros without one; zero state; age zero. */
  lemma NewSlice(meta: Meta, k: Key, j: nat)
    ensures InitSlice(meta, k).age == 0 && |InitSlice(meta, k).state| == meta.stateItems
    ensures j < meta.stateItems ==> InitSlice(meta, k).state[j] == Num(0.0)
    ensures meta.initializer.Some? ==> InitSlice(meta, k).data == meta.initializer.value(k)
    ensures meta.initializer.None? ==> |InitSlice(meta, k).data| == meta.dataItems
    ensures meta.initializer.None? && j < meta.dataItems ==> InitSlice(meta, k).data[j] == Num(0.0)
  {}

  /** What a push of `row` leaves of a slice: the row, or what the updater made of it, at age 0. */
  ghost predicate PushLeft(meta: Meta, before: Slice, now: Slice, row: seq<Number>, isValue: bool) {
    if meta.updater.None? || isValue then now == Slice(row, before.state, 0)
    else
      var (data, state) := meta.updater.value(before, row);
      now == Slice(data, state, 0)
  }

  /** Every key of a push holds what its row left of its slice, a new key of its initial slice. */
  ghost predicate AllPushLeft(meta: Meta, m: Store, now: Store, ks: seq<Key>, rows: seq<seq<Number>>, isValue: bool) {
    |ks| == |rows| && forall i :: 0 <= i < |ks| ==>
      var s := if ks[i] in m then m[ks[i]] else InitSlice(meta, ks[i]);
      ks[i] in now && PushLeft(meta, s, now[ks[i]], rows[i], isValue)
  }

  /** A push leaves that under each key, unless a later row names it again. */
  lemma PushLeaves(meta: Meta, m: Store, ks: seq<Key>, rows: seq<seq<Number>>, isValue: bool, i: nat)
    requires i < |ks| == |rows| && ks[i] !in ks[i + 1..]
    requires meta.updater.None? || isValue || ks[i] !in ks[..i]
    ensures var now := Push(meta, m, ks, rows, isValue);
            var s := if ks[i] in m then m[ks[i]] else InitSlice(meta, ks[i]);
            ks[i] in now && PushLeft(meta, s, now[ks[i]], rows[i], isValue)
  {
    hide Written, InitSlice;
    var ensured := Ensured(meta, m, set k | k in ks);
    if meta.updater.None? || isValue {
      WrittenKeepsState(meta, isValue, ensured, ks, rows, i, ks[i]);
    } else {
      WrittenAge(meta, isValue, ensured, ks, rows, i, ks[i]);
    }
    WrittenStep(meta, isValue, ensured, ks, rows, i);
    WrittenStays(meta, isValue, ensured, ks, rows, i + 1, |ks|, ks[i]);
  }

  /** A push of distinct keys leaves it under all of them. */
  lemma PushLeavesAll(meta: Meta, m: Store, ks: seq<Key>, rows: seq<seq<Number>>, isValue: bool)
    requires |ks| == |rows| && Unique(ks)
    ensures AllPushLeft(meta, m, Push(meta, m, ks, rows, isValue), ks, rows, isValue)
  {
    hide Push, PushLeft, InitSlice;
    forall i | 0 <= i < |ks|
      ensures var s := if ks[i] in m then m[ks[i]] else InitSlice(meta, ks[i]);
              var now := Push(meta, m, ks, rows, isValue);
              ks[i] in now && PushLeft(meta, s, now[ks[i]], rows[i], isValue)
    {
      PushLeaves(meta, m, ks, rows, isValue, i);
    }
  }

  lemma WrittenStep(meta: Meta, isValue: bool, m: Store, ks: seq<Key>, rows: seq<seq<Number>>, i: nat)
    requires i < |ks| == |rows| && ks[i] in m
    ensures var s := Written(meta, isValue, m, ks, rows, i)[ks[i]];
            Written(meta, isValue, m, ks, rows, i + 1)[ks[i]] == PushedSlice(meta, isValue, s, rows[i])
  {}

  lemma {:induction false} WrittenKeepsState(meta: Meta, isValue: bool, m: Store, ks: seq<Key>, rows: seq<seq<Number>>,
                                             n: nat, k: Key)
    requires n <= |ks| == |rows| && k in m && (meta.updater.None? || isValue)
    ensures Written(meta, isValue, m, ks, rows, n)[k].state == m[k].state
  {
    if n > 0 {
      WrittenKeepsState(meta, isValue, m, ks, rows, n - 1, k);
    }
  }

  lemma {:induction false} WrittenStays(meta: Meta, isValue: bool, m: Store, ks: seq<Key>, rows: seq<seq<Number>>,
                                        i: nat, n: nat, k: Key)
    requires i <= n <= |ks| == |rows| && k in m && k !in ks[i..n]
    ensures Written(meta, isValue, m, ks, rows, n)[k] == Written(meta, isValue, m, ks, rows, i)[k]
  {
    if i < n {
      assert ks[i..n] == ks[i..n - 1] + [ks[n - 1]];
      WrittenStays(meta, isValue, m, ks, rows, i, n - 1, k);
    }
  }

  /** A push adds exactly the missing keys it names and leaves every other slice as it was. */
  lemma PushTouchesOnly(meta: Meta, m: Store, ks: seq<Key>, rows: seq<seq<Number>>, isValue: bool, k: Key)
    requires |ks| == |rows|
    ensures var now := Push(meta, m, ks, rows, isValue);
            (k in now <==> k in m || k in ks) && (k in m && k !in ks ==> now[k] == m[k])
  {
    if k in m && k !in ks {
      WrittenAge(meta, isValue, Ensured(meta, m, set k | k in ks), ks, rows, |ks|, k);
    }
  }

  /** What an import leaves under a key that the file names once. */
  lemma ImportLeaves(meta: Meta, m: Store, ks: seq<Key>, rows: seq<Slice>, dataOnly: bool, skipExisting: bool, i: nat)
    requires i < |ks| == |rows| && Unique(ks)
    ensures var now := PushPartition(meta, m, ks, rows, dataOnly, skipExisting);
            && ks[i] in now
            && (ks[i] in m && skipExisting ==> now[ks[i]] == m[ks[i]])
            && (!(ks[i] in m && skipExisting) ==>
                  var s := now[ks[i]];
                  && s.data == rows[i].data
                  && (!dataOnly ==> s == rows[i])
                  && (dataOnly ==> s.age == 0 && |s.state| == meta.stateItems
                                   && forall j :: 0 <= j < |s.state| ==> s.state[j] == Num(0.0)))
  {
    hide Imported;
    ImportStays(meta, m, ks, rows, dataOnly, skipExisting, 0, i, ks[i]);
    ImportStep(meta, m, ks, rows, dataOnly, skipExisting, i);
    ImportStays(meta, m, ks, rows, dataOnly, skipExisting, i + 1, |ks|, ks[i]);
  }

  lemma ImportStep(meta: Meta, m: Store, ks: seq<Key>, rows: seq<Slice>, dataOnly: bool, skipExisting: bool, i: nat)
    requires i < |ks| == |rows|
    ensures Imported(meta, m, ks, rows, dataOnly, skipExisting, 0) == m
    ensures var before := Imported(meta, m, ks, rows, dataOnly, skipExisting, i);
            Imported(meta, m, ks, rows, dataOnly, skipExisting, i + 1)
            == if ks[i] in before && skipExisting then before
               else before[ks[i] := ImportedSlice(meta, rows[i], dataOnly)]
  {}

  lemma {:induction false} ImportStays(meta: Meta, m: Store, ks: seq<Key>, rows: seq<Slice>, dataOnly: bool,
                                       skipExisting: bool, i: nat, n: nat, k: Key)
    requires i <= n <= |ks| == |rows| && k !in ks[i..n]
    ensures var before := Imported(meta, m, ks, rows, dataOnly, skipExisting, i);
            var now := Imported(meta, m, ks, rows, dataOnly, skipExisting, n);
            (k in now <==> k in before) && (k in now ==> now[k] == before[k])
  {
    if i < n {
      assert ks[i..n] == ks[i..n - 1] + [ks[n - 1]];
      ImportStays(meta, m, ks, rows, dataOnly, skipExisting, i, n - 1, k);
    }
  }

  /** What a pull answers for one key, item by item; key 0 is the padding key. */
  lemma PullAnswers(meta: Meta, m: Store, ks: seq<Key>, readOnly: bool, nanFill: bool, i: nat)
    requires i < |ks|
    ensures var k, row := ks[i], PullRows(meta, Pulled(meta, m, ks, readOnly), ks, nanFill)[i];
            && (k != 0 && k in m ==> row == m[k].data)
            && (k != 0 && k !in m && !readOnly && meta.initializer.Some? ==> row == meta.initializer.value(k))
            && (k == 0 || (k !in m && (readOnly || meta.initializer.None?)) ==>
                  && |row| == meta.dataItems
                  && forall j :: 0 <= j < |row| ==> row[j] == if k != 0 && readOnly && nanFill then NaN else Num(0.0))
  {}

  /** A pull stores nothing when it is read-only, and else the missing keys it names, except key 0. */
  lemma PullLeaves(meta: Meta, m: Store, ks: seq<Key>, readOnly: bool, k: Key)
    ensures var now := Pulled(meta, m, ks, readOnly);
            && (k in now <==> k in m || (!readOnly && k != 0 && k in ks))
            && (k in m ==> now[k] == m[k])
            && (k in now && k !in m ==> now[k] == InitSlice(meta, k))
  {}

  /** Some data item is a number farther than `epsilon` from zero. */
  ghost predicate IsLarge(s: Slice, epsilon: real) {
    exists i :: 0 <= i < |s.data| && s.data[i].Num? && (s.data[i].value > epsilon || -s.data[i].value > epsilon)
  }

  /** A prune for size keeps exactly the large slices, as they are. */
  lemma SmallPruned(m: Store, epsilon: real, k: Key)
    ensures var now := Pruned(m, SmallVisit(epsilon));
            && (k in now <==> k in m && IsLarge(m[k], epsilon))
            && (k in now ==> now[k] == m[k])
  {}

  /** Which slices a prune for age keeps, one round older. */
  lemma OldPruned(m: Store, maxAge: int, k: Key)
    ensures var now := Pruned(m, AgeVisit(maxAge));
            && (k in now <==> k in m && m[k].age + 1 <= maxAge)
            && (k in now ==> now[k] == Slice(m[k].data, m[k].state, m[k].age + 1))
  {}
}
