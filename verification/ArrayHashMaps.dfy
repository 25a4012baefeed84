/**
  The chained hash table that stores one shard (cpp/common/hashmap/array_hash_map.h).

  Keys and values live in two parallel dense arrays; `first` heads one chain per
  bucket and `next` links entries of a bucket, newest first.  The four raw buffers
  are sequence fields that the methods reassign; only their used prefixes are kept.
 */
module ArrayHashMaps {
  import opened Arith
  import opened Sequences

  /** A `uint64_t` key. */
  type Key = k: int | 0 <= k < 0x1_0000_0000_0000_0000

  /** The end-of-chain mark `uint32_t(-1)`, also the largest number of buckets allowed. */
  const NIL: nat := 0xFFFF_FFFF

  /** The largest power of two below NIL: as many buckets, and so keys, as a table can have. */
  const MAX_KEYS: nat := 0x8000_0000

  /** The map stored by two parallel arrays. */
  ghost function ToMap<V>(ks: seq<Key>, vs: seq<V>): (m: map<Key, V>)
    requires |ks| == |vs| && Unique(ks)
    ensures forall i :: 0 <= i < |ks| ==> ks[i] in m && m[ks[i]] == vs[i]
    ensures forall k :: k in m <==> k in ks
  {
    map i: int | 0 <= i < |ks| :: ks[i] := vs[i]
  }

  function FastModulo(a: Key): nat {
    var r := a % 0x8000_0000 + a / 0x8000_0000;
    if r >= 0x7FFF_FFFF then r - 0x7FFF_FFFF else r
  }

  predicate PowerOfTwo(n: nat) {
    n == 1 || (n > 0 && n % 2 == 0 && PowerOfTwo(n / 2))
  }

  /** The least power of two that is at least `v`. */
  function PowerBucketCount(v: nat): (n: nat)
    ensures v <= n && PowerOfTwo(n)
    ensures v > 0 ==> n < 2 * v
  {
    if v <= 1 then 1 else 2 * PowerBucketCount((v + 1) / 2)
  }

  /** The next power of two after `b` is `2 * b`. */
  lemma {:induction false} PowerGap(n: nat, b: nat)
    requires PowerOfTwo(n) && PowerOfTwo(b) && n < 2 * b
    ensures n <= b
  {
    if n > 1 && b > 1 {
      PowerGap(n / 2, b / 2);
    }
  }

  /** A full table of `n` buckets can double unless it is the largest. */
  lemma DoubleFits(n: nat)
    requires PowerOfTwo(n) && n <= NIL
    ensures n <= MAX_KEYS && PowerBucketCount(2 * n) == 2 * n && (2 * n <= NIL <==> n != MAX_KEYS)
  {
    hide PowerOfTwo, PowerBucketCount;
    LargePowers();
    PowerDouble(n);
    PowerGap(n, 0x8000_0000);
    if n < MAX_KEYS {
      PowerGap(n, 0x4000_0000);
    }
    PowerGap(PowerBucketCount(2 * n), 2 * n);
  }

  lemma LargePowers()
    ensures PowerOfTwo(0x8000_0000) && PowerOfTwo(0x4000_0000)
  {
    hide PowerOfTwo;
    Power16(1);
    Power16(0x10);
    Power16(0x100);
    Power16(0x1000);
    Power16(0x1_0000);
    Power16(0x10_0000);
    Power16(0x100_0000);
    PowerDouble(0x1000_0000);
    PowerDouble(0x2000_0000);
    PowerDouble(0x4000_0000);
  }

  lemma Power16(n: nat)
    requires n == 1 || PowerOfTwo(n)
    ensures PowerOfTwo(16 * n)
  {
    hide PowerOfTwo;
    PowerDouble(n);
    PowerDouble(2 * n);
    PowerDouble(4 * n);
    PowerDouble(8 * n);
  }

  lemma PowerDouble(n: nat)
    requires n == 1 || PowerOfTwo(n)
    ensures n > 0 && PowerOfTwo(2 * n)
  {}

  /** The mask and the shift of `fast_modulo`. */
  lemma FastModuloBits(a: bv64)
    ensures a & 0x7FFF_FFFF == a % 0x8000_0000
    ensures a >> 31 == a / 0x8000_0000
  {}

  /** The fast form is a remainder for the prime 2^31 - 1, not always reduced fully. */
  lemma FastModuloIs(a: Key)
    ensures FastModulo(a) % 0x7FFF_FFFF == a % 0x7FFF_FFFF
    ensures FastModulo(a) < 0x7FFF_FFFF || FastModulo(a) <= a / 0x8000_0000
  {
    var lo, hi := a % 0x8000_0000, a / 0x8000_0000;
    assert a == lo + hi + hi * 0x7FFF_FFFF;
    assert (lo + hi + hi * 0x7FFF_FFFF) % 0x7FFF_FFFF == (lo + hi) % 0x7FFF_FFFF;
  }

  /** `&` on numbers, bit by bit. */
  function BitAnd(a: nat, b: nat): nat {
    if a == 0 || b == 0 then 0 else 2 * BitAnd(a / 2, b / 2) + (a % 2) * (b % 2)
  }

  lemma ModDouble(x: nat, n: nat)
    requires n > 0
    ensures Mod(x, 2 * n) == 2 * Mod(x / 2, n) + x % 2
  {
    hide Mul, Div, Mod;
    var half := x / 2;
    var q, r := Div(half, n), Mod(half, n);
    DivMod(half, n);
    MulDouble(q, n);
    DivModIs(x, 2 * n, q, 2 * r + x % 2);
  }

  lemma MulDouble(a: int, b: int)
    ensures Mul(a, 2 * b) == 2 * Mul(a, b)
  {}

  /** Masking with a power of two less one is taking the remainder. */
  lemma {:induction false} MaskIsRemainder(x: nat, n: nat)
    requires PowerOfTwo(n)
    ensures BitAnd(x, n - 1) == Mod(x, n)
  {
    hide Mod;
    if n == 1 {
      ModOne(x);
    } else {
      MaskIsRemainder(x / 2, n / 2);
      ModDouble(x, n / 2);
      if x == 0 {
        MulStep(0, n);
        DivModIs(0, n, 0, 0);
      }
    }
  }

  lemma ModOne(x: nat)
    ensures Mod(x, 1) == 0
  {}

  /** The bucket of a key; `MaskIsRemainder` shows that `& (bucket_count_ - 1)` computes it. */
  function Bucket(key: Key, buckets: nat): (b: nat)
    requires buckets > 0
    ensures b < buckets
  {
    FastModulo(key) % buckets
  }

  lemma BucketIsMasked(key: Key, buckets: nat)
    requires PowerOfTwo(buckets)
    ensures Bucket(key, buckets) == BitAnd(FastModulo(key), buckets - 1)
  {
    hide FastModulo, BitAnd;
    MaskIsRemainder(FastModulo(key), buckets);
  }

  /** The newest entry below `limit` that hashes to bucket `b`, or NIL. */
  function Latest(ks: seq<Key>, buckets: nat, limit: nat, b: nat): (i: nat)
    requires buckets > 0 && limit <= |ks| <= NIL
    ensures i == NIL || i < limit
  {
    if limit == 0 then NIL
    else if Bucket(ks[limit - 1], buckets) == b then limit - 1
    else Latest(ks, buckets, limit - 1, b)
  }

  lemma {:induction false} LatestIsNewest(ks: seq<Key>, buckets: nat, limit: nat, b: nat)
    requires buckets > 0 && limit <= |ks| <= NIL
    ensures var i := Latest(ks, buckets, limit, b);
            && (i != NIL ==> Bucket(ks[i], buckets) == b)
            && forall j :: (i == NIL || i < j) && 0 <= j < limit ==> Bucket(ks[j], buckets) != b
  {
    if limit > 0 && Bucket(ks[limit - 1], buckets) != b {
      LatestIsNewest(ks, buckets, limit - 1, b);
    }
  }

  lemma LatestStep(ks: seq<Key>, buckets: nat, limit: nat, b: nat)
    requires buckets > 0 && limit <= |ks| <= NIL
    ensures Latest(ks, buckets, 0, b) == NIL
    ensures limit > 0 ==> Latest(ks, buckets, limit, b)
                          == if Bucket(ks[limit - 1], buckets) == b then limit - 1
                             else Latest(ks, buckets, limit - 1, b)
  {}

  lemma {:induction false} LatestOfPrefix(ks: seq<Key>, more: seq<Key>, buckets: nat, limit: nat, b: nat)
    requires buckets > 0 && limit <= |ks| && |ks + more| <= NIL
    ensures Latest(ks + more, buckets, limit, b) == Latest(ks, buckets, limit, b)
  {
    if limit > 0 {
      LatestOfPrefix(ks, more, buckets, limit - 1, b);
    }
  }

  class ArrayHashMap<V(0)> {
    var keys: seq<Key>
    var values: seq<V>
    var next: seq<nat>
    var first: seq<nat>

    ghost predicate Valid()
      reads this
    {
      && |values| == |next| == |keys| <= |first| <= NIL
      && Unique(keys)
      && (|first| > 0 ==> PowerOfTwo(|first|))
      && (forall b :: 0 <= b < |first| ==> first[b] == Latest(keys, |first|, |keys|, b))
      && (forall i :: 0 <= i < |keys| ==> next[i] == Latest(keys, |first|, i, Bucket(keys[i], |first|)))
    }

    ghost function Contents(): (m: map<Key, V>)
      reads this
      requires Valid()
      ensures forall k :: k in m <==> k in keys
    {
      ToMap(keys, values)
    }

    lemma Bounds()
      requires Valid()
      ensures Unique(keys) && |keys| <= |first| <= MAX_KEYS
    {
      hide Bucket, Latest, PowerOfTwo, PowerBucketCount;
      if |first| > 0 {
        DoubleFits(|first|);
      }
    }

    constructor ()
      ensures Valid() && keys == [] && values == []
    {
      keys, values, next, first := [], [], [], [];
    }

    /** Index of `key` in the dense arrays, or -1. */
    method Find(key: Key) returns (index: int)
      requires Valid()
      ensures key in keys ==> 0 <= index < |keys| && keys[index] == key
      ensures key !in keys ==> index == -1
    {
      hide Bucket, FastModulo, Latest;
      if |first| == 0 {
        return -1;
      }
      var bucket := Bucket(key, |first|);
      var i := first[bucket];
      LatestIsNewest(keys, |first|, |keys|, bucket);
      while i != NIL
        invariant i == NIL || 0 <= i < |keys|
        invariant i != NIL ==> Bucket(keys[i], |first|) == bucket
        invariant forall j :: (i == NIL || i < j) && 0 <= j < |keys| ==> keys[j] != key
        decreases if i == NIL then 0 else i + 1
      {
        if keys[i] == key {
          return i;
        }
        LatestIsNewest(keys, |first|, i, bucket);
        i := next[i];
      }
      return -1;
    }

    /**
      Finds `key` or appends it.  A new slot holds whatever its memory held.
      Fails, with nothing changed, exactly when a new key would need more than
      2^32 - 1 buckets, which is when there are 2^31 keys.
     */
    method GetOrInit(key: Key) returns (ok: bool, isNew: bool, index: nat)
      requires Valid()
      modifies this
      ensures Valid()
      ensures ok <==> key in old(keys) || |old(keys)| != MAX_KEYS
      ensures ok ==> index < |values|
      ensures ok ==> Contents() == if isNew then old(Contents())[key := values[index]] else old(Contents())
      ensures !ok ==> keys == old(keys) && values == old(values) && Contents() == old(Contents())
      ensures |keys| <= MAX_KEYS
      ensures ok ==> isNew == (key !in old(keys)) && index < |keys| && keys[index] == key
      ensures ok && !isNew ==> keys == old(keys) && values == old(values)
      ensures ok && isNew ==> index == |old(keys)| && keys == old(keys) + [key]
                              && |values| == |keys| && values[..index] == old(values)
    {
      hide Bucket, FastModulo, Latest, PowerOfTwo, PowerBucketCount;
      Bounds();
      var found := Find(key);
      if found != -1 {
        return true, false, found;
      }
      if |keys| == |first| {
        ok := EnsureCapacity();
        if !ok {
          return false, false, 0;
        }
      }
      index := Append(key);
      assert values == old(values) + [values[index]];
      ToMapAppend(old(keys), old(values), key, values[index]);
      ok, isNew := true, true;
    }

    /** Puts a new key at the end of the dense arrays and at the head of its chain. */
    method Append(key: Key) returns (index: nat)
      requires Valid() && key !in keys && |keys| < |first|
      modifies this
      ensures Valid() && index == |old(keys)| && keys == old(keys) + [key]
      ensures |values| == |keys| && values[..index] == old(values)
    {
      hide Bucket, FastModulo, Latest;
      ghost var before := keys;
      var bucket := Bucket(key, |first|);
      var garbage: V := *;
      index := |keys|;
      keys := keys + [key];
      values := values + [garbage];
      next := next + [first[bucket]];
      first := first[bucket := index];
      forall i, b | 0 <= i <= |before|
        ensures Latest(keys, |first|, i, b) == Latest(before, |first|, i, b)
      {
        LatestOfPrefix(before, [key], |first|, i, b);
      }
      forall b | 0 <= b < |first| ensures first[b] == Latest(keys, |first|, |keys|, b) {
        LatestStep(keys, |first|, |keys|, b);
      }
    }

    /** The value at `index`, read through its pointer. */
    function At(index: nat): (v: V)
      reads this
      requires Valid() && index < |keys|
      ensures keys[index] in Contents() && v == Contents()[keys[index]]
    {
      values[index]
    }

    /** Overwrites the value at `index` through its pointer. */
    method Write(index: nat, v: V)
      requires Valid() && index < |keys|
      modifies this`values
      ensures Valid() && Contents() == old(Contents())[keys[index] := v]
    {
      hide Bucket, FastModulo, Latest;
      ToMapUpdate(keys, values, index, v);
      values := values[index := v];
    }

    method EnsureCapacity() returns (ok: bool)
      requires Valid() && |keys| == |first|
      modifies this
      ensures Valid() && keys == old(keys) && values == old(values)
      ensures ok <==> |keys| != MAX_KEYS
      ensures ok ==> |keys| < |first|
    {
      hide Bucket, Latest, PowerOfTwo, PowerBucketCount;
      var minCapacity := if |keys| == 0 then 1000 else |keys| * 2;
      if |keys| != 0 {
        DoubleFits(|keys|);
      }
      ok := Reallocate(minCapacity);
    }

    /** Resizes the table and rebuilds the chains; a size below the number of keys changes nothing. */
    method Reallocate(size: nat) returns (ok: bool)
      requires |values| == |keys| && Unique(keys)
      modifies this
      ensures keys == old(keys) && values == old(values)
      ensures |keys| > size ==> ok && next == old(next) && first == old(first)
      ensures |keys| <= size && ok ==> Valid() && size <= |first|
      ensures !ok ==> next == old(next) && first == old(first)
      ensures ok <==> |keys| > size || size == 0 || PowerBucketCount(size) <= NIL
    {
      if |keys| > size {
        return true;
      }
      if size == 0 {
        next, first := [], [];
        return true;
      }
      var bucketCount := PowerBucketCount(size);
      if bucketCount > NIL {
        return false;
      }
      BuildHashIndex(bucketCount);
      ok := true;
    }

    /** Rebuilds every chain over `bucketCount` buckets. */
    method BuildHashIndex(bucketCount: nat)
      requires |values| == |keys| <= bucketCount <= NIL && Unique(keys) && PowerOfTwo(bucketCount)
      modifies this`next, this`first
      ensures Valid() && |first| == bucketCount
    {
      hide Bucket, FastModulo, Latest;
      first := seq(bucketCount, _ => NIL);
      next := [];
      forall b | 0 <= b < bucketCount ensures first[b] == Latest(keys, bucketCount, 0, b) {
        LatestStep(keys, bucketCount, 0, b);
      }
      for i := 0 to |keys|
        invariant |next| == i && |first| == bucketCount
        invariant forall b :: 0 <= b < bucketCount ==> first[b] == Latest(keys, bucketCount, i, b)
        invariant forall j :: 0 <= j < i ==> next[j] == Latest(keys, bucketCount, j, Bucket(keys[j], bucketCount))
      {
        var bucket := Bucket(keys[i], bucketCount);
        next := next + [first[bucket]];
        first := first[bucket := i];
        forall b | 0 <= b < bucketCount ensures first[b] == Latest(keys, bucketCount, i + 1, b) {
          LatestStep(keys, bucketCount, i + 1, b);
        }
      }
    }

    /**
      Calls `visit` once per entry, in order.  It may rewrite the value through the
      pointer it is given and says whether the entry goes; survivors move down in place.
     */
    method Prune(visit: (Key, V) -> (bool, V))
      requires Valid()
      modifies this
      ensures Valid()
      ensures Contents() == Pruned(old(Contents()), visit)
    {
      hide Bucket, FastModulo, Latest, Kept, Unique, ToMap, Pruned, PowerOfTwo, PowerBucketCount, Compacted;
      ghost var ks, vs := keys, values;
      NoneCompacted(ks, vs, visit);
      var v := 0;
      for i := 0 to |keys|
        invariant |keys| == |values| == |ks| && v <= i
        invariant Compacted(ks, vs, visit, i, keys, values, v)
        invariant next == old(next) && first == old(first)
      {
        CompactStep(ks, vs, visit, i, keys, values, v);
        var key := keys[i];
        var (remove, value) := visit(key, values[i]);
        values := values[i := value];
        if !remove {
          if v != i {
            keys := keys[v := key];
            values := values[v := value];
          }
          v := v + 1;
        }
      }
      CompactEnd(ks, vs, visit, keys, values, v);
      if v < |keys| {
        Truncate(v);
      }
    }

    /** Forgets the entries behind the first `v` and shrinks the table, which always has room. */
    method Truncate(v: nat)
      requires v < |keys| == |values| <= |first| <= NIL && PowerOfTwo(|first|) && Unique(keys[..v])
      modifies this
      ensures Valid() && keys == old(keys[..v]) && values == old(values[..v])
    {
      hide Bucket, Latest, Unique;
      keys, values := keys[..v], values[..v];
      if v > 0 {
        PowerGap(PowerBucketCount(v), |first|);
      }
      var _ := Reallocate(|keys|);
    }
  }

  lemma ToMapIs<V>(ks: seq<Key>, vs: seq<V>, m: map<Key, V>)
    requires |ks| == |vs| && Unique(ks)
    requires forall i :: 0 <= i < |ks| ==> ks[i] in m && m[ks[i]] == vs[i]
    requires forall k :: k in m ==> k in ks
    ensures ToMap(ks, vs) == m
  {
    forall k | k in ks ensures k in m && ToMap(ks, vs)[k] == m[k] {
      var i :| 0 <= i < |ks| && ks[i] == k;
    }
  }

  lemma ToMapUpdate<V>(ks: seq<Key>, vs: seq<V>, i: nat, v: V)
    requires |ks| == |vs| && Unique(ks) && i < |ks|
    ensures ToMap(ks, vs[i := v]) == ToMap(ks, vs)[ks[i] := v]
  {
    hide ToMap;
    ToMapIs(ks, vs[i := v], ToMap(ks, vs)[ks[i] := v]);
  }

  /** What pruning leaves of a map. */
  function Pruned<V>(m: map<Key, V>, visit: (Key, V) -> (bool, V)): map<Key, V> {
    map k | k in m && !visit(k, m[k]).0 :: visit(k, m[k]).1
  }

  /** The survivors among the first `i` entries, in order. */
  ghost function Kept<V>(ks: seq<Key>, vs: seq<V>, visit: (Key, V) -> (bool, V), i: nat): (r: (seq<Key>, seq<V>))
    requires i <= |ks| == |vs|
    ensures |r.0| == |r.1| <= i
  {
    if i == 0 then ([], [])
    else
      var rest := Kept(ks, vs, visit, i - 1);
      var (remove, value) := visit(ks[i - 1], vs[i - 1]);
      if remove then rest else (rest.0 + [ks[i - 1]], rest.1 + [value])
  }

  lemma KeptStep<V>(ks: seq<Key>, vs: seq<V>, visit: (Key, V) -> (bool, V), i: nat)
    requires i <= |ks| == |vs|
    ensures i == 0 ==> Kept(ks, vs, visit, i) == ([], [])
    ensures i > 0 ==>
      var rest := Kept(ks, vs, visit, i - 1);
      var (remove, value) := visit(ks[i - 1], vs[i - 1]);
      Kept(ks, vs, visit, i) == if remove then rest else (rest.0 + [ks[i - 1]], rest.1 + [value])
  {}

  /** The first `i` entries have been visited and the `v` that stay moved to the front. */
  ghost predicate Compacted<V>(ks: seq<Key>, vs: seq<V>, visit: (Key, V) -> (bool, V), i: nat, keys: seq<Key>,
                               values: seq<V>, v: nat)
  {
    && v <= i <= |ks| == |vs| == |keys| == |values|
    && keys[i..] == ks[i..] && values[i..] == vs[i..]
    && Kept(ks, vs, visit, i) == (keys[..v], values[..v])
    && (v == i ==> keys == ks)
  }

  lemma NoneCompacted<V>(ks: seq<Key>, vs: seq<V>, visit: (Key, V) -> (bool, V))
    requires |ks| == |vs|
    ensures Compacted(ks, vs, visit, 0, ks, vs, 0)
  {}

  lemma CompactStep<V>(ks: seq<Key>, vs: seq<V>, visit: (Key, V) -> (bool, V), i: nat, keys: seq<Key>,
                       values: seq<V>, v: nat)
    requires Compacted(ks, vs, visit, i, keys, values, v) && i < |ks| == |keys| == |values| && v <= i
    ensures var (remove, value) := visit(keys[i], values[i]);
            if remove then Compacted(ks, vs, visit, i + 1, keys, values[i := value], v)
            else if v == i then Compacted(ks, vs, visit, i + 1, keys, values[i := value], v + 1)
            else Compacted(ks, vs, visit, i + 1, keys[v := keys[i]], values[i := value][v := value], v + 1)
  {
    hide Kept;
    assert keys[i] == keys[i..][0] == ks[i] && values[i] == values[i..][0] == vs[i];
    KeptStep(ks, vs, visit, i + 1);
    var (remove, value) := visit(keys[i], values[i]);
    var now := if remove || v == i then values[i := value] else values[i := value][v := value];
    var nowKeys := if remove || v == i then keys else keys[v := keys[i]];
    assert now[i + 1..] == values[i..][1..] && nowKeys[i + 1..] == keys[i..][1..];
    assert now[..v] == values[..v] && nowKeys[..v] == keys[..v];
    if !remove {
      assert now[..v + 1] == values[..v] + [value] && nowKeys[..v + 1] == keys[..v] + [keys[i]];
    }
  }

  lemma CompactEnd<V>(ks: seq<Key>, vs: seq<V>, visit: (Key, V) -> (bool, V), keys: seq<Key>, values: seq<V>, v: nat)
    requires |ks| == |keys| == |values| && v <= |keys| && Unique(ks)
    requires Compacted(ks, vs, visit, |ks|, keys, values, v)
    ensures Unique(keys[..v]) && ToMap(keys[..v], values[..v]) == Pruned(ToMap(ks, vs), visit)
    ensures v == |keys| ==> keys[..v] == keys == ks && values[..v] == values
  {
    hide Unique, ToMap, Pruned, Kept;
    KeptMeaning(ks, vs, visit);
  }

  lemma {:induction false} KeptUnique<V>(ks: seq<Key>, vs: seq<V>, visit: (Key, V) -> (bool, V), i: nat)
    requires i <= |ks| == |vs| && Unique(ks)
    ensures Unique(Kept(ks, vs, visit, i).0)
    ensures forall j :: i <= j < |ks| ==> ks[j] !in Kept(ks, vs, visit, i).0
  {
    if i > 0 {
      KeptUnique(ks, vs, visit, i - 1);
    }
  }

  lemma {:induction false} KeptIsPruned<V>(ks: seq<Key>, vs: seq<V>, visit: (Key, V) -> (bool, V), i: nat)
    requires i <= |ks| == |vs| && Unique(ks) && Unique(ks[..i])
    requires forall j :: 0 <= j <= i ==> Unique(Kept(ks, vs, visit, j).0)
    ensures ToMap(Kept(ks, vs, visit, i).0, Kept(ks, vs, visit, i).1) == Pruned(ToMap(ks[..i], vs[..i]), visit)
  {
    hide Unique, ToMap, Pruned, Kept;
    KeptStep(ks, vs, visit, i);
    if i > 0 {
      UniquePrefix(ks, i - 1);
      KeptUnique(ks, vs, visit, i - 1);
      KeptIsPruned(ks, vs, visit, i - 1);
      var key := ks[i - 1];
      assert ks[..i] == ks[..i - 1] + [key] && vs[..i] == vs[..i - 1] + [vs[i - 1]];
      ToMapAppend(ks[..i - 1], vs[..i - 1], key, vs[i - 1]);
      var rest := Kept(ks, vs, visit, i - 1);
      var (remove, value) := visit(key, vs[i - 1]);
      if !remove {
        ToMapAppend(rest.0, rest.1, key, value);
      }
      PrunedPut(ToMap(ks[..i - 1], vs[..i - 1]), visit, key, vs[i - 1]);
    } else {
      PrunedEmpty(visit);
    }
  }

  lemma KeptMeaning<V>(ks: seq<Key>, vs: seq<V>, visit: (Key, V) -> (bool, V))
    requires |ks| == |vs| && Unique(ks)
    ensures var r := Kept(ks, vs, visit, |ks|); Unique(r.0) && ToMap(r.0, r.1) == Pruned(ToMap(ks, vs), visit)
  {
    assert ks[..|ks|] == ks && vs[..|vs|] == vs;
    forall j | 0 <= j <= |ks| ensures Unique(Kept(ks, vs, visit, j).0) {
      KeptUnique(ks, vs, visit, j);
    }
    KeptIsPruned(ks, vs, visit, |ks|);
  }

  lemma PrunedEmpty<V>(visit: (Key, V) -> (bool, V))
    ensures Unique<Key>([]) && ToMap<V>([], []) == map[] == Pruned(ToMap<V>([], []), visit)
  {}

  lemma PrunedPut<V>(m: map<Key, V>, visit: (Key, V) -> (bool, V), key: Key, value: V)
    requires key !in m
    ensures Pruned(m[key := value], visit)
            == if visit(key, value).0 then Pruned(m, visit) else Pruned(m, visit)[key := visit(key, value).1]
  {}

  lemma ToMapAppend<V>(ks: seq<Key>, vs: seq<V>, key: Key, value: V)
    requires |ks| == |vs| && Unique(ks) && key !in ks
    ensures Unique(ks + [key])
    ensures ToMap(ks + [key], vs + [value]) == ToMap(ks, vs)[key := value]
  {
    hide Unique, ToMap;
    UniqueAppend(ks, key);
    ToMapIs(ks + [key], vs + [value], ToMap(ks, vs)[key := value]);
  }
}
