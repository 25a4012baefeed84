/**
  A dense tensor spread over n servers refines one pair of byte arrays
  (cpp/metaspore/dense_tensor.cpp, dense_tensor_partition.cpp, smart_array.h).
 */
module DenseTensors {
  import opened Arith
  import opened DensePartitions
  import opened NodeEncoding
  import opened Responses
  import opened Rows
  import opened Wrappers

  /** The data and the updater state of a tensor, or of one partition of it. */
  datatype Block = Block(data: seq<byte>, state: seq<byte>)

  /** Initializer and updater work on whole buffers: the data; data, gradient and state. */
  datatype DenseMeta = DenseMeta(
    name: string,
    hash: nat,
    itemSize: nat,
    dataShape: seq<nat>,
    stateShape: seq<nat>,
    partitionCount: nat,
    initializer: Option<seq<byte> -> seq<byte>>,
    updater: Option<(Block, seq<byte>) -> Block>)
  {
    predicate Checks(index: nat) {
      && name != []
      && index < partitionCount
      && dataShape != []
      && dataShape[0] != 0
      && (stateShape != [] ==> stateShape[0] == dataShape[0])
    }

    function Shape(isState: bool): seq<nat> {
      if isState then stateShape else dataShape
    }

    function RowCount(): nat
      requires dataShape != []
    {
      dataShape[0]
    }

    /** Bytes of one row. */
    function RowBytes(isState: bool): nat {
      MulSigns(itemSize, RowItems(Shape(isState)));
      Mul(itemSize, RowItems(Shape(isState)))
    }

    /** Bytes of the whole tensor. */
    function Bytes(isState: bool): nat {
      MulSigns(itemSize, Items(Shape(isState)));
      Mul(itemSize, Items(Shape(isState)))
    }

    /** Every byte count fits the address space. */
    predicate FitsMemory() {
      && partitionCount < 0x8000_0000 && hash < WORD
      && 0 < itemSize && Bytes(false) < WORD && Bytes(true) < WORD
      && (dataShape != [] ==> dataShape[0] + partitionCount <= WORD)
    }

    /** A checked tensor that fits the address space. */
    predicate Sized() {
      FitsMemory() && Checks(0)
    }

    /** One whose hash, besides, tiles the rows. */
    predicate Sound() {
      Sized() && Tiles(RowCount(), partitionCount, hash)
    }

    /** Or, at least, whose hash gives the last row to some partition. */
    predicate HasEnd(isState: bool)
      requires Sized()
    {
      Bytes(isState) == 0 || ReachesEnd(RowCount(), partitionCount, hash)
    }

    function RangeOf(p: nat): (r: (nat, nat))
      requires dataShape != [] && partitionCount > 0
    {
      PartitionRange(RowCount(), partitionCount, hash, p)
    }

    /** The rows of a partition: `end - begin` in `size_t`. */
    function RowsOf(p: nat): nat
      requires dataShape != [] && partitionCount > 0
    {
      Wrap(RangeOf(p).1 + WORD - RangeOf(p).0)
    }

    /** The shape of a partition's block; a tensor without state has none there either. */
    function ShapeOf(p: nat, isState: bool): seq<nat>
      requires dataShape != [] && partitionCount > 0
    {
      if Shape(isState) == [] then [] else Shape(isState)[0 := RowsOf(p)]
    }

    /** The size in bytes that `size_t` gives a block of that shape. */
    function BlockLength(shape: seq<nat>): nat {
      MulSigns(itemSize, Items(shape));
      Wrap(Mul(itemSize, Items(shape)))
    }
  }

  // ---- Byte ranges of the partitions ----

  ghost function ByteRange(meta: DenseMeta, isState: bool, p: nat): (nat, nat)
    requires meta.Sized()
  {
    (Offset(meta.RangeOf(p).0, meta.RowBytes(isState)), Offset(meta.RangeOf(p).1, meta.RowBytes(isState)))
  }

  /** The bytes of `whole` that belong to partition `p`. */
  ghost function Part(meta: DenseMeta, isState: bool, whole: seq<byte>, p: nat): seq<byte>
    requires meta.Sized()
  {
    var (b, e) := ByteRange(meta, isState, p);
    if b <= e <= |whole| then whole[b..e] else []
  }

  lemma MulSwap(size: nat, rows: nat, rowItems: nat)
    ensures Mul(size, rows * rowItems) == Offset(rows, Mul(size, rowItems))
    ensures size > 0 ==> rowItems <= Mul(size, rowItems)
  {
    assert size * (rows * rowItems) == rows * (size * rowItems);
    assert size > 0 ==> size * rowItems == rowItems + (size - 1) * rowItems;
  }

  lemma BytesAreRows(meta: DenseMeta, isState: bool)
    requires meta.Sized()
    ensures meta.Bytes(isState) == Offset(meta.RowCount(), meta.RowBytes(isState))
  {
    hide Mul, Offset, Items, RowItems;
    var shape := meta.Shape(isState);
    if shape != [] {
      ItemsAreRows(shape, meta.RowCount());
      MulSwap(meta.itemSize, meta.RowCount(), RowItems(shape));
    } else {
      NoBytes(meta.RowCount(), meta.itemSize);
    }
  }

  lemma NoBytes(rows: nat, size: nat)
    ensures Items([]) == RowItems([]) == 0 && Mul(size, 0) == 0 == Offset(rows, 0)
  {}

  lemma OffsetGrows(i: nat, j: nat, d: nat)
    requires i <= j
    ensures Offset(0, d) == 0 && Offset(i, d) <= Offset(j, d)
    ensures Offset(j, d) - Offset(i, d) == Offset(j - i, d)
  {
    assert j * d == i * d + (j - i) * d;
    assert (j - i) * d >= 0;
  }

  lemma ByteRangeFits(meta: DenseMeta, isState: bool, p: nat)
    requires meta.Sized()
    ensures var (b, e) := ByteRange(meta, isState, p);
            var (row, end) := meta.RangeOf(p);
            b <= e <= meta.Bytes(isState) < WORD && row <= end <= meta.RowCount()
            && e - b == Offset(end - row, meta.RowBytes(isState))
  {
    hide Offset, PartitionRange, DenseMeta.RowBytes, DenseMeta.Bytes;
    BytesAreRows(meta, isState);
    RangesBalanced(meta.RowCount(), meta.partitionCount, meta.hash, p, p);
    var (row, end) := meta.RangeOf(p);
    OffsetGrows(row, end, meta.RowBytes(isState));
    OffsetGrows(end, meta.RowCount(), meta.RowBytes(isState));
  }

  /** The byte range of row range `i`. */
  lemma {:induction false} ByteRangeOf(m: nat, n: nat, d: nat, x: nat, j: nat) returns (i: nat)
    requires 0 < n && j <= n && x < Offset(Start(m, n, j), d)
    ensures i < j && Offset(Start(m, n, i), d) <= x < Offset(Start(m, n, i + 1), d)
  {
    hide Offset, Start;
    StartSteps(m, n, 0);
    OffsetGrows(0, 0, d);
    if Offset(Start(m, n, j - 1), d) <= x {
      i := j - 1;
    } else {
      i := ByteRangeOf(m, n, d, x, j - 1);
    }
  }

  /** A byte range that is not empty has a row. */
  lemma BytesHaveRow(m: nat, n: nat, d: nat, i: nat)
    requires i < n && Offset(Start(m, n, i), d) < Offset(Start(m, n, i + 1), d)
    ensures HasRow(m, n, i) && i < m
  {
    hide Offset, Start;
    FirstHaveRows(m, n, i);
    if !HasRow(m, n, i) {
      OffsetGrows(Start(m, n, i + 1), Start(m, n, i), d);
    }
  }

  /** Every byte belongs to a partition ... */
  lemma PartsCover(meta: DenseMeta, isState: bool, x: nat) returns (p: nat)
    requires meta.Sound() && x < meta.Bytes(isState)
    ensures p < meta.partitionCount && ByteRange(meta, isState, p).0 <= x < ByteRange(meta, isState, p).1
  {
    hide Offset, RangeIndex, RangeAt, Start, Tiles, DenseMeta.RowBytes, DenseMeta.Bytes;
    var m, n, d := meta.RowCount(), meta.partitionCount, meta.RowBytes(isState);
    BytesAreRows(meta, isState);
    StartSteps(m, n, 0);
    var i := ByteRangeOf(m, n, d, x, n);
    BytesHaveRow(m, n, d, i);
    TilingHashTakes(m, n, meta.hash, i);
    p :| OnlyTaker(meta.hash, n, i, p);
    RangeIs(m, n, i);
  }

  /** ... and no two partitions overlap. */
  lemma PartsApart(meta: DenseMeta, isState: bool, p: nat, q: nat)
    requires meta.Sound() && p < meta.partitionCount && q < meta.partitionCount && p != q
    ensures || ByteRange(meta, isState, p).1 <= ByteRange(meta, isState, q).0
            || ByteRange(meta, isState, q).1 <= ByteRange(meta, isState, p).0
  {
    hide Offset, RangeIndex, RangeAt, Start, Tiles, DenseMeta.RowBytes, DenseMeta.Bytes;
    var m, n, d := meta.RowCount(), meta.partitionCount, meta.RowBytes(isState);
    var i, j := RangeIndex(meta.hash, n, p), RangeIndex(meta.hash, n, q);
    RangeIs(m, n, i);
    RangeIs(m, n, j);
    if i < j {
      StartGrows(m, n, i + 1, j);
      OffsetGrows(Start(m, n, i + 1), Start(m, n, j), d);
    } else if j < i {
      StartGrows(m, n, j + 1, i);
      OffsetGrows(Start(m, n, j + 1), Start(m, n, i), d);
    } else if Offset(Start(m, n, i), d) < Offset(Start(m, n, i + 1), d) {
      BytesHaveRow(m, n, d, i);
      TilingHashTakes(m, n, meta.hash, i);
    }
  }

  /** Buffers that agree on every partition are equal. */
  lemma PartsDetermine(meta: DenseMeta, isState: bool, a: seq<byte>, b: seq<byte>)
    requires meta.Sound() && |a| == |b| == meta.Bytes(isState)
    requires forall p :: 0 <= p < meta.partitionCount ==> Part(meta, isState, a, p) == Part(meta, isState, b, p)
    ensures a == b
  {
    hide ByteRange, DenseMeta.Bytes;
    forall x | 0 <= x < |a| ensures a[x] == b[x] {
      var p := PartsCover(meta, isState, x);
      ByteRangeFits(meta, isState, p);
      var (lo, _) := ByteRange(meta, isState, p);
      assert Part(meta, isState, a, p)[x - lo] == Part(meta, isState, b, p)[x - lo];
    }
  }

  // ---- One server ----

  /** `SmartArray::Slice`: None when the bounds are no range of the array. */
  function SliceOf(a: seq<byte>, begin: nat, end: nat): Option<seq<byte>> {
    if begin > end || end > |a| then None else Some(a[begin..end])
  }

  /** `SmartArray::CopyFrom`: fails, changing nothing, when the lengths differ. */
  method CopyFrom(a: array<byte>, other: seq<byte>) returns (ok: bool)
    modifies a
    ensures ok <==> a.Length == |other|
    ensures a[..] == if ok then other else old(a[..])
  {
    if a.Length != |other| {
      return false;
    }
    forall i | 0 <= i < a.Length {
      a[i] := other[i];
    }
    ok := true;
  }

  /** What a push does to one block, or to the whole tensor; None when `CopyFrom` throws. */
  function Pushed(meta: DenseMeta, b: Block, input: seq<byte>, isValue: bool, isState: bool): Option<Block> {
    if isState then
      if |b.state| == |input| then Some(b.(state := input)) else None
    else if meta.updater.None? || isValue then
      if |b.data| == |input| then Some(b.(data := input)) else None
    else Some(meta.updater.value(b, input))
  }

  /** The block sizes of partition `p`. */
  ghost predicate Fits(meta: DenseMeta, b: Block, p: nat)
    requires meta.Sized()
  {
    && |b.data| == ByteRange(meta, false, p).1 - ByteRange(meta, false, p).0
    && |b.state| == ByteRange(meta, true, p).1 - ByteRange(meta, true, p).0
  }

  /** Callbacks keep the lengths of the buffers they are given. */
  ghost predicate KeepsLengths(meta: DenseMeta) {
    && (meta.initializer.Some? ==> forall data :: |meta.initializer.value(data)| == |data|)
    && (meta.updater.Some? ==> forall b, grad ::
          |meta.updater.value(b, grad).data| == |b.data| && |meta.updater.value(b, grad).state| == |b.state|)
  }

  function ZeroBytes(n: nat): (z: seq<byte>)
    ensures |z| == n && forall i :: 0 <= i < n ==> z[i] == 0
  {
    seq(n, _ => 0)
  }

  /** Size in bytes of one block, from the shape the partition keeps. */
  lemma BlockBytes(meta: DenseMeta, isState: bool, p: nat)
    requires meta.Sized() && meta.Shape(isState) != []
    ensures var (row, end) := meta.RangeOf(p);
            row <= end &&
            var items := Items(meta.Shape(isState)[0 := end - row]);
            && meta.RowsOf(p) == end - row && items < WORD
            && Mul(meta.itemSize, items) == ByteRange(meta, isState, p).1 - ByteRange(meta, isState, p).0
  {
    hide Mul, Items, RowItems, DenseMeta.RangeOf, Offset, Wrap;
    var shape := meta.Shape(isState);
    ByteRangeFits(meta, isState, p);
    var (row, end) := meta.RangeOf(p);
    WrapIs(end - row + WORD);
    ItemsAreRows(shape, end - row);
    MulSwap(meta.itemSize, end - row, RowItems(shape));
    MulSwap(meta.itemSize, 1, Items(shape[0 := end - row]));
  }

  class DenseTensorPartition {
    const meta: DenseMeta
    const index: nat
    var partitionDataShape: seq<nat>
    var partitionStateShape: seq<nat>
    var data: array<byte>
    var state: array<byte>

    ghost predicate Valid()
      reads this, data, state
    {
      meta.Sized() && KeepsLengths(meta) && data != state && Fits(meta, Contents(), index)
    }

    ghost function Contents(): Block
      reads this, data, state
    {
      Block(data[..], state[..])
    }

    constructor (meta: DenseMeta, index: nat)
      ensures this.meta == meta && this.index == index && fresh(data) && fresh(state) && data != state
      ensures Contents() == Block([], [])
    {
      this.meta, this.index, partitionDataShape, partitionStateShape := meta, index, [], [];
      data := new byte[0];
      state := new byte[0];
    }

    /**
      Blocks of the partition's sizes: zeros, the data passed through the initializer when
      there is one.  Throws, with nothing changed, when the meta does not check.
     */
    method AllocateDataBlock(init: bool) returns (ok: bool)
      requires KeepsLengths(meta) && data != state && (meta.stateShape == [] ==> state.Length == 0)
      modifies this
      ensures ok <==> meta.Checks(index)
      ensures ok <==> meta.name != [] && index < meta.partitionCount && meta.dataShape != [] && meta.dataShape[0] != 0
                      && (meta.stateShape != [] ==> meta.stateShape[0] == meta.dataShape[0])
      ensures !ok ==> Contents() == old(Contents())
      ensures ok ==> fresh(data) && (meta.FitsMemory() ==> Valid())
      ensures ok ==>
                && partitionDataShape == meta.ShapeOf(index, false) && partitionStateShape == meta.ShapeOf(index, true)
                && data.Length == meta.BlockLength(partitionDataShape)
                && state.Length == meta.BlockLength(partitionStateShape)
      ensures ok ==>
                var zeros := ZeroBytes(data.Length);
                data[..] == if init && meta.initializer.Some? then meta.initializer.value(zeros) else zeros
      ensures ok ==> state[..] == ZeroBytes(state.Length)
      ensures ok && !(init && meta.initializer.Some?) ==> forall i :: 0 <= i < data.Length ==> data[i] == 0
      ensures ok ==> forall i :: 0 <= i < state.Length ==> state[i] == 0
    {
      hide Items, RowItems, ByteRange, DenseMeta.RangeOf, DenseMeta.RowsOf, DenseMeta.Bytes, DenseMeta.BlockLength;
      hide ZeroBytes;
      if !meta.Checks(index) {
        return false;
      }
      var rows := meta.RowsOf(index);
      partitionDataShape := meta.dataShape[0 := rows];
      partitionStateShape := meta.stateShape;
      if meta.stateShape != [] {
        partitionStateShape := meta.stateShape[0 := rows];
      }
      data := NewBlock(meta, partitionDataShape);
      if init && meta.initializer.Some? {
        var _ := CopyFrom(data, meta.initializer.value(data[..]));
      }
      NoItems(meta);
      if |partitionStateShape| != 0 {
        state := NewBlock(meta, partitionStateShape);
      }
      if meta.FitsMemory() {
        BlockFits(meta, false, index);
        BlockFits(meta, true, index);
      }
      ok := true;
    }

    method HandlePush(input: seq<byte>, isValue: bool, isState: bool) returns (ok: bool)
      requires Valid()
      modifies data, state
      ensures Valid()
      ensures ok <==> Pushed(meta, old(Contents()), input, isValue, isState).Some?
      ensures Contents() == if ok then Pushed(meta, old(Contents()), input, isValue, isState).value else old(Contents())
      ensures isState ==>
                (ok <==> |input| == state.Length) && (ok ==> state[..] == input && data[..] == old(data[..]))
      ensures !isState && (meta.updater.None? || isValue) ==>
                (ok <==> |input| == data.Length) && (ok ==> data[..] == input && state[..] == old(state[..]))
      ensures !isState && meta.updater.Some? && !isValue ==>
                ok && Contents() == meta.updater.value(old(Contents()), input)
    {
      hide ByteRange, DenseMeta.Sized;
      if isState {
        ok := CopyFrom(state, input);
      } else if meta.updater.None? || isValue {
        ok := CopyFrom(data, input);
      } else {
        var now := meta.updater.value(Block(data[..], state[..]), input);
        var _ := CopyFrom(data, now.data);
        var _ := CopyFrom(state, now.state);
        ok := true;
      }
    }

    method HandlePull(isState: bool) returns (out: seq<byte>)
      ensures out == if isState then Contents().state else Contents().data
    {
      out := if isState then state[..] else data[..];
    }
  }

  /** A zeroed buffer for the shape a partition keeps. */
  method NewBlock(meta: DenseMeta, shape: seq<nat>) returns (block: array<byte>)
    ensures fresh(block) && block.Length == meta.BlockLength(shape) && block[..] == ZeroBytes(block.Length)
  {
    hide Items, Wrap;
    var items := TotalElements(shape);
    WrappedBytes(meta.itemSize, items, Items(shape));
    block := new byte[Wrap(Mul(meta.itemSize, items))](_ => 0);
  }

  /** A product of an item count that has wrapped around already. */
  lemma WrappedBytes(size: nat, n: nat, items: nat)
    requires n == items % WORD
    ensures 0 <= Mul(size, n) && 0 <= Mul(size, items) && Wrap(Mul(size, n)) == Wrap(Mul(size, items))
  {
    hide Mul;
    MulSigns(size, n);
    MulSigns(size, items);
    MulSigns(items, size);
    MulOf(n, size);
    MulOf(items, size);
    MulMod(items, size);
  }

  lemma MulOf(a: nat, b: nat)
    ensures Mul(a, b) == a * b
  {}

  lemma NoItems(meta: DenseMeta)
    ensures meta.BlockLength([]) == 0
  {}

  /** For a tensor that fits the address space the blocks have the sizes of the partition's byte ranges. */
  lemma BlockFits(meta: DenseMeta, isState: bool, p: nat)
    requires meta.Sized()
    ensures meta.BlockLength(meta.ShapeOf(p, isState)) == ByteRange(meta, isState, p).1 - ByteRange(meta, isState, p).0
  {
    hide ByteRange, Items, Mul, Wrap, DenseMeta.Bytes, DenseMeta.RangeOf, DenseMeta.RowsOf;
    if meta.Shape(isState) == [] {
      NoItems(meta);
      NoState(meta, p);
    } else {
      BlockBytes(meta, isState, p);
      ByteRangeFits(meta, isState, p);
      WrapIs(Mul(meta.itemSize, Items(meta.ShapeOf(p, isState))));
    }
  }

  lemma NoState(meta: DenseMeta, p: nat)
    requires meta.Sized() && meta.stateShape == []
    ensures ByteRange(meta, true, p) == (0, 0)
  {}

  // ---- The client ----

  /** Nothing overflows in the client's byte counts. */
  lemma RowsFitWord(meta: DenseMeta, isState: bool)
    requires meta.Sized()
    ensures RowItems(meta.Shape(isState)) < WORD && meta.RowBytes(isState) < WORD
    ensures Items(meta.Shape(isState)) < WORD
  {
    hide Mul, Offset, Items, RowItems;
    var shape := meta.Shape(isState);
    BytesAreRows(meta, isState);
    OffsetGrows(1, meta.RowCount(), meta.RowBytes(isState));
    OneRow(meta.RowBytes(isState));
    MulSwap(meta.itemSize, 1, RowItems(shape));
    MulSwap(meta.itemSize, 1, Items(shape));
  }

  lemma OneRow(d: nat)
    ensures Offset(1, d) == d
  {}

  lemma HasShape(meta: DenseMeta)
    requires meta.Sized()
    ensures meta.dataShape != [] && meta.partitionCount > 0
  {}

  /** The client's wrapping arithmetic gives the byte range modulo 2^64, and without loss when the tensor fits. */
  method ByteBounds(meta: DenseMeta, isState: bool, p: nat) returns (begin: nat, end: nat)
    requires meta.dataShape != [] && meta.partitionCount > 0
    ensures begin == Wrap(Offset(meta.RangeOf(p).0, meta.RowBytes(isState)))
    ensures end == Wrap(Offset(meta.RangeOf(p).1, meta.RowBytes(isState)))
    ensures meta.Sized() ==> (begin, end) == ByteRange(meta, isState, p)
  {
    hide Mul, Offset, RowItems, PartitionRange, DenseMeta.Bytes, Wrap;
    var sliceItems := SliceElements(meta.Shape(isState));
    WrappedBytes(meta.itemSize, sliceItems, RowItems(meta.Shape(isState)));
    var sliceLength := Wrap(Mul(meta.itemSize, sliceItems));
    var (row, rowEnd) := PartitionRange(meta.RowCount(), meta.partitionCount, meta.hash, p);
    WrappedOffset(row, meta.RowBytes(isState));
    WrappedOffset(rowEnd, meta.RowBytes(isState));
    begin, end := Wrap(Offset(row, sliceLength)), Wrap(Offset(rowEnd, sliceLength));
    if meta.Sized() {
      ByteRangeFits(meta, isState, p);
      WrapIs(begin);
      WrapIs(Offset(row, meta.RowBytes(isState)));
      WrapIs(Offset(rowEnd, meta.RowBytes(isState)));
    }
  }

  lemma WrappedOffset(i: nat, d: nat)
    ensures Wrap(Offset(i, Wrap(d))) == Wrap(Offset(i, d))
  {
    MulMod(d, i);
  }

  /** Every partition's range lies inside the input. */
  ghost predicate InputFits(meta: DenseMeta, input: seq<byte>, isState: bool)
    requires meta.Sized()
  {
    forall p :: 0 <= p < meta.partitionCount ==> ByteRange(meta, isState, p).1 <= |input|
  }

  /**
    The slice sent to each server, or a failure before anything is sent when a slice does
    not lie inside the input; when the rows are tiled, that is when the input is too short.
   */
  method PushSlices(meta: DenseMeta, input: seq<byte>, isState: bool) returns (ok: bool, slices: seq<seq<byte>>)
    requires meta.Sized()
    ensures ok <==> InputFits(meta, input, isState)
    ensures meta.Sound() ==> (ok <==> |input| >= meta.Bytes(isState))
    ensures ok ==> |slices| == meta.partitionCount
    ensures ok ==> forall p :: 0 <= p < |slices| ==> slices[p] == Part(meta, isState, input, p)
  {
    hide ByteRange, DenseMeta.Bytes, DenseMeta.RangeOf, DenseMeta.RowBytes, Offset, Tiles;
    slices := [];
    if meta.Sound() {
      InputCovers(meta, input, isState);
    }
    for k := 0 to meta.partitionCount
      invariant |slices| == k
      invariant forall p :: 0 <= p < k ==> ByteRange(meta, isState, p).1 <= |input|
      invariant forall p :: 0 <= p < k ==> slices[p] == Part(meta, isState, input, p)
    {
      var begin, end := ByteBounds(meta, isState, k);
      ByteRangeFits(meta, isState, k);
      var slice := SliceOf(input, begin, end);
      if slice.None? {
        return false, [];
      }
      slices := slices + [slice.value];
    }
    ok := true;
  }

  /** When the hash reaches the end, what the client sends is exactly what is long enough for the tensor. */
  lemma EndCovers(meta: DenseMeta, input: seq<byte>, isState: bool)
    requires meta.Sized() && meta.HasEnd(isState)
    ensures |input| >= meta.Bytes(isState) <==> InputFits(meta, input, isState)
  {
    hide DenseMeta.Bytes, DenseMeta.RowBytes, PartitionRange, Offset, ReachesEnd;
    EndTakenIff(meta.RowCount(), meta.partitionCount, meta.hash);
    BytesAreRows(meta, isState);
    forall p | 0 <= p < meta.partitionCount ensures ByteRange(meta, isState, p).1 <= meta.Bytes(isState) {
      ByteRangeFits(meta, isState, p);
    }
    if meta.Bytes(isState) > 0 && InputFits(meta, input, isState) {
      var m, n := meta.RowCount(), meta.partitionCount;
      var k :| 0 <= k < n && PartitionRange(m, n, meta.hash, k).1 == m;
      assert ByteRange(meta, isState, k).1 == meta.Bytes(isState);
    }
  }

  /** When it does not, every range ends before the tensor's last byte. */
  lemma EndMissed(meta: DenseMeta, isState: bool, p: nat)
    requires meta.Sized() && !meta.HasEnd(isState) && p < meta.partitionCount
    ensures ByteRange(meta, isState, p).1 < meta.Bytes(isState)
  {
    hide DenseMeta.Bytes, DenseMeta.RowBytes, PartitionRange, Offset, ReachesEnd;
    var end := meta.RangeOf(p).1;
    EndTakenIff(meta.RowCount(), meta.partitionCount, meta.hash);
    BytesAreRows(meta, isState);
    ByteRangeFits(meta, isState, p);
    OffsetGrowsBy(end, meta.RowCount(), meta.RowBytes(isState));
  }

  lemma OffsetGrowsBy(i: nat, j: nat, d: nat)
    requires i < j && Offset(j, d) > 0
    ensures Offset(i, d) < Offset(j, d)
  {
    assert d == 0 ==> j * d == 0;
    assert j * d == i * d + (j - i) * d;
    assert (j - i) * d == d + (j - i - 1) * d;
  }

  /** A tiling hash reaches the end. */
  lemma TilingHasEnd(meta: DenseMeta, isState: bool)
    requires meta.Sound()
    ensures meta.HasEnd(isState)
  {
    hide Mod, HashFits;
  }

  /** The ranges all lie inside an input exactly when it is long enough for the tensor. */
  lemma InputCovers(meta: DenseMeta, input: seq<byte>, isState: bool)
    requires meta.Sound()
    ensures |input| >= meta.Bytes(isState) <==> InputFits(meta, input, isState)
  {
    hide InputFits, DenseMeta.HasEnd, DenseMeta.Bytes, DenseMeta.Sized, Tiles;
    TilingHasEnd(meta, isState);
    EndCovers(meta, input, isState);
  }

  /** What lies behind the tensor's bytes is never sent. */
  lemma PartOfPrefix(meta: DenseMeta, isState: bool, input: seq<byte>, p: nat)
    requires meta.Sized() && |input| >= meta.Bytes(isState)
    ensures Part(meta, isState, input, p) == Part(meta, isState, input[..meta.Bytes(isState)], p)
  {
    hide ByteRange, DenseMeta.Bytes, DenseMeta.RangeOf, DenseMeta.RowBytes, DenseMeta.Sized, Offset;
    ByteRangeFits(meta, isState, p);
    var (b, e) := ByteRange(meta, isState, p);
    assert input[b..e] == input[..meta.Bytes(isState)][b..e];
  }

  ghost predicate BlockSizes(meta: DenseMeta, isState: bool, blocks: seq<seq<byte>>)
    requires meta.Sized()
  {
    forall p :: 0 <= p < |blocks| ==> |blocks[p]| == ByteRange(meta, isState, p).1 - ByteRange(meta, isState, p).0
  }

  /** Copies each answer to its place, in arrival order; every place then holds its server's block. */
  method Assemble(meta: DenseMeta, ress: seq<Response<byte>>, isState: bool, ghost blocks: seq<seq<byte>>,
                  ghost order: seq<nat>)
    returns (out: array<byte>)
    requires meta.Sound() && FromServers(ress, blocks, order) && BlockSizes(meta, isState, blocks)
    requires |ress| == |order| == |blocks| == meta.partitionCount
    ensures fresh(out) && out.Length == meta.Bytes(isState)
    ensures forall p :: 0 <= p < meta.partitionCount ==> Part(meta, isState, out[..], p) == blocks[p]
  {
    hide ByteRange, NodeIdToRank, DenseMeta.Bytes, DenseMeta.Sized, Items, Part, FromServers;
    hide Wrap, Offset, DenseMeta.RangeOf, DenseMeta.RowBytes;
    HasShape(meta);
    RowsFitWord(meta, isState);
    var totalItems := TotalElements(meta.Shape(isState));
    out := NewBuffer(meta, isState, totalItems);
    for k := 0 to meta.partitionCount
      invariant out.Length == meta.Bytes(isState)
      invariant forall j :: 0 <= j < k ==>
                  order[j] < |blocks| && Part(meta, isState, out[..], order[j]) == blocks[order[j]]
    {
      SenderRank(ress, blocks, order, k);
      var begin, end := ByteBounds(meta, isState, NodeIdToRank(ress[k].sender));
      ByteRangeFits(meta, isState, order[k]);
      ghost var before := out[..];
      CopyTo(out, begin, ress[k].out);
      forall j | 0 <= j <= k ensures order[j] < |blocks| && Part(meta, isState, out[..], order[j]) == blocks[order[j]] {
        PartAfterCopy(meta, isState, before, order[k], blocks[order[k]], order[j]);
      }
    }
    forall p | 0 <= p < meta.partitionCount ensures Part(meta, isState, out[..], p) == blocks[p] {
      var j := SomeSender(ress, blocks, order, p);
    }
  }

  method NewBuffer(meta: DenseMeta, isState: bool, totalItems: nat) returns (out: array<byte>)
    requires totalItems == Items(meta.Shape(isState))
    ensures fresh(out) && out.Length == meta.Bytes(isState)
  {
    out := new byte[Mul(meta.itemSize, totalItems)];
  }

  /** `memcpy` of `source` into `a` at `begin`. */
  method CopyTo(a: array<byte>, begin: nat, source: seq<byte>)
    requires begin + |source| <= a.Length
    modifies a
    ensures a[..] == Overwritten(old(a[..]), begin, source)
  {
    forall i | 0 <= i < |source| {
      a[begin + i] := source[i];
    }
  }

  function Overwritten(a: seq<byte>, begin: nat, source: seq<byte>): seq<byte>
    requires begin + |source| <= |a|
  {
    a[..begin] + source + a[begin + |source|..]
  }

  lemma OverwrittenParts(a: seq<byte>, begin: nat, source: seq<byte>, lo: nat, hi: nat)
    requires begin + |source| <= |a| && lo <= hi <= |a|
    ensures |Overwritten(a, begin, source)| == |a|
    ensures Overwritten(a, begin, source)[begin..begin + |source|] == source
    ensures hi <= begin || begin + |source| <= lo ==> Overwritten(a, begin, source)[lo..hi] == a[lo..hi]
  {
    var r := Overwritten(a, begin, source);
    if hi <= begin || begin + |source| <= lo {
      forall k | lo <= k < hi ensures r[k] == a[k] {
        if k >= begin + |source| {
          assert r[k] == a[begin + |source|..][k - begin - |source|];
        }
      }
      assert r[lo..hi] == a[lo..hi];
    }
  }

  /** Copying one partition's block leaves the other partitions' bytes alone. */
  lemma PartAfterCopy(meta: DenseMeta, isState: bool, a: seq<byte>, p: nat, block: seq<byte>, q: nat)
    requires meta.Sound() && |a| == meta.Bytes(isState) && p < meta.partitionCount && q < meta.partitionCount
    requires |block| == ByteRange(meta, isState, p).1 - ByteRange(meta, isState, p).0
    ensures ByteRange(meta, isState, p).0 + |block| <= |a|
    ensures Part(meta, isState, Overwritten(a, ByteRange(meta, isState, p).0, block), q)
            == if q == p then block else Part(meta, isState, a, q)
  {
    hide ByteRange, DenseMeta.Bytes, DenseMeta.Sized, Overwritten;
    ByteRangeFits(meta, isState, p);
    ByteRangeFits(meta, isState, q);
    var (b, e) := ByteRange(meta, isState, q);
    OverwrittenParts(a, ByteRange(meta, isState, p).0, block, b, e);
    if p != q {
      PartsApart(meta, isState, p, q);
    }
  }

  // ---- Refinement ----

  /** The blocks of a tensor. */
  ghost function BlockOf(meta: DenseMeta, whole: Block, p: nat): Block
    requires meta.Sized()
  {
    Block(Part(meta, false, whole.data, p), Part(meta, true, whole.state, p))
  }

  /** A push on one pair of arrays: extra input is ignored, missing input throws. */
  function PushedWhole(meta: DenseMeta, whole: Block, input: seq<byte>, isValue: bool, isState: bool): Option<Block> {
    if |input| < meta.Bytes(isState) then None else Pushed(meta, whole, input[..meta.Bytes(isState)], isValue, isState)
  }

  /** The updater treats the partitions' rows separately, keeping every length. */
  ghost predicate UpdatesByRows(meta: DenseMeta)
    requires meta.Sized() && meta.updater.Some?
  {
    forall whole, grad, p :: UpdatesPart(meta, whole, grad, p)
  }

  ghost predicate UpdatesPart(meta: DenseMeta, whole: Block, grad: seq<byte>, p: nat)
    requires meta.Sized() && meta.updater.Some?
  {
    p < meta.partitionCount && SizedWhole(meta, whole) && |grad| == |whole.data| ==>
      var now := meta.updater.value(whole, grad);
      && SizedWhole(meta, now)
      && BlockOf(meta, now, p) == meta.updater.value(BlockOf(meta, whole, p), Part(meta, false, grad, p))
  }

  predicate SizedWhole(meta: DenseMeta, whole: Block) {
    |whole.data| == meta.Bytes(false) && |whole.state| == meta.Bytes(true)
  }

  datatype Push = Push(input: seq<byte>, isValue: bool, isState: bool)

  /** One client push does to every server's block what it does to the whole, and never fails at a server. */
  lemma PushSplits(meta: DenseMeta, whole: Block, c: Push, p: nat)
    requires meta.Sized() && SizedWhole(meta, whole) && (meta.updater.Some? ==> UpdatesByRows(meta))
    requires p < meta.partitionCount
    requires |c.input| >= meta.Bytes(c.isState)
    ensures var now := PushedWhole(meta, whole, c.input, c.isValue, c.isState);
            && now.Some? && SizedWhole(meta, now.value)
            && Pushed(meta, BlockOf(meta, whole, p), Part(meta, c.isState, c.input[..meta.Bytes(c.isState)], p),
                      c.isValue, c.isState)
               == Some(BlockOf(meta, now.value, p))
  {
    hide Part, DenseMeta.Bytes, DenseMeta.Sized, UpdatesByRows, UpdatesPart;
    var input := c.input[..meta.Bytes(c.isState)];
    if c.isState || meta.updater.None? || c.isValue {
      PartLength(meta, c.isState, input, if c.isState then whole.state else whole.data, p);
    } else {
      UpdateSplits(meta, whole, input, p);
    }
  }

  lemma PartLength(meta: DenseMeta, isState: bool, a: seq<byte>, b: seq<byte>, p: nat)
    requires meta.Sized() && |a| == |b| == meta.Bytes(isState)
    ensures |Part(meta, isState, a, p)| == |Part(meta, isState, b, p)|
  {
    hide ByteRange, DenseMeta.Bytes, DenseMeta.Sized;
    var (b, e) := ByteRange(meta, isState, p);
    assert b <= e <= |a| ==> |a[b..e]| == e - b;
  }

  lemma UpdateSplits(meta: DenseMeta, whole: Block, grad: seq<byte>, p: nat)
    requires meta.Sized() && SizedWhole(meta, whole) && p < meta.partitionCount
    requires meta.updater.Some? && UpdatesByRows(meta)
    requires |grad| == |whole.data|
    ensures var now := meta.updater.value(whole, grad);
            && SizedWhole(meta, now)
            && BlockOf(meta, now, p) == meta.updater.value(BlockOf(meta, whole, p), Part(meta, false, grad, p))
  {
    hide BlockOf, Part, SizedWhole;
    assert UpdatesPart(meta, whole, grad, p);
  }

  /** The whole tensor after the first `i` pushes; a push that throws changes nothing. */
  ghost function WholeRun(meta: DenseMeta, whole: Block, cs: seq<Push>, i: nat): Block
    requires i <= |cs|
  {
    if i == 0 then whole
    else
      var before, c := WholeRun(meta, whole, cs, i - 1), cs[i - 1];
      var now := PushedWhole(meta, before, c.input, c.isValue, c.isState);
      if now.Some? then now.value else before
  }

  /** Server `p`'s block after the same pushes, each arriving as the slice the client sends it, if it sends any. */
  ghost function BlockRun(meta: DenseMeta, block: Block, cs: seq<Push>, p: nat, i: nat): Block
    requires meta.Sized() && i <= |cs|
  {
    if i == 0 then block
    else
      var before, c := BlockRun(meta, block, cs, p, i - 1), cs[i - 1];
      if !InputFits(meta, c.input, c.isState) then before
      else
        var now := Pushed(meta, before, Part(meta, c.isState, c.input, p), c.isValue, c.isState);
        if now.Some? then now.value else before
  }

  /** In every run of pushes of values, states and gradients the servers hold the parts of one tensor. */
  lemma {:induction false} BlocksRefineWhole(meta: DenseMeta, whole: Block, cs: seq<Push>, p: nat, i: nat)
    requires meta.Sized() && SizedWhole(meta, whole) && (meta.updater.Some? ==> UpdatesByRows(meta))
    requires meta.HasEnd(false) && meta.HasEnd(true)
    requires p < meta.partitionCount && i <= |cs|
    ensures SizedWhole(meta, WholeRun(meta, whole, cs, i))
    ensures BlockRun(meta, BlockOf(meta, whole, p), cs, p, i) == BlockOf(meta, WholeRun(meta, whole, cs, i), p)
  {
    hide BlockOf, Part, Pushed, DenseMeta.Bytes, DenseMeta.Sized, DenseMeta.HasEnd;
    hide UpdatesByRows, SizedWhole, InputFits;
    if i > 0 {
      BlocksRefineWhole(meta, whole, cs, p, i - 1);
      var c := cs[i - 1];
      EndCovers(meta, c.input, c.isState);
      if |c.input| >= meta.Bytes(c.isState) {
        PartOfPrefix(meta, c.isState, c.input, p);
        PushSplits(meta, WholeRun(meta, whole, cs, i - 1), c, p);
      }
    }
  }

  /** The servers hold the parts of one tensor, in all runs from all tensors. */
  ghost predicate Refines(meta: DenseMeta)
    requires meta.Sized()
  {
    forall whole, cs: seq<Push>, p: nat, i: nat :: SizedWhole(meta, whole) && p < meta.partitionCount && i <= |cs| ==>
      BlockRun(meta, BlockOf(meta, whole, p), cs, p, i) == BlockOf(meta, WholeRun(meta, whole, cs, i), p)
  }

  /** They do exactly when the hash gives the last row to some partition, or there are no bytes to miss. */
  lemma RefinesIff(meta: DenseMeta)
    requires meta.Sized() && (meta.updater.Some? ==> UpdatesByRows(meta))
    ensures Refines(meta) <==> meta.HasEnd(false) && meta.HasEnd(true)
  {
    hide BlockOf, DenseMeta.Bytes, DenseMeta.Sized, UpdatesByRows, SizedWhole, DenseMeta.HasEnd, BlockRun, WholeRun;
    if meta.HasEnd(false) && meta.HasEnd(true) {
      forall whole, cs: seq<Push>, p: nat, i: nat | SizedWhole(meta, whole) && p < meta.partitionCount && i <= |cs|
        ensures BlockRun(meta, BlockOf(meta, whole, p), cs, p, i) == BlockOf(meta, WholeRun(meta, whole, cs, i), p)
      {
        BlocksRefineWhole(meta, whole, cs, p, i);
      }
    } else {
      var whole, c, p := ShortPushSlips(meta, meta.HasEnd(false));
      assert BlockRun(meta, BlockOf(meta, whole, p), [c], p, 1) != BlockOf(meta, WholeRun(meta, whole, [c], 1), p);
    }
  }

  /** Some partition has the first byte, whatever the hash. */
  lemma FirstByteTaken(meta: DenseMeta, isState: bool) returns (p: nat)
    requires meta.Sized() && meta.Bytes(isState) > 0
    ensures p < meta.partitionCount && ByteRange(meta, isState, p).0 == 0 < ByteRange(meta, isState, p).1
  {
    hide RangeIndex, RangeAt, Start, Offset, DenseMeta.Bytes, DenseMeta.RowBytes;
    var m, n := meta.RowCount(), meta.partitionCount;
    StartTaken(meta.hash, n);
    p :| 0 <= p < n && RangeIndex(meta.hash, n, p) == 0;
    RangeIs(m, n, 0);
    StartSteps(m, n, 0);
    FirstHaveRows(m, n, 0);
    BytesAreRows(meta, isState);
    FirstRowHasBytes(Start(m, n, 1), m, meta.RowBytes(isState));
  }

  lemma FirstRowHasBytes(i: nat, m: nat, d: nat)
    requires i > 0 && Offset(m, d) > 0
    ensures Offset(0, d) == 0 < Offset(i, d)
  {
    assert d == 0 ==> m * d == 0;
    assert i * d == d + (i - 1) * d;
  }

  function Ones(n: nat): (z: seq<byte>)
    ensures |z| == n
  {
    seq(n, _ => 1)
  }

  /** When no range ends with the tensor, a push that is too short for it reaches the servers. */
  lemma ShortPushSlips(meta: DenseMeta, isState: bool) returns (whole: Block, c: Push, p: nat)
    requires meta.Sized() && !meta.HasEnd(isState)
    ensures SizedWhole(meta, whole) && p < meta.partitionCount
    ensures |c.input| < meta.Bytes(c.isState) && InputFits(meta, c.input, c.isState)
    ensures BlockRun(meta, BlockOf(meta, whole, p), [c], p, 1) != BlockOf(meta, WholeRun(meta, whole, [c], 1), p)
  {
    hide ByteRange, DenseMeta.Bytes, DenseMeta.Sized;
    whole := Block(ZeroBytes(meta.Bytes(false)), ZeroBytes(meta.Bytes(true)));
    c := Push(Ones(meta.Bytes(isState) - 1), true, isState);
    p := FirstByteTaken(meta, isState);
    forall q | 0 <= q < meta.partitionCount ensures ByteRange(meta, isState, q).1 <= |c.input| {
      EndMissed(meta, isState, q);
    }
    ByteRangeFits(meta, isState, p);
    var e := ByteRange(meta, isState, p).1;
    assert Part(meta, isState, c.input, p) == Ones(e);
    assert Part(meta, isState, ZeroBytes(meta.Bytes(isState)), p) == ZeroBytes(e);
    assert Ones(e)[0] != ZeroBytes(e)[0];
  }

  lemma WholeSizes(meta: DenseMeta, whole: Block)
    requires SizedWhole(meta, whole)
    ensures |whole.data| == meta.Bytes(false) && |whole.state| == meta.Bytes(true)
  {}

  /**
    What a pull after such a run returns: `out` is `Assemble`'s result on the servers'
    blocks, in any arrival order, and equals the one tensor's bytes.
   */
  lemma PullReturnsWhole(meta: DenseMeta, whole: Block, cs: seq<Push>, isState: bool, out: seq<byte>)
    requires meta.Sound() && SizedWhole(meta, whole) && (meta.updater.Some? ==> UpdatesByRows(meta))
    requires |out| == meta.Bytes(isState)
    requires forall p :: 0 <= p < meta.partitionCount ==>
               var b := BlockRun(meta, BlockOf(meta, whole, p), cs, p, |cs|);
               Part(meta, isState, out, p) == if isState then b.state else b.data
    ensures var now := WholeRun(meta, whole, cs, |cs|);
            out == if isState then now.state else now.data
  {
    hide Part, DenseMeta.Bytes, UpdatesByRows, WholeRun, BlockRun, SizedWhole, Tiles, ReachesEnd;
    var now := WholeRun(meta, whole, cs, |cs|);
    TilingHasEnd(meta, false);
    TilingHasEnd(meta, true);
    BlocksRefineWhole(meta, whole, cs, 0, |cs|);
    WholeSizes(meta, now);
    forall p | 0 <= p < meta.partitionCount
      ensures Part(meta, isState, out, p) == Part(meta, isState, if isState then now.state else now.data, p)
    {
      BlocksRefineWhole(meta, whole, cs, p, |cs|);
    }
    PartsDetermine(meta, isState, out, if isState then now.state else now.data);
  }

  /** A full value or state push replaces its array and keeps the other. */
  lemma PushReplaces(meta: DenseMeta, whole: Block, c: Push)
    requires SizedWhole(meta, whole) && SetsAll(meta, c)
    ensures PushedWhole(meta, whole, c.input, c.isValue, c.isState)
            == Some(if c.isState then whole.(state := c.input) else whole.(data := c.input))
  {
    hide DenseMeta.Bytes;
    assert c.input[..meta.Bytes(c.isState)] == c.input;
  }

  /** A failed push keeps the tensor, and so does a push of the other kind keep what is pulled. */
  lemma OtherKept(meta: DenseMeta, whole: Block, c: Push)
    requires c.isState || c.isValue
    ensures var now := PushedWhole(meta, whole, c.input, c.isValue, c.isState);
            now.Some? ==> if c.isState then now.value.data == whole.data else now.value.state == whole.state
  {}

  /** A push of a whole value or of a whole state. */
  predicate SetsAll(meta: DenseMeta, c: Push) {
    |c.input| == meta.Bytes(c.isState) && (c.isState || c.isValue)
  }

  /** The last value (or state) push decides its array; later pushes of the other kind do not touch it. */
  lemma {:induction false} LastPushStays(meta: DenseMeta, whole: Block, cs: seq<Push>, k: nat, i: nat)
    requires meta.Sound() && SizedWhole(meta, whole) && (meta.updater.Some? ==> UpdatesByRows(meta))
    requires k < i <= |cs| && SetsAll(meta, cs[k])
    requires forall j :: k < j < i ==> cs[j].isState != cs[k].isState && (cs[j].isState || cs[j].isValue)
    ensures var now := WholeRun(meta, whole, cs, i);
            cs[k].input == if cs[k].isState then now.state else now.data
  {
    hide DenseMeta.Bytes, UpdatesByRows, BlockRun, BlockOf, Part, PushedWhole, SizedWhole, Tiles, ReachesEnd;
    if i == k + 1 {
      TilingHasEnd(meta, false);
      TilingHasEnd(meta, true);
      BlocksRefineWhole(meta, whole, cs, 0, k);
      PushReplaces(meta, WholeRun(meta, whole, cs, k), cs[k]);
    } else {
      LastPushStays(meta, whole, cs, k, i - 1);
      OtherKept(meta, WholeRun(meta, whole, cs, i - 1), cs[i - 1]);
    }
  }

  /** So a pull of that kind, `out` being `Assemble`'s result on the servers' blocks, returns that push's input. */
  lemma LastPushIsPulled(meta: DenseMeta, whole: Block, cs: seq<Push>, k: nat, out: seq<byte>)
    requires meta.Sound() && SizedWhole(meta, whole) && (meta.updater.Some? ==> UpdatesByRows(meta))
    requires k < |cs| && SetsAll(meta, cs[k]) && |out| == meta.Bytes(cs[k].isState)
    requires forall j :: k < j < |cs| ==> cs[j].isState != cs[k].isState && (cs[j].isState || cs[j].isValue)
    requires forall p :: 0 <= p < meta.partitionCount ==>
               var b := BlockRun(meta, BlockOf(meta, whole, p), cs, p, |cs|);
               Part(meta, cs[k].isState, out, p) == if cs[k].isState then b.state else b.data
    ensures out == cs[k].input
  {
    hide DenseMeta.Bytes, DenseMeta.Sound, UpdatesByRows, BlockRun, BlockOf, Part, WholeRun, SizedWhole;
    LastPushStays(meta, whole, cs, k, |cs|);
    PullReturnsWhole(meta, whole, cs, cs[k].isState, out);
  }
}
