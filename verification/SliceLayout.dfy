/** Where a slice keeps its data, state and age (cpp/metaspore/sparse_tensor_meta.cpp). */
module SliceLayout {
  import opened Arith
  import opened DensePartitions
  import opened Rows

  const INT_SIZE: nat := 4

  predicate IsItemSize(n: nat) {
    n == 1 || n == 2 || n == 4 || n == 8
  }

  /** `a` divides `x`. */
  predicate Aligned(x: nat, a: nat) {
    a > 0 && Mod(x, a) == 0
  }

  lemma AlignedSums(x: nat, y: nat, a: nat)
    requires Aligned(x, a) && Aligned(y, a)
    ensures Aligned(x + y, a)
  {
    hide Mod;
    ModEarly(x, a, y);
  }

  lemma MultipleAligned(k: nat, a: nat)
    requires a > 0
    ensures 0 <= Mul(k, a) && Aligned(Mul(k, a), a)
  {
    hide Mul, Mod, Div;
    MulSigns(k, a);
    DivModIs(Mul(k, a), a, k, 0);
  }

  /** What a multiple of `a` is aligned for is what `a` is aligned for. */
  lemma AlignedThrough(x: nat, k: nat, a: nat)
    requires a > 0 && 0 <= Mul(k, a) && Aligned(x, Mul(k, a))
    ensures Aligned(x, a)
  {
    hide Mul, Mod, Div;
    var q := Div(x, Mul(k, a));
    DivMod(x, Mul(k, a));
    MulRegroup(q, k, a);
    MulSigns(q, k);
    MultipleAligned(Mul(q, k), a);
  }

  lemma MulRegroup(q: int, k: int, a: int)
    ensures Mul(Mul(q, k), a) == Mul(q, Mul(k, a))
  {
    assert q * k * a == q * (k * a);
  }

  /** What is aligned for the age is aligned for an `int` and for the items. */
  lemma AlignedForAge(x: nat, itemSize: nat)
    requires IsItemSize(itemSize) && Aligned(x, AgeSize(itemSize))
    ensures Aligned(x, itemSize) && Aligned(x, INT_SIZE)
  {
    hide Aligned;
    AlignedThrough(x, if itemSize == 1 then 4 else if itemSize == 2 then 2 else 1, itemSize);
    AlignedThrough(x, if itemSize == 8 then 2 else 1, INT_SIZE);
  }

  function AgeSize(itemSize: nat): nat {
    if itemSize > INT_SIZE then itemSize else INT_SIZE
  }

  /** The size of an age is the least that both an item and an `int` of 4 bytes divide. */
  lemma AgeSizeIsLeast(itemSize: nat, a: nat)
    requires IsItemSize(itemSize)
    ensures AgeSize(itemSize) > 0 && AgeSize(itemSize) % itemSize == 0 && AgeSize(itemSize) % 4 == 0
    ensures a > 0 && a % itemSize == 0 && a % 4 == 0 ==> AgeSize(itemSize) <= a
  {
    if itemSize == 8 && 0 < a < 8 {
      assert a % 8 == a;
    }
  }

  /** The last multiple of `a`: what `x & ~(a - 1)` computes for a power of two. */
  function RoundDown(x: nat, a: nat): (r: nat)
    requires a > 0
    ensures r <= x < r + a && Aligned(r, a)
  {
    MultipleAligned(Div(x, a), a);
    DivMod(x, a);
    Mul(Div(x, a), a)
  }

  /** The next multiple of `a`. */
  function RoundUp(x: nat, a: nat): (r: nat)
    requires a > 0
    ensures x <= r < x + a && Aligned(r, a)
  {
    RoundDown(x + a - 1, a)
  }

  /** The mask expression, for the two sizes an age can have; the sum may wrap around. */
  lemma MaskIsRoundDown(x: bv64)
    ensures (x + 3) & !3 == (x + 3) / 4 * 4
    ensures (x + 7) & !7 == (x + 7) / 8 * 8
  {}

  /** A word is a whole number of ages, so rounding up may wrap around at any step. */
  lemma RoundUpWraps(x: nat, a: nat)
    requires a == 4 || a == 8
    ensures RoundDown(Wrap(Wrap(x) + a - 1), a) == Wrap(RoundUp(x, a))
  {
    hide Aligned, Mul, Div, Mod, Wrap, RoundDown;
    var q, r := Div(x, WORD), Wrap(x);
    WordsOff(x);
    WholeWords(q, a);
    RoundDownShift(r + a - 1, a, Mul(q, WORD / a));
    WrapShift(RoundUp(r, a), q);
    OneWrap(r, a);
  }

  lemma WordsOff(x: nat)
    ensures x == Mul(Div(x, WORD), WORD) + Wrap(x)
  {}

  lemma WholeWords(q: nat, a: nat)
    requires IsItemSize(a)
    ensures 0 <= Mul(q, WORD / a) && Mul(Mul(q, WORD / a), a) == Mul(q, WORD)
  {
    hide Mul;
    ItemsInWord(a);
    MulSigns(q, WORD / a);
    MulRegroup(q, WORD / a, a);
  }

  lemma ItemsInWord(a: nat)
    requires IsItemSize(a)
    ensures Mul(WORD / a, a) == WORD
  {
    if a == 1 {
    } else if a == 2 {
      assert WORD / 2 * 2 == WORD;
    } else if a == 4 {
      assert WORD / 4 * 4 == WORD;
    } else {
      assert WORD / 8 * 8 == WORD;
    }
  }

  lemma RoundDownShift(x: nat, a: nat, k: nat)
    requires a > 0
    ensures 0 <= Mul(k, a) && RoundDown(x + Mul(k, a), a) == RoundDown(x, a) + Mul(k, a)
  {
    hide Mul, Div, Mod;
    MulSigns(k, a);
    DivModShift(x, a, k);
    MulAdd(Div(x, a), k, a);
  }

  lemma MulAdd(x: int, y: int, a: int)
    ensures Mul(x + y, a) == Mul(x, a) + Mul(y, a)
  {}

  lemma WrapShift(x: nat, q: nat)
    ensures 0 <= Mul(q, WORD) && Wrap(x + Mul(q, WORD)) == Wrap(x)
  {}

  lemma OneWrap(r: nat, a: nat)
    requires r < WORD && (a == 4 || a == 8)
    ensures RoundDown(Wrap(r + a - 1), a) == Wrap(RoundUp(r, a))
  {
    hide Aligned, Mul, Div, Mod, Wrap, RoundDown;
    var y := r + a - 1;
    WrapIs(y);
    WrapIs(RoundUp(r, a));
    if y >= WORD {
      WholeWords(1, a);
      RoundDownShift(y - WORD, a, Mul(1, WORD / a));
      MulStep(0, WORD);
      WrapIs(RoundDown(y - WORD, a));
    }
  }

  /** Wrapping around keeps what is aligned for an item aligned. */
  lemma WrapKeepsAligned(x: nat, a: nat)
    requires IsItemSize(a) && Aligned(x, a)
    ensures Aligned(Wrap(x), a)
  {
    hide Mul, Div, Mod, Wrap;
    var q := Div(x, WORD);
    WordsOff(x);
    WholeWords(q, a);
    MulSigns(q, WORD);
    DivModShift(Wrap(x), a, Mul(q, WORD / a));
  }

  datatype Layout = Layout(dataLength: nat, stateLength: nat, ageOffset: nat, totalBytes: nat)

  /** The parts of a slice. */
  datatype Region = DataRegion | StateRegion | AgeRegion

  class SliceMeta {
    const itemSize: nat
    const dataShape: seq<nat>
    const stateShape: seq<nat>
    var sliceDataLength: nat
    var sliceStateLength: nat
    var sliceAgeOffset: nat
    var sliceTotalBytes: nat

    constructor (itemSize: nat, dataShape: seq<nat>, stateShape: seq<nat>)
      ensures this.itemSize == itemSize && this.dataShape == dataShape && this.stateShape == stateShape
    {
      this.itemSize, this.dataShape, this.stateShape := itemSize, dataShape, stateShape;
    }

    ghost function Contents(): Layout
      reads this
    {
      Layout(sliceDataLength, sliceStateLength, sliceAgeOffset, sliceTotalBytes)
    }

    /** Lays a slice out: data, then state, then the age at the next multiple of its size; every sum wraps around. */
    method ComputeSliceInfo()
      requires IsItemSize(itemSize)
      modifies this
      ensures sliceDataLength == Wrap(ItemBytes(dataShape, itemSize))
      ensures sliceStateLength == Wrap(ItemBytes(stateShape, itemSize))
      ensures sliceAgeOffset == Wrap(RoundUp(sliceDataLength + sliceStateLength, AgeSize(itemSize)))
      ensures sliceTotalBytes == Wrap(sliceAgeOffset + AgeSize(itemSize))
      ensures var data, state := ItemBytes(dataShape, itemSize), ItemBytes(stateShape, itemSize);
              HoldsItems(Contents(), itemSize, data, state) <==> FitsWord(data, state, itemSize)
    {
      hide Mul, Items, RoundUp, RoundDown, Wrap, Aligned;
      var dataItems := TotalElements(dataShape);
      sliceDataLength := WrappedProduct(dataItems, Items(dataShape), itemSize);
      var stateItems := TotalElements(stateShape);
      sliceStateLength := WrappedProduct(stateItems, Items(stateShape), itemSize);
      var ageOffset := Wrap(sliceDataLength + sliceStateLength);
      var ageSize := AgeSize(itemSize);
      var ageMask := ageSize - 1;
      sliceAgeOffset := RoundDown(Wrap(ageOffset + ageMask), ageSize);
      sliceTotalBytes := Wrap(sliceAgeOffset + ageSize);
      RoundUpWraps(sliceDataLength + sliceStateLength, ageSize);
      BytesAligned(dataShape, itemSize);
      BytesAligned(stateShape, itemSize);
      SoundIffFits(Contents(), itemSize, ItemBytes(dataShape, itemSize), ItemBytes(stateShape, itemSize));
    }
  }

  /** The bytes that the items of a shape need, as an unbounded number. */
  function ItemBytes(shape: seq<nat>, itemSize: nat): nat {
    MulSigns(Items(shape), itemSize);
    Mul(Items(shape), itemSize)
  }

  lemma BytesAligned(shape: seq<nat>, itemSize: nat)
    requires itemSize > 0
    ensures Aligned(ItemBytes(shape, itemSize), itemSize)
  {
    hide Mul, Items, Aligned;
    MultipleAligned(Items(shape), itemSize);
  }

  /** A product of an item count that has wrapped around already. */
  function WrappedProduct(n: nat, items: nat, itemSize: nat): (r: nat)
    requires n == items % WORD && IsItemSize(itemSize)
    ensures r == Wrap(Mul(items, itemSize)) && Aligned(r, itemSize)
  {
    MultipleAligned(items, itemSize);
    WrapKeepsAligned(Mul(items, itemSize), itemSize);
    MulMod(items, itemSize);
    Wrap(Mul(n, itemSize))
  }

  /** Data and state are whole items; the age comes at the next multiple of its size, and ends the slice. */
  ghost predicate SoundLayout(l: Layout, itemSize: nat) {
    && IsItemSize(itemSize)
    && Aligned(l.dataLength, itemSize) && Aligned(l.stateLength, itemSize) && Aligned(l.ageOffset, AgeSize(itemSize))
    && l.dataLength + l.stateLength <= l.ageOffset < l.dataLength + l.stateLength + AgeSize(itemSize)
    && l.totalBytes == l.ageOffset + AgeSize(itemSize)
  }

  /** A sound layout whose parts have room for all their items. */
  ghost predicate HoldsItems(l: Layout, itemSize: nat, data: nat, state: nat) {
    SoundLayout(l, itemSize) && l.dataLength == data && l.stateLength == state
  }

  /** The items and the age behind them end below the word size. */
  predicate FitsWord(data: nat, state: nat, itemSize: nat) {
    RoundUp(data + state, AgeSize(itemSize)) + AgeSize(itemSize) < WORD
  }

  /** The layout computed modulo 2^64 is sound and holds all items exactly when the slice ends below the word size. */
  lemma SoundIffFits(l: Layout, itemSize: nat, data: nat, state: nat)
    requires IsItemSize(itemSize) && Aligned(data, itemSize) && Aligned(state, itemSize)
    requires l.dataLength == Wrap(data) && l.stateLength == Wrap(state)
    requires l.ageOffset == Wrap(RoundUp(l.dataLength + l.stateLength, AgeSize(itemSize)))
    requires l.totalBytes == Wrap(l.ageOffset + AgeSize(itemSize))
    ensures HoldsItems(l, itemSize, data, state) <==> FitsWord(data, state, itemSize)
  {
    hide Aligned, RoundUp, Wrap;
    WrapKeepsAligned(data, itemSize);
    WrapKeepsAligned(state, itemSize);
    WrapIs(data);
    WrapIs(state);
    WrapIs(RoundUp(l.dataLength + l.stateLength, AgeSize(itemSize)));
    WrapIs(l.ageOffset + AgeSize(itemSize));
  }

  /** 2^61 items of 8 bytes get no byte at all. */
  lemma ItemsCanVanish()
    ensures var shape := [0x2000_0000_0000_0000];
            Wrap(ItemBytes(shape, 8)) == 0 && !FitsWord(ItemBytes(shape, 8), ItemBytes([], 8), 8)
  {
    hide RoundUp;
    assert Product([0x2000_0000_0000_0000], 1) == Product([0x2000_0000_0000_0000], 0) * 0x2000_0000_0000_0000;
  }

  /** The bytes of one part of the slice in slot `i`. */
  function Bytes(l: Layout, i: nat, region: Region): (nat, nat) {
    var base := Offset(i, l.totalBytes);
    match region
    case DataRegion => (base, base + l.dataLength)
    case StateRegion => (base + l.dataLength, base + l.dataLength + l.stateLength)
    case AgeRegion => (base + l.ageOffset, base + l.ageOffset + INT_SIZE)
  }

  /** No two parts of any slots share a byte, and slot `n - 1` ends within `n` strides. */
  lemma RegionsApart(l: Layout, itemSize: nat, i: nat, r: Region, j: nat, r': Region, n: nat)
    requires SoundLayout(l, itemSize) && i < n && j < n && (i != j || r != r')
    ensures Bytes(l, i, r).1 <= Offset(n, l.totalBytes)
    ensures Bytes(l, i, r).1 <= Bytes(l, j, r').0 || Bytes(l, j, r').1 <= Bytes(l, i, r).0
  {
    hide Offset;
    OffsetStep(i, n, l.totalBytes);
    OffsetStep(j, n, l.totalBytes);
    if i < j {
      OffsetStep(i, j, l.totalBytes);
    } else if j < i {
      OffsetStep(j, i, l.totalBytes);
    }
  }

  /** Every part of every slot is aligned to what is read there. */
  lemma RegionsAligned(l: Layout, itemSize: nat, i: nat)
    requires SoundLayout(l, itemSize)
    ensures Aligned(Bytes(l, i, DataRegion).0, itemSize)
    ensures Aligned(Bytes(l, i, StateRegion).0, itemSize)
    ensures Aligned(Bytes(l, i, AgeRegion).0, INT_SIZE)
  {
    hide Offset, Aligned;
    var base, age := Offset(i, l.totalBytes), AgeSize(itemSize);
    AgeSizeAligned(itemSize);
    AlignedSums(l.ageOffset, age, age);
    OffsetsAligned(i, l.totalBytes, age);
    AlignedForAge(base, itemSize);
    AlignedSums(base, l.dataLength, itemSize);
    AlignedSums(base, l.ageOffset, age);
    AlignedForAge(base + l.ageOffset, itemSize);
  }

  lemma AgeSizeAligned(itemSize: nat)
    requires IsItemSize(itemSize)
    ensures Aligned(AgeSize(itemSize), AgeSize(itemSize)) && Aligned(0, AgeSize(itemSize))
  {
    hide Mul, Mod;
    var age := AgeSize(itemSize);
    MulStep(0, age);
    MultipleAligned(0, age);
    MultipleAligned(1, age);
  }

  lemma {:induction false} OffsetsAligned(i: nat, d: nat, a: nat)
    requires Aligned(d, a) && Aligned(0, a)
    ensures Aligned(Offset(i, d), a)
  {
    hide Offset, Aligned;
    OffsetStep(0, i + 1, d);
    if i > 0 {
      OffsetsAligned(i - 1, d, a);
      OffsetStep(i - 1, i, d);
      AlignedSums(Offset(i - 1, d), d, a);
    }
  }
}
