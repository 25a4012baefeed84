/** How a dense tensor's rows are shared out (cpp/metaspore/dense_tensor_meta.cpp, tensor_utils.cpp). */
module DensePartitions {
  import opened Arith

  /** The number of values of `size_t`. */
  const WORD: nat := 0x1_0000_0000_0000_0000

  /** What a `size_t` keeps of a number. */
  function Wrap(x: nat): (r: nat)
    ensures r < WORD
  {
    x % WORD
  }

  lemma WrapIs(x: nat)
    ensures x < WORD ==> Wrap(x) == x
    ensures WORD <= x < 2 * WORD ==> Wrap(x) == x - WORD
  {}

  function Min(a: nat, b: nat): nat {
    if a < b then a else b
  }

  // ---- Row ranges ----

  /** Which of the n ranges partition `index` takes; the sum wraps around. */
  function RangeIndex(hash: nat, n: nat, index: nat): (i: nat)
    requires n > 0
    ensures i < n
  {
    Mod(Wrap(index + hash), n)
  }

  /** `begin` and `end` of range `i`, in `size_t` arithmetic. */
  function RangeAt(m: nat, n: nat, i: nat): (nat, nat)
    requires i < n
  {
    MulSigns(Div(m, n), i);
    var myItems := Div(Wrap(m + n - 1 - i), n);
    var begin := Wrap(Wrap(Mul(Div(m, n), i)) + Min(i, Mod(m, n)));
    (begin, Wrap(begin + myItems))
  }

  function PartitionRange(m: nat, n: nat, hash: nat, index: nat): (nat, nat)
    requires n > 0
  {
    RangeAt(m, n, RangeIndex(hash, n, index))
  }

  /** The first row of range `i`: `m % n` ranges are one row longer than the others. */
  function Start(m: nat, n: nat, i: nat): (s: nat)
    requires n > 0
  {
    MulSigns(Div(m, n), i);
    Mul(Div(m, n), i) + Min(i, Mod(m, n))
  }

  /** Ranges 0, 1, ... follow one another, differ by at most one row, and end at row m. */
  lemma StartSteps(m: nat, n: nat, i: nat)
    requires i < n
    ensures Start(m, n, 0) == 0 && Start(m, n, n) == m
    ensures Start(m, n, i + 1) - Start(m, n, i) == Div(m, n) + if i < Mod(m, n) then 1 else 0
  {
    hide Mul, Div, Mod;
    MulStep(i, Div(m, n));
    MulSigns(0, Div(m, n));
    DivMod(m, n);
  }

  lemma {:induction false} StartGrows(m: nat, n: nat, i: nat, j: nat)
    requires 0 < n && i <= j <= n
    ensures Start(m, n, i) <= Start(m, n, j)
  {
    hide Start, Div, Mod;
    if i < j {
      StartSteps(m, n, j - 1);
      StartGrows(m, n, i, j - 1);
    }
  }

  /** The code's arithmetic gives range `i` without overflow when `m + n` fits in a word. */
  lemma RangeIs(m: nat, n: nat, i: nat)
    requires i < n && m + n <= WORD
    ensures RangeAt(m, n, i) == (Start(m, n, i), Start(m, n, i + 1))
  {
    hide Mul, Div, Mod, Wrap;
    var avg, rem := Div(m, n), Mod(m, n);
    DivMod(m, n);
    MulStep(avg, n);
    MulSigns(avg, i);
    if i < rem {
      DivModIs(m + n - 1 - i, n, avg + 1, rem - 1 - i);
    } else {
      DivModIs(m + n - 1 - i, n, avg, rem + n - 1 - i);
    }
    StartSteps(m, n, i);
    StartGrows(m, n, i, n);
    StartGrows(m, n, i + 1, n);
    WrapIs(m + n - 1 - i);
    WrapIs(Mul(avg, i));
    WrapIs(Start(m, n, i));
    WrapIs(Start(m, n, i + 1));
  }

  // ---- Which hashes share out every range ----

  /** Every range is some partition's, and no two partitions take the same one. */
  ghost predicate SharesOut(hash: nat, n: nat)
    requires n > 0
  {
    && (forall j, k :: 0 <= j < k < n ==> RangeIndex(hash, n, j) != RangeIndex(hash, n, k))
    && (forall i :: 0 <= i < n ==> Taken(hash, n, i))
  }

  ghost predicate Taken(hash: nat, n: nat, i: nat)
    requires n > 0
  {
    exists k :: 0 <= k < n && RangeIndex(hash, n, k) == i
  }

  /** No sum of the hash and a partition index wraps, or wrapping does not matter. */
  predicate HashFits(hash: nat, n: nat)
    requires n > 0
  {
    hash + n <= WORD || Mod(WORD, n) == 0
  }

  /** The index of partition `k` is the hash's remainder moved up by `k`, as long as nothing wraps. */
  lemma IndexMoves(hash: nat, n: nat, k: nat)
    requires k < n <= WORD && hash < WORD && HashFits(hash, n)
    ensures RangeIndex(hash, n, k) == Mod(Mod(hash, n) + k, n)
  {
    hide Mul, Div, Mod, Wrap;
    ModEarly(hash, n, k);
    if hash + k >= WORD {
      DivMod(WORD, n);
      DivModShift(hash + k - WORD, n, Div(WORD, n));
      assert hash + k - WORD + Mul(Div(WORD, n), n) == hash + k;
    }
    WrapIs(k + hash);
  }

  /** Which range partition `k` takes when the sum wraps: the first `2^64 - hash` partitions fall short of it. */
  lemma WrappedIndex(hash: nat, n: nat, k: nat)
    requires k < n <= WORD && hash < WORD && hash + n > WORD
    ensures var w, r := WORD - hash, Mod(WORD, n);
            RangeIndex(hash, n, k) == if k >= w then k - w else if r + k >= w then r + k - w else r + k + n - w
  {
    hide Mul, Div, Mod, Wrap;
    var w, r, q := WORD - hash, Mod(WORD, n), Div(WORD, n);
    DivMod(WORD, n);
    WrapIs(k + hash);
    if k >= w {
      ModOnce(k - w, n);
    } else if r + k >= w {
      DivModIs(k + hash, n, q, r + k - w);
    } else {
      WholeMultiple(hash + k, q, n);
      MulStep(q - 1, n);
      DivModIs(k + hash, n, q - 1, r + k + n - w);
    }
  }

  lemma WholeMultiple(x: nat, q: nat, n: nat)
    requires n > 0 && x < Mul(q, n)
    ensures q > 0
  {
    hide Mul;
    MulStep(0, n);
  }

  /** Two partitions that take the same range when the sum wraps and n does not divide 2^64. */
  lemma WrapCollides(hash: nat, n: nat) returns (j: nat, k: nat)
    requires 0 < n <= WORD && hash < WORD && !HashFits(hash, n)
    ensures j < k < n && RangeIndex(hash, n, j) == RangeIndex(hash, n, k)
    ensures RangeIndex(hash, n, k) == if Mod(WORD, n) < WORD - hash then 0 else Mod(WORD, n) - (WORD - hash)
  {
    hide Mul, Div, Mod, Wrap, RangeIndex;
    var w, r := WORD - hash, Mod(WORD, n);
    if r < w {
      j, k := w - r, w;
    } else {
      j, k := 0, r;
    }
    WrappedIndex(hash, n, j);
    WrappedIndex(hash, n, k);
  }

  lemma FittingHashShares(hash: nat, n: nat)
    requires 0 < n <= WORD && hash < WORD && HashFits(hash, n)
    ensures SharesOut(hash, n)
  {
    hide RangeIndex, Mod, HashFits;
    var h := Mod(hash, n);
    forall j, k | 0 <= j < k < n ensures RangeIndex(hash, n, j) != RangeIndex(hash, n, k) {
      IndexMoves(hash, n, j);
      IndexMoves(hash, n, k);
      ModOnce(h + j, n);
      ModOnce(h + k, n);
    }
    forall i | 0 <= i < n ensures Taken(hash, n, i) {
      var k := if i >= h then i - h else i + n - h;
      IndexMoves(hash, n, k);
      ModOnce(h + k, n);
    }
  }

  /** The hash shares the ranges out exactly when the sums cannot wrap, or n divides 2^64. */
  lemma SharesOutIff(hash: nat, n: nat)
    requires 0 < n <= WORD && hash < WORD
    ensures SharesOut(hash, n) <==> HashFits(hash, n)
  {
    hide RangeIndex, Mod, HashFits, Taken;
    if HashFits(hash, n) {
      FittingHashShares(hash, n);
    } else {
      var j, k := WrapCollides(hash, n);
    }
  }

  /** With the hash 2^64 - 1, partitions 0 and 1 of three take the same rows. */
  lemma HashCanCollide(m: nat)
    ensures RangeIndex(WORD - 1, 3, 0) == RangeIndex(WORD - 1, 3, 1) == 0
    ensures PartitionRange(m, 3, WORD - 1, 0) == PartitionRange(m, 3, WORD - 1, 1)
  {
    hide RangeAt;
  }

  /** Row `x` is in the range of partition `k`. */
  predicate Holds(m: nat, n: nat, hash: nat, k: nat, x: nat)
    requires n > 0
  {
    var (begin, end) := PartitionRange(m, n, hash, k);
    begin <= x < end
  }

  /** Partition `k`, and no other, holds row `x`. */
  ghost predicate OnlyHolder(m: nat, n: nat, hash: nat, k: nat, x: nat)
    requires n > 0
  {
    k < n && Holds(m, n, hash, k, x) && forall k' :: 0 <= k' < n && Holds(m, n, hash, k', x) ==> k' == k
  }

  ghost predicate HeldOnce(m: nat, n: nat, hash: nat, x: nat)
    requires n > 0
  {
    exists k: nat :: OnlyHolder(m, n, hash, k, x)
  }

  /** Every row has exactly one holder. */
  ghost predicate Tiled(m: nat, n: nat, hash: nat)
    requires n > 0
  {
    forall x :: 0 <= x < m ==> HeldOnce(m, n, hash, x)
  }

  /** The range that row `x` is in. */
  lemma {:induction false} RangeOf(m: nat, n: nat, x: nat, j: nat) returns (i: nat)
    requires 0 < n && j <= n && x < Start(m, n, j)
    ensures i < j && Start(m, n, i) <= x < Start(m, n, i + 1)
  {
    hide Start, Div, Mod;
    StartSteps(m, n, 0);
    if Start(m, n, j - 1) <= x {
      i := j - 1;
    } else {
      i := RangeOf(m, n, x, j - 1);
    }
  }

  /** Every row is held by exactly one partition. */
  lemma HolderOf(m: nat, n: nat, hash: nat, x: nat) returns (k: nat)
    requires n > 0 && m + n <= WORD && SharesOut(hash, n) && x < m
    ensures OnlyHolder(m, n, hash, k, x)
  {
    hide RangeIndex, RangeAt, Start, Div, Mod;
    StartSteps(m, n, 0);
    var i := RangeOf(m, n, x, n);
    assert Taken(hash, n, i);
    k :| 0 <= k < n && RangeIndex(hash, n, k) == i;
    RangeIs(m, n, i);
    forall k' | 0 <= k' < n && Holds(m, n, hash, k', x) ensures k' == k {
      SameRange(m, n, i, RangeIndex(hash, n, k'), x);
    }
  }

  lemma SameRange(m: nat, n: nat, i: nat, i': nat, x: nat)
    requires i < n && i' < n && m + n <= WORD
    requires Start(m, n, i) <= x < Start(m, n, i + 1) && RangeAt(m, n, i').0 <= x < RangeAt(m, n, i').1
    ensures i == i'
  {
    hide RangeAt, Start;
    RangeIs(m, n, i');
    if i' < i {
      StartGrows(m, n, i' + 1, i);
    } else if i < i' {
      StartGrows(m, n, i + 1, i');
    }
  }

  /** The ranges stay inside the tensor and their sizes differ by at most one. */
  lemma RangesBalanced(m: nat, n: nat, hash: nat, j: nat, k: nat)
    requires n > 0 && m + n <= WORD
    ensures var (b, e) := PartitionRange(m, n, hash, j);
            var (b', e') := PartitionRange(m, n, hash, k);
            b <= e <= m && -1 <= (e - b) - (e' - b') <= 1
  {
    hide RangeIndex, RangeAt, Start, Div, Mod;
    var i, i' := RangeIndex(hash, n, j), RangeIndex(hash, n, k);
    RangeIs(m, n, i);
    RangeIs(m, n, i');
    StartGrows(m, n, i, i + 1);
    StartGrows(m, n, i + 1, n);
    StartSteps(m, n, i);
    StartSteps(m, n, i');
  }

  /** Partition `k`, and no other, takes range `i`. */
  ghost predicate OnlyTaker(hash: nat, n: nat, i: nat, k: nat)
    requires n > 0
  {
    k < n && RangeIndex(hash, n, k) == i && forall k' :: 0 <= k' < n && RangeIndex(hash, n, k') == i ==> k' == k
  }

  ghost predicate TakenOnce(hash: nat, n: nat, i: nat)
    requires n > 0
  {
    exists k: nat :: OnlyTaker(hash, n, i, k)
  }

  /** Range `i` has a row. */
  predicate HasRow(m: nat, n: nat, i: nat)
    requires n > 0
  {
    Start(m, n, i) < Start(m, n, i + 1)
  }

  /** Holding a row is taking its range. */
  lemma HolderIsTaker(m: nat, n: nat, hash: nat, i: nat, x: nat, k: nat)
    requires i < n && m + n <= WORD && Start(m, n, i) <= x < Start(m, n, i + 1)
    ensures OnlyHolder(m, n, hash, k, x) <==> OnlyTaker(hash, n, i, k)
  {
    hide RangeIndex, RangeAt, Start;
    RangeIs(m, n, i);
    forall k' | 0 <= k' < n ensures Holds(m, n, hash, k', x) <==> RangeIndex(hash, n, k') == i {
      if Holds(m, n, hash, k', x) {
        SameRange(m, n, i, RangeIndex(hash, n, k'), x);
      }
    }
  }

  /** The rows are tiled when, and only when, every range that has a row is taken once. */
  lemma TiledIffTaken(m: nat, n: nat, hash: nat)
    requires n > 0 && m + n <= WORD
    ensures Tiled(m, n, hash) <==> forall i :: 0 <= i < n && HasRow(m, n, i) ==> TakenOnce(hash, n, i)
  {
    hide OnlyHolder, OnlyTaker, Start;
    StartSteps(m, n, 0);
    if Tiled(m, n, hash) {
      forall i | 0 <= i < n && HasRow(m, n, i) ensures TakenOnce(hash, n, i) {
        var x := Start(m, n, i);
        StartGrows(m, n, i + 1, n);
        assert HeldOnce(m, n, hash, x);
        var k: nat :| OnlyHolder(m, n, hash, k, x);
        HolderIsTaker(m, n, hash, i, x, k);
      }
    }
    if forall i :: 0 <= i < n && HasRow(m, n, i) ==> TakenOnce(hash, n, i) {
      forall x | 0 <= x < m ensures HeldOnce(m, n, hash, x) {
        var i := RangeOf(m, n, x, n);
        assert HasRow(m, n, i) && TakenOnce(hash, n, i);
        var k: nat :| OnlyTaker(hash, n, i, k);
        HolderIsTaker(m, n, hash, i, x, k);
      }
    }
  }

  /** The ranges with a row are the first `m`. */
  lemma FirstHaveRows(m: nat, n: nat, i: nat)
    requires i < n
    ensures HasRow(m, n, i) <==> i < m
  {
    hide Start, Div, Mod, Mul;
    StartSteps(m, n, i);
    DivMod(m, n);
    MulStep(0, n);
    MulSigns(Div(m, n), n);
    if m < n {
      DivModIs(m, n, 0, m);
    }
  }

  /**
    The hash tiles m rows over n partitions: nothing wraps, or wrapping does not matter,
    or the partitions that fall short of the wrap share only ranges behind the last row.
   */
  predicate Tiles(m: nat, n: nat, hash: nat)
    requires n > 0 && hash < WORD
  {
    HashFits(hash, n) || m + (WORD - hash) <= Mod(WORD, n)
  }

  lemma TilingHashTakes(m: nat, n: nat, hash: nat, i: nat)
    requires i < n <= WORD && i < m && hash < WORD && Tiles(m, n, hash)
    ensures TakenOnce(hash, n, i)
  {
    hide RangeIndex, Mod;
    if HashFits(hash, n) {
      FittingHashShares(hash, n);
      assert Taken(hash, n, i);
      var k :| 0 <= k < n && RangeIndex(hash, n, k) == i;
      assert OnlyTaker(hash, n, i, k);
    } else {
      var k := i + (WORD - hash);
      forall k' | 0 <= k' < n ensures RangeIndex(hash, n, k') == i <==> k' == k {
        WrappedIndex(hash, n, k');
      }
      assert OnlyTaker(hash, n, i, k);
    }
  }

  /** The rows of a tensor are tiled over its partitions exactly for those hashes. */
  lemma TiledIff(m: nat, n: nat, hash: nat)
    requires n > 0 && m > 0 && m + n <= WORD && hash < WORD
    ensures Tiled(m, n, hash) <==> Tiles(m, n, hash)
  {
    hide Tiled, TakenOnce, HasRow, HashFits, RangeIndex, Mod;
    TiledIffTaken(m, n, hash);
    if Tiles(m, n, hash) {
      forall i | 0 <= i < n && HasRow(m, n, i) ensures TakenOnce(hash, n, i) {
        FirstHaveRows(m, n, i);
        TilingHashTakes(m, n, hash, i);
      }
    } else {
      var j, k := WrapCollides(hash, n);
      var i := RangeIndex(hash, n, k);
      FirstHaveRows(m, n, i);
      TakenTwice(hash, n, i, j, k);
    }
  }

  lemma TakenTwice(hash: nat, n: nat, i: nat, j: nat, k: nat)
    requires j < k < n && RangeIndex(hash, n, j) == RangeIndex(hash, n, k) == i
    ensures !TakenOnce(hash, n, i)
  {}

  /** A hash that shares a range out twice and still tiles: the doubled range has no row. */
  lemma CollidingHashCanTile()
    ensures !SharesOut(WORD - 1, 6) && Tiled(3, 6, WORD - 1)
  {
    hide SharesOut, Tiled;
    assert Mod(WORD, 6) == 4;
    SharesOutIff(WORD - 1, 6);
    TiledIff(3, 6, WORD - 1);
  }

  // ---- Which hashes reach the last row ----

  /** Some partition's range ends with the last row. */
  ghost predicate EndTaken(m: nat, n: nat, hash: nat)
    requires n > 0
  {
    exists k :: 0 <= k < n && PartitionRange(m, n, hash, k).1 == m
  }

  /** Nothing wraps, or a wrapped index is large enough for the last range with a row. */
  predicate ReachesEnd(m: nat, n: nat, hash: nat)
    requires n > 0 && hash < WORD
  {
    var short, rest := WORD - hash, Mod(WORD, n);
    HashFits(hash, n) || rest < short || m <= rest || m + short <= n
  }

  /** The ranges that end with the last row: those from the last one with a row on. */
  lemma EndsAt(m: nat, n: nat, i: nat)
    requires i < n
    ensures Start(m, n, i + 1) == m <==> i + 1 >= m || i + 1 == n
  {
    hide Start, Div, Mod;
    StartSteps(m, n, i);
    StartGrows(m, n, i + 1, n);
    if i + 1 < n {
      FirstHaveRows(m, n, i + 1);
      StartGrows(m, n, i + 2, n);
      if i + 1 >= m {
        NoRowsLeft(m, n, i + 1);
      }
    }
  }

  lemma NoRowsLeft(m: nat, n: nat, i: nat)
    requires m <= i < n
    ensures Start(m, n, i) == m
  {
    hide Mul, Div, Mod;
    MulStep(0, n);
    MulStep(0, i);
    DivModIs(m, n, 0, m);
  }

  /** The last row is reached exactly for those hashes. */
  lemma EndTakenIff(m: nat, n: nat, hash: nat)
    requires n > 0 && m > 0 && m + n <= WORD && hash < WORD
    ensures EndTaken(m, n, hash) <==> ReachesEnd(m, n, hash)
  {
    hide RangeIndex, RangeAt, Start, Mod;
    var short, rest := WORD - hash, Mod(WORD, n);
    forall k | 0 <= k < n
      ensures var i := RangeIndex(hash, n, k); PartitionRange(m, n, hash, k).1 == m <==> i + 1 >= m || i + 1 == n
    {
      RangeIs(m, n, RangeIndex(hash, n, k));
      EndsAt(m, n, RangeIndex(hash, n, k));
    }
    if HashFits(hash, n) {
      FittingHashShares(hash, n);
      assert Taken(hash, n, n - 1);
      var k :| 0 <= k < n && RangeIndex(hash, n, k) == n - 1;
      assert PartitionRange(m, n, hash, k).1 == m;
    } else {
      forall k | 0 <= k < n
        ensures RangeIndex(hash, n, k)
                == if k >= short then k - short
                   else if rest + k >= short then rest + k - short
                   else rest + k + n - short
      {
        WrappedIndex(hash, n, k);
      }
      if ReachesEnd(m, n, hash) {
        var k := if rest < short then short - rest - 1 else if m <= rest then short - 1 else n - 1;
        assert PartitionRange(m, n, hash, k).1 == m;
      }
    }
  }

  /** The first range is always some partition's. */
  lemma StartTaken(hash: nat, n: nat)
    requires 0 < n <= WORD && hash < WORD
    ensures Taken(hash, n, 0)
  {
    hide RangeIndex, Mod, HashFits;
    if HashFits(hash, n) {
      FittingHashShares(hash, n);
    } else {
      WrapsBeyond(hash, n);
      WrappedIndex(hash, n, WORD - hash);
    }
  }

  lemma WrapsBeyond(hash: nat, n: nat)
    requires n > 0 && !HashFits(hash, n)
    ensures hash + n > WORD
  {}

  // ---- Element counts ----

  function Product(shape: seq<nat>, i: nat): nat
    requires i <= |shape|
  {
    if i == 0 then 1 else Product(shape, i - 1) * shape[i - 1]
  }

  /** Items of a whole tensor, as an unbounded number. */
  function Items(shape: seq<nat>): nat {
    if shape == [] then 0 else Product(shape, |shape|)
  }

  /** Items of one row. */
  function RowItems(shape: seq<nat>): nat {
    if shape == [] then 0 else Product(shape[1..], |shape| - 1)
  }

  lemma MulMod(a: nat, b: nat)
    ensures (a % WORD) * b % WORD == a * b % WORD
  {
    var q := a / WORD;
    assert a * b == (q * WORD + a % WORD) * b == (q * b) * WORD + (a % WORD) * b;
  }

  method SliceElements(shape: seq<nat>) returns (n: nat)
    ensures n == RowItems(shape) % WORD
  {
    if |shape| == 0 {
      return 0;
    }
    n := 1;
    for i := 1 to |shape|
      invariant n == Product(shape[1..], i - 1) % WORD
    {
      MulMod(Product(shape[1..], i - 1), shape[i]);
      n := n * shape[i] % WORD;
    }
  }

  method TotalElements(shape: seq<nat>) returns (n: nat)
    ensures n == Items(shape) % WORD
  {
    if |shape| == 0 {
      return 0;
    }
    n := 1;
    for i := 0 to |shape|
      invariant n == Product(shape, i) % WORD
    {
      MulMod(Product(shape, i), shape[i]);
      n := n * shape[i] % WORD;
    }
  }

  lemma {:induction false} ProductFromFirst(shape: seq<nat>, i: nat)
    requires 0 < i <= |shape|
    ensures Product(shape, i) == shape[0] * Product(shape[1..], i - 1)
  {
    if i > 1 {
      ProductFromFirst(shape, i - 1);
      var p := Product(shape[1..], i - 2);
      assert shape[0] * p * shape[i - 1] == shape[0] * (p * shape[i - 1]);
    } else {
      assert Product(shape, 1) == Product(shape, 0) * shape[0];
    }
  }

  /** A tensor is its rows, and so is a partition that keeps the other dimensions. */
  lemma ItemsAreRows(shape: seq<nat>, rows: nat)
    requires shape != []
    ensures Items(shape) == shape[0] * RowItems(shape)
    ensures Items(shape[0 := rows]) == rows * RowItems(shape)
  {
    ProductFromFirst(shape, |shape|);
    ProductFromFirst(shape[0 := rows], |shape|);
    assert shape[0 := rows][1..] == shape[1..];
  }
}
