/** Feature hashing and Cartesian hash combination (cpp/common/hash_utils.h). */
module HashCombine {
  import opened Arith

  type Hash = bv64

  /** What the code so far adds to the next one. */
  function Stirred(h: Hash): Hash {
    0x9e3779b9 + (h << 6) + (h >> 2)
  }

  function CombineHashCodes(h: Hash, x: Hash): Hash {
    h ^ (x + Stirred(h))
  }

  /** A first code of zero leaves the second one and the constant. */
  lemma CombineFromZero(x: Hash)
    ensures CombineHashCodes(0, x) == x + 0x9e3779b9
  {}

  /** Undoing the exclusive or with the code so far leaves the new one and what the code so far added to it. */
  lemma CombineAdds(h: Hash, x: Hash)
    ensures CombineHashCodes(h, x) ^ h == x + Stirred(h)
  {
    hide Stirred;
    XorTwice(h, x + Stirred(h));
  }

  lemma XorTwice(h: Hash, y: Hash)
    ensures (h ^ y) ^ h == y
  {}

  // ---- Strings ----

  /** A `char`, which is signed, widened to 64 bits. */
  function Widened(c: bv8): Hash {
    if c < 0x80 then c as bv64 else c as bv64 - 0x100
  }

  /** Sums by name, so that proofs can hide them. */
  function Plus(a: Hash, b: Hash): Hash {
    a + b
  }

  function Times131(seed: Hash): Hash {
    seed * 131
  }

  function NextHash(seed: Hash, c: bv8): Hash {
    Plus(Times131(seed), Widened(c))
  }

  function BKDR(str: seq<bv8>, seed: Hash): Hash
    decreases |str|
  {
    if str == [] then seed else NextHash(BKDR(str[..|str| - 1], seed), str[|str| - 1])
  }

  method BKDRHash(str: seq<bv8>, seed: Hash) returns (h: Hash)
    ensures h == BKDR(str, seed)
  {
    hide NextHash;
    h := seed;
    for i := 0 to |str|
      invariant h == BKDR(str[..i], seed)
    {
      assert str[..i + 1][..i] == str[..i];
      h := NextHash(h, str[i]);
    }
    assert str[..|str|] == str;
  }

  /** Hashing can stop and go on: the code of the first part seeds the rest. */
  lemma {:induction false} BKDRSplits(a: seq<bv8>, b: seq<bv8>, seed: Hash)
    ensures BKDR(a + b, seed) == BKDR(b, BKDR(a, seed))
    decreases |b|
  {
    hide NextHash;
    if b == [] {
      assert a + b == a;
    } else {
      assert (a + b)[..|a + b| - 1] == a + b[..|b| - 1];
      BKDRSplits(a, b[..|b| - 1], seed);
    }
  }

  /** One more character multiplies the code by 128 + 2 + 1 and adds the widened byte. */
  lemma BKDRStep(str: seq<bv8>, c: bv8, seed: Hash)
    ensures BKDR([], seed) == seed
    ensures BKDR(str + [c], seed) == Plus(Shifted(BKDR(str, seed)), Widened(c))
  {
    hide NextHash, Shifted, Widened, Plus;
    assert (str + [c])[..|str|] == str;
    NextIs(BKDR(str, seed), c);
  }

  ghost function Shifted(h: Hash): Hash {
    (h << 7) + (h << 1) + h
  }

  lemma NextIs(h: Hash, c: bv8)
    ensures NextHash(h, c) == Plus(Shifted(h), Widened(c))
  {
    hide Shifted, Widened, Times131, Plus;
    ShiftedIs(h);
  }

  lemma ShiftedIs(h: Hash)
    ensures Times131(h) == Shifted(h)
  {}

  /** Widening repeats the sign bit. */
  lemma SignExtends(c: bv8)
    ensures Widened(c) == if c & 0x80 == 0 then c as Hash else 0xFFFF_FFFF_FFFF_FF00 | c as Hash
  {}

  /** The code of "ab", and of a byte that is negative as a `char`. */
  lemma KnownStringCodes()
    ensures BKDR([97, 98], 0) == 12805 && BKDR([255], 1) == 130
  {
    assert [97 as bv8, 98][..1] == [97];
    assert [97 as bv8][..0] == [] && [255 as bv8][..0] == [];
  }

  // ---- What the combination means ----

  /** The tuples of the first `k` lists, the last component varying fastest. */
  function Tuples(lists: seq<seq<Hash>>, k: nat): seq<seq<Hash>>
    requires k <= |lists|
  {
    if k == 0 then [[]] else ExtendTuples(Tuples(lists, k - 1), lists[k - 1])
  }

  function ExtendTuples(ts: seq<seq<Hash>>, list: seq<Hash>): seq<seq<Hash>> {
    if ts == [] then []
    else ExtendTuples(ts[..|ts| - 1], list) + seq(|list|, q requires 0 <= q < |list| => ts[|ts| - 1] + [list[q]])
  }

  /** The code of a tuple: a left fold, starting with the first component itself. */
  function FoldHash(t: seq<Hash>): Hash
    requires t != []
    decreases |t|
  {
    if |t| == 1 then t[0] else CombineHashCodes(FoldHash(t[..|t| - 1]), t[|t| - 1])
  }

  /** How many tuples the first `k` lists have. */
  function Count(lists: seq<seq<Hash>>, k: nat): nat
    requires k <= |lists|
  {
    if k == 0 then 1
    else
      MulSigns(Count(lists, k - 1), |lists[k - 1]|);
      Mul(Count(lists, k - 1), |lists[k - 1]|)
  }

  lemma {:induction false} ExtendTuplesSize(ts: seq<seq<Hash>>, list: seq<Hash>)
    ensures |ExtendTuples(ts, list)| == Mul(|ts|, |list|)
    ensures forall i :: 0 <= i < |ExtendTuples(ts, list)| ==> ExtendTuples(ts, list)[i] != []
  {
    hide Mul;
    MulStep(|ts| - 1, |list|);
    if ts != [] {
      ExtendTuplesSize(ts[..|ts| - 1], list);
    }
  }

  lemma {:induction false} TupleCount(lists: seq<seq<Hash>>, k: nat)
    requires k <= |lists|
    ensures |Tuples(lists, k)| == Count(lists, k)
    ensures k > 0 ==> forall i :: 0 <= i < |Tuples(lists, k)| ==> Tuples(lists, k)[i] != []
  {
    hide Mul, ExtendTuples;
    if k > 0 {
      TupleCount(lists, k - 1);
      ExtendTuplesSize(Tuples(lists, k - 1), lists[k - 1]);
    }
  }

  /** Which tuple stands where: the last list is walked through for each tuple of the lists before it. */
  lemma TupleAt(lists: seq<seq<Hash>>, k: nat, l: nat, q: nat)
    requires 0 < k <= |lists| && l < |Tuples(lists, k - 1)| && q < |lists[k - 1]|
    ensures 0 <= Mul(l, |lists[k - 1]|) && Mul(l, |lists[k - 1]|) + q < |Tuples(lists, k)|
    ensures Tuples(lists, k)[Mul(l, |lists[k - 1]|) + q] == Tuples(lists, k - 1)[l] + [lists[k - 1][q]]
    ensures Tuples(lists, 0) == [[]]
  {
    hide Mul, ExtendTuples;
    ExtendTuplesAt(Tuples(lists, k - 1), lists[k - 1], l, q);
  }

  lemma {:induction false} ExtendTuplesAt(ts: seq<seq<Hash>>, list: seq<Hash>, l: nat, q: nat)
    requires l < |ts| && q < |list|
    ensures 0 <= Mul(l, |list|) && Mul(l, |list|) + q < |ExtendTuples(ts, list)| == Mul(|ts|, |list|)
    ensures ExtendTuples(ts, list)[Mul(l, |list|) + q] == ts[l] + [list[q]]
  {
    hide Mul;
    var front := ts[..|ts| - 1];
    MulSigns(l, |list|);
    MulStep(|front|, |list|);
    ExtendTuplesSize(front, list);
    if l < |front| {
      ExtendTuplesAt(front, list, l, q);
    }
  }

  /** The codes of all tuples, in row-major order. */
  function TupleHashes(lists: seq<seq<Hash>>): (hs: seq<Hash>)
    requires lists != []
    ensures |hs| == Count(lists, |lists|)
  {
    TupleCount(lists, |lists|);
    var ts := Tuples(lists, |lists|);
    seq(|ts|, i requires 0 <= i < |ts| => FoldHash(ts[i]))
  }

  /** The codes of two and of three single elements. */
  lemma KnownTupleCodes()
    ensures FoldHash([1, 2]) == 0x9e3779fa && FoldHash([1, 2, 3]) == 0x28cd94af40
    ensures TupleHashes([[1], [2]]) == [0x9e3779fa]
  {
    assert [1 as Hash, 2][..1] == [1] && [1 as Hash, 2, 3][..2] == [1, 2];
    OneTuple(1, 2);
  }

  lemma OneTuple(a: Hash, b: Hash)
    ensures TupleHashes([[a], [b]]) == [FoldHash([a, b])]
  {
    hide FoldHash, ExtendTuples;
    var lists := [[a], [b]];
    TupleAt(lists, 1, 0, 0);
    TupleAt(lists, 2, 0, 0);
    TupleCount(lists, 1);
    TupleCount(lists, 2);
    assert Count(lists, 1) == 1 && Count(lists, 2) == 1;
    assert [] + [a] == [a] && [a] + [b] == [a, b];
  }

  // ---- The codes list by list ----

  /** Every code combined with every element, codes outermost. */
  function Extend(hs: seq<Hash>, list: seq<Hash>): seq<Hash> {
    if hs == [] then []
    else
      Extend(hs[..|hs| - 1], list)
      + seq(|list|, q requires 0 <= q < |list| => CombineHashCodes(hs[|hs| - 1], list[q]))
  }

  /** The codes of the tuples of the first `k` lists. */
  function Codes(lists: seq<seq<Hash>>, k: nat): seq<Hash>
    requires 0 < k <= |lists|
  {
    if k == 1 then lists[0] else Extend(Codes(lists, k - 1), lists[k - 1])
  }

  ghost function Folds(ts: seq<seq<Hash>>): (hs: seq<Hash>)
    requires forall i :: 0 <= i < |ts| ==> ts[i] != []
    ensures |hs| == |ts|
  {
    seq(|ts|, i requires 0 <= i < |ts| => FoldHash(ts[i]))
  }

  lemma {:induction false} FoldsExtend(ts: seq<seq<Hash>>, list: seq<Hash>)
    requires forall i :: 0 <= i < |ts| ==> ts[i] != []
    ensures forall i :: 0 <= i < |ExtendTuples(ts, list)| ==> ExtendTuples(ts, list)[i] != []
    ensures Folds(ExtendTuples(ts, list)) == Extend(Folds(ts), list)
  {
    hide CombineHashCodes;
    ExtendTuplesSize(ts, list);
    if ts != [] {
      var front, last := ts[..|ts| - 1], ts[|ts| - 1];
      ExtendTuplesSize(front, list);
      FoldsExtend(front, list);
      assert Folds(ts)[..|ts| - 1] == Folds(front);
      var block := seq(|list|, q requires 0 <= q < |list| => last + [list[q]]);
      forall q | 0 <= q < |list| ensures FoldHash(block[q]) == CombineHashCodes(FoldHash(last), list[q]) {
        assert block[q][..|last|] == last;
      }
      assert Folds(ExtendTuples(front, list) + block) == Folds(ExtendTuples(front, list)) + Folds(block);
    }
  }

  lemma {:induction false} CodesAreFolds(lists: seq<seq<Hash>>, k: nat)
    requires 0 < k <= |lists|
    ensures |Tuples(lists, k)| == Count(lists, k)
    ensures forall i :: 0 <= i < |Tuples(lists, k)| ==> Tuples(lists, k)[i] != []
    ensures Codes(lists, k) == Folds(Tuples(lists, k))
  {
    hide Mul, Extend, CombineHashCodes;
    TupleCount(lists, k);
    TupleCount(lists, k - 1);
    if k == 1 {
      FirstTuples(lists);
    } else {
      CodesAreFolds(lists, k - 1);
      FoldsExtend(Tuples(lists, k - 1), lists[k - 1]);
    }
  }

  lemma FirstTuples(lists: seq<seq<Hash>>)
    requires lists != []
    ensures |Tuples(lists, 1)| == |lists[0]|
    ensures forall i :: 0 <= i < |lists[0]| ==> Tuples(lists, 1)[i] == [lists[0][i]]
  {
    var none: seq<seq<Hash>> := [[]];
    assert none[..0] == [];
    assert Tuples(lists, 1) == ExtendTuples(none, lists[0]);
  }

  // ---- Blocks of equal codes ----

  /** Every element repeated `d` times. */
  function Stretch(s: seq<Hash>, d: nat): seq<Hash> {
    if s == [] then [] else Stretch(s[..|s| - 1], d) + seq(d, _ => s[|s| - 1])
  }

  /** Position `c * d + r` is in block `c`. */
  lemma {:induction false} StretchAt(s: seq<Hash>, d: nat, c: nat, r: nat)
    requires c < |s| && r < d
    ensures |Stretch(s, d)| == Mul(|s|, d) && 0 <= Mul(c, d) && Mul(c, d) + r < Mul(|s|, d)
    ensures Stretch(s, d)[Mul(c, d) + r] == s[c]
  {
    hide Mul;
    StretchSize(s, d);
    StretchSize(s[..|s| - 1], d);
    MulStep(|s| - 1, d);
    MulSigns(c, d);
    if c < |s| - 1 {
      StretchAt(s[..|s| - 1], d, c, r);
    }
  }

  lemma {:induction false} StretchSize(s: seq<Hash>, d: nat)
    ensures |Stretch(s, d)| == Mul(|s|, d)
  {
    hide Mul;
    MulStep(|s| - 1, d);
    if s != [] {
      StretchSize(s[..|s| - 1], d);
    }
  }

  lemma {:induction false} StretchByOne(s: seq<Hash>)
    ensures Stretch(s, 1) == s
  {
    if s != [] {
      StretchByOne(s[..|s| - 1]);
    }
  }

  lemma {:induction false} ExtendAt(hs: seq<Hash>, list: seq<Hash>, l: nat, q: nat)
    requires l < |hs| && q < |list|
    ensures |Extend(hs, list)| == Mul(|hs|, |list|) && 0 <= Mul(l, |list|) && Mul(l, |list|) + q < Mul(|hs|, |list|)
    ensures Extend(hs, list)[Mul(l, |list|) + q] == CombineHashCodes(hs[l], list[q])
  {
    hide Mul, CombineHashCodes;
    ExtendSize(hs, list);
    ExtendSize(hs[..|hs| - 1], list);
    MulStep(|hs| - 1, |list|);
    MulSigns(l, |list|);
    if l < |hs| - 1 {
      ExtendAt(hs[..|hs| - 1], list, l, q);
    }
  }

  lemma {:induction false} ExtendSize(hs: seq<Hash>, list: seq<Hash>)
    ensures |Extend(hs, list)| == Mul(|hs|, |list|)
  {
    hide Mul, CombineHashCodes;
    MulStep(|hs| - 1, |list|);
    if hs != [] {
      ExtendSize(hs[..|hs| - 1], list);
    }
  }

  lemma {:induction false} CodesSize(lists: seq<seq<Hash>>, k: nat)
    requires 0 < k <= |lists|
    ensures |Codes(lists, k)| == Count(lists, k)
  {
    hide Mul;
    if k == 1 {
      MulStep(0, |lists[0]|);
    } else {
      CodesSize(lists, k - 1);
      ExtendSize(Codes(lists, k - 1), lists[k - 1]);
    }
  }

  /** The product of the sizes of the lists after `i`: how long one element of list `i` lasts. */
  function Rest(lists: seq<seq<Hash>>, i: nat): nat
    requires i < |lists|
    decreases |lists| - i
  {
    if i == |lists| - 1 then 1
    else
      MulSigns(Rest(lists, i + 1), |lists[i + 1]|);
      Mul(Rest(lists, i + 1), |lists[i + 1]|)
  }

  lemma MulAssoc(a: int, b: int, c: int)
    ensures Mul(Mul(a, b), c) == Mul(a, Mul(b, c)) && Mul(a, b) == Mul(b, a)
  {
    assert a * b * c == a * (b * c);
  }

  /** The whole result splits at every list. */
  lemma {:induction false} CountSplits(lists: seq<seq<Hash>>, i: nat)
    requires i < |lists|
    ensures Mul(Count(lists, i + 1), Rest(lists, i)) == Count(lists, |lists|)
    decreases |lists| - i
  {
    hide Mul;
    if i == |lists| - 1 {
      MulStep(0, Count(lists, |lists|));
      MulSigns(1, Count(lists, |lists|));
    } else {
      CountSplits(lists, i + 1);
      MulAssoc(Count(lists, i + 1), |lists[i + 1]|, Rest(lists, i + 1));
      MulAssoc(|lists[i + 1]|, Rest(lists, i + 1), 1);
    }
  }

  // ---- The flat loops ----

  /** The cells `[base, base + d)` of `before` are rewritten by `f`, the others kept. */
  ghost predicate BlockDone(before: seq<Hash>, now: seq<Hash>, base: nat, d: nat, first: bool, hash: Hash) {
    && |now| == |before|
    && forall k :: 0 <= k < |now| ==>
         now[k] == if k < base || base + d <= k then before[k]
                   else if first then hash
                   else CombineHashCodes(before[k], hash)
  }

  /** The innermost loop: one element of a list over its run of `d` cells. */
  method WriteRun(result: array<Hash>, base: nat, d: nat, first: bool, hash: Hash)
    requires base + d <= result.Length
    modifies result
    ensures BlockDone(old(result[..]), result[..], base, d, first, hash)
  {
    hide CombineHashCodes;
    for r := 0 to d
      invariant forall k :: 0 <= k < result.Length ==>
                  result[k] == if k < base || base + r <= k then old(result[k])
                               else if first then hash
                               else CombineHashCodes(old(result[k]), hash)
    {
      if first {
        result[base + r] := hash;
      } else {
        var h := result[base + r];
        result[base + r] := CombineHashCodes(h, hash);
      }
    }
  }

  /** `now` is `after` below position `pos` and `before` from there on. */
  ghost predicate Swept(now: seq<Hash>, after: seq<Hash>, before: seq<Hash>, pos: nat) {
    |now| == |after| == |before| && pos <= |now|
    && (forall k :: 0 <= k < pos ==> now[k] == after[k])
    && (forall k :: pos <= k < |now| ==> now[k] == before[k])
  }

  /** One run moves the sweep on, when the run's cells are what they should become. */
  lemma SweepRun(was: seq<Hash>, now: seq<Hash>, after: seq<Hash>, before: seq<Hash>, base: nat, d: nat, first: bool,
                 hash: Hash)
    requires Swept(was, after, before, base) && BlockDone(was, now, base, d, first, hash) && base + d <= |was|
    requires forall k :: base <= k < base + d ==> after[k] == if first then hash else CombineHashCodes(before[k], hash)
    ensures Swept(now, after, before, base + d)
  {
    hide CombineHashCodes;
  }

  /**
    One list's turn over the flat result: `hs` are the codes so far, each lasting for
    `|list| * d` cells of `before`, and `codes` the codes with this list, each lasting `d`.
   */
  ghost predicate Turn(hs: seq<Hash>, codes: seq<Hash>, list: seq<Hash>, d: nat, first: bool, before: seq<Hash>) {
    && |codes| == Mul(|hs|, |list|) && |before| == Mul(|codes|, d)
    && (first ==> |hs| == 1 && codes == list)
    && (!first ==> codes == Extend(hs, list) && before == Stretch(hs, Mul(|list|, d)))
  }

  lemma RunStays(hs: seq<Hash>, codes: seq<Hash>, list: seq<Hash>, d: nat, first: bool, before: seq<Hash>, l: nat,
                 q: nat)
    requires Turn(hs, codes, list, d, first, before) && l < |hs| && q < |list|
    ensures 0 <= Mul(l, |list|)
    ensures var c := Mul(l, |list|) + q;
            && c < |codes| && 0 <= Mul(c, d) && Mul(c, d) + d == Mul(c + 1, d) <= |before| == |Stretch(codes, d)|
            && forall k :: Mul(c, d) <= k < Mul(c, d) + d ==>
                 Stretch(codes, d)[k] == if first then list[q] else CombineHashCodes(before[k], list[q])
  {
    hide Mul, CombineHashCodes, Stretch, Extend;
    var c := Mul(l, |list|) + q;
    MulSigns(l, |list|);
    MulLess(l, |hs|, |list|, q);
    MulSigns(c, d);
    MulLess(c, |codes|, d, 0);
    MulStep(c, d);
    MulAtMost(c + 1, |codes|, d);
    StretchSize(codes, d);
    forall k | Mul(c, d) <= k < Mul(c, d) + d
      ensures Stretch(codes, d)[k] == if first then list[q] else CombineHashCodes(before[k], list[q])
    {
      StretchAt(codes, d, c, k - Mul(c, d));
      if first {
        MulStep(0, |list|);
      } else {
        ExtendAt(hs, list, l, q);
        CellOf(l, q, |list|, d, k);
        StretchAt(hs, Mul(|list|, d), l, k - Mul(l, Mul(|list|, d)));
      }
    }
  }

  lemma MulAtMost(a: nat, b: nat, d: nat)
    requires a <= b
    ensures Mul(a, d) <= Mul(b, d)
  {
    assert b * d == a * d + (b - a) * d;
    assert (b - a) * d >= 0;
  }

  lemma MulLess(a: nat, b: nat, d: nat, r: nat)
    requires a < b && (r < d || r == 0)
    ensures r < d ==> Mul(a, d) + r < Mul(b, d)
    ensures Mul(a, d) + d <= Mul(b, d)
  {
    hide Mul;
    MulStep(a, d);
    MulAtMost(a + 1, b, d);
  }

  /** A cell of run `q` of block `l` is in the block. */
  lemma CellOf(l: nat, q: nat, size: nat, d: nat, k: nat)
    requires q < size && 0 <= Mul(l, size) && Mul(Mul(l, size) + q, d) <= k < Mul(Mul(l, size) + q, d) + d
    ensures Mul(l, Mul(size, d)) <= k < Mul(l, Mul(size, d)) + Mul(size, d)
    ensures Mul(size, d) >= 0
  {
    hide Mul;
    MulDistributes(Mul(l, size), q, d);
    MulAssoc(l, size, d);
    MulSigns(q, d);
    MulSigns(size, d);
    MulLess(q, size, d, 0);
  }

  lemma MulDistributes(a: int, b: int, d: int)
    ensures Mul(a + b, d) == Mul(a, d) + Mul(b, d)
  {}

  /** The three nested loops for one list, over `loops` blocks. */
  method SweepList(result: array<Hash>, list: seq<Hash>, loops: nat, eachRepeat: nat, first: bool, ghost hs: seq<Hash>,
                   ghost codes: seq<Hash>)
    requires Turn(hs, codes, list, eachRepeat, first, result[..]) && loops == |hs|
    modifies result
    ensures result[..] == Stretch(codes, eachRepeat)
  {
    hide Mul, CombineHashCodes, Stretch, Extend, Turn, Swept, BlockDone;
    ghost var before, after := result[..], Stretch(codes, eachRepeat);
    SweepStart(hs, codes, list, eachRepeat, first, before);
    for l := 0 to loops
      invariant 0 <= Mul(l, |list|) && 0 <= Mul(Mul(l, |list|), eachRepeat)
      invariant Swept(result[..], after, before, Mul(Mul(l, |list|), eachRepeat))
    {
      var base := Mul(Mul(l, |list|), eachRepeat);
      for q := 0 to |list|
        invariant 0 <= Mul(l, |list|) && base == Mul(Mul(l, |list|) + q, eachRepeat) && 0 <= base
        invariant Swept(result[..], after, before, base)
      {
        RunStays(hs, codes, list, eachRepeat, first, before, l, q);
        ghost var was := result[..];
        WriteRun(result, base, eachRepeat, first, list[q]);
        SweepRun(was, result[..], after, before, base, eachRepeat, first, list[q]);
        base := base + eachRepeat;
      }
      MulStep(l, |list|);
    }
    SweepEnd(hs, codes, list, eachRepeat, first, before, result[..]);
  }

  lemma SweepStart(hs: seq<Hash>, codes: seq<Hash>, list: seq<Hash>, d: nat, first: bool, before: seq<Hash>)
    requires Turn(hs, codes, list, d, first, before)
    ensures Mul(0, |list|) == 0 && Mul(0, d) == 0 && Swept(before, Stretch(codes, d), before, 0)
  {
    StretchSize(codes, d);
  }

  lemma SweepEnd(hs: seq<Hash>, codes: seq<Hash>, list: seq<Hash>, d: nat, first: bool, before: seq<Hash>,
                 now: seq<Hash>)
    requires Turn(hs, codes, list, d, first, before)
    requires 0 <= Mul(|hs|, |list|) && 0 <= Mul(Mul(|hs|, |list|), d)
    requires Swept(now, Stretch(codes, d), before, Mul(Mul(|hs|, |list|), d))
    ensures now == Stretch(codes, d)
  {
    hide Stretch;
    StretchSize(codes, d);
  }

  // ---- The whole combination ----

  /** `prd_fwd`: how many blocks each list's turn has. */
  method ForwardProducts(lists: seq<seq<Hash>>) returns (fwd: array<nat>)
    requires lists != []
    ensures fresh(fwd) && fwd.Length == |lists|
    ensures forall i :: 0 <= i < |lists| ==> fwd[i] == Count(lists, i)
  {
    hide Mul;
    fwd := new nat[|lists|];
    fwd[0] := 1;
    for i := 1 to |lists|
      invariant forall j :: 0 <= j < i ==> fwd[j] == Count(lists, j)
    {
      MulSigns(fwd[i - 1], |lists[i - 1]|);
      fwd[i] := Mul(fwd[i - 1], |lists[i - 1]|);
    }
  }

  /** `prd_bwd`: how long one element of each list lasts. */
  method BackwardProducts(lists: seq<seq<Hash>>) returns (bwd: array<nat>)
    requires lists != []
    ensures fresh(bwd) && bwd.Length == |lists|
    ensures forall i :: 0 <= i < |lists| ==> bwd[i] == Rest(lists, i)
  {
    hide Mul;
    bwd := new nat[|lists|];
    bwd[|lists| - 1] := 1;
    var i := |lists| - 1;
    while i > 0
      invariant 0 <= i < |lists|
      invariant forall j :: i <= j < |lists| ==> bwd[j] == Rest(lists, j)
    {
      MulSigns(bwd[i], |lists[i]|);
      bwd[i - 1] := Mul(bwd[i], |lists[i]|);
      i := i - 1;
    }
  }

  /** The state before list `i`, and what its turn needs. */
  lemma TurnOf(lists: seq<seq<Hash>>, i: nat, before: seq<Hash>)
    requires 0 < i < |lists| && before == Stretch(Codes(lists, i), Rest(lists, i - 1))
    ensures Turn(Codes(lists, i), Codes(lists, i + 1), lists[i], Rest(lists, i), false, before)
    ensures |Codes(lists, i)| == Count(lists, i)
  {
    hide Mul, Stretch, Extend;
    CodesSize(lists, i);
    CodesSize(lists, i + 1);
    CountSplits(lists, i);
    CountSplits(lists, i - 1);
    MulAssoc(Rest(lists, i), |lists[i]|, 1);
    StretchSize(Codes(lists, i), Rest(lists, i - 1));
  }

  lemma FirstTurn(lists: seq<seq<Hash>>, before: seq<Hash>)
    requires lists != [] && |before| == Count(lists, |lists|)
    ensures Turn([0], Codes(lists, 1), lists[0], Rest(lists, 0), true, before)
    ensures Count(lists, 0) == 1
  {
    hide Mul;
    CountSplits(lists, 0);
    MulStep(0, |lists[0]|);
  }

  lemma ProductsOfSizes(c: nat, n: nat)
    ensures c == 0 || n == 0 ==> Mul(c, n) == 0
    ensures c > 0 && n > 0 && (c > 1 || n > 1) ==> Mul(c, n) > 1
  {
    hide Mul;
    MulStep(0, n);
    MulStep(0, c);
    MulSigns(c, n);
    MulSigns(n, c);
    if c > 0 && n > 0 {
      MulAtMost(1, c, n);
      MulAtMost(1, n, c);
    }
  }

  /** A product of sizes is one only when every size is. */
  lemma {:induction false} AllSingletons(lists: seq<seq<Hash>>, k: nat)
    requires k <= |lists| && Count(lists, k) == 1
    ensures forall i :: 0 <= i < k ==> |lists[i]| == 1
  {
    hide Mul;
    if k > 0 {
      ProductsOfSizes(Count(lists, k - 1), |lists[k - 1]|);
      AllSingletons(lists, k - 1);
    }
  }

  /** One list more, of one element, extends the one code. */
  lemma SingleCode(lists: seq<seq<Hash>>, k: nat)
    requires 0 < k < |lists| && |lists[k]| == 1 && |Codes(lists, k)| == 1
    ensures Codes(lists, k + 1) == [CombineHashCodes(Codes(lists, k)[0], lists[k][0])]
  {
    hide CombineHashCodes;
    var hs := Codes(lists, k);
    assert hs[..0] == [] && Extend(hs[..0], lists[k]) == [];
  }

  /** The general path: one flat array, swept once per list. */
  method CombineFlat(lists: seq<seq<Hash>>, totalResults: nat) returns (appended: seq<Hash>)
    requires lists != [] && totalResults == Count(lists, |lists|)
    ensures appended == Codes(lists, |lists|)
  {
    hide Mul, CombineHashCodes, Stretch, Codes, Count, Rest, Turn;
    var fwd := ForwardProducts(lists);
    var bwd := BackwardProducts(lists);
    var result := new Hash[totalResults](_ => 0);
    FirstTurn(lists, result[..]);
    SweepList(result, lists[0], fwd[0], bwd[0], true, [0], Codes(lists, 1));
    for i := 1 to |lists|
      invariant result[..] == Stretch(Codes(lists, i), Rest(lists, i - 1))
      invariant forall j :: 0 <= j < |lists| ==> fwd[j] == Count(lists, j) && bwd[j] == Rest(lists, j)
    {
      TurnOf(lists, i, result[..]);
      SweepList(result, lists[i], fwd[i], bwd[i], false, Codes(lists, i), Codes(lists, i + 1));
    }
    LastStretch(lists);
    appended := [];
    for k := 0 to result.Length
      invariant appended == result[..k]
    {
      appended := appended + [result[k]];
    }
  }

  lemma LastStretch(lists: seq<seq<Hash>>)
    requires lists != []
    ensures Stretch(Codes(lists, |lists|), Rest(lists, |lists| - 1)) == Codes(lists, |lists|)
  {
    StretchByOne(Codes(lists, |lists|));
  }

  /**
    Combines one feature.  Given the right number of results, every path appends exactly
    the codes of all tuples, in row-major order.
   */
  method CombineOneFeature(lists: seq<seq<Hash>>, totalResults: nat) returns (appended: seq<Hash>)
    requires lists != [] && totalResults == Count(lists, |lists|)
    ensures appended == TupleHashes(lists)
    ensures var ts := Tuples(lists, |lists|);
            |appended| == |ts| && forall i :: 0 <= i < |ts| ==> ts[i] != [] && appended[i] == FoldHash(ts[i])
  {
    TupleCount(lists, |lists|);
    hide Mul, CombineHashCodes, Stretch, Extend, Tuples, FoldHash;
    CodesAreFolds(lists, |lists|);
    assert TupleHashes(lists) == Codes(lists, |lists|);
    if totalResults == 1 {
      AllSingletons(lists, |lists|);
      var h := lists[0][0];
      for i := 1 to |lists|
        invariant Codes(lists, i) == [h]
      {
        SingleCode(lists, i);
        h := CombineHashCodes(h, lists[i][0]);
      }
      appended := [h];
    } else if |lists| == 1 {
      appended := [];
      for i := 0 to |lists[0]|
        invariant appended == lists[0][..i]
      {
        appended := appended + [lists[0][i]];
      }
    } else {
      appended := CombineFlat(lists, totalResults);
    }
  }

  /** An empty list leaves nothing to append. */
  lemma {:induction false} EmptyListEmptiesAll(lists: seq<seq<Hash>>, i: nat, k: nat)
    requires i < k <= |lists| && lists[i] == []
    ensures Count(lists, k) == 0
  {
    hide Mul;
    MulStep(0, |lists[k - 1]|);
    MulSigns(Count(lists, k - 1), 0);
    MulStep(0, Count(lists, k - 1));
    if i < k - 1 {
      EmptyListEmptiesAll(lists, i, k - 1);
    }
  }
}
