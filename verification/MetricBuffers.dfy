/** Bucketed AUC (cpp/metaspore/model_metric_buffer.cpp), over reals. */
module MetricBuffers {

  /** The sum of the first `n` entries. */
  function Sum(s: seq<real>, n: nat): real
    requires n <= |s|
  {
    if n == 0 then 0.0 else Sum(s, n - 1) + s[n - 1]
  }

  /** Products by name, so that proofs can hide them. */
  function Times(a: real, b: real): real {
    a * b
  }

  lemma TimesAdds(a: real, b: real, c: real)
    ensures Times(a + b, c) == Times(a, c) + Times(b, c)
    ensures Times(c, a + b) == Times(c, a) + Times(c, b)
    ensures Times(a, b) == Times(b, a)
    ensures Times(0.5 * a, b) == 0.5 * Times(a, b)
    ensures Times(0.0, a) == 0.0 == Times(a, 0.0)
  {}

  predicate NonNegative(s: seq<real>) {
    forall i :: 0 <= i < |s| ==> s[i] >= 0.0
  }

  // ---- Filling the buffers ----

  /** The bucket of a prediction: the product cut off below the point. */
  function Bucket(pred: real, n: nat): int {
    (pred * (n - 1) as real).Floor
  }

  lemma BucketInRange(pred: real, n: nat)
    requires 0.0 <= pred <= 1.0 && n > 0
    ensures 0 <= Bucket(pred, n) < n
  {
    var m := (n - 1) as real;
    assert 0.0 <= pred * m <= m;
  }

  /** Bucket `b` takes the predictions from `b` to `b + 1` parts in `n - 1`. */
  predicate FallsInto(pred: real, n: nat, b: int) {
    b as real <= pred * (n - 1) as real < (b + 1) as real
  }

  lemma BucketIs(pred: real, n: nat, b: int)
    ensures Bucket(pred, n) == b <==> FallsInto(pred, n, b)
  {}

  /** One more instance changes the one bucket its prediction falls into, by the weight of its label. */
  lemma InstanceCounts(preds: seq<real>, labels: seq<real>, n: nat, b: int, i: nat)
    requires i < |labels| <= |preds|
    ensures var here := FallsInto(preds[i], n, b);
            && WeightIn(preds, labels, n, b, true, 0) == WeightIn(preds, labels, n, b, false, 0) == 0.0
            && WeightIn(preds, labels, n, b, true, i + 1)
               == WeightIn(preds, labels, n, b, true, i) + (if here && labels[i] > 0.0 then labels[i] else 0.0)
            && WeightIn(preds, labels, n, b, false, i + 1)
               == WeightIn(preds, labels, n, b, false, i)
                  + (if !here || labels[i] > 0.0 then 0.0 else if labels[i] < 0.0 then -labels[i] else 1.0)
  {
    hide Bucket, FallsInto;
    BucketIs(preds[i], n, b);
  }

  lemma OneInstance(preds: seq<real>, labels: seq<real>, n: nat)
    requires |labels| == 1 <= |preds|
    ensures forall b ::
              var here := FallsInto(preds[0], n, b);
              && WeightIn(preds, labels, n, b, true, 1) == (if here && labels[0] > 0.0 then labels[0] else 0.0)
              && WeightIn(preds, labels, n, b, false, 1)
                 == if !here || labels[0] > 0.0 then 0.0 else if labels[0] < 0.0 then -labels[0] else 1.0
  {
    hide WeightIn, FallsInto;
    forall b
      ensures var here := FallsInto(preds[0], n, b);
              && WeightIn(preds, labels, n, b, true, 1) == (if here && labels[0] > 0.0 then labels[0] else 0.0)
              && WeightIn(preds, labels, n, b, false, 1)
                 == if !here || labels[0] > 0.0 then 0.0 else if labels[0] < 0.0 then -labels[0] else 1.0
    {
      InstanceCounts(preds, labels, n, b, 0);
    }
  }

  function PositiveWeight(lab: real): (w: real)
    ensures w >= 0.0
  {
    if lab > 0.0 then lab else 0.0
  }

  /** A negative label weighs its size, a zero label weighs one. */
  function NegativeWeight(lab: real): (w: real)
    ensures w >= 0.0
  {
    if lab > 0.0 then 0.0 else if lab < 0.0 then -lab else 1.0
  }

  /** The weight of the first `i` instances that fall into bucket `b`. */
  function WeightIn(preds: seq<real>, labels: seq<real>, n: nat, b: int, positive: bool, i: nat): real
    requires i <= |labels| <= |preds|
  {
    if i == 0 then 0.0
    else
      WeightIn(preds, labels, n, b, positive, i - 1)
      + if Bucket(preds[i - 1], n) != b then 0.0
        else if positive then PositiveWeight(labels[i - 1]) else NegativeWeight(labels[i - 1])
  }

  /** The weight of the first `i` instances in all. */
  function Weight(labels: seq<real>, positive: bool, i: nat): real
    requires i <= |labels|
  {
    if i == 0 then 0.0
    else
      Weight(labels, positive, i - 1)
      + if positive then PositiveWeight(labels[i - 1]) else NegativeWeight(labels[i - 1])
  }

  predicate Probabilities(preds: seq<real>) {
    forall i :: 0 <= i < |preds| ==> 0.0 <= preds[i] <= 1.0
  }

  /** Every bucket gains exactly the weight of the instances predicted into it. */
  method UpdateBuffer(positive: array<real>, negative: array<real>, preds: seq<real>, labels: seq<real>)
    requires positive != negative && positive.Length == negative.Length > 0
    requires |labels| <= |preds| && Probabilities(preds)
    modifies positive, negative
    ensures forall b :: 0 <= b < positive.Length ==>
              positive[b] == old(positive[b]) + WeightIn(preds, labels, positive.Length, b, true, |labels|)
    ensures forall b :: 0 <= b < negative.Length ==>
              negative[b] == old(negative[b]) + WeightIn(preds, labels, negative.Length, b, false, |labels|)
    ensures forall b :: 0 <= b < positive.Length && |labels| == 1 ==>
              var here := FallsInto(preds[0], positive.Length, b);
              var lab := labels[0];
              && positive[b] == old(positive[b]) + (if here && lab > 0.0 then lab else 0.0)
              && negative[b] == old(negative[b])
                                + (if !here || lab > 0.0 then 0.0 else if lab < 0.0 then -lab else 1.0)
  {
    hide Bucket, FallsInto;
    var n := positive.Length;
    for i := 0 to |labels|
      invariant forall b :: 0 <= b < n ==> positive[b] == old(positive[b]) + WeightIn(preds, labels, n, b, true, i)
      invariant forall b :: 0 <= b < n ==> negative[b] == old(negative[b]) + WeightIn(preds, labels, n, b, false, i)
    {
      BucketInRange(preds[i], n);
      var bucket := Bucket(preds[i], n);
      if labels[i] > 0.0 {
        positive[bucket] := positive[bucket] + labels[i];
      } else if labels[i] < 0.0 {
        negative[bucket] := negative[bucket] + -labels[i];
      } else {
        negative[bucket] := negative[bucket] + 1.0;
      }
    }
    if |labels| == 1 {
      OneInstance(preds, labels, n);
    }
  }

  lemma {:induction false} SumUpdate(s: seq<real>, k: nat, x: real, n: nat)
    requires k < |s| && n <= |s|
    ensures Sum(s[k := x], n) == Sum(s, n) + if k < n then x - s[k] else 0.0
  {
    if n > 0 {
      SumUpdate(s, k, x, n - 1);
    }
  }

  /** The buckets after the first `i` instances. */
  ghost function Filled(buffer: seq<real>, preds: seq<real>, labels: seq<real>, positive: bool, i: nat): (r: seq<real>)
    requires i <= |labels| <= |preds|
    ensures |r| == |buffer|
  {
    seq(|buffer|, b requires 0 <= b < |buffer| => buffer[b] + WeightIn(preds, labels, |buffer|, b, positive, i))
  }

  /** An update loses no weight and adds none: the sums grow by the labels' weight. */
  lemma {:induction false} UpdateConservesWeight(buffer: seq<real>, preds: seq<real>, labels: seq<real>, positive: bool,
                                                 i: nat)
    requires i <= |labels| <= |preds| && Probabilities(preds) && |buffer| > 0
    ensures Sum(Filled(buffer, preds, labels, positive, i), |buffer|)
            == Sum(buffer, |buffer|) + Weight(labels, positive, i)
  {
    hide Bucket, Sum;
    if i == 0 {
      assert Filled(buffer, preds, labels, positive, 0) == buffer;
    } else {
      UpdateConservesWeight(buffer, preds, labels, positive, i - 1);
      var before, bucket := Filled(buffer, preds, labels, positive, i - 1), Bucket(preds[i - 1], |buffer|);
      BucketInRange(preds[i - 1], |buffer|);
      var w := if positive then PositiveWeight(labels[i - 1]) else NegativeWeight(labels[i - 1]);
      SumUpdate(before, bucket, before[bucket] + w, |buffer|);
      assert Filled(buffer, preds, labels, positive, i) == before[bucket := before[bucket] + w];
    }
  }

  // ---- The area under the curve ----

  /** What the running sum adds for bucket `i`: its negatives times the positives below it, half counting its own. */
  function Accumulated(pos: seq<real>, neg: seq<real>, n: nat): real
    requires n <= |pos| == |neg|
  {
    if n == 0 then 0.0
    else Accumulated(pos, neg, n - 1) + Times(0.5 * (Sum(pos, n - 1) + Sum(pos, n)), neg[n - 1])
  }

  /** The result the code returns. */
  function Auc(pos: seq<real>, neg: seq<real>): real
    requires |pos| == |neg|
  {
    var p, n := Sum(pos, |pos|), Sum(neg, |neg|);
    if p == 0.0 then if n > 0.0 then 0.0 else 1.0
    else if n == 0.0 then 1.0
    else 1.0 - Accumulated(pos, neg, |pos|) / p / n
  }

  method ComputeAUC(positive: array<real>, negative: array<real>) returns (auc: real)
    requires positive.Length == negative.Length
    ensures auc == Auc(positive[..], negative[..])
    ensures var p, n := Sum(positive[..], positive.Length), Sum(negative[..], negative.Length);
            && (p == 0.0 && n > 0.0 ==> auc == 0.0)
            && (p == 0.0 && n <= 0.0 ==> auc == 1.0)
            && (p != 0.0 && n == 0.0 ==> auc == 1.0)
  {
    ghost var ps, ns := positive[..], negative[..];
    auc := 0.0;
    var prevPosSum, posSum, negSum := 0.0, 0.0, 0.0;
    for i := 0 to positive.Length
      invariant posSum == Sum(ps, i) && negSum == Sum(ns, i) && auc == Accumulated(ps, ns, i)
    {
      var pos, neg := positive[i], negative[i];
      prevPosSum := posSum;
      posSum := posSum + pos;
      negSum := negSum + neg;
      auc := auc + Times(0.5 * (prevPosSum + posSum), neg);
    }
    if posSum == 0.0 {
      auc := if negSum > 0.0 then 0.0 else 1.0;
    } else if negSum == 0.0 {
      auc := 1.0;
    } else {
      auc := 1.0 - auc / posSum / negSum;
    }
  }

  /** How a negative in bucket `i` and a positive in bucket `j` count: one when ranked right, half when tied. */
  function Ranked(pos: seq<real>, neg: seq<real>, i: nat, j: nat): real
    requires i < |neg| && j < |pos|
  {
    if i < j then Times(pos[j], neg[i]) else if i == j then 0.5 * Times(pos[j], neg[i]) else 0.0
  }

  /** All positives of the first `j` buckets against the negatives of bucket `i`. */
  function RankedRow(pos: seq<real>, neg: seq<real>, i: nat, j: nat): real
    requires i < |neg| && j <= |pos|
  {
    if j == 0 then 0.0 else RankedRow(pos, neg, i, j - 1) + Ranked(pos, neg, i, j - 1)
  }

  /** All pairs with a negative in the first `i` buckets. */
  function RankedPairs(pos: seq<real>, neg: seq<real>, i: nat): real
    requires i <= |neg| == |pos|
  {
    if i == 0 then 0.0 else RankedPairs(pos, neg, i - 1) + RankedRow(pos, neg, i - 1, |pos|)
  }

  lemma {:induction false} RowIs(pos: seq<real>, neg: seq<real>, i: nat, j: nat)
    requires i < |neg| == |pos| && j <= |pos|
    ensures RankedRow(pos, neg, i, j)
            == if j <= i then 0.0 else Times(Sum(pos, j) - 0.5 * (Sum(pos, i) + Sum(pos, i + 1)), neg[i])
  {
    hide Times;
    if j > 0 {
      RowIs(pos, neg, i, j - 1);
      TimesAdds(Sum(pos, j - 1) - 0.5 * (Sum(pos, i) + Sum(pos, i + 1)), pos[j - 1], neg[i]);
      TimesAdds(pos[j - 1], neg[i], 0.0);
    }
  }

  /** The ranked pairs and the running sum split all pairs between them. */
  lemma {:induction false} PairsAreComplement(pos: seq<real>, neg: seq<real>, i: nat)
    requires i <= |neg| == |pos|
    ensures RankedPairs(pos, neg, i) + Accumulated(pos, neg, i) == Times(Sum(pos, |pos|), Sum(neg, i))
  {
    hide Times;
    if i > 0 {
      PairsAreComplement(pos, neg, i - 1);
      RowIs(pos, neg, i - 1, |pos|);
      var half := 0.5 * (Sum(pos, i - 1) + Sum(pos, i));
      TimesAdds(Sum(pos, |pos|) - half, half, neg[i - 1]);
      TimesAdds(Sum(neg, i - 1), neg[i - 1], Sum(pos, |pos|));
    } else {
      TimesAdds(Sum(pos, |pos|), 0.0, 0.0);
    }
  }

  /** The one-pass result is the pairwise definition, over all pairs of a positive and a negative. */
  lemma AucIsPairwise(pos: seq<real>, neg: seq<real>)
    requires |pos| == |neg| && Sum(pos, |pos|) != 0.0 && Sum(neg, |neg|) != 0.0
    ensures Times(Sum(pos, |pos|), Sum(neg, |neg|)) != 0.0
    ensures Auc(pos, neg) == RankedPairs(pos, neg, |neg|) / Times(Sum(pos, |pos|), Sum(neg, |neg|))
  {
    hide Times, RankedPairs, Accumulated, Sum;
    PairsAreComplement(pos, neg, |neg|);
    Quotient(Sum(pos, |pos|), Sum(neg, |neg|), Accumulated(pos, neg, |neg|), RankedPairs(pos, neg, |neg|));
  }

  lemma QuotientIs(x: real, a: real, q: real)
    requires q != 0.0 && Times(x, q) == a
    ensures x == a / q
  {}

  lemma DividedBack(a: real, q: real)
    requires q != 0.0
    ensures Times(a / q, q) == a
  {}

  lemma Regroup(x: real, n: real, p: real)
    ensures Times(x, Times(p, n)) == Times(Times(x, n), p) && Times(1.0, x) == x
    ensures p != 0.0 && n != 0.0 ==> Times(p, n) != 0.0
  {}

  /** Dividing twice, and what is left of one. */
  lemma Quotient(p: real, n: real, a: real, r: real)
    requires p != 0.0 && n != 0.0 && r + a == Times(p, n)
    ensures Times(p, n) != 0.0
    ensures a / p / n == a / Times(p, n) && 1.0 - a / p / n == r / Times(p, n)
  {
    hide Times;
    var x, q := a / p / n, Times(p, n);
    DividedBack(a, p);
    DividedBack(a / p, n);
    Regroup(x, n, p);
    QuotientIs(x, a, q);
    TimesAdds(1.0 - x, x, q);
    Regroup(q, n, p);
    QuotientIs(1.0 - x, r, q);
  }

  /** Each pair is counted once by the running sum one way round and once the other. */
  lemma {:induction false} SwapIsComplement(pos: seq<real>, neg: seq<real>, i: nat)
    requires i <= |pos| == |neg|
    ensures Accumulated(pos, neg, i) + Accumulated(neg, pos, i) == Times(Sum(pos, i), Sum(neg, i))
  {
    hide Times;
    if i > 0 {
      SwapIsComplement(pos, neg, i - 1);
      SwapStep(Sum(pos, i - 1), Sum(neg, i - 1), pos[i - 1], neg[i - 1]);
    } else {
      TimesAdds(0.0, 0.0, 0.0);
    }
  }

  lemma SwapStep(p: real, n: real, x: real, y: real)
    ensures Times(0.5 * (p + (p + x)), y) + Times(0.5 * (n + (n + y)), x) + Times(p, n) == Times(p + x, n + y)
  {}

  lemma {:induction false} SumNonNegative(s: seq<real>, n: nat)
    requires NonNegative(s) && n <= |s|
    ensures Sum(s, n) >= 0.0
  {
    if n > 0 {
      SumNonNegative(s, n - 1);
    }
  }

  lemma {:induction false} AccumulatedNonNegative(pos: seq<real>, neg: seq<real>, n: nat)
    requires n <= |pos| == |neg| && NonNegative(pos) && NonNegative(neg)
    ensures Accumulated(pos, neg, n) >= 0.0
  {
    hide Times;
    if n > 0 {
      AccumulatedNonNegative(pos, neg, n - 1);
      SumNonNegative(pos, n - 1);
      SumNonNegative(pos, n);
      ProductNonNegative(0.5 * (Sum(pos, n - 1) + Sum(pos, n)), neg[n - 1]);
    }
  }

  lemma ProductNonNegative(a: real, b: real)
    requires a >= 0.0 && b >= 0.0
    ensures Times(a, b) >= 0.0
  {}

  /** The area is a proportion. */
  lemma AucInUnitInterval(pos: seq<real>, neg: seq<real>)
    requires |pos| == |neg| && NonNegative(pos) && NonNegative(neg)
    ensures 0.0 <= Auc(pos, neg) <= 1.0
  {
    hide Times, Accumulated;
    var p, n := Sum(pos, |pos|), Sum(neg, |neg|);
    SumNonNegative(pos, |pos|);
    SumNonNegative(neg, |neg|);
    AccumulatedNonNegative(pos, neg, |pos|);
    AccumulatedNonNegative(neg, pos, |pos|);
    SwapIsComplement(pos, neg, |pos|);
    if p > 0.0 && n > 0.0 {
      Proportion(p, n, Accumulated(pos, neg, |pos|));
    }
  }

  lemma Proportion(p: real, n: real, a: real)
    requires p > 0.0 && n > 0.0 && 0.0 <= a <= Times(p, n)
    ensures 0.0 <= a / p / n <= 1.0
  {
    assert a / p <= n;
  }

  /** Swapping the classes mirrors the area, unless there are no instances at all: then both ways give 1. */
  lemma SwapMirrors(pos: seq<real>, neg: seq<real>)
    requires |pos| == |neg| && NonNegative(pos) && NonNegative(neg)
    ensures Auc(neg, pos) == 1.0 - Auc(pos, neg) <==> Sum(pos, |pos|) > 0.0 || Sum(neg, |neg|) > 0.0
  {
    hide Times, Accumulated;
    var p, n := Sum(pos, |pos|), Sum(neg, |neg|);
    SumNonNegative(pos, |pos|);
    SumNonNegative(neg, |neg|);
    SwapIsComplement(pos, neg, |pos|);
    if p > 0.0 && n > 0.0 {
      MirrorQuotients(p, n, Accumulated(pos, neg, |pos|), Accumulated(neg, pos, |pos|));
    }
  }

  lemma MirrorQuotients(p: real, n: real, a: real, b: real)
    requires p != 0.0 && n != 0.0 && a + b == Times(p, n)
    ensures 1.0 - b / n / p == a / p / n
  {
    hide Times;
    TimesAdds(p, n, 0.0);
    Quotient(n, p, b, a);
    Quotient(p, n, a, b);
  }
}
