/** Flat buffers seen as rows of equal length. */
module Rows {

  /** The first `n` rows one after the other. */
  function FlattenTo<T>(rows: seq<seq<T>>, n: nat): seq<T>
    requires n <= |rows|
  {
    if n == 0 then [] else FlattenTo(rows, n - 1) + rows[n - 1]
  }

  function Flatten<T>(rows: seq<seq<T>>): seq<T> {
    FlattenTo(rows, |rows|)
  }

  predicate AllOfLength<T>(rows: seq<seq<T>>, d: nat) {
    forall i :: 0 <= i < |rows| ==> |rows[i]| == d
  }

  /** Where row `i` begins. */
  function Offset(i: nat, d: nat): nat {
    i * d
  }

  lemma OffsetStep(i: nat, n: nat, d: nat)
    requires i < n
    ensures Offset(0, d) == 0 && Offset(i + 1, d) == Offset(i, d) + d <= Offset(n, d)
  {
    var rest := n - (i + 1);
    assert n * d == (i + 1) * d + rest * d;
    assert rest * d >= 0;
  }

  /** Row `i` of a flat buffer of `n` rows. */
  function Row<T>(flat: seq<T>, d: nat, n: nat, i: nat): (row: seq<T>)
    requires i < n && |flat| == Offset(n, d)
    ensures |row| == d
  {
    OffsetStep(i, n, d);
    flat[Offset(i, d)..Offset(i, d) + d]
  }

  function RowsOf<T>(flat: seq<T>, d: nat, n: nat): (rows: seq<seq<T>>)
    requires |flat| == Offset(n, d)
    ensures |rows| == n
  {
    seq(n, i requires 0 <= i < n => Row(flat, d, n, i))
  }

  lemma RowIs<T>(flat: seq<T>, d: nat, n: nat, i: nat)
    requires i < n && |flat| == Offset(n, d)
    ensures Offset(i + 1, d) == Offset(i, d) + d <= |flat|
    ensures RowsOf(flat, d, n)[i] == flat[Offset(i, d)..Offset(i, d) + d]
  {
    OffsetStep(i, n, d);
  }

  lemma {:induction false} FlattenLength<T>(rows: seq<seq<T>>, d: nat, n: nat)
    requires AllOfLength(rows, d) && n <= |rows|
    ensures |FlattenTo(rows, n)| == Offset(n, d)
  {
    OffsetStep(0, n + 1, d);
    if n > 0 {
      FlattenLength(rows, d, n - 1);
      OffsetStep(n - 1, n, d);
    }
  }

  /** Cutting a flattened buffer gives back its rows. */
  lemma {:induction false} RowOfFlatten<T>(rows: seq<seq<T>>, d: nat, n: nat, i: nat)
    requires AllOfLength(rows, d) && i < n <= |rows|
    ensures |FlattenTo(rows, n)| == Offset(n, d) && Row(FlattenTo(rows, n), d, n, i) == rows[i]
  {
    FlattenLength(rows, d, n);
    FlattenLength(rows, d, n - 1);
    OffsetStep(i, n, d);
    if i < n - 1 {
      OffsetStep(i, n - 1, d);
      RowOfFlatten(rows, d, n - 1, i);
      assert Row(FlattenTo(rows, n), d, n, i) == Row(FlattenTo(rows, n - 1), d, n - 1, i);
    }
  }

  /** Rows survive being flattened and cut apart again. */
  lemma RowsOfFlatten<T>(rows: seq<seq<T>>, d: nat)
    requires AllOfLength(rows, d)
    ensures |Flatten(rows)| == Offset(|rows|, d) && RowsOf(Flatten(rows), d, |rows|) == rows
  {
    hide Offset, FlattenTo, Row;
    FlattenLength(rows, d, |rows|);
    forall i | 0 <= i < |rows| ensures RowsOf(Flatten(rows), d, |rows|)[i] == rows[i] {
      RowOfFlatten(rows, d, |rows|, i);
    }
  }
}
