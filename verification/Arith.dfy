/** Products, quotients and remainders by name, so that proofs can hide them. */
module Arith {

  function Mul(a: int, b: int): int {
    a * b
  }

  function Div(x: nat, n: nat): nat
    requires n > 0
  {
    x / n
  }

  function Mod(x: nat, n: nat): (r: nat)
    requires n > 0
    ensures r < n
  {
    x % n
  }

  lemma MulStep(a: int, b: int)
    ensures Mul(0, b) == 0 && Mul(1, b) == b && Mul(a + 1, b) == Mul(a, b) + b && Mul(b, a + 1) == Mul(b, a) + b
  {}

  lemma MulSigns(a: int, b: int)
    ensures 0 <= a && 0 <= b ==> 0 <= Mul(a, b)
    ensures Mul(a, b) == Mul(b, a)
  {}

  lemma DivMod(x: nat, n: nat)
    requires n > 0
    ensures x == Mul(Div(x, n), n) + Mod(x, n)
  {}

  lemma Spread(d: int, n: int)
    requires n >= 0
    ensures d >= 1 ==> d * n >= n
    ensures d <= -1 ==> d * n <= -n
  {
    if d >= 1 {
      assert d * n == (d - 1) * n + n;
    } else if d <= -1 {
      assert d * n == (d + 1) * n - n;
    }
  }

  /** Quotient and remainder are determined by what they recombine to. */
  lemma DivModIs(x: nat, n: nat, q: nat, r: nat)
    requires n > 0 && r < n && x == Mul(q, n) + r
    ensures Div(x, n) == q && Mod(x, n) == r
  {
    var d := x / n - q;
    assert d * n == x / n * n - q * n == r - x % n;
    Spread(d, n);
  }

  /** Adding a multiple moves the quotient and keeps the remainder. */
  lemma DivModShift(x: nat, n: nat, k: nat)
    requires n > 0 && 0 <= Mul(k, n)
    ensures Div(x + Mul(k, n), n) == Div(x, n) + k && Mod(x + Mul(k, n), n) == Mod(x, n)
  {
    var q := Div(x, n);
    assert (q + k) * n == q * n + k * n;
    DivMod(x, n);
    DivModIs(x + Mul(k, n), n, q + k, Mod(x, n));
  }

  /** A remainder may be taken early in a sum. */
  lemma ModEarly(x: nat, n: nat, r: nat)
    requires n > 0
    ensures Mod(Mod(x, n) + r, n) == Mod(x + r, n)
  {
    hide Mul, Div, Mod;
    DivMod(x, n);
    MulSigns(Div(x, n), n);
    DivModShift(Mod(x, n) + r, n, Div(x, n));
  }

  lemma ModOnce(x: nat, n: nat)
    requires 0 < n && x < 2 * n
    ensures Mod(x, n) == if x < n then x else x - n
  {
    hide Div, Mod;
    DivModIs(x, n, if x < n then 0 else 1, if x < n then x else x - n);
  }
}
