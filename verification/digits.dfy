/** Positional value of a digit sequence, most significant digit first.
    Both backtracking searches terminate because a bounded positional value
    grows at every step; this module holds the arithmetic behind that
    argument. */
module Digits {

  import Arith

  function Pow(b: nat, e: nat): (p: nat)
    ensures b >= 1 ==> p >= 1
  {
    if e == 0 then 1 else b * Pow(b, e - 1)
  }

  predicate InBase(d: seq<int>, b: nat) {
    forall j :: 0 <= j < |d| ==> 0 <= d[j] < b
  }

  /** The number written by `d` in base `b`; digit `j` weighs `b^(|d|-1-j)`. */
  function Value(d: seq<int>, b: nat): int
    decreases |d|
  {
    if |d| == 0 then 0 else Value(d[..|d| - 1], b) * b + d[|d| - 1]
  }

  lemma {:induction false} PowGrows(b: nat, e1: nat, e2: nat)
    requires b >= 1 && e1 <= e2
    ensures Pow(b, e1) <= Pow(b, e2)
    decreases e2
  {
    if e1 < e2 {
      PowGrows(b, e1, e2 - 1);
      assert Pow(b, e2) == b * Pow(b, e2 - 1);
      Arith.MulAtLeast(b, Pow(b, e2 - 1));
    }
  }

  /** A number of `|d|` digits in base `b` lies in `[0, b^|d|)`. */
  lemma {:induction false} ValueBounds(d: seq<int>, b: nat)
    requires b >= 1 && InBase(d, b)
    ensures 0 <= Value(d, b) < Pow(b, |d|)
    decreases |d|
  {
    if |d| > 0 {
      var p := d[..|d| - 1];
      ValueBounds(p, b);
      assert InBase(p, b);
      assert Pow(b, |d|) == b * Pow(b, |p|);
      Arith.DigitStep(Value(p, b), d[|d| - 1], b, Pow(b, |p|));
    }
  }

  /** Changing digit `j` from `d[j]` to `x` changes the value by
      `(x - d[j]) * b^(|d|-1-j)`. */
  lemma {:induction false} ValueUpdate(d: seq<int>, b: nat, j: nat, x: int)
    requires j < |d|
    ensures Value(d[j := x], b) == Value(d, b) + (x - d[j]) * Pow(b, |d| - 1 - j)
    decreases |d|
  {
    var e := d[j := x];
    var n := |d|;
    if j == n - 1 {
      assert e[..n - 1] == d[..n - 1];
    } else {
      var p := d[..n - 1];
      assert e[..n - 1] == p[j := x];
      ValueUpdate(p, b, j, x);
      var a, q := Value(p, b), Pow(b, n - 2 - j);
      assert Value(e, b) == (a + (x - d[j]) * q) * b + d[n - 1];
      assert Value(d, b) == a * b + d[n - 1];
      assert Pow(b, n - 1 - j) == b * q;
      Arith.ShiftedUpdate(a, x - d[j], q, b, d[n - 1]);
    }
  }
}
