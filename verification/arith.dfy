/** Integer facts about row-major flat indices that the solver needs and
    that the verifier does not find on its own (they involve products of
    variables). */
module Arith {

  lemma MulAtLeast(a: int, n: int)
    requires a >= 1 && n > 0
    ensures a * n >= n
  {
  }

  lemma MulAssoc(a: int, b: int, c: int)
    ensures (a * b) * c == a * (c * b)
  {
  }

  lemma MulPred(b: int, p: int)
    ensures (b - 1) * p == b * p - p
  {
  }

  /** Division by `n` undoes `q * n + r` when `0 <= r < n`. */
  lemma DivMod(q: int, r: int, n: int)
    requires 0 <= r < n
    ensures (q * n + r) / n == q && (q * n + r) % n == r
  {
    var x := q * n + r;
    var d := x / n;
    var m := x % n;
    assert (d - q) * n == r - m;
    if d - q >= 1 {
      MulAtLeast(d - q, n);
    } else if q - d >= 1 {
      MulAtLeast(q - d, n);
    }
  }

  /** Appending a digit `x < b` to a number below `m` gives a number
      below `b * m`. */
  lemma DigitStep(v: int, x: int, b: int, m: int)
    requires 0 <= v < m && 0 <= x < b
    ensures 0 <= v * b + x < b * m
  {
    MulAtLeast(m - v, b);
    assert (m - v) * b == b * m - v * b;
    assert v * b >= 0 by {
      if v > 0 { MulAtLeast(v, b); }
    }
  }

  /** Appending a digit `t` in base `b` to `a` and to `a + x * q` keeps
      the difference, now weighted by `b * q`. */
  lemma ShiftedUpdate(a: int, x: int, q: int, b: int, t: int)
    ensures (a + x * q) * b + t == (a * b + t) + x * (b * q)
  {
    assert (a + x * q) * b == a * b + (x * q) * b;
    MulAssoc(x, q, b);
  }

  /** A row-major index `r * n + c` with `r, c` in `[0, n)` lies in `[0, n * n)`. */
  lemma IndexInRange(r: int, c: int, n: int)
    requires 0 <= r < n && 0 <= c < n
    ensures 0 <= r * n + c < n * n
  {
    MulAtLeast(n - r, n);
    assert (n - r) * n == n * n - r * n;
    assert r * n >= 0 by {
      if r > 0 { MulAtLeast(r, n); }
    }
  }

  /** Every index in `[0, n * n)` splits into a row and a column in `[0, n)`. */
  lemma Split(x: int, n: int)
    requires n > 0 && 0 <= x < n * n
    ensures 0 <= x / n < n && 0 <= x % n < n
    ensures x == (x / n) * n + x % n
  {
    var q := x / n;
    if q >= n {
      MulAtLeast(q - n + 1, n);
      assert q * n == (q - n) * n + n * n;
      assert (q - n) * n >= 0 by {
        if q - n > 0 { MulAtLeast(q - n, n); }
      }
    }
    if q < 0 {
      MulAtLeast(-q, n);
    }
  }

  /** Inside an aligned band of width `w`, `b * w + a` belongs to band `b`. */
  lemma Band(b: int, a: int, w: int)
    requires 0 <= a < w
    ensures (b * w + a) / w == b && (b * w + a) % w == a
  {
    DivMod(b, a, w);
  }

  /** Subtracting `k` from an index `j` in `[0, n)` modulo `n` is
      subtracting `k % n` and wrapping at most once. */
  lemma ModBack(j: int, k: int, n: int)
    requires n > 0 && 0 <= j < n
    ensures 0 <= k % n < n
    ensures (j - k) % n == if j < k % n then j - k % n + n else j - k % n
  {
    var q, m := k / n, k % n;
    assert k == q * n + m;
    if j < m {
      assert j - k == (-q - 1) * n + (j - m + n);
      DivMod(-q - 1, j - m + n, n);
    } else {
      assert j - k == (-q) * n + (j - m);
      DivMod(-q, j - m, n);
    }
  }

  /** Adding a multiple of `n` does not change the remainder. */
  lemma ModMultiple(a: int, m: int, n: int)
    requires n > 0
    ensures (a + m * n) % n == a % n
  {
    var q := a / n;
    assert a + m * n == (q + m) * n + a % n;
    DivMod(q + m, a % n, n);
  }

  /** Reducing an intermediate sum modulo `n` does not change the final
      remainder. */
  lemma ModSum(j: int, o: int, d: int, n: int)
    requires n > 0
    ensures ((j + o) % n + d) % n == (j + (o + d) % n) % n
  {
    var q1, q2 := (j + o) / n, (o + d) / n;
    assert (j + o) % n == j + o - q1 * n;
    assert (o + d) % n == o + d - q2 * n;
    assert (j + o) % n + d == (j + (o + d) % n) + (q2 - q1) * n;
    ModMultiple(j + (o + d) % n, q2 - q1, n);
  }

  /** Reducing an intermediate difference modulo `n` does not change the
      final remainder. */
  lemma ModDiff(c: int, s: int, o: int, n: int)
    requires n > 0
    ensures ((c - s) % n - o) % n == (c - (o + s) % n) % n
  {
    var q1, q2 := (c - s) / n, (o + s) / n;
    assert (c - s) % n == c - s - q1 * n;
    assert (o + s) % n == o + s - q2 * n;
    assert (c - s) % n - o == (c - (o + s) % n) + (-q1 - q2) * n;
    ModMultiple(c - (o + s) % n, -q1 - q2, n);
  }
}
