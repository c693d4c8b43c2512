/**
 * Facts about Euclidean division and remainder on naturals that the
 * models of the request sizing and of the LRU shard rotation rely on, and
 * the optional value shared by the request and superblock models.
 */
module Arith {

  /** A value that may be absent (a NULL pointer in the C code). */
  datatype Option<T> = None | Some(value: T)

  lemma {:induction false} MulAtLeast(k: nat, d: nat)
    requires k >= 1
    ensures k * d >= d
    decreases k
  {
    if k > 1 {
      MulAtLeast(k - 1, d);
      assert k * d == (k - 1) * d + d;
    }
  }

  /** Quotient and remainder are determined by x = q * d + r, 0 <= r < d. */
  lemma DivModUnique(x: int, d: int, q: int, r: int)
    requires d > 0 && 0 <= r < d && x == q * d + r
    ensures x / d == q && x % d == r
  {
    var q0, r0 := x / d, x % d;
    assert (q0 - q) * d == q0 * d - q * d;
    assert (q0 - q) * d == r - r0;
    if q0 > q {
      MulAtLeast(q0 - q, d);
    } else if q0 < q {
      MulAtLeast(q - q0, d);
    }
  }

  lemma DivSub(x: nat, d: nat)
    requires d > 0 && x >= d
    ensures (x - d) / d == x / d - 1
  {
    var q, r := (x - d) / d, (x - d) % d;
    assert x == (q + 1) * d + r;
    DivModUnique(x, d, q + 1, r);
  }

  lemma {:induction false} DivMonotone(a: nat, b: nat, d: nat)
    requires d > 0 && a <= b
    ensures a / d <= b / d
    decreases a
  {
    if a >= d {
      DivMonotone(a - d, b - d, d);
      DivSub(a, d);
      DivSub(b, d);
    } else {
      DivModUnique(a, d, 0, a);
    }
  }

  lemma ModBelow(a: nat, n: nat)
    requires a < n
    ensures a % n == a
  {
    DivModUnique(a, n, 0, a);
  }

  lemma ModOnce(a: nat, n: nat)
    requires n <= a < 2 * n
    ensures a % n == a - n
  {
    DivModUnique(a, n, 1, a - n);
  }

  lemma ModStep(a: nat, n: nat)
    requires n > 0
    ensures (a + n) % n == a % n
  {
    var q, r := a / n, a % n;
    assert a + n == (q + 1) * n + r;
    DivModUnique(a + n, n, q + 1, r);
  }

  lemma {:induction false} DivModShift(x: nat, q: nat, n: nat)
    requires n > 0
    ensures (x + q * n) % n == x % n
    decreases q
  {
    if q > 0 {
      DivModShift(x, q - 1, n);
      assert x + q * n == (x + (q - 1) * n) + n;
      ModStep(x + (q - 1) * n, n);
    }
  }

  lemma ModAddMod(a: nat, b: nat, n: nat)
    requires n > 0
    ensures (a % n + b) % n == (a + b) % n
  {
    var q := a / n;
    assert a == q * n + a % n;
    DivModShift(a % n + b, q, n);
  }

  /** With a ratio of at least 2 the quotient is at most half. */
  lemma DivRatioHalf(n: nat, r: nat)
    requires r >= 2
    ensures 2 * (n / r) <= n
  {
    var q := n / r;
    assert n == q * r + n % r;
    assert q * r == 2 * q + q * (r - 2);
  }
}
