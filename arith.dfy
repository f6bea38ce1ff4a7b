/** Facts about Euclidean remainders by a positive modulus that the peer
    partition and the field aggregation share. */
module ModArith {

  /** The remainder is the unique value below the modulus that differs from
      the dividend by a multiple of it. */
  lemma ModUnique(x: nat, n: nat, k: nat, r: nat)
    requires r < n && x == k * n + r
    ensures x % n == r
  {
    var q, s := x / n, x % n;
    assert x == q * n + s;
    assert (k - q) * n == s - r;
    if k > q {
      MulAtLeast(k - q, n);
      assert false;
    } else if k < q {
      MulAtLeast(q - k, n);
      assert false;
    }
  }

  /** A positive multiple of `n` is at least `n`. */
  lemma {:induction false} MulAtLeast(c: nat, n: nat)
    requires c >= 1
    ensures c * n >= n
  {
    if c > 1 {
      MulAtLeast(c - 1, n);
      assert c * n == (c - 1) * n + n;
    }
  }

  /** Adding the modulus does not change the remainder. */
  lemma ModShift(x: nat, m: nat)
    requires m > 0
    ensures (x + m) % m == x % m
  {
    var q := x / m;
    assert x == q * m + x % m;
    assert x + m == (q + 1) * m + x % m;
    ModUnique(x + m, m, q + 1, x % m);
  }

  /** Reducing one summand first does not change the remainder of a sum. */
  lemma ModAddReduced(a: nat, b: nat, m: nat)
    requires m > 0
    ensures (a % m + b) % m == (a + b) % m
  {
    var qa := a / m;
    var x := a % m + b;
    var qx := x / m;
    assert a == qa * m + a % m;
    assert x == qx * m + x % m;
    assert a + b == (qa + qx) * m + x % m;
    ModUnique(a + b, m, qa + qx, x % m);
  }
}
