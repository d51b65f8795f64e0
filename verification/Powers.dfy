/** Powers of integers: sums of exponents, one step up, and how far a power lies above its tangent. */
module PowerTheorems {
  import opened Arithmetic
  import opened InvariantTheorems

  function Mul(a: nat, b: nat): nat {
    a * b
  }

  lemma {:induction false} PowSum(d: nat, a: nat, b: nat)
    ensures Pow(d, a) * Pow(d, b) == Pow(d, a + b)
    decreases a
  {
    if a != 0 {
      PowSum(d, a - 1, b);
      assert Pow(d, a) == d * Pow(d, a - 1) && Pow(d, a + b) == d * Pow(d, a - 1 + b);
      MulAssoc(d, Pow(d, a - 1), Pow(d, b));
    }
  }

  lemma {:induction false} PowOfProduct(a: nat, b: nat, e: nat)
    ensures Pow(a * b, e) == Pow(a, e) * Pow(b, e)
    decreases e
  {
    if e != 0 {
      PowOfProduct(a, b, e - 1);
      Interchange(a, b, Pow(a, e - 1), Pow(b, e - 1));
    }
  }

  lemma PowNextStep(d: nat, k: nat, p: nat, P: nat)
    requires 0 < k <= d && p * (d - (k - 1)) <= P
    ensures ((d + 1) * p) * (d - k) <= d * P
  {
    assert (d + 1) * (d - k) <= d * (d - (k - 1));
    MulLe((d + 1) * (d - k), d * (d - (k - 1)), p);
    assert ((d + 1) * (d - k)) * p == ((d + 1) * p) * (d - k);
    assert (d * (d - (k - 1))) * p == (p * (d - (k - 1))) * d;
    MulLe(p * (d - (k - 1)), P, d);
  }

  /** (1 + 1/d)^k <= 1 / (1 - k/d) */
  lemma {:induction false} PowNext(d: nat, k: nat)
    requires k <= d
    ensures Pow(d + 1, k) * (d - k) <= Pow(d, k + 1)
    decreases k
  {
    if 0 < k {
      PowNext(d, k - 1);
      assert Pow(d + 1, k) == (d + 1) * Pow(d + 1, k - 1);
      assert Pow(d, k + 1) == d * Pow(d, k);
      PowNextStep(d, k, Pow(d + 1, k - 1), Pow(d, k));
    } else {
      assert Pow(d, 1) == d * Pow(d, 0);
    }
  }

  // ----- the tangent -----

  /** How far the power lies above its tangent: n*d^(n+1) - (n+1)*z*d^n + z^(n+1). */
  function Deficit(d: nat, z: nat, n: nat): int {
    n * Pow(d, n + 1) - (n + 1) * (z * Pow(d, n)) + Pow(z, n + 1)
  }

  lemma Distribute(N: nat, a: int, b: int, c: int)
    ensures N * (a - b + c) == N * a - N * b + N * c
  {
  }

  lemma SquareTimes(d: nat, z: nat, p: nat)
    ensures p * ((d - z) * (d - z)) == d * (d * p) - 2 * (z * (d * p)) + z * (z * p)
  {
    assert (d - z) * (d - z) == d * d - 2 * (z * d) + z * z;
    Distribute(p, d * d, 2 * (z * d), z * z);
    MulAssoc(d, d, p);
    MulAssoc(z, d, p);
    MulAssoc(z, z, p);
    MulAssoc(2, p, z * d);
  }

  lemma DeficitTimes(z: nat, n: nat, dp: nat, zp: nat, Z: nat)
    requires 0 < n
    ensures z * ((n - 1) * dp - n * zp + Z) == (n - 1) * (z * dp) - n * (z * zp) + z * Z
  {
    Distribute(z, (n - 1) * dp, n * zp, Z);
    MulAssoc(z, n - 1, dp);
    MulAssoc(n - 1, z, dp);
    MulAssoc(z, n, zp);
    MulAssoc(n, z, zp);
  }

  lemma DeficitStep(d: nat, z: nat, n: nat, p: nat, Z: nat)
    requires 0 < n && z <= d
    ensures n * (d * (d * p)) - (n + 1) * (z * (d * p)) + z * Z
         == z * ((n - 1) * (d * p) - n * (z * p) + Z) + n * (p * ((d - z) * (d - z)))
  {
    SquareTimes(d, z, p);
    DeficitTimes(z, n, d * p, z * p, Z);
    Distribute(n, d * (d * p), 2 * (z * (d * p)), z * (z * p));
    DeficitCount(n, z * (d * p));
  }

  lemma DeficitCount(n: nat, B: int)
    ensures (n - 1) * B == n * B - B && (n + 1) * B == n * B + B && n * (2 * B) == 2 * (n * B)
  {
  }

  /** Close to the tangent's foot the deficit is quadratic in the distance. */
  lemma {:induction false} DeficitIsQuadratic(d: nat, z: nat, n: nat)
    requires 0 < n && z <= d
    ensures 2 * Deficit(d, z, n) <= (n * (n + 1)) * (Pow(d, n - 1) * ((d - z) * (d - z)))
    decreases n
  {
    if n == 1 {
      DeficitOfOne(d, z);
    } else {
      DeficitIsQuadratic(d, z, n - 1);
      DeficitNext(d, z, n);
    }
  }

  lemma DeficitOfOne(d: nat, z: nat)
    requires z <= d
    ensures Deficit(d, z, 1) == (d - z) * (d - z) && Pow(d, 0) == 1
  {
    SquareTimes(d, z, 1);
    assert Pow(d, 1) == d && Pow(d, 2) == d * Pow(d, 1) && Pow(z, 1) == z && Pow(z, 2) == z * Pow(z, 1);
  }

  lemma DeficitNext(d: nat, z: nat, n: nat)
    requires 1 < n && z <= d
    requires 2 * Deficit(d, z, n - 1) <= ((n - 1) * n) * (Pow(d, n - 2) * ((d - z) * (d - z)))
    ensures 2 * Deficit(d, z, n) <= (n * (n + 1)) * (Pow(d, n - 1) * ((d - z) * (d - z)))
  {
    var p := Pow(d, n - 1);
    assert Pow(d, n) == d * p && Pow(d, n + 1) == d * (d * p) && Pow(z, n + 1) == z * Pow(z, n);
    DeficitStep(d, z, n, p, Pow(z, n));
    DeficitSum(d, z, n, p, Pow(d, n - 2), Mul(d - z, d - z), Deficit(d, z, n - 1)) by {
      assert p == d * Pow(d, n - 2);
    }
  }

  lemma DeficitSum(d: nat, z: nat, n: nat, p: nat, p': nat, sq: nat, D': int)
    requires 1 < n && z <= d && p == d * p'
    requires 2 * D' <= ((n - 1) * n) * (p' * sq)
    ensures 2 * (z * D' + n * (p * sq)) <= (n * (n + 1)) * (p * sq)
  {
    var u := p' * sq;
    MulLe(2 * D', ((n - 1) * n) * u, z);
    MulLe(z, d, ((n - 1) * n) * u);
    assert d * u == p * sq;
    assert (((n - 1) * n) * u) * d == ((n - 1) * n) * (p * sq) by {
      MulAssoc((n - 1) * n, u, d);
    }
    assert (2 * D') * z == 2 * (z * D');
    assert ((n - 1) * n) * (p * sq) + 2 * (n * (p * sq)) == (n * (n + 1)) * (p * sq) by {
      assert (n - 1) * n + 2 * n == n * (n + 1);
    }
  }
}
