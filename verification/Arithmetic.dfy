/** Integer arithmetic used by the proofs: powers, products and floored quotients. */
module Arithmetic {

  function Pow(b: nat, e: nat): (r: nat)
    ensures 0 < b ==> 0 < r
    decreases e
  {
    if e == 0 then 1 else b * Pow(b, e - 1)
  }

  lemma MulLe(a: int, b: int, c: int)
    requires a <= b && 0 <= c
    ensures a * c <= b * c
  {
  }

  lemma MulLt(a: int, b: int, c: int)
    requires a < b && 0 < c
    ensures a * c < b * c
  {
    MulLe(a + 1, b, c);
  }

  lemma MulLeBoth(a: int, b: int, x: int, y: int)
    requires 0 <= a <= b && 0 <= x <= y
    ensures a * x <= b * y
  {
    MulLe(a, b, x);
    MulLe(x, y, b);
  }

  lemma MulSub(p: int, a: int, b: int)
    ensures p * (a - b) == p * a - p * b
  {
  }

  lemma FactorsPositive(a: nat, b: nat)
    requires 0 < a * b
    ensures 0 < a && 0 < b
  {
  }

  lemma ProductAtLeast(a: nat, b: nat)
    requires 0 < b
    ensures a <= a * b
  {
    MulLe(1, b, a);
  }

  lemma SquareNonNegative(x: int)
    ensures 0 <= x * x
  {
  }

  lemma SmallSquare(x: int)
    requires -1 <= x <= 1
    ensures 0 <= x * x <= 1
  {
    if x == -1 {
    } else if x == 0 {
    } else {
    }
  }

  lemma MulAssoc(a: int, b: int, c: int)
    ensures a * (b * c) == (a * b) * c
  {
  }

  lemma Exchange3(a: int, b: int, c: int)
    ensures (a * b) * c == (a * c) * b
  {
  }

  lemma Exchange4(a: int, b: int, c: int, x: int)
    ensures (a * (b * c)) * x == (a * (b * x)) * c
  {
    Exchange3(a, b * c, x);
    assert (a * (b * c)) * x == a * ((b * c) * x);
    Exchange3(b, c, x);
    assert (a * (b * x)) * c == a * ((b * x) * c);
  }

  lemma Exchange4Front(a: int, b: int, c: int, x: int)
    ensures (a * (b * c)) * x == (a * (x * c)) * b
  {
    Exchange4(a, c, b, x);
    assert b * c == c * b && x * c == c * x;
  }

  lemma Interchange(a: int, b: int, c: int, d: int)
    ensures (a * b) * (c * d) == (a * c) * (b * d)
  {
    MulAssoc(a * b, c, d);
    Exchange3(a, b, c);
    MulAssoc(a * c, b, d);
  }

  lemma FactorsKeepPositive(a: nat, b: nat)
    requires 0 < a && 0 < b
    ensures 0 < a * b
  {
  }

  lemma CancelLt(a: int, b: int, c: int)
    requires a * c < b * c && 0 <= c
    ensures a < b
  {
    if b <= a {
      MulLe(b, a, c);
    }
  }

  lemma CancelLe(a: int, b: int, c: int)
    requires a * c <= b * c && 0 < c
    ensures a <= b
  {
    if b < a {
      MulLe(b + 1, a, c);
    }
  }

  /** A floored quotient is pinned between two multiples of the divisor. */
  lemma DivPinned(a: nat, b: nat)
    requires 0 < b
    ensures (a / b) * b <= a < (a / b + 1) * b
  {
    assert a == (a / b) * b + a % b;
    assert (a / b + 1) * b == (a / b) * b + b;
  }

  lemma DivAtLeast(a: nat, b: nat, q: int)
    requires 0 < b && q * b <= a
    ensures q <= a / b
  {
    DivPinned(a, b);
    CancelLt(q, a / b + 1, b);
  }

  lemma DivLess(a: nat, b: nat, q: nat)
    requires 0 < b && a < q * b
    ensures a / b < q
  {
    DivPinned(a, b);
    CancelLt(a / b, q, b);
  }

  lemma QuotientUnique(n: nat, w: nat, q: nat, r: nat)
    requires 0 < w && n == q * w + r && r < w
    ensures n / w == q && n % w == r
  {
    DivAtLeast(n, w, q);
    assert (q + 1) * w == q * w + w;
    DivLess(n, w, q + 1);
    assert n == (n / w) * w + n % w;
  }

  /** Division is monotone in the dividend and antitone in the divisor. */
  lemma DivMono(a: nat, b: nat, a': nat, b': nat)
    requires 0 < b' <= b && a <= a'
    ensures a / b <= a' / b'
  {
    var q := a / b;
    DivPinned(a, b);
    assert q * b' <= q * b by { MulLe(b', b, q); }
    DivAtLeast(a', b', q);
  }

  /** The weighted mean inequality behind the StableSwap iteration (Bernoulli's, homogeneous). */
  lemma {:induction false} Bernoulli(z: nat, d: nat, n: nat)
    ensures (n + 1) * (z * Pow(d, n)) <= Pow(z, n + 1) + n * Pow(d, n + 1)
    decreases n
  {
    if n == 0 {
      assert Pow(z, 1) == z * Pow(z, 0);
    } else {
      Bernoulli(z, d, n - 1);
      var p := Pow(d, n - 1);
      var zn := Pow(z, n);
      assert Pow(d, n) == d * p;
      assert Pow(d, n + 1) == d * Pow(d, n);
      assert Pow(z, n + 1) == z * zn;
      BernoulliStep(z, d, n, p, zn);
    }
  }

  lemma SquareGap(z: nat, d: nat, p: nat)
    ensures 2 * (z * (d * p)) <= z * (z * p) + d * (d * p)
  {
    var gap := z - d;
    assert gap * gap == z * z - 2 * (z * d) + d * d;
    assert 0 <= (gap * gap) * p;
    assert (z * z - 2 * (z * d) + d * d) * p == (z * z) * p - 2 * ((z * d) * p) + (d * d) * p;
  }

  lemma ScaledBy(z: nat, n: nat, zp: nat, zn: nat, dp: nat)
    requires 0 < n && n * zp <= zn + (n - 1) * dp
    ensures n * (z * zp) <= z * zn + (n - 1) * (z * dp)
  {
    MulLe(n * zp, zn + (n - 1) * dp, z);
    assert (n * zp) * z == n * (z * zp);
    assert (zn + (n - 1) * dp) * z == zn * z + ((n - 1) * dp) * z;
    assert ((n - 1) * dp) * z == (n - 1) * (z * dp);
  }

  lemma BernoulliStep(z: nat, d: nat, n: nat, p: nat, zn: nat)
    requires 0 < n
    requires n * (z * p) <= zn + (n - 1) * (d * p)
    ensures (n + 1) * (z * (d * p)) <= z * zn + n * (d * (d * p))
  {
    ScaledBy(z, n, z * p, zn, d * p);
    SquareGap(z, d, p);
    var A, B, C, Z := z * (d * p), z * (z * p), d * (d * p), z * zn;
    Combine(n, A, B, C, Z);
  }

  lemma Combine(n: nat, A: nat, B: nat, C: nat, Z: nat)
    requires 0 < n && n * B <= Z + (n - 1) * A && 2 * A <= B + C
    ensures (n + 1) * A <= Z + n * C
  {
    MulLe(2 * A, B + C, n);
    assert (2 * A) * n == 2 * (n * A);
    assert (B + C) * n == n * B + n * C;
    assert (n - 1) * A == n * A - A;
    assert (n + 1) * A == n * A + A;
  }

  function Min(a: nat, b: nat): nat {
    if b < a then b else a
  }

  function CeilDiv(a: nat, b: nat): nat
    requires 0 < b
  {
    (a + b - 1) / b
  }

  lemma CeilDivCovers(a: nat, b: nat)
    requires 0 < b
    ensures a <= CeilDiv(a, b) * b
  {
    DivPinned(a + b - 1, b);
    assert (CeilDiv(a, b) + 1) * b == CeilDiv(a, b) * b + b;
  }
}
