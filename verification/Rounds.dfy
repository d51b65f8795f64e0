/** One round of `get_d` against the floor z of the exact invariant.

    From anywhere at or above z a round shrinks the distance, but for a constant, by n/(n+1), and once
    close it squares the distance over z. The constant holds what the floors of the product loop can
    lose: at most L units of d^n, for any L that passes the test `Loose`. */
module RoundTheorems {
  import opened Options
  import opened Checked
  import opened Arithmetic
  import opened StableCurve
  import opened InvariantTheorems
  import opened PowerTheorems
  import opened MeanTheorems

  // ----- the floors of the product loop -----

  function Prefix(scaled: seq<nat>, k: nat): nat
    requires k <= |scaled|
  {
    if k == 0 then 1 else Prefix(scaled, k - 1) * scaled[k - 1]
  }

  /** What the floors can lose at x, in units of the exact product: the products of the first coins' n*x
      times the missing powers of x, for the coins from k on. */
  function Spread(scaled: seq<nat>, x: nat, k: nat): nat
    requires k <= |scaled|
    decreases |scaled| - k
  {
    if k == |scaled| then 0 else Prefix(scaled, k + 1) * Pow(x, |scaled| - k - 1) + Spread(scaled, x, k + 1)
  }

  /** The floors lose at most L units of the n-th power, at z and everywhere above. Every pool has such an L. */
  predicate Loose(scaled: seq<nat>, z: nat, L: nat) {
    Spread(scaled, z, 0) <= L * Pow(z, |scaled|)
  }

  /** They lose less than n+1 units, with a margin that vanishes for large z. */
  predicate Steady(scaled: seq<nat>, z: nat) {
    var N := |scaled| + 1;
    2 * N < z && (z + 2 * N) * Spread(scaled, z, 0) < (N * (z - 2 * N)) * Pow(z, |scaled|)
  }

  lemma SlackStep(pre: nat, a: nat, next: nat, rest: int, tail: nat, spread: nat)
    requires 0 < a && next == pre * a && next * rest <= spread
    ensures pre * (a * rest + (a - 1) * tail) <= next * tail + spread
  {
    MulAssoc(pre, a, rest);
    MulAssoc(pre, a, tail);
    assert (a - 1) * tail == a * tail - tail;
    Distribute(pre, a * rest, tail, a * tail);
    MulLe(0, pre, tail);
  }

  lemma {:induction false} SlackWithinSpread(scaled: seq<nat>, d: nat, k: nat)
    requires k <= |scaled| && forall l :: 0 <= l < |scaled| ==> 0 < scaled[l]
    ensures Prefix(scaled, k) * ProdSlack(scaled, d, k) <= Spread(scaled, d, k)
    decreases |scaled| - k
  {
    if k < |scaled| {
      SlackWithinSpread(scaled, d, k + 1);
      SlackStep(Prefix(scaled, k), scaled[k], Prefix(scaled, k + 1), ProdSlack(scaled, d, k + 1),
                Pow(d, |scaled| - k - 1), Spread(scaled, d, k + 1));
    }
  }

  lemma PowTrade(z: nat, d: nat, e: nat, n: nat)
    requires z <= d && e <= n
    ensures Pow(d, e) * Pow(z, n) <= Pow(z, e) * Pow(d, n)
  {
    PowMono(z, d, n - e);
    PowSum(z, e, n - e);
    PowSum(d, e, n - e);
    MulLe(Pow(z, n - e), Pow(d, n - e), Mul(Pow(d, e), Pow(z, e)));
    TradeAlgebra(Pow(d, e), Pow(z, e), Pow(z, n - e), Pow(d, n - e));
  }

  lemma TradeAlgebra(a: nat, b: nat, x: nat, y: nat)
    ensures x * (a * b) == a * (b * x) && y * (a * b) == b * (a * y)
  {
    MulAssoc(a, b, x);
    MulAssoc(b, a, y);
  }

  lemma SpreadStep(pre: nat, x: nat, y: nat, Z: nat, D: nat, rest: nat, rest': nat)
    requires x * Z <= y * D && rest * Z <= rest' * D
    ensures (pre * x + rest) * Z <= (pre * y + rest') * D
  {
    MulLe(x * Z, y * D, pre);
    MulAssoc(pre, x, Z);
    MulAssoc(pre, y, D);
    assert (pre * x + rest) * Z == (pre * x) * Z + rest * Z;
    assert (pre * y + rest') * D == (pre * y) * D + rest' * D;
  }

  /** Against the n-th power the spread only falls. */
  lemma {:induction false} SpreadFalls(scaled: seq<nat>, z: nat, d: nat, k: nat)
    requires k <= |scaled| && z <= d
    ensures Spread(scaled, d, k) * Pow(z, |scaled|) <= Spread(scaled, z, k) * Pow(d, |scaled|)
    decreases |scaled| - k
  {
    if k < |scaled| {
      var n, e := |scaled|, |scaled| - k - 1;
      SpreadFalls(scaled, z, d, k + 1);
      PowTrade(z, d, e, n);
      SpreadStep(Prefix(scaled, k + 1), Pow(d, e), Pow(z, e), Pow(z, n), Pow(d, n),
                 Spread(scaled, d, k + 1), Spread(scaled, z, k + 1));
    }
  }

  lemma LooseCancels(s: nat, s': nat, Z: nat, D: nat, L: nat)
    requires 0 < Z && s' * Z <= s * D && s <= L * Z
    ensures s' <= L * D
  {
    MulLe(s, L * Z, D);
    Exchange3(L, Z, D);
    CancelLe(s', L * D, Z);
  }

  lemma LooseAbove(scaled: seq<nat>, z: nat, d: nat, L: nat)
    requires 0 < z <= d && Loose(scaled, z, L)
    ensures Loose(scaled, d, L)
  {
    SpreadFalls(scaled, z, d, 0);
    LooseCancels(Spread(scaled, z, 0), Spread(scaled, d, 0), Pow(z, |scaled|), Pow(d, |scaled|), L);
  }

  /** Every pool is loose: the least looseness is a quotient the caller can compute. */
  lemma EveryPoolIsLoose(scaled: seq<nat>, z: nat)
    requires 0 < z
    ensures Loose(scaled, z, CeilDiv(Spread(scaled, z, 0), Pow(z, |scaled|)))
  {
    CeilDivCovers(Spread(scaled, z, 0), Pow(z, |scaled|));
  }

  lemma {:induction false} PrefixWithin(scaled: seq<nat>, z: nat, m: nat, k: nat)
    requires k <= |scaled| && forall l :: 0 <= l < |scaled| ==> scaled[l] <= m * z
    ensures Prefix(scaled, k) <= Pow(m, k) * Pow(z, k)
    decreases k
  {
    if 0 < k {
      PrefixWithin(scaled, z, m, k - 1);
      MulLeBoth(Prefix(scaled, k - 1), Pow(m, k - 1) * Pow(z, k - 1), scaled[k - 1], m * z);
      Interchange(m, Pow(m, k - 1), z, Pow(z, k - 1));
      Interchange(m, z, Pow(m, k - 1), Pow(z, k - 1));
    }
  }

  lemma {:induction false} PowGrows(m: nat, j: nat, k: nat)
    requires 0 < m && j <= k
    ensures Pow(m, j) <= Pow(m, k)
    decreases k
  {
    if j < k {
      PowGrows(m, j, k - 1);
      MulLe(1, m, Pow(m, k - 1));
    }
  }

  lemma TermWithin(pre: nat, mk: nat, zk: nat, tail: nat, mn: nat, zn: nat)
    requires pre <= mk * zk && mk <= mn && zk * tail == zn
    ensures pre * tail <= mn * zn
  {
    MulLe(pre, mk * zk, tail);
    MulAssoc(mk, zk, tail);
    MulLe(mk, mn, zn);
  }

  lemma {:induction false} SpreadWithin(scaled: seq<nat>, z: nat, m: nat, k: nat, r: nat)
    requires k + r == |scaled| && 0 < m && forall l :: 0 <= l < |scaled| ==> scaled[l] <= m * z
    ensures Spread(scaled, z, k) <= (r * Pow(m, |scaled|)) * Pow(z, |scaled|)
    decreases r
  {
    if 0 < r {
      var n := |scaled|;
      SpreadWithin(scaled, z, m, k + 1, r - 1);
      PrefixWithin(scaled, z, m, k + 1);
      PowGrows(m, k + 1, n);
      PowSum(z, k + 1, n - k - 1);
      TermWithin(Prefix(scaled, k + 1), Pow(m, k + 1), Pow(z, k + 1), Pow(z, n - k - 1), Pow(m, n), Pow(z, n));
      OneTermMore(r, Pow(m, n), Pow(z, n));
    }
  }

  lemma OneTermMore(r: nat, a: nat, b: nat)
    requires 0 < r
    ensures (r * a) * b == ((r - 1) * a) * b + a * b
  {
    assert r * a == (r - 1) * a + a;
  }

  /** Coins of which none is above m times the mean the invariant gives them lose at most n*m^n units. */
  lemma CoinsAreLoose(scaled: seq<nat>, z: nat, m: nat)
    requires 0 < m && forall l :: 0 <= l < |scaled| ==> scaled[l] <= m * z
    ensures Loose(scaled, z, |scaled| * Pow(m, |scaled|))
  {
    SpreadWithin(scaled, z, m, 0, |scaled|);
  }

  lemma SteadyTrade(z: nat, d: nat, c: nat)
    requires c <= z <= d
    ensures (d + c) * (z - c) <= (z + c) * (d - c)
  {
    assert (z + c) * (d - c) - (d + c) * (z - c) == 2 * (c * (d - z));
    MulLe(z, d, c);
  }

  lemma SteadyCancels(s: nat, s': nat, Z: nat, D: nat, N: nat, zc: nat, zm: nat, dc: nat, dm: nat)
    requires 0 < Z && 0 < D && 0 < zc && 0 < dc
    requires s' * Z <= s * D && zc * s < (N * zm) * Z && dc * zm <= zc * dm
    ensures dc * s' < (N * dm) * D
  {
    MulLe(s' * Z, s * D, dc * zc);
    FactorsKeepPositive(dc, D);
    MulLt(zc * s, (N * zm) * Z, dc * D);
    MulLe(dc * zm, zc * dm, (N * Z) * D);
    SteadyRegroup(s, s', Z, D, N, zc, zm, dc, dm);
    CancelLt(dc * s', (N * dm) * D, zc * Z);
  }

  lemma SteadyRegroup(s: nat, s': nat, Z: nat, D: nat, N: nat, zc: nat, zm: nat, dc: nat, dm: nat)
    ensures (s' * Z) * (dc * zc) == (dc * s') * (zc * Z)
    ensures (s * D) * (dc * zc) == (zc * s) * (dc * D)
    ensures ((N * zm) * Z) * (dc * D) == (dc * zm) * ((N * Z) * D)
    ensures (zc * dm) * ((N * Z) * D) == ((N * dm) * D) * (zc * Z)
  {
    Interchange(s', Z, dc, zc);
    Interchange(s, D, zc, dc);
    SteadySwap(N, zm, Z, dc, D);
    SteadySwap(N, dm, Z, zc, D);
    Interchange(N * dm, D, zc, Z);
    Interchange(N * dm, Z, zc, D);
  }

  lemma SteadySwap(N: nat, m: nat, Z: nat, c: nat, D: nat)
    ensures ((N * m) * Z) * (c * D) == (c * m) * ((N * Z) * D)
  {
    Exchange3(N, m, Z);
    Interchange(N * Z, m, c, D);
    Exchange3(N * Z, c, m * D);
    assert ((N * Z) * c) * (m * D) == ((N * Z) * D) * (c * m) by {
      Interchange(N * Z, c, D, m);
    }
  }

  lemma SteadyAbove(scaled: seq<nat>, z: nat, d: nat)
    requires z <= d && Steady(scaled, z)
    ensures Steady(scaled, d)
  {
    var N := |scaled| + 1;
    SpreadFalls(scaled, z, d, 0);
    SteadyTrade(z, d, 2 * N);
    SteadyCancels(Spread(scaled, z, 0), Spread(scaled, d, 0), Pow(z, |scaled|), Pow(d, |scaled|), N,
                  z + 2 * N, z - 2 * N, d + 2 * N, d - 2 * N);
  }

  // ----- one round, on plain numbers -----

  /** The numbers of one round: K the exact product, p the floored one at d, s what the floors lost,
      P == d^n, T == ann*S, A == ann-1. */
  ghost predicate Round(K: nat, A: nat, T: nat, n: nat, d: nat, d': nat, p: nat, P: nat, s: nat) {
    && 0 < K && 0 < P && 0 < n && 0 < d
    && p * K <= d * P <= p * K + s
    && (A * d + p - T) * d <= (d - d') * (A * d + (n + 1) * p)
  }

  lemma QUpper(K: nat, A: nat, p: nat, n: nat, d: nat, P: nat)
    requires p * K <= d * P
    ensures K * (A * d + (n + 1) * p) <= (n + 1) * (d * (K * A + P))
    ensures K * (A * d + (n + 1) * p) <= K * (A * d) + (n + 1) * (d * P)
  {
    MulLe(p * K, d * P, n + 1);
    assert K * ((n + 1) * p) == (p * K) * (n + 1);
    assert K * (A * d + (n + 1) * p) == K * (A * d) + K * ((n + 1) * p);
    assert d * (K * A + P) == K * (A * d) + d * P;
    MulLe(1, n + 1, K * (A * d));
    assert (n + 1) * (K * (A * d) + d * P) == (n + 1) * (K * (A * d)) + (n + 1) * (d * P);
  }

  lemma QLower(K: nat, A: nat, p: nat, n: nat, d: nat, P: nat, s: nat)
    requires d * P <= p * K + s
    ensures K * (A * d) + (n + 1) * (d * P - s) <= K * (A * d + (n + 1) * p)
  {
    MulLe(d * P - s, p * K, n + 1);
    assert K * ((n + 1) * p) == (p * K) * (n + 1);
    assert K * (A * d + (n + 1) * p) == K * (A * d) + K * ((n + 1) * p);
  }

  /** The floored residual at d, from a point z above the exact invariant. */
  lemma ResidualFrom(K: nat, A: nat, T: nat, d: nat, p: nat, P: nat, s: nat, z: nat, Z: nat)
    requires d * P <= p * K + s && K * T < Z + K * (A * z)
    ensures K * (A * (d - z)) + d * P - Z - s <= K * (A * d + p - T)
  {
    assert K * (A * d + p - T) == K * (A * d) + p * K - K * T;
    assert K * (A * (d - z)) == K * (A * d) - K * (A * z) by {
      MulSub(A, d, z);
      MulSub(K, A * d, A * z);
    }
  }

  lemma ScaledBound(low: int, K: nat, g: int, d: nat, x: int, Q: int)
    requires low <= K * g && g * d <= x * Q
    ensures low * d <= x * (K * Q)
  {
    MulLe(low, K * g, d);
    MulLe(g * d, x * Q, K);
    assert (K * g) * d == (g * d) * K;
    assert (x * Q) * K == x * (K * Q);
  }

  lemma ProductsAreNat(a: nat, b: nat, c: nat)
    ensures 0 <= a * (b * c)
  {
    MulLe(0, b, c);
    MulLe(0, b * c, a);
  }

  lemma ResidualAbove(K: nat, A: nat, T: nat, d: nat, p: nat, P: nat, s: nat, z: nat, Z: nat)
    requires d * P <= p * K + s && K * T < Z + K * (A * z) && z <= d && Z <= z * P
    ensures (d - z) * (K * A) + (d - z) * P - s <= K * (A * d + p - T)
  {
    ResidualFrom(K, A, T, d, p, P, s, z, Z);
    MulSub(P, d, z);
    MulAssoc(K, A, d - z);
  }

  // ----- falling -----

  lemma FallAtLeast(K: nat, A: nat, T: nat, n: nat, d: nat, d': nat, p: nat, P: nat, s: nat, z: nat, Z: nat, L: nat)
    requires Round(K, A, T, n, d, d', p, P, s) && K * T < Z + K * (A * z) && z <= d && Z <= z * P
    requires d' <= d && s <= L * P
    ensures d - z - L <= (n + 1) * (d - d')
  {
    ResidualAbove(K, A, T, d, p, P, s, z, Z);
    FallWeighs(d - z, L, Mul(K, A), P, s);
    ScaledBound((d - z - L) * (K * A + P), K, A * d + p - T, d, d - d', A * d + (n + 1) * p);
    QUpper(K, A, p, n, d, P);
    FallCancels(d - z - L, Mul(K, A) + P, d, d - d', n + 1, K * (A * d + (n + 1) * p));
  }

  lemma FallWeighs(m: int, L: nat, KA: nat, P: nat, s: nat)
    requires s <= L * P
    ensures (m - L) * (KA + P) <= m * KA + m * P - s
  {
    MulLe(0, L, KA);
    assert (m - L) * (KA + P) == m * KA + m * P - L * KA - L * P;
  }

  lemma FallCancels(m: int, W: nat, d: nat, x: nat, n1: nat, QK: int)
    requires 0 < W && 0 < d && (m * W) * d <= x * QK && QK <= n1 * (d * W)
    ensures m <= n1 * x
  {
    MulLe(QK, n1 * (d * W), x);
    assert (m * W) * d == m * (d * W);
    assert (n1 * (d * W)) * x == (n1 * x) * (d * W);
    FactorsKeepPositive(d, W);
    CancelLe(m, n1 * x, d * W);
  }

  // ----- climbing -----

  lemma LossWeighs(m: nat, L: nat, P: nat, s: nat, d: nat)
    requires s <= L * P
    ensures (m - L) * P * d <= (m * P - s) * d
  {
    assert (m - L) * P == m * P - L * P;
    MulLe((m - L) * P, m * P - s, d);
  }

  /** No climb is longer than the floors allow. */
  lemma ClimbAbove(n: nat, L: nat, d: nat, P: nat, x: int, QK: int, KAd: nat, s: nat, m: nat)
    requires 0 < P && 0 < d && 2 * L <= d && s <= L * P
    requires (m * P - s) * d <= x * QK && KAd + (n + 1) * (d * P - s) <= QK
    ensures x < 0 ==> (n + 1) * -x <= 2 * (L - m)
  {
    if x < 0 {
      LossWeighs(m, L, P, s, d);
      ClimbFalls(m - L, P, d, x, QK, KAd);
      ClimbScaled(n + 1, -x, d, P, s, QK - KAd, L, L - m);
      ClimbHalf((n + 1) * -x, d, L, L - m);
    }
  }

  lemma ClimbFalls(e: int, P: nat, d: nat, x: int, QK: int, KAd: nat)
    requires e * P * d <= x * QK && x < 0
    ensures -x * (QK - KAd) <= (-e * P) * d
  {
    MulLe(x, 0, KAd);
    MulSub(-x, QK, KAd);
    assert (-e * P) * d == -(e * P * d);
  }

  lemma ClimbScaled(N: nat, u: nat, d: nat, P: nat, s: nat, Q: int, L: nat, f: int)
    requires 0 < P && s <= L * P && N * (d * P - s) <= Q && u * Q <= (f * P) * d && L <= d
    ensures (N * u) * (d - L) <= f * d
  {
    MulSub(P, d, L);
    MulLe((d - L) * P, d * P - s, N);
    MulLe(N * ((d - L) * P), Q, u);
    assert (N * ((d - L) * P)) * u == ((N * u) * (d - L)) * P by {
      MulAssoc(N, d - L, P);
      Exchange3(N * (d - L), P, u);
      Exchange3(N, d - L, u);
    }
    Exchange3(f, P, d);
    CancelLe((N * u) * (d - L), f * d, P);
  }

  lemma ClimbHalf(Nu: nat, d: nat, L: nat, f: int)
    requires Nu * (d - L) <= f * d && 2 * L <= d && 0 < d
    ensures Nu <= 2 * f
  {
    MulLe(0, d - L, Nu);
    if f < 0 {
      MulLe(f, -1, d);
    } else {
      MulLe(d, 2 * (d - L), f);
      CancelLe(Nu, 2 * f, d - L) by { assert (2 * f) * (d - L) == f * (2 * (d - L)); }
    }
  }

  /** One step up a power of d grows by at most about n+1 times the power below. */
  lemma PowerStep(d: nat, N: nat, P: nat, Z: nat)
    requires 2 * N <= d && 0 < d && Z * (d - N) <= d * (d * P)
    ensures (Z - d * P) * d <= (N * (d + 2 * N)) * P
  {
    var e := d - N;
    assert (Z - d * P) * e == Z * e - (d * P) * e;
    assert d * (d * P) - (d * P) * e == (N * d) * P by {
      assert d * (d * P) == (d * P) * d && (d * P) * d - (d * P) * e == (d * P) * N;
      Exchange3(d, P, N);
    }
    MulLe((Z - d * P) * e, (N * d) * P, d);
    StepRoom(d, N, e);
    MulLe((N * d) * d, (N * (d + 2 * N)) * e, P);
    Exchange3(N * d, P, d);
    Exchange3(N * (d + 2 * N), e, P);
    Exchange3(Z - d * P, e, d);
    CancelLe((Z - d * P) * d, (N * (d + 2 * N)) * P, e);
  }

  lemma StepRoom(d: nat, N: nat, e: nat)
    requires 2 * N <= d && e == d - N
    ensures (N * d) * d <= (N * (d + 2 * N)) * e
  {
    MulLe(2 * N, d, N);
    assert (d + 2 * N) * e == d * d + N * d - 2 * (N * N);
    MulLe(d * d, (d + 2 * N) * e, N);
    MulAssoc(N, d, d);
    MulAssoc(N, d + 2 * N, e);
  }

  lemma FloorResidual(K: nat, A: nat, T: nat, d: nat, p: nat, P: nat, s: nat, Z: nat)
    requires d * P <= p * K + s && K * T < Z + K * (A * (d + 1))
    ensures d * P - Z - s - K * A <= K * (A * d + p - T)
  {
    assert K * (A * (d + 1)) == K * (A * d) + K * A;
    assert K * (A * d + p - T) == K * (A * d) + p * K - K * T;
  }

  /** At the floor the next point up adds one step of the power to what the floors allow. */
  lemma ClimbAtFloor(d: nat, P: nat, Z: nat, x: int, QK: int, KA: nat, s: nat, w: int, N: nat)
    requires (d * P - Z - s - KA) * d <= x * QK && KA * d + w <= QK && x <= -1 && 0 <= w
    requires (Z - d * P) * d <= (N * (d + 2 * N)) * P
    ensures w * -x <= (N * (d + 2 * N)) * P + s * d
  {
    var u := -x;
    MulLe(0, KA, d);
    MulLe(KA * d + w, QK, u);
    assert (KA * d + w) * u == (KA * d) * u + w * u;
    MulLe(1, u, KA * d);
    assert (d * P - Z - s - KA) * d == -((Z - d * P) * d) - s * d - KA * d;
  }

  lemma FloorBoundSum(d: nat, P: nat, s: nat, N: nat, L: nat)
    requires 2 * N <= d && s <= L * P
    ensures (N * (d + 2 * N)) * P + s * d <= ((2 * N + L) * P) * d
  {
    MulLe(s, L * P, d);
    MulLe(d + 2 * N, 2 * d, N);
    MulLe(N * (d + 2 * N), N * (2 * d), P);
    Exchange3(2 * N, P, d);
    assert (2 * N) * d == N * (2 * d);
    assert (2 * N + L) * P == (2 * N) * P + L * P;
    assert ((2 * N) * P + L * P) * d == ((2 * N) * P) * d + (L * P) * d;
  }

  lemma FloorClimbBounded(d: nat, P: nat, x: int, s: nat, N: nat, L: nat)
    requires 0 < P && 0 < d && 2 * L <= d && 2 * N <= d && s <= L * P && x <= -1
    requires (N * (d * P - s)) * -x <= (N * (d + 2 * N)) * P + s * d
    ensures N * -x <= 2 * L + 4 * N
  {
    FloorBoundSum(d, P, s, N, L);
    ClimbScaled(N, -x, d, P, s, N * (d * P - s), L, 2 * N + L);
    ClimbHalf(N * -x, d, L, 2 * N + L);
  }

  lemma SteadySum(d: nat, P: nat, s: nat, N: nat)
    requires 2 * N <= d && (d + 2 * N) * s < (N * (d - 2 * N)) * P
    ensures (N * (d + 2 * N)) * P + s * d < 2 * (N * (d * P - s))
  {
    assert (d + 2 * N) * s == s * d + 2 * (N * s);
    assert N * (d * P - s) == N * (d * P) - N * s;
    assert N * (d + 2 * N) + N * (d - 2 * N) == 2 * (N * d);
    assert (N * (d + 2 * N)) * P + (N * (d - 2 * N)) * P == (2 * (N * d)) * P;
    MulAssoc(N, d, P);
    MulAssoc(2, N * d, P);
  }

  lemma SteadyFloorClimb(d: nat, P: nat, x: int, s: nat, N: nat)
    requires 2 * N <= d && 0 <= d * P - s && (d + 2 * N) * s < (N * (d - 2 * N)) * P
    requires x <= -1 ==> (N * (d * P - s)) * -x <= (N * (d + 2 * N)) * P + s * d
    ensures -1 <= x
  {
    SteadySum(d, P, s, N);
    MulLe(0, d * P - s, N);
    if x <= -2 {
      MulLe(2, -x, N * (d * P - s));
    }
  }

  lemma SteadyNoClimb(d: nat, P: nat, x: int, QK: int, KAd: nat, s: nat, m: nat, N: nat)
    requires 2 * N <= d && 0 <= d * P - s && (d + 2 * N) * s < (N * (d - 2 * N)) * P
    requires (m * P - s) * d <= x * QK && KAd + N * (d * P - s) <= QK
    ensures 0 <= x
  {
    NotSteady(d, P, s, N);
    LossOnly(m, P, s, d);
    MulLe(0, d * P - s, N);
    if x < 0 {
      MulLe(x, -1, QK);
    }
  }

  lemma LossOnly(m: nat, P: nat, s: nat, d: nat)
    ensures -(s * d) <= (m * P - s) * d
  {
    MulLe(0, m, P);
    MulLe(0, m * P, d);
    assert (m * P - s) * d == (m * P) * d - s * d;
  }

  lemma NotSteady(d: nat, P: nat, s: nat, N: nat)
    requires 2 * N <= d && (d + 2 * N) * s < (N * (d - 2 * N)) * P
    ensures s * d < N * (d * P - s)
  {
    assert (d + 2 * N) * s == s * d + 2 * (N * s);
    assert N * (d * P - s) == N * (d * P) - N * s;
    MulLe(0, N, s);
    MulLe(N * (d - 2 * N), N * d, P) by { MulLe(d - 2 * N, d, N); }
    MulAssoc(N, d, P);
  }

  // ----- close to the exact invariant -----

  /** The next distance, times the denominator, is at most d times the deficit and the floors' loss. */
  lemma CloseRound(K: nat, A: nat, T: nat, n: nat, d: nat, d': nat, p: nat, P: nat, s: nat, z: nat, Z: nat)
    requires Round(K, A, T, n, d, d', p, P, s) && K * T < Z + K * (A * z) && z <= d
    ensures (d' - z) * (K * (A * d + (n + 1) * p)) <= (n * (d * P) - (n + 1) * (z * P) + Z + s) * d
  {
    var Q, g, m := A * d + (n + 1) * p, A * d + p - T, d - z;
    ResidualFrom(K, A, T, d, p, P, s, z, Z);
    ScaledBound(K * g, K, g, d, d - d', Q);
    QUpper(K, A, p, n, d, P);
    CloseAlgebra(K * (A * d), K * (A * m), n + 1, d, P, m, z, d - d', K * Q, K * g, Z, s) by {
      Exchange4(K, A, d, m);
    }
  }

  lemma CloseAlgebra(KAd: nat, KAm: nat, n1: nat, d: nat, P: nat, m: nat, z: nat, x: int, QK: nat, Kg: int, Z: nat, s: nat)
    requires 0 < n1 && m == d - z && KAd * m == KAm * d && QK <= KAd + n1 * (d * P)
    requires Kg * d <= x * QK && KAm + d * P - Z - s <= Kg
    ensures (m - x) * QK <= ((n1 - 1) * (d * P) - n1 * (z * P) + Z + s) * d
  {
    var R := (n1 - 1) * (d * P) - n1 * (z * P) + Z + s;
    MulLe(QK, KAd + n1 * (d * P), m);
    assert (KAd + n1 * (d * P)) * m == KAd * m + (n1 * (d * P)) * m;
    Exchange4Front(n1, d, P, m);
    MulSub(P, d, z);
    MulSub(n1, d * P, z * P);
    assert (n1 - 1) * (d * P) == n1 * (d * P) - d * P;
    MulLe(KAm + n1 * (m * P) - Kg, R, d);
    assert (KAm + n1 * (m * P) - Kg) * d == KAm * d + (n1 * (m * P)) * d - Kg * d;
    assert (m - x) * QK == m * QK - x * QK;
  }

  lemma CloseCancels(n: nat, L: nat, d: nat, P: nat, p1: nat, sq: nat, x: nat, QK: int, deficit: int, s: nat)
    requires 0 < P && P == d * p1 && L <= d && s <= L * P
    requires (n + 1) * (d * P - s) <= QK && x * QK <= (deficit + s) * d
    requires 2 * deficit <= (n * (n + 1)) * (p1 * sq)
    ensures 2 * (x * ((n + 1) * (d - L))) <= (n * (n + 1)) * sq + 2 * (L * d)
  {
    var f, R := n * (n + 1), (n + 1) * (d - L);
    CloseLower(n + 1, L, d, P, s, x, QK);
    CloseUpper(f, L, d, P, p1, sq, deficit, s);
    MulAssoc(2, x * R, P);
    CancelLe(2 * (x * R), f * sq + 2 * (L * d), P);
  }

  lemma CloseLower(N: nat, L: nat, d: nat, P: nat, s: nat, x: nat, QK: int)
    requires L <= d && s <= L * P && N * (d * P - s) <= QK
    ensures (x * (N * (d - L))) * P <= x * QK
  {
    MulSub(P, d, L);
    MulLe((d - L) * P, d * P - s, N);
    MulAssoc(N, d - L, P);
    MulLe((N * (d - L)) * P, QK, x);
    MulAssoc(x, N * (d - L), P);
  }

  lemma CloseUpper(f: nat, L: nat, d: nat, P: nat, p1: nat, sq: nat, deficit: int, s: nat)
    requires P == d * p1 && s <= L * P && 2 * deficit <= f * (p1 * sq)
    ensures 2 * ((deficit + s) * d) <= (f * sq + 2 * (L * d)) * P
  {
    MulLe(2 * deficit + 2 * s, f * (p1 * sq) + 2 * (L * P), d);
    MulAssoc(2, deficit + s, d);
    CloseFactor(f, p1, sq, d, L, P);
  }

  lemma CloseFactor(f: nat, p1: nat, sq: nat, d: nat, n: nat, P: nat)
    requires P == d * p1
    ensures (f * (p1 * sq) + 2 * (n * P)) * d == (f * sq + 2 * (n * d)) * P
  {
    Exchange4(f, sq, p1, d);
    assert p1 * sq == sq * p1;
    assert (f * (sq * p1)) * d == f * ((sq * p1) * d);
    assert (sq * p1) * d == sq * P;
    MulAssoc(f, sq, P);
    Exchange3(n, P, d);
    assert (f * (p1 * sq) + 2 * (n * P)) * d == (f * (p1 * sq)) * d + 2 * ((n * P) * d);
    assert (f * sq + 2 * (n * d)) * P == (f * sq) * P + 2 * ((n * d) * P);
  }

  lemma CloseTidies(n: nat, L: nat, d: nat, sq: nat, x: nat)
    requires (n + 1) * L <= d && L <= d
    requires 2 * (x * ((n + 1) * (d - L))) <= (n * (n + 1)) * sq + 2 * (L * d)
    ensures 2 * (d * (n * x - L)) <= (n * (n + 1)) * sq
  {
    assert (n + 1) * (d - L) == n * d + d - (n + 1) * L;
    MulLe(n * d, (n + 1) * (d - L), x);
    assert d * (n * x - L) == (n * d) * x - L * d by { MulSub(d, n * x, L); }
  }

  // ----- one round of get_d -----

  ghost predicate Setting(curve: Curve, amounts: seq<nat>, q: DParams, z: nat) {
    curve.DSetup(amounts) == Some(q) && IsFloor(curve, amounts, z)
  }

  lemma ResidualFall(A: nat, n: nat, p: nat, T: nat, d: nat, d': nat, Q: nat)
    requires Q == A * d + (n + 1) * p && 0 < Q && d' == (T + n * p) * d / Q
    ensures (A * d + p - T) * d <= (d - d') * Q
  {
    DivPinned((T + n * p) * d, Q);
    assert T + n * p == Q - (A * d + p - T) by {
      assert (n + 1) * p == n * p + p;
    }
    MulSub(d, Q, A * d + p - T);
    MulSub(Q, d, d');
  }

  lemma ProductNumbers(q: DParams, d: nat) returns (p: nat, s: nat)
    requires ProdFrom(q.scaled, d, d, 0).Some?
    ensures ProdFrom(q.scaled, d, d, 0) == Some(p) && 0 < Product(q.scaled, 0)
    ensures var K, n := Product(q.scaled, 0), |q.scaled|;
            p * K <= d * Pow(d, n) <= p * K + s && s <= Spread(q.scaled, d, 0)
  {
    p := ProdFrom(q.scaled, d, d, 0).value;
    ProdUpper(q.scaled, d, d, 0);
    ProdLower(q.scaled, d, d, 0);
    ProductPositive(q.scaled, 0);
    SlackWithinSpread(q.scaled, d, 0);
    s := ProdSlack(q.scaled, d, 0);
  }

  lemma RoundNumbers(curve: Curve, amounts: seq<nat>, q: DParams, d: nat, d': nat, z: nat)
    returns (K: nat, A: nat, T: nat, p: nat, s: nat)
    requires Setting(curve, amounts, q, z) && DStep(q, d) == Some(d')
    ensures |q.scaled| == |amounts| && Round(K, A, T, |amounts|, d, d', p, Pow(d, |amounts|), s)
    ensures K * T < Pow(z + 1, |amounts| + 1) + K * (A * (z + 1))
    ensures s <= Spread(q.scaled, d, 0)
  {
    var n := |amounts|;
    K, A, T := Product(q.scaled, 0), q.annSubOne, q.annSum;
    SetupFacts(curve, amounts, q);
    p, s := ProductNumbers(q, d);
    RoundStartsPositive(q, d, d', p);
    RoundQuotient(q, d, d', p);
    ResidualFall(A, n, p, T, d, d', Denominator(q, d, p));
  }

  /** From any start, a round ends at or above the floor of the exact invariant. */
  lemma RoundStaysAbove(curve: Curve, amounts: seq<nat>, q: DParams, d: nat, d': nat, z: nat)
    requires Setting(curve, amounts, q, z) && DStep(q, d) == Some(d')
    ensures z <= d'
  {
    SetupFacts(curve, amounts, q);
    RoundAbove(curve, amounts, q, d, d');
    AboveCoversRoot(curve, amounts, d');
  }

  /** The constant part of the distance that the linear descent does not reach. */
  function Reserve(n: nat, L: nat): nat {
    2 * L + 4 * (n + 1)
  }

  /** The distance to z, less the reserve, shrinks by n/(n+1). */
  ghost predicate Shrinks(n: nat, L: nat, z: nat, d: nat, d': nat) {
    z <= d' && (n + 1) * (d' - z - Reserve(n, L)) <= n * (d - z - Reserve(n, L))
  }

  /** From above z the next distance is at most about the square of this one over d, and L/n + 1. */
  ghost predicate Squares(n: nat, L: nat, z: nat, d: nat, d': nat) {
    z < d ==> 2 * (d * (n * (d' - z - 1) - L)) <= (n * (n + 1)) * ((d - z) * (d - z))
  }

  /** It climbs by one at most, and only from z itself. */
  predicate Steps(z: nat, d: nat, d': nat) {
    (d == z ==> d' <= d + 1) && (z < d ==> d' <= d)
  }

  lemma ShrinksFrom(n: nat, L: nat, z: nat, d: nat, d': nat)
    requires z <= d' && (n + 1) * (d' - z) <= n * (d - z) + Reserve(n, L)
    ensures Shrinks(n, L, z, d, d')
  {
    var R := Reserve(n, L);
    MulSub(n + 1, d' - z, R);
    MulSub(n, d - z, R);
    assert (n + 1) * R == n * R + R;
  }

  lemma PowerBelow(z: nat, d: nat, n: nat)
    requires z <= d
    ensures Pow(z, n + 1) <= z * Pow(d, n)
  {
    PowMono(z, d, n);
    MulLe(Pow(z, n), Pow(d, n), z);
  }

  /** The bounds every round gives from z+1 on: how far it falls, or how little it climbs. */
  lemma AboveNumbers(K: nat, A: nat, T: nat, n: nat, d: nat, d': nat, p: nat, s: nat, z: nat, L: nat)
    requires Round(K, A, T, n, d, d', p, Pow(d, n), s) && K * T < Pow(z + 1, n + 1) + K * (A * (z + 1))
    requires z < d && s <= L * Pow(d, n) && 2 * L <= d
    ensures d' <= d ==> d - (z + 1) - L <= (n + 1) * (d - d')
    ensures d < d' ==> (n + 1) * (d' - d) <= 2 * (L - (d - (z + 1)))
  {
    PowerBelow(z + 1, d, n);
    if d' <= d {
      FallAtLeast(K, A, T, n, d, d', p, Pow(d, n), s, z + 1, Pow(z + 1, n + 1), L);
    } else {
      AboveScaled(K, A, T, n, d, d', p, Pow(d, n), s, z + 1, Pow(z + 1, n + 1));
      ClimbAbove(n, L, d, Pow(d, n), d - d', K * (A * d + (n + 1) * p), Mul(K, A * d), s, d - (z + 1));
    }
  }

  lemma AboveScaled(K: nat, A: nat, T: nat, n: nat, d: nat, d': nat, p: nat, P: nat, s: nat, z: nat, Z: nat)
    requires Round(K, A, T, n, d, d', p, P, s) && K * T < Z + K * (A * z) && z <= d && Z <= z * P
    ensures ((d - z) * P - s) * d <= (d - d') * (K * (A * d + (n + 1) * p))
    ensures K * (A * d) + (n + 1) * (d * P - s) <= K * (A * d + (n + 1) * p)
  {
    ResidualAbove(K, A, T, d, p, P, s, z, Z);
    ProductsAreNat(d - z, K, A);
    ScaledBound((d - z) * P - s, K, A * d + p - T, d, d - d', A * d + (n + 1) * p);
    QLower(K, A, p, n, d, P, s);
  }

  lemma AboveShrinks(n: nat, L: nat, z: nat, d: nat, d': nat)
    requires z < d && z <= d' && 0 < n
    requires d' <= d ==> d - (z + 1) - L <= (n + 1) * (d - d')
    requires d < d' ==> (n + 1) * (d' - d) <= 2 * (L - (d - (z + 1)))
    ensures Shrinks(n, L, z, d, d')
  {
    assert (n + 1) * (d' - z) == (n + 1) * (d - z) - (n + 1) * (d - d');
    assert (n + 1) * (d - z) == n * (d - z) + (d - z);
    assert (n + 1) * (d - d') == -((n + 1) * (d' - d));
    ShrinksFrom(n, L, z, d, d');
  }

  lemma FloorNumbers(K: nat, A: nat, T: nat, n: nat, d: nat, d': nat, p: nat, P: nat, s: nat, Z: nat)
    requires Round(K, A, T, n, d, d', p, P, s) && K * T < Z + K * (A * (d + 1))
    requires 2 * (n + 1) <= d && Z * (d - (n + 1)) <= d * (d * P) && 0 <= d * P - s && d < d'
    ensures ((n + 1) * (d * P - s)) * (d' - d) <= ((n + 1) * (d + 2 * (n + 1))) * P + s * d
  {
    FloorResidual(K, A, T, d, p, P, s, Z);
    ScaledBound(d * P - Z - s - K * A, K, A * d + p - T, d, d - d', A * d + (n + 1) * p);
    QLower(K, A, p, n, d, P, s);
    PowerStep(d, n + 1, P, Z);
    FloorClimbs(Mul(K, A), n + 1, d, d - d', P, s, Z, K * (A * d + (n + 1) * p)) by {
      MulAssoc(K, A, d);
    }
  }

  lemma FloorClimbs(KA: nat, N: nat, d: nat, x: int, P: nat, s: nat, Z: nat, QK: int)
    requires (d * P - Z - s - KA) * d <= x * QK && KA * d + N * (d * P - s) <= QK && x <= -1 && 0 <= d * P - s
    requires (Z - d * P) * d <= (N * (d + 2 * N)) * P
    ensures (N * (d * P - s)) * -x <= (N * (d + 2 * N)) * P + s * d
  {
    MulLe(0, d * P - s, N);
    ClimbAtFloor(d, P, Z, x, QK, KA, s, N * (d * P - s), N);
  }

  lemma LossBelowPower(d: nat, P: nat, s: nat, L: nat)
    requires s <= L * P && L <= d
    ensures 0 <= d * P - s
  {
    MulLe(L, d, P);
  }

  lemma NextPower(d: nat, N: nat, n: nat)
    requires N == n + 1 <= d
    ensures Pow(d + 1, n + 1) * (d - N) <= d * (d * Pow(d, n))
  {
    PowNext(d, n + 1);
    assert Pow(d, n + 2) == d * Pow(d, n + 1) && Pow(d, n + 1) == d * Pow(d, n);
  }

  lemma FloorShrinks(K: nat, A: nat, T: nat, n: nat, d: nat, d': nat, p: nat, s: nat, L: nat)
    requires Round(K, A, T, n, d, d', p, Pow(d, n), s) && K * T < Pow(d + 1, n + 1) + K * (A * (d + 1))
    requires s <= L * Pow(d, n) && 2 * L <= d && 2 * (n + 1) <= d && d <= d'
    ensures Shrinks(n, L, d, d, d')
  {
    if d < d' {
      LossBelowPower(d, Pow(d, n), s, L);
      NextPower(d, n + 1, n);
      FloorNumbers(K, A, T, n, d, d', p, Pow(d, n), s, Pow(d + 1, n + 1));
      FloorClimbBounded(d, Pow(d, n), d - d', s, n + 1, L);
    }
    FloorShrinksFrom(n, L, d, d');
  }

  lemma FloorShrinksFrom(n: nat, L: nat, d: nat, d': nat)
    requires d <= d' && (d < d' ==> (n + 1) * (d' - d) <= Reserve(n, L))
    ensures Shrinks(n, L, d, d, d')
  {
    ShrinksFrom(n, L, d, d, d');
  }

  lemma ShrinksAtFloor(curve: Curve, amounts: seq<nat>, q: DParams, d: nat, d': nat, L: nat)
    requires Setting(curve, amounts, q, d) && DStep(q, d) == Some(d')
    requires Loose(q.scaled, d, L) && 2 * L <= d && 2 * (|amounts| + 1) <= d
    ensures Shrinks(|amounts|, L, d, d, d')
  {
    var K, A, T, p, s := RoundNumbers(curve, amounts, q, d, d', d);
    RoundStaysAbove(curve, amounts, q, d, d', d);
    FloorShrinks(K, A, T, |amounts|, d, d', p, s, L);
  }

  lemma ShrinksAbove(curve: Curve, amounts: seq<nat>, q: DParams, d: nat, d': nat, z: nat, L: nat)
    requires Setting(curve, amounts, q, z) && DStep(q, d) == Some(d') && 0 < z < d
    requires Loose(q.scaled, z, L) && 2 * L <= z
    ensures Shrinks(|amounts|, L, z, d, d')
  {
    var K, A, T, p, s := RoundNumbers(curve, amounts, q, d, d', z);
    RoundStaysAbove(curve, amounts, q, d, d', z);
    LooseAbove(q.scaled, z, d, L);
    AboveNumbers(K, A, T, |amounts|, d, d', p, s, z, L);
    AboveShrinks(|amounts|, L, z, d, d');
  }

  /** One round from z or above, on any pool whose looseness is small beside z. */
  lemma RoundShrinks(curve: Curve, amounts: seq<nat>, q: DParams, d: nat, d': nat, z: nat, L: nat)
    requires Setting(curve, amounts, q, z) && DStep(q, d) == Some(d') && z <= d
    requires Loose(q.scaled, z, L) && 2 * L <= z && 2 * (|amounts| + 1) <= z
    ensures Shrinks(|amounts|, L, z, d, d')
  {
    if z < d {
      ShrinksAbove(curve, amounts, q, d, d', z, L);
    } else {
      ShrinksAtFloor(curve, amounts, q, d, d', L);
    }
  }

  lemma CloseNumbers(K: nat, A: nat, T: nat, n: nat, d: nat, d': nat, p: nat, P: nat, s: nat, z: nat, Z: nat, L: nat)
    requires Round(K, A, T, n, d, d', p, P, s) && K * T < Z + K * (A * z) && z <= d && z <= d'
    requires P == Pow(d, n) && Z == Pow(z, n + 1) && s <= L * P && (n + 1) * L <= d && L <= d
    ensures 2 * (d * (n * (d' - z) - L)) <= (n * (n + 1)) * ((d - z) * (d - z))
  {
    CloseRound(K, A, T, n, d, d', p, P, s, z, Z);
    QLower(K, A, p, n, d, P, s);
    DeficitIsQuadratic(d, z, n);
    CloseFrom(n, L, d, P, Pow(d, n - 1), Mul(d - z, d - z), d' - z, K * (A * d + (n + 1) * p), Mul(K, A * d), Deficit(d, z, n), s) by {
      assert Pow(d, n + 1) == d * P && P == d * Pow(d, n - 1);
    }
  }

  lemma CloseFrom(n: nat, L: nat, d: nat, P: nat, p1: nat, sq: nat, x: nat, QK: int, KAd: nat, deficit: int, s: nat)
    requires 0 < P && P == d * p1 && (n + 1) * L <= d && L <= d && s <= L * P
    requires KAd + (n + 1) * (d * P - s) <= QK && x * QK <= (deficit + s) * d
    requires 2 * deficit <= (n * (n + 1)) * (p1 * sq)
    ensures 2 * (d * (n * x - L)) <= (n * (n + 1)) * sq
  {
    CloseCancels(n, L, d, P, p1, sq, x, QK, deficit, s);
    CloseTidies(n, L, d, sq, x);
  }

  lemma SquaresFrom(n: nat, L: nat, z: nat, d: nat, d': nat)
    requires z < d && z <= d'
    requires z < d' ==> 2 * (d * (n * (d' - (z + 1)) - L)) <= (n * (n + 1)) * ((d - (z + 1)) * (d - (z + 1)))
    ensures Squares(n, L, z, d, d')
  {
    MulLe(0, n, n + 1);
    ScaledSquare(n * (n + 1), d - (z + 1), d - z);
    if z == d' {
      assert n * (d' - z - 1) == -(n as int);
      MulLe(-(n as int) - L, 0, d);
      ProductsAreNat(n * (n + 1), d - z, d - z);
    }
  }

  lemma ScaledSquare(f: nat, a: nat, b: nat)
    requires a <= b
    ensures f * (a * a) <= f * (b * b)
  {
    MulLeBoth(a, b, a, b);
    MulLe(a * a, b * b, f);
  }

  /** Close to z the distance squares. */
  lemma RoundCloses(curve: Curve, amounts: seq<nat>, q: DParams, d: nat, d': nat, z: nat, L: nat)
    requires Setting(curve, amounts, q, z) && DStep(q, d) == Some(d') && 0 < z <= d
    requires Loose(q.scaled, z, L) && (|amounts| + 1) * L <= z && L <= z
    ensures Squares(|amounts|, L, z, d, d')
  {
    var n, P := |amounts|, Pow(d, |amounts|);
    var K, A, T, p, s := RoundNumbers(curve, amounts, q, d, d', z);
    RoundStaysAbove(curve, amounts, q, d, d', z);
    LooseAbove(q.scaled, z, d, L);
    if z < d {
      if z < d' {
        CloseNumbers(K, A, T, n, d, d', p, P, s, z + 1, Pow(z + 1, n + 1), L);
      }
      SquaresFrom(n, L, z, d, d');
    }
  }

  lemma SteadyLoss(d: nat, P: nat, s: nat, spread: nat, N: nat)
    requires 2 * N < d && s <= spread && (d + 2 * N) * spread < (N * (d - 2 * N)) * P
    ensures (d + 2 * N) * s < (N * (d - 2 * N)) * P && s <= N * P && 0 <= d * P - s
  {
    MulLe(s, spread, d + 2 * N);
    MulLe(N * (d - 2 * N), N * (d + 2 * N), P) by { MulLe(d - 2 * N, d + 2 * N, N); }
    assert (N * (d + 2 * N)) * P == (N * P) * (d + 2 * N) by { Exchange3(N, d + 2 * N, P); }
    CancelLt(s, N * P, d + 2 * N) by { assert (d + 2 * N) * s == s * (d + 2 * N); }
    MulLe(N, d, P);
  }

  lemma StepsAbove(K: nat, A: nat, T: nat, n: nat, d: nat, d': nat, p: nat, s: nat, z: nat)
    requires Round(K, A, T, n, d, d', p, Pow(d, n), s) && K * T < Pow(z + 1, n + 1) + K * (A * (z + 1)) && z < d
    requires 2 * (n + 1) <= d && 0 <= d * Pow(d, n) - s
    requires (d + 2 * (n + 1)) * s < ((n + 1) * (d - 2 * (n + 1))) * Pow(d, n)
    ensures d' <= d
  {
    PowerBelow(z + 1, d, n);
    AboveScaled(K, A, T, n, d, d', p, Pow(d, n), s, z + 1, Pow(z + 1, n + 1));
    SteadyNoClimb(d, Pow(d, n), d - d', K * (A * d + (n + 1) * p), Mul(K, A * d), s, d - (z + 1), n + 1);
  }

  lemma StepsAtFloor(K: nat, A: nat, T: nat, n: nat, d: nat, d': nat, p: nat, s: nat)
    requires Round(K, A, T, n, d, d', p, Pow(d, n), s) && K * T < Pow(d + 1, n + 1) + K * (A * (d + 1))
    requires 2 * (n + 1) <= d && 0 <= d * Pow(d, n) - s
    requires (d + 2 * (n + 1)) * s < ((n + 1) * (d - 2 * (n + 1))) * Pow(d, n)
    ensures d' <= d + 1
  {
    NextPower(d, n + 1, n);
    if d < d' {
      FloorNumbers(K, A, T, n, d, d', p, Pow(d, n), s, Pow(d + 1, n + 1));
    }
    SteadyFloorClimb(d, Pow(d, n), d - d', s, n + 1);
  }

  /** On a steady pool the rounds do not climb, but for one unit from z itself. */
  lemma RoundSteps(curve: Curve, amounts: seq<nat>, q: DParams, d: nat, d': nat, z: nat)
    requires Setting(curve, amounts, q, z) && DStep(q, d) == Some(d') && z <= d && Steady(q.scaled, z)
    ensures Steps(z, d, d')
  {
    var n := |amounts|;
    var K, A, T, p, s := RoundNumbers(curve, amounts, q, d, d', z);
    SteadyAbove(q.scaled, z, d);
    SteadyLoss(d, Pow(d, n), s, Spread(q.scaled, d, 0), n + 1);
    if z < d {
      StepsAbove(K, A, T, n, d, d', p, s, z);
    } else {
      StepsAtFloor(K, A, T, n, d, d', p, s);
    }
  }

  /** Steady pools lose at most n+1 units. */
  lemma SteadyIsLoose(scaled: seq<nat>, z: nat)
    requires Steady(scaled, z)
    ensures Loose(scaled, z, |scaled| + 1)
  {
    SteadyLoss(z, Pow(z, |scaled|), Spread(scaled, z, 0), Spread(scaled, z, 0), |scaled| + 1);
  }
}
