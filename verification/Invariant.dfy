/** What `get_d` returns, measured against the exact StableSwap invariant.

    For n coins with balances x_k, S their sum, K the product of the n*x_k and ann = amp*n, the
    exact invariant is the root D of  D^(n+1) + K*(ann-1)*D == K*ann*S.  `InvariantGap` is the
    difference of the two sides; it is positive exactly above the root. */
module InvariantTheorems {
  import opened Options
  import opened Checked
  import opened Arithmetic
  import opened StableCurve

  function Product(scaled: seq<nat>, k: nat): nat
    requires k <= |scaled|
    decreases |scaled| - k
  {
    if k == |scaled| then 1 else scaled[k] * Product(scaled, k + 1)
  }

  predicate AllPositive(xs: seq<nat>) {
    forall k :: 0 <= k < |xs| ==> 0 < xs[k]
  }

  function Times(n: nat, xs: seq<nat>): (r: seq<nat>)
    ensures |r| == |xs|
    ensures forall k :: 0 <= k < |xs| ==> r[k] == n * xs[k]
  {
    seq(|xs|, k requires 0 <= k < |xs| => n * xs[k])
  }

  ghost function InvariantGap(amounts: seq<nat>, ann: nat, d: nat): int {
    var K := Product(Times(|amounts|, amounts), 0);
    Pow(d, |amounts| + 1) + K * ((ann - 1) * d) - K * (ann * Sum(amounts))
  }

  /** The value z lies strictly above the exact invariant of these balances. */
  ghost predicate AboveExact(curve: Curve, amounts: seq<nat>, z: nat) {
    0 < InvariantGap(amounts, curve.amp * |amounts|, z)
  }

  lemma {:induction false} ProductPositive(scaled: seq<nat>, k: nat)
    requires k <= |scaled| && forall l :: k <= l < |scaled| ==> 0 < scaled[l]
    ensures 0 < Product(scaled, k)
    decreases |scaled| - k
  {
    if k < |scaled| {
      ProductPositive(scaled, k + 1);
    }
  }

  lemma {:induction false} PowMono(a: nat, b: nat, e: nat)
    requires a <= b
    ensures Pow(a, e) <= Pow(b, e)
    decreases e
  {
    if e != 0 {
      PowMono(a, b, e - 1);
      MulLeBoth(a, b, Pow(a, e - 1), Pow(b, e - 1));
    }
  }

  /** Once above the exact invariant, every larger value is above it too. */
  lemma GapMono(amounts: seq<nat>, ann: nat, d: nat, z: nat)
    requires 0 < ann && d <= z
    ensures InvariantGap(amounts, ann, d) <= InvariantGap(amounts, ann, z)
  {
    PowMono(d, z, |amounts| + 1);
    MulLe(d, z, ann - 1);
    MulLe((ann - 1) * d, (ann - 1) * z, Product(Times(|amounts|, amounts), 0));
  }

  // ----- the floored product -----

  lemma ProdStepUpper(p: nat, d: nat, a: nat, r: nat, rest: nat, tail: nat)
    requires 0 < a && r * rest <= (p * d / a) * tail
    ensures r * (a * rest) <= p * (d * tail)
  {
    DivPinned(p * d, a);
    MulLe(r * rest, (p * d / a) * tail, a);
    MulLe((p * d / a) * a, p * d, tail);
    assert r * (a * rest) == (r * rest) * a;
    assert ((p * d / a) * tail) * a == ((p * d / a) * a) * tail;
    assert p * (d * tail) == (p * d) * tail;
  }

  /** The floored product never exceeds the exact one, and reading it proves the coins nonzero. */
  lemma {:induction false} ProdUpper(scaled: seq<nat>, d: nat, p: nat, k: nat)
    requires k <= |scaled| && ProdFrom(scaled, d, p, k).Some?
    ensures ProdFrom(scaled, d, p, k).value * Product(scaled, k) <= p * Pow(d, |scaled| - k)
    ensures forall l :: k <= l < |scaled| ==> 0 < scaled[l]
    decreases |scaled| - k
  {
    if k < |scaled| {
      var q := p * d / scaled[k];
      ProdUpper(scaled, d, q, k + 1);
      ProdStepUpper(p, d, scaled[k], ProdFrom(scaled, d, p, k).value, Product(scaled, k + 1), Pow(d, |scaled| - k - 1));
    }
  }

  /** The most the floors of the product loop can lose, in units of the exact product. */
  function ProdSlack(scaled: seq<nat>, d: nat, k: nat): int
    requires k <= |scaled|
    decreases |scaled| - k
  {
    if k == |scaled| then 0
    else scaled[k] * ProdSlack(scaled, d, k + 1) + (scaled[k] - 1) * Pow(d, |scaled| - k - 1)
  }

  lemma ProdStepLower(p: nat, d: nat, a: nat, r: nat, rest: nat, tail: nat, slack: int)
    requires 0 < a && (p * d / a) * tail <= r * rest + slack
    ensures p * (d * tail) <= r * (a * rest) + (a * slack + (a - 1) * tail)
  {
    var q := p * d / a;
    DivPinned(p * d, a);
    assert (q + 1) * a == q * a + a;
    MulLe(p * d, q * a + (a - 1), tail);
    assert (q * a + (a - 1)) * tail == (q * tail) * a + (a - 1) * tail;
    MulLe(q * tail, r * rest + slack, a);
    assert (r * rest + slack) * a == r * (a * rest) + a * slack;
    assert p * (d * tail) == (p * d) * tail;
  }

  lemma {:induction false} ProdLower(scaled: seq<nat>, d: nat, p: nat, k: nat)
    requires k <= |scaled| && ProdFrom(scaled, d, p, k).Some?
    ensures p * Pow(d, |scaled| - k) <= ProdFrom(scaled, d, p, k).value * Product(scaled, k) + ProdSlack(scaled, d, k)
    decreases |scaled| - k
  {
    if k < |scaled| {
      var q := p * d / scaled[k];
      ProdLower(scaled, d, q, k + 1);
      ProdStepLower(p, d, scaled[k], ProdFrom(scaled, d, p, k).value, Product(scaled, k + 1),
                    Pow(d, |scaled| - k - 1), ProdSlack(scaled, d, k + 1));
    }
  }

  // ----- one round -----

  ghost predicate RoundOf(q: DParams, d: nat, d': nat, p: nat) {
    && DStep(q, d) == Some(d')
    && ProdFrom(q.scaled, d, d, 0) == Some(p)
  }

  function Denominator(q: DParams, d: nat, p: nat): nat {
    q.annSubOne * d + (|q.scaled| + 1) * p
  }

  lemma RoundQuotient(q: DParams, d: nat, d': nat, p: nat)
    requires RoundOf(q, d, d', p)
    ensures 0 < Denominator(q, d, p)
    ensures d' == (q.annSum + |q.scaled| * p) * d / Denominator(q, d, p)
  {
    var n := |q.scaled|;
    assert Denominator(q, d, p) == d * q.annSubOne + (p + p * n) by {
      assert (n + 1) * p == p * n + p;
    }
    assert n * p == p * n;
  }

  lemma SetupFacts(curve: Curve, amounts: seq<nat>, q: DParams)
    requires curve.DSetup(amounts) == Some(q)
    ensures 0 < curve.amp * |amounts| && 0 < curve.amp && 0 < |amounts|
    ensures q == DParams(Times(|amounts|, amounts), curve.amp * |amounts| * Sum(amounts), curve.amp * |amounts| - 1)
  {
    assert q.scaled == Times(|amounts|, amounts);
    FactorsPositive(curve.amp, |amounts|);
  }

  lemma RoundStartsPositive(q: DParams, d: nat, d': nat, p: nat)
    requires RoundOf(q, d, d', p)
    ensures 0 < d
  {
    if d == 0 {
      ProdUpper(q.scaled, 0, 0, 0);
      ProductPositive(q.scaled, 0);
      assert p * Product(q.scaled, 0) <= 0;
      CancelLe(p, 0, Product(q.scaled, 0));
      RoundQuotient(q, d, d', p);
    }
  }

  lemma AboveAfterRound(n: nat, K: nat, A: nat, T: nat, p: nat, d: nat, z: nat)
    requires 0 < K && 0 < d
    requires p * K <= d * Pow(d, n)
    requires (T + n * p) * d < z * (A * d + (n + 1) * p)
    ensures K * T < Pow(z, n + 1) + K * (A * z)
  {
    var nd, nz := n * d, (n + 1) * z;
    SplitRound(n, A, T, p, d, z);
    MulSub(p, nz, nd);
    if nz <= nd {
      MulLe(nz, nd, p);
      CancelLt(T, A * z, d);
      MulLe(T + 1, A * z, K);
      assert (T + 1) * K == K * T + K;
    } else {
      AboveWithTangent(n, K, A, T, p, d, z, nz - nd);
    }
  }

  lemma SplitRound(n: nat, A: nat, T: nat, p: nat, d: nat, z: nat)
    ensures (T + n * p) * d == T * d + p * (n * d)
    ensures z * (A * d + (n + 1) * p) == (A * z) * d + p * ((n + 1) * z)
  {
    MulAssoc(p, n, d);
    MulAssoc(p, n + 1, z);
  }

  lemma TangentAlgebra(n: nat, d: nat, z: nat, P: nat, Z: nat)
    requires (n + 1) * (z * P) <= Z + n * (d * P)
    ensures P * ((n + 1) * z - n * d) <= Z
  {
    MulSub(P, (n + 1) * z, n * d);
    MulAssoc(n + 1, z, P);
    MulAssoc(n, d, P);
  }

  lemma TangentBelowPower(n: nat, d: nat, z: nat)
    ensures Pow(d, n) * ((n + 1) * z - n * d) <= Pow(z, n + 1)
  {
    Bernoulli(z, d, n);
    TangentAlgebra(n, d, z, Pow(d, n), Pow(z, n + 1));
  }

  lemma FlooredProductBelow(K: nat, p: nat, d: nat, e: nat, P: nat, Z: nat)
    requires p * K <= d * P && P * e <= Z
    ensures K * (p * e) <= Z * d
  {
    MulLe(p * K, d * P, e);
    MulLe(P * e, Z, d);
    assert (p * K) * e == K * (p * e);
    assert (d * P) * e == (P * e) * d;
  }

  lemma CancelScaled(K: nat, T: nat, Az: nat, pe: nat, d: nat, Z: nat)
    requires 0 < K && T * d < Az * d + pe && K * pe <= Z * d
    ensures K * T < Z + K * Az
  {
    MulLe(T * d + 1, Az * d + pe, K);
    assert (T * d + 1) * K == (K * T) * d + K;
    assert (Az * d + pe) * K == (K * Az) * d + K * pe;
    CancelLt(K * T, Z + K * Az, d);
  }

  lemma AboveWithTangent(n: nat, K: nat, A: nat, T: nat, p: nat, d: nat, z: nat, e: nat)
    requires 0 < K && 0 < d && e == (n + 1) * z - n * d
    requires p * K <= d * Pow(d, n)
    requires T * d < (A * z) * d + p * e
    ensures K * T < Pow(z, n + 1) + K * (A * z)
  {
    TangentBelowPower(n, d, z);
    FlooredProductBelow(K, p, d, e, Pow(d, n), Pow(z, n + 1));
    CancelScaled(K, T, A * z, p * e, d, Pow(z, n + 1));
  }

  /** Whatever the starting point, one round of `get_d` ends no lower than the floor of the root. */
  lemma RoundAbove(curve: Curve, amounts: seq<nat>, q: DParams, d: nat, d': nat)
    requires curve.DSetup(amounts) == Some(q) && DStep(q, d) == Some(d')
    ensures AllPositive(amounts)
    ensures AboveExact(curve, amounts, d' + 1)
  {
    var n, ann, S := |amounts|, curve.amp * |amounts|, Sum(amounts);
    var p := ProdFrom(q.scaled, d, d, 0).value;
    var K := Product(q.scaled, 0);
    SetupFacts(curve, amounts, q);
    ProdUpper(q.scaled, d, d, 0);
    ProductPositive(q.scaled, 0);
    forall k | 0 <= k < n ensures 0 < amounts[k] {
      assert 0 < q.scaled[k] == n * amounts[k];
    }
    RoundStartsPositive(q, d, d', p);
    RoundQuotient(q, d, d', p);
    DivPinned((q.annSum + n * p) * d, Denominator(q, d, p));
    AboveAfterRound(n, K, ann - 1, ann * S, p, d, d' + 1);
  }

  lemma {:induction false} RoundsAbove(curve: Curve, amounts: seq<nat>, q: DParams, d: nat, rounds: nat)
    requires curve.DSetup(amounts) == Some(q) && 0 < rounds && DRounds(q, d, rounds).Some?
    ensures AllPositive(amounts)
    ensures AboveExact(curve, amounts, DRounds(q, d, rounds).value + 1)
    decreases rounds
  {
    var d' := DStep(q, d).value;
    if Near(d', d) || rounds == 1 {
      RoundAbove(curve, amounts, q, d, d');
    } else {
      RoundsAbove(curve, amounts, q, d', rounds - 1);
    }
  }

  // ----- main results -----

  lemma AboveCoversRoot(curve: Curve, amounts: seq<nat>, d: nat)
    requires 0 < curve.amp * |amounts| && AboveExact(curve, amounts, d + 1)
    ensures forall z: nat :: !AboveExact(curve, amounts, z) ==> z <= d
  {
    forall z: nat | !AboveExact(curve, amounts, z) ensures z <= d {
      if d < z {
        GapMono(amounts, curve.amp * |amounts|, d + 1, z);
      }
    }
  }

  /** `get_d` never falls below the floor of the exact invariant, from a cold or a warm start, for
      any number of coins and whether or not the loop settled. It also proves the coins nonzero. */
  lemma GetDAboveExact(curve: Curve, amounts: seq<nat>, suggest: Option<nat>, d: nat)
    requires curve.D(amounts, suggest) == Some(d) && 0 < Sum(amounts)
    ensures AllPositive(amounts) && 0 < curve.amp
    ensures AboveExact(curve, amounts, d + 1)
    ensures forall z: nat :: !AboveExact(curve, amounts, z) ==> z <= d
  {
    var q := curve.DSetup(amounts).value;
    var start := suggest.GetOr(Sum(amounts));
    assert DRounds(q, start, ITERATIONS) == Some(d);
    RoundsAbove(curve, amounts, q, start, ITERATIONS);
    SetupFacts(curve, amounts, q);
    AboveCoversRoot(curve, amounts, d);
  }

  /** True when the rounds end through the tolerance test. */
  ghost predicate DSettles(q: DParams, d: nat, rounds: nat)
    decreases rounds
  {
    0 < rounds && DStep(q, d).Some? &&
    var d' := DStep(q, d).value;
    Near(d', d) || DSettles(q, d', rounds - 1)
  }

  lemma {:induction false} SettledRound(q: DParams, d: nat, rounds: nat) returns (prev: nat)
    requires DSettles(q, d, rounds)
    ensures DRounds(q, d, rounds).Some?
    ensures DStep(q, prev) == DRounds(q, d, rounds) && Near(DRounds(q, d, rounds).value, prev)
    decreases rounds
  {
    var d' := DStep(q, d).value;
    if Near(d', d) {
      prev := d;
    } else {
      prev := SettledRound(q, d', rounds - 1);
    }
  }

  lemma ResidualAlgebra(A: nat, n: nat, p: nat, T: nat, d: nat, d': nat)
    requires 0 < A * d + (n + 1) * p
    requires d' == (T + n * p) * d / (A * d + (n + 1) * p) && Near(d', d)
    ensures -2 * (A * d + (n + 1) * p) < (A * d + p - T) * d <= A * d + (n + 1) * p
  {
    assert (n + 1) * p == n * p + p;
    ResidualPinned(A * d + (n + 1) * p, A * d + p - T, d, d');
  }

  lemma ResidualPinned(Q: nat, g: int, d: nat, d': nat)
    requires 0 < Q && 0 <= (Q - g) * d && d' == (Q - g) * d / Q && Near(d', d)
    ensures -2 * Q < g * d <= Q
  {
    DivPinned((Q - g) * d, Q);
    MulSub(d, Q, g);
    assert (d - 1) * Q == d * Q - Q;
    assert (d + 2) * Q == d * Q + 2 * Q;
    MulLe(d - 1, d', Q);
    MulLe(d' + 1, d + 2, Q);
  }

  lemma ExcessAlgebra(K: nat, A: nat, n: nat, p: nat, T: nat, d: nat, power: nat, slack: int)
    requires power <= p * K + slack
    requires (A * d + p - T) * d <= A * d + (n + 1) * p
    ensures d * (power + K * (A * d) - K * T) <= K * (A * d + (n + 1) * p) + d * slack
  {
    ExcessScaled(K, A * d + p - T, d, power + K * (A * d) - K * T, A * d + (n + 1) * p, slack) by {
      assert K * (A * d + p - T) == K * (A * d) + p * K - K * T;
    }
  }

  lemma ExcessScaled(K: nat, g: int, d: nat, gap: int, Q: nat, slack: int)
    requires gap <= K * g + slack && g * d <= Q
    ensures d * gap <= K * Q + d * slack
  {
    MulLe(gap, K * g + slack, d);
    assert (K * g + slack) * d == K * (g * d) + d * slack;
    MulLe(g * d, Q, K);
  }

  /** When the loop settles, the answer is pinned on both sides: one more than it lies above the
      exact invariant, and the last iterate, at distance at most one, exceeds it by no more than
      one round's denominator plus what the product's floors lost. */
  lemma GetDAccuracy(curve: Curve, amounts: seq<nat>, suggest: Option<nat>, d: nat) returns (prev: nat, p: nat)
    requires curve.D(amounts, suggest) == Some(d) && 0 < Sum(amounts)
    requires DSettles(curve.DSetup(amounts).value, suggest.GetOr(Sum(amounts)), ITERATIONS)
    ensures Near(d, prev)
    ensures ProdFrom(Times(|amounts|, amounts), prev, prev, 0) == Some(p)
    ensures var ann, n := curve.amp * |amounts|, |amounts|;
            var Q := (ann - 1) * prev + (n + 1) * p;
            var g := (ann - 1) * prev + p - ann * Sum(amounts);
            var K := Product(Times(n, amounts), 0);
            && -2 * Q < g * prev <= Q
            && prev * InvariantGap(amounts, ann, prev) <= K * Q + prev * ProdSlack(Times(n, amounts), prev, 0)
            && AboveExact(curve, amounts, d + 1)
  {
    var q := curve.DSetup(amounts).value;
    var n, ann, S := |amounts|, curve.amp * |amounts|, Sum(amounts);
    SetupFacts(curve, amounts, q);
    prev := SettledRound(q, suggest.GetOr(S), ITERATIONS);
    p := ProdFrom(q.scaled, prev, prev, 0).value;
    RoundQuotient(q, prev, d, p);
    ResidualAlgebra(ann - 1, n, p, ann * S, prev, d);
    ProdLower(q.scaled, prev, prev, 0);
    ExcessAlgebra(Product(q.scaled, 0), ann - 1, n, p, ann * S, prev, Pow(prev, n + 1), ProdSlack(q.scaled, prev, 0));
    GetDAboveExact(curve, amounts, suggest, d);
  }

  // ----- a ceiling -----

  /** At most (n+1)*ann*S / (n*(ann-1)). */
  predicate BelowCeiling(curve: Curve, amounts: seq<nat>, d: nat) {
    var n, ann := |amounts|, curve.amp * |amounts|;
    n * ((ann - 1) * d) <= (n + 1) * (ann * Sum(amounts))
  }

  lemma CeilingCore(n: nat, p: nat, Ad: nat, T: nat, L: nat, R: nat)
    requires L == n * Ad && R == (n + 1) * T && L <= R
    ensures L * (T + n * p) <= R * (Ad + (n + 1) * p)
  {
    assert L * T <= R * Ad by {
      MulAssoc(n, Ad, T);
      MulAssoc(n, T, Ad);
      assert R * Ad == (n * T) * Ad + T * Ad;
    }
    MulLeBoth(L, R, n * p, (n + 1) * p);
    assert L * (T + n * p) == L * T + L * (n * p);
    assert R * (Ad + (n + 1) * p) == R * Ad + R * ((n + 1) * p);
  }

  lemma CeilingRound(n: nat, A: nat, T: nat, p: nat, d: nat, d': nat)
    requires n * (A * d) <= (n + 1) * T
    requires 0 < A * d + (n + 1) * p && d' == (T + n * p) * d / (A * d + (n + 1) * p)
    ensures n * (A * d') <= (n + 1) * T
  {
    DivPinned((T + n * p) * d, A * d + (n + 1) * p);
    CeilingCore(n, p, A * d, T, n * (A * d), (n + 1) * T);
    CeilingKept(n, A, T + n * p, d, d', A * d + (n + 1) * p, (n + 1) * T);
  }

  lemma CeilingKept(n: nat, A: nat, N: nat, d: nat, d': nat, Q: nat, R: nat)
    requires 0 < Q && d' * Q <= N * d && (n * (A * d)) * N <= R * Q
    ensures n * (A * d') <= R
  {
    MulAssoc(n, A, d);
    MulAssoc(n, A, d');
    CeilingCancel(n * A, N, d, d', Q, (n * A) * d, R);
  }

  lemma CeilingCancel(f: nat, N: nat, d: nat, d': nat, Q: nat, L: nat, R: nat)
    requires 0 < Q && d' * Q <= N * d && L == f * d && L * N <= R * Q
    ensures f * d' <= R
  {
    MulLe(d' * Q, N * d, f);
    assert (d' * Q) * f == (f * d') * Q;
    assert (N * d) * f == (f * d) * N;
    CancelLe(f * d', R, Q);
  }

  lemma {:induction false} RoundsKeepCeiling(curve: Curve, amounts: seq<nat>, q: DParams, d: nat, rounds: nat)
    requires curve.DSetup(amounts) == Some(q) && BelowCeiling(curve, amounts, d) && DRounds(q, d, rounds).Some?
    ensures BelowCeiling(curve, amounts, DRounds(q, d, rounds).value)
    decreases rounds
  {
    if rounds != 0 {
      var d' := DStep(q, d).value;
      var p := ProdFrom(q.scaled, d, d, 0).value;
      SetupFacts(curve, amounts, q);
      RoundQuotient(q, d, d', p);
      CeilingRound(|amounts|, q.annSubOne, q.annSum, p, d, d');
      if !Near(d', d) {
        RoundsKeepCeiling(curve, amounts, q, d', rounds - 1);
      }
    }
  }

  /** From a start below the ceiling every round stays below it, settled or not; the sum, where a
      cold start begins, is always below it. */
  lemma GetDBelowCeiling(curve: Curve, amounts: seq<nat>, suggest: Option<nat>, d: nat)
    requires curve.D(amounts, suggest) == Some(d) && 0 < Sum(amounts)
    requires suggest.Some? ==> BelowCeiling(curve, amounts, suggest.value)
    ensures BelowCeiling(curve, amounts, d)
  {
    var q := curve.DSetup(amounts).value;
    var start := suggest.GetOr(Sum(amounts));
    SetupFacts(curve, amounts, q);
    if suggest.None? {
      SumBelowCeiling(curve, amounts);
    }
    assert DRounds(q, start, ITERATIONS) == Some(d);
    RoundsKeepCeiling(curve, amounts, q, start, ITERATIONS);
  }

  lemma SumBelowCeiling(curve: Curve, amounts: seq<nat>)
    requires 0 < curve.amp * |amounts|
    ensures BelowCeiling(curve, amounts, Sum(amounts))
  {
    var n, ann, S := |amounts|, curve.amp * |amounts|, Sum(amounts);
    MulLe(ann - 1, ann, S);
    MulLeBoth(n, n + 1, (ann - 1) * S, ann * S);
  }

  // ----- balanced pools -----

  lemma {:induction false} SumOfEqual(xs: seq<nat>, x: nat)
    requires forall k :: 0 <= k < |xs| ==> xs[k] == x
    ensures Sum(xs) == |xs| * x
  {
    if xs != [] {
      SumOfEqual(xs[1..], x);
      assert |xs| * x == x + (|xs| - 1) * x;
    }
  }

  lemma {:induction false} BalancedProduct(scaled: seq<nat>, s: nat, k: nat)
    requires k <= |scaled| && 0 < s && s * s <= U128_MAX
    requires forall l :: 0 <= l < |scaled| ==> scaled[l] == s
    ensures ProdFrom(scaled, s, s, k) == Some(s)
    decreases |scaled| - k
  {
    if k < |scaled| {
      DivPinned(s * s, s);
      DivAtLeast(s * s, s, s);
      DivLess(s * s, s, s + 1);
      BalancedProduct(scaled, s, k + 1);
    }
  }

  lemma ExactQuotient(T: nat, s: nat)
    requires 0 < T
    ensures T * s / T == s
  {
    DivAtLeast(T * s, T, s);
    DivLess(T * s, T, s + 1);
  }

  lemma BalancedFirstRound(q: DParams, ann: nat, s: nat)
    requires 0 < |q.scaled| && forall l :: 0 <= l < |q.scaled| ==> q.scaled[l] == s
    requires 0 < ann && 0 < s && q.annSum == ann * s && q.annSubOne == ann - 1
    ensures DStep(q, s) == if (ann * s + |q.scaled| * s) * s <= U128_MAX then Some(s) else None
  {
    var n := |q.scaled|;
    var T := ann * s + n * s;
    BalancedSums(ann, n, s, T);
    if s * s <= U128_MAX {
      BalancedProduct(q.scaled, s, 0);
      ExactQuotient(T, s);
      BalancedChecks(q, s, T);
    }
  }

  lemma BalancedSums(ann: nat, n: nat, s: nat, T: nat)
    requires 0 < ann && 0 < n && 0 < s && T == ann * s + n * s
    ensures s <= T && T <= T * s && s * s <= T * s
    ensures s * (ann - 1) + (s + s * n) == T == ann * s + s * n
  {
    ProductAtLeast(s, n);
    MulLe(s, T, s);
    ProductAtLeast(T, s);
    MulSub(s, ann, 1);
  }

  lemma OneRound(q: DParams, s: nat)
    requires DStep(q, s) == Some(s) || DStep(q, s) == None
    ensures DRounds(q, s, ITERATIONS) == DStep(q, s)
  {
  }

  lemma BalancedChecks(q: DParams, s: nat, T: nat)
    requires ProdFrom(q.scaled, s, s, 0) == Some(s)
    requires T == q.annSum + s * |q.scaled| && T <= T * s && s <= T
    requires s * q.annSubOne + (s + s * |q.scaled|) == T && 0 < T
    ensures DStep(q, s) == if T * s <= U128_MAX then Some(T * s / T) else None
  {
  }

  /** The products of the first round on n equal coins of sum s. */
  predicate FirstRoundFits(ann: nat, n: nat, s: nat) {
    0 < ann <= U64_MAX && (ann * s + n * s) * s <= U128_MAX
  }

  /** On a perfectly balanced pool of any size the invariant is exactly the sum, whenever the
      products of the first round fit in 128 bits; when they do not there is no answer at all. */
  lemma GetDBalanced(curve: Curve, amounts: seq<nat>, x: nat)
    requires forall k :: 0 <= k < |amounts| ==> amounts[k] == x
    requires 0 < Sum(amounts)
    ensures var s, ann, n := Sum(amounts), curve.amp * |amounts|, |amounts|;
            curve.D(amounts, None) ==
            if FirstRoundFits(ann, n, s) then Some(s) else None
  {
    BalancedDecided(curve, amounts, x, Sum(amounts), curve.amp * |amounts|);
  }

  lemma BalancedDecided(curve: Curve, amounts: seq<nat>, x: nat, s: nat, ann: nat)
    requires forall k :: 0 <= k < |amounts| ==> amounts[k] == x
    requires s == Sum(amounts) && 0 < s && ann == curve.amp * |amounts|
    ensures curve.D(amounts, None) ==
            if FirstRoundFits(ann, |amounts|, s) then Some(s) else None
  {
    SumOfEqual(amounts, x);
    if 0 < ann <= U64_MAX {
      BalancedAnswer(curve, amounts, x, s, ann);
    } else {
      NoSetup(curve, amounts, ann);
    }
  }

  lemma NoSetup(curve: Curve, amounts: seq<nat>, ann: nat)
    requires ann == curve.amp * |amounts| && !(0 < ann <= U64_MAX) && 0 < Sum(amounts)
    ensures curve.D(amounts, None) == None
  {
    assert curve.DSetup(amounts) == None;
  }

  lemma BalancedAnswer(curve: Curve, amounts: seq<nat>, x: nat, s: nat, ann: nat)
    requires forall k :: 0 <= k < |amounts| ==> amounts[k] == x
    requires s == Sum(amounts) == |amounts| * x && 0 < s && 0 < |amounts|
    requires ann == curve.amp * |amounts| && 0 < ann <= U64_MAX
    ensures curve.D(amounts, None) == if (ann * s + |amounts| * s) * s <= U128_MAX then Some(s) else None
  {
    var q := DParams(Times(|amounts|, amounts), ann * s, ann - 1);
    assert forall k :: 0 <= k < |amounts| ==> q.scaled[k] == s;
    BalancedFirstRound(q, ann, s);
    OneRound(q, s);
    BalancedSetup(curve, amounts, q, x, s, ann);
  }

  lemma BalancedSetup(curve: Curve, amounts: seq<nat>, q: DParams, x: nat, s: nat, ann: nat)
    requires forall k :: 0 <= k < |amounts| ==> amounts[k] == x
    requires s == Sum(amounts) == |amounts| * x && 0 < s && 0 < |amounts|
    requires ann == curve.amp * |amounts| && 0 < ann <= U64_MAX
    requires q == DParams(Times(|amounts|, amounts), ann * s, ann - 1)
    ensures (ann * s + |amounts| * s) * s <= U128_MAX ==> curve.DSetup(amounts) == Some(q)
    ensures curve.DSetup(amounts).Some? ==> curve.DSetup(amounts) == Some(q)
  {
    var T := ann * s + |amounts| * s;
    MulLe(1, s, T);
    MulLe(1, ann, s);
    assert |amounts| * x == x * |amounts|;
    if curve.DSetup(amounts).Some? {
      assert Scaled(amounts).value == Times(|amounts|, amounts);
    }
    if T * s <= U128_MAX {
      assert Scaled(amounts).value == Times(|amounts|, amounts);
    }
  }
}
