/** The exact invariant and the means of the balances: its floor exists, is at most the sum, where a cold
    start of `get_d` begins, and at least anything whose n-th power is at most the exact product. */
module MeanTheorems {
  import opened Options
  import opened Checked
  import opened Arithmetic
  import opened StableCurve
  import opened InvariantTheorems
  import opened PowerTheorems

  /** The largest integer not above the exact invariant. */
  ghost predicate IsFloor(curve: Curve, amounts: seq<nat>, z: nat) {
    !AboveExact(curve, amounts, z) && AboveExact(curve, amounts, z + 1)
  }

  lemma {:induction false} ScaledProduct(m: nat, xs: seq<nat>, k: nat)
    requires k <= |xs|
    ensures Product(Times(m, xs), k) == Pow(m, |xs| - k) * Product(xs, k)
    decreases |xs| - k
  {
    if k < |xs| {
      ScaledProduct(m, xs, k + 1);
      Interchange(m, xs[k], Pow(m, |xs| - k - 1), Product(xs, k + 1));
    }
  }

  lemma MeanTangent(r: nat, x: nat, S: nat, d: nat, Z: nat, D: nat)
    requires d == (r + 1) * S
    requires (r + 1) * ((r * (x + S)) * D) <= Z + r * (d * D)
    ensures (r * (r + 1)) * (x * D) <= Z
  {
    var f := r * (r + 1);
    MulAssoc(r + 1, r, (x + S) * D);
    MulAssoc(r, x + S, D);
    MulAssoc(r + 1, S, D);
    MulAssoc(r, r + 1, S * D);
    assert (x + S) * D == x * D + S * D;
    assert f * (x * D + S * D) == f * (x * D) + f * (S * D);
  }

  lemma MeanScale(r: nat, r1: nat, x: nat, R: nat, a: nat, b: nat, s: nat, s': nat)
    requires 0 < r && 0 < a && a * R <= s && (r * r1) * (x * (b * s)) <= (r * a) * s'
    ensures (r1 * b) * (x * R) <= s'
  {
    var f := r * r1;
    MulLe(a * R, s, x * b);
    assert (a * R) * (x * b) == a * (x * (b * R));
    assert s * (x * b) == x * (b * s);
    MulLe(a * (x * (b * R)), x * (b * s), f);
    MeanRegroup(r, r1, a, b, x, R);
    FactorsKeepPositive(r, a);
    CancelLe((r1 * b) * (x * R), s', r * a);
  }

  lemma MeanRegroup(r: nat, r1: nat, a: nat, b: nat, x: nat, R: nat)
    ensures (a * (x * (b * R))) * (r * r1) == ((r1 * b) * (x * R)) * (r * a)
  {
    var u := x * (b * R);
    assert u == b * (x * R) by {
      MulAssoc(x, b, R);
      MulAssoc(b, x, R);
    }
    assert (r1 * b) * (x * R) == r1 * u by { MulAssoc(r1, b, x * R); }
    Exchange4Front(r, r1, u, a);
    assert (a * u) * (r * r1) == (r1 * u) * (r * a);
  }

  lemma MeanStep(r: nat, x: nat, S: nat, R: nat)
    requires 0 < r && Pow(r, r) * R <= Pow(S, r)
    ensures Pow(r + 1, r + 1) * (x * R) <= Pow(x + S, r + 1)
  {
    var d := (r + 1) * S;
    var b, s := Pow(r + 1, r), Pow(S, r);
    Bernoulli(r * (x + S), d, r);
    assert Pow(d, r + 1) == d * Pow(d, r);
    MeanTangent(r, x, S, d, Pow(r * (x + S), r + 1), Pow(d, r));
    PowOfProduct(r + 1, S, r);
    PowOfProduct(r, x + S, r + 1);
    assert Pow(r, r + 1) == r * Pow(r, r) && Pow(r + 1, r + 1) == (r + 1) * b;
    MeanScale(r, r + 1, x, R, Pow(r, r), b, s, Pow(x + S, r + 1));
  }

  /** The geometric mean is at most the arithmetic one. */
  lemma {:induction false} MeanInequality(xs: seq<nat>, k: nat)
    requires k <= |xs|
    ensures Pow(|xs| - k, |xs| - k) * Product(xs, k) <= Pow(Sum(xs[k..]), |xs| - k)
    decreases |xs| - k
  {
    if k < |xs| {
      MeanInequality(xs, k + 1);
      assert xs[k..][1..] == xs[k + 1..];
      var r, S, R := |xs| - k - 1, Sum(xs[k + 1..]), Product(xs, k + 1);
      if r == 0 {
        assert R == 1 && S == 0;
        assert Pow(1, 1) == 1 * Pow(1, 0) && Pow(xs[k], 1) == xs[k] * Pow(xs[k], 0);
      } else {
        MeanStep(r, xs[k], S, R);
      }
    }
  }

  lemma ProductBelowPower(amounts: seq<nat>)
    ensures Product(Times(|amounts|, amounts), 0) <= Pow(Sum(amounts), |amounts|)
  {
    ScaledProduct(|amounts|, amounts, 0);
    MeanInequality(amounts, 0);
    assert amounts[0..] == amounts;
  }

  /** The exact invariant is at most the sum, where a cold start begins. */
  lemma SumCoversFloor(curve: Curve, amounts: seq<nat>, z: nat)
    requires 0 < curve.amp * |amounts| && 0 < Sum(amounts) && !AboveExact(curve, amounts, z)
    ensures z <= Sum(amounts)
  {
    var n, ann, S := |amounts|, curve.amp * |amounts|, Sum(amounts);
    var K := Product(Times(n, amounts), 0);
    ProductBelowPower(amounts);
    if S < z {
      PowMono(S, z, n);
      MulLe(Pow(S, n), Pow(z, n), z);
      MulLe(S + 1, z, Pow(S, n));
      MulLe(K, Pow(S, n), S);
      MulLe(S, z, ann - 1);
      SumGap(K, ann, S, z, Pow(S, n), Pow(z, n));
    }
  }

  lemma SumGap(K: nat, ann: nat, S: nat, z: nat, s: nat, Z: nat)
    requires 0 < ann && S < z && K <= s && 0 < s && s * z <= Z * z
    ensures 0 < z * Z + K * ((ann - 1) * z) - K * (ann * S)
  {
    MulLe((ann - 1) * S, (ann - 1) * z, K) by { MulLe(S, z, ann - 1); }
    assert ann * S == (ann - 1) * S + S;
    assert K * (ann * S) == K * ((ann - 1) * S) + K * S;
    MulLe(K, s, S);
    MulLe(S + 1, z, s);
    assert (S + 1) * s == s * S + s;
  }

  /** Every point on or below the exact invariant has the floor at or above it. */
  lemma {:induction false} FloorAbove(curve: Curve, amounts: seq<nat>, w: nat) returns (z: nat)
    requires 0 < curve.amp * |amounts| && 0 < Sum(amounts) && !AboveExact(curve, amounts, w)
    ensures w <= z && IsFloor(curve, amounts, z)
    decreases Sum(amounts) - w
  {
    if AboveExact(curve, amounts, w + 1) {
      z := w;
    } else {
      SumCoversFloor(curve, amounts, w + 1);
      z := FloorAbove(curve, amounts, w + 1);
    }
  }

  /** A number whose n-th power is at most the product of the n*x is not above the exact invariant. */
  lemma MeanIsBelow(curve: Curve, amounts: seq<nat>, w: nat)
    requires 0 < curve.amp * |amounts| && 0 < Sum(amounts)
    requires Pow(w, |amounts|) <= Product(Times(|amounts|, amounts), 0)
    ensures !AboveExact(curve, amounts, w)
  {
    var n, ann, S := |amounts|, curve.amp * |amounts|, Sum(amounts);
    var K := Product(Times(n, amounts), 0);
    ProductBelowPower(amounts);
    if S < w {
      PowStrict(S, w, n);
    }
    MeanGap(K, ann, S, w, Pow(w, n));
  }

  lemma {:induction false} PowStrict(a: nat, b: nat, e: nat)
    requires a < b && 0 < e
    ensures Pow(a, e) < Pow(b, e)
    decreases e
  {
    if e == 1 {
      assert Pow(a, 1) == a * Pow(a, 0) && Pow(b, 1) == b * Pow(b, 0);
    } else {
      PowStrict(a, b, e - 1);
      MulLe(Pow(a, e - 1), Pow(b, e - 1), a);
      MulLe(a + 1, b, Pow(b, e - 1));
    }
  }

  lemma MeanGap(K: nat, ann: nat, S: nat, w: nat, W: nat)
    requires 0 < ann && w <= S && W <= K
    ensures w * W + K * ((ann - 1) * w) - K * (ann * S) <= 0
  {
    MulLe(W, K, w);
    assert (ann - 1) * w == ann * w - w;
    assert K * ((ann - 1) * w) == K * (ann * w) - K * w;
    MulLe(w, S, ann);
    MulLe(ann * w, ann * S, K);
  }
}
