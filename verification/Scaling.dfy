/** The exact invariant under larger balances and under scaling: more of any coin never lowers it, and scaled
    balances scale it. */
module ScalingTheorems {
  import opened Options
  import opened Checked
  import opened Arithmetic
  import opened StableCurve
  import opened InvariantTheorems
  import opened PowerTheorems
  import opened MeanTheorems

  predicate AtLeast(more: seq<nat>, less: seq<nat>) {
    |more| == |less| && forall k :: 0 <= k < |more| ==> less[k] <= more[k]
  }

  lemma {:induction false} SumGrows(more: seq<nat>, less: seq<nat>)
    requires AtLeast(more, less)
    ensures Sum(less) <= Sum(more)
  {
    if more != [] {
      SumGrows(more[1..], less[1..]);
    }
  }

  lemma {:induction false} ProductGrows(more: seq<nat>, less: seq<nat>, k: nat)
    requires AtLeast(more, less) && k <= |more|
    ensures Product(less, k) <= Product(more, k)
    decreases |more| - k
  {
    if k < |more| {
      ProductGrows(more, less, k + 1);
      MulLeBoth(less[k], more[k], Product(less, k + 1), Product(more, k + 1));
    }
  }

  lemma BracketGrows(P: nat, K: nat, K': nat, b: int, b': int)
    requires P <= K * b && K <= K' && b <= b' && (b < 0 ==> 0 < P)
    ensures P <= K' * b'
  {
    if b < 0 {
      MulLe(b, 0, K);
    } else {
      MulLeBoth(K, K', b, b');
    }
  }

  lemma GapAsBracket(P: nat, K: nat, A: nat, ann: nat, S: nat, z: nat)
    ensures P + K * (A * z) - K * (ann * S) <= 0 <==> P <= K * (ann * S - A * z)
  {
    MulSub(K, ann * S, A * z);
  }

  /** More of any coin never lowers the exact invariant. */
  lemma MoreIsNotLower(curve: Curve, more: seq<nat>, less: seq<nat>, z: nat)
    requires AtLeast(more, less) && 0 < curve.amp * |more| && !AboveExact(curve, less, z)
    ensures !AboveExact(curve, more, z)
  {
    var n, ann := |more|, curve.amp * |more|;
    SumGrows(more, less);
    TimesGrow(n, more, less);
    ProductGrows(Times(n, more), Times(n, less), 0);
    GapFalls(Pow(z, n + 1), Product(Times(n, less), 0), Product(Times(n, more), 0), ann, Sum(less), Sum(more), z);
  }

  lemma TimesGrow(n: nat, more: seq<nat>, less: seq<nat>)
    requires AtLeast(more, less)
    ensures AtLeast(Times(n, more), Times(n, less))
  {
    forall k | 0 <= k < |more| ensures n * less[k] <= n * more[k] {
      MulLe(less[k], more[k], n);
    }
  }

  lemma GapFalls(P: nat, K: nat, K': nat, ann: nat, S: nat, S': nat, z: nat)
    requires 0 < ann && K <= K' && S <= S' && (z != 0 ==> 0 < P)
    requires P + K * ((ann - 1) * z) - K * (ann * S) <= 0
    ensures P + K' * ((ann - 1) * z) - K' * (ann * S') <= 0
  {
    GapAsBracket(P, K, ann - 1, ann, S, z);
    GapAsBracket(P, K', ann - 1, ann, S', z);
    MulLe(S, S', ann);
    MulLe(0, ann, S);
    BracketGrows(P, K, K', ann * S - (ann - 1) * z, ann * S' - (ann - 1) * z);
  }

  // ----- scaling -----

  lemma {:induction false} SumScales(c: nat, xs: seq<nat>)
    ensures Sum(Times(c, xs)) == c * Sum(xs)
  {
    if xs != [] {
      SumScales(c, xs[1..]);
      assert Times(c, xs)[1..] == Times(c, xs[1..]);
      assert c * (xs[0] + Sum(xs[1..])) == c * xs[0] + c * Sum(xs[1..]);
    }
  }

  lemma TimesCommutes(n: nat, c: nat, xs: seq<nat>)
    ensures Times(n, Times(c, xs)) == Times(c, Times(n, xs))
  {
    forall k | 0 <= k < |xs| ensures n * (c * xs[k]) == c * (n * xs[k]) {
      MulAssoc(n, c, xs[k]);
      MulAssoc(c, n, xs[k]);
    }
  }

  lemma ScaledGap(C: nat, c: nat, Z: nat, K: nat, A: nat, z: nat, ann: nat, S: nat)
    ensures (c * C) * Z + (C * K) * (A * (c * z)) - (C * K) * (ann * (c * S))
         == (c * C) * (Z + K * (A * z) - K * (ann * S))
  {
    var u, v := K * (A * z), K * (ann * S);
    ScaledTerm(C, c, K, A, z);
    ScaledTerm(C, c, K, ann, S);
    Distribute(c * C, Z, v, u);
  }

  lemma ScaledTerm(C: nat, c: nat, K: nat, a: nat, x: nat)
    ensures (C * K) * (a * (c * x)) == (c * C) * (K * (a * x))
  {
    MulAssoc(a, c, x);
    MulAssoc(c, a, x);
    Interchange(C, K, c, a * x);
  }

  /** Scaling balances and value by c scales the gap by c^(n+1). */
  lemma GapScales(xs: seq<nat>, ann: nat, c: nat, z: nat)
    requires 0 < ann
    ensures InvariantGap(Times(c, xs), ann, c * z) == Pow(c, |xs| + 1) * InvariantGap(xs, ann, z)
  {
    var n := |xs|;
    TimesCommutes(n, c, xs);
    ScaledProduct(c, Times(n, xs), 0);
    SumScales(c, xs);
    PowOfProduct(c, z, n + 1);
    ScaledGap(Pow(c, n), c, Pow(z, n + 1), Product(Times(n, xs), 0), ann - 1, z, ann, Sum(xs));
  }

  lemma ScaledSign(c: nat, g: int)
    requires 0 < c
    ensures c * g <= 0 <==> g <= 0
  {
    if g <= 0 {
      MulLe(g, 0, c);
    } else {
      MulLe(1, g, c);
    }
  }

  lemma TimesNotAbove(curve: Curve, xs: seq<nat>, c: nat, z: nat)
    requires 0 < c && 0 < curve.amp * |xs|
    ensures AboveExact(curve, Times(c, xs), c * z) <==> AboveExact(curve, xs, z)
  {
    GapScales(xs, curve.amp * |xs|, c, z);
    ScaledSign(Pow(c, |xs| + 1), InvariantGap(xs, curve.amp * |xs|, z));
  }

  lemma ScaledAtLeast(xs: seq<nat>, ys: seq<nat>, a: nat, b: nat)
    requires |xs| == |ys| && forall k :: 0 <= k < |xs| ==> xs[k] * b <= ys[k] * a
    ensures AtLeast(Times(a, ys), Times(b, xs))
  {
  }

  /** Balances that kept b/a of theirs, rounded up, keep b/a of the exact invariant, rounded down. */
  lemma ShareIsKept(curve: Curve, xs: seq<nat>, ys: seq<nat>, z: nat, a: nat, b: nat, w: nat)
    requires 0 < a && 0 < b && |xs| == |ys| && 0 < curve.amp * |xs| && !AboveExact(curve, xs, z)
    requires forall k :: 0 <= k < |xs| ==> xs[k] * b <= ys[k] * a
    requires a * w <= b * z
    ensures !AboveExact(curve, ys, w)
  {
    TimesNotAbove(curve, xs, b, z);
    ScaledAtLeast(xs, ys, a, b);
    MoreIsNotLower(curve, Times(a, ys), Times(b, xs), b * z);
    GapMono(Times(a, ys), curve.amp * |ys|, a * w, b * z);
    TimesNotAbove(curve, ys, a, w);
  }
}
