/** The computed curve against the exact StableSwap invariant.

    `AboveCurve` speaks of the floored coefficients the code computes. Here the floors are
    bounded, so that lying above the computed curve of d says how far the exact invariant of the
    same balances can be below d. */
module CurveExactness {
  import opened Options
  import opened Checked
  import opened Arithmetic
  import opened StableCurve
  import opened InvariantTheorems
  import opened CurveTheorems

  /** The product of the n*x over the coins a view reads. */
  function Denominators(view: View, k: nat): nat
    requires k <= |view|
    decreases |view| - k
  {
    if k == |view| then 1 else
      match view[k]
      case None => Denominators(view, k + 1)
      case Some(x) => (x * |view|) * Denominators(view, k + 1)
  }

  function Count(view: View, k: nat): nat
    requires k <= |view|
    decreases |view| - k
  {
    if k == |view| then 0 else (if view[k].Some? then 1 else 0) + Count(view, k + 1)
  }

  /** What the floors of the c loop can lose. */
  function Lost(view: View, d: nat, k: nat): int
    requires k <= |view|
    decreases |view| - k
  {
    if k == |view| then 0 else
      match view[k]
      case None => Lost(view, d, k + 1)
      case Some(x) => (x * |view|) * Lost(view, d, k + 1) + (x * |view| - 1) * Pow(d, Count(view, k + 1))
  }

  lemma {:induction false} LoopBounds(view: View, d: nat, c: nat, k: nat)
    requires k <= |view| && Readable(view, k)
    ensures CFloor(view, d, c, k) * Denominators(view, k) <= c * Pow(d, Count(view, k))
    ensures c * Pow(d, Count(view, k)) <= CFloor(view, d, c, k) * Denominators(view, k) + Lost(view, d, k)
    decreases |view| - k
  {
    if k < |view| {
      match view[k]
      case None => LoopBounds(view, d, c, k + 1);
      case Some(x) =>
        var a := x * |view|;
        var r := CFloor(view, d, c * d / a, k + 1);
        var rest, tail := Denominators(view, k + 1), Pow(d, Count(view, k + 1));
        LoopBounds(view, d, c * d / a, k + 1);
        ProdStepUpper(c, d, a, r, rest, tail);
        ProdStepLower(c, d, a, r, rest, tail, Lost(view, d, k + 1));
    }
  }

  /** ann*n times the product of the n*x: the exact denominator of c. */
  function Scale(ann: nat, view: View): nat {
    (ann * |view|) * Denominators(view, 0)
  }

  function CLost(ann: nat, view: View, d: nat): int {
    (ann * |view| - 1) * Denominators(view, 0) + d * Lost(view, d, 0)
  }

  lemma LastFloor(chain: nat, d: nat, an: nat, P: nat, power: nat, lost: int)
    requires 0 < an && chain * P <= power && power <= chain * P + lost
    ensures (chain * d / an) * (an * P) <= d * power
    ensures d * power <= (chain * d / an) * (an * P) + ((an - 1) * P + d * lost)
  {
    var c := chain * d / an;
    DivPinned(chain * d, an);
    assert (c + 1) * an == c * an + an;
    LastFloorScaled(chain, d, an, c, P);
    MulLe(chain * P, power, d);
    MulLe(power, chain * P + lost, d);
    assert (chain * P + lost) * d == (chain * P) * d + d * lost;
  }

  lemma LastFloorScaled(chain: nat, d: nat, an: nat, c: nat, P: nat)
    requires c * an <= chain * d < c * an + an
    ensures c * (an * P) <= (chain * P) * d <= c * (an * P) + (an - 1) * P
  {
    MulLe(c * an, chain * d, P);
    MulLe(chain * d, c * an + (an - 1), P);
    MulAssoc(c, an, P);
    Exchange3(chain, d, P);
    assert (c * an + (an - 1)) * P == (c * an) * P + (an - 1) * P;
  }

  /** The computed c is the exact quotient rounded down, by no more than `CLost`. */
  lemma CIsExactUpToFloors(ann: nat, view: View, d: nat)
    requires 0 < ann && 0 < |view| && Readable(view, 0)
    ensures CCoefficient(ann, view, d) * Scale(ann, view) <= Pow(d, Count(view, 0) + 2)
    ensures Pow(d, Count(view, 0) + 2) <= CCoefficient(ann, view, d) * Scale(ann, view) + CLost(ann, view, d)
  {
    var m := Count(view, 0);
    LoopBounds(view, d, d, 0);
    assert Pow(d, m + 1) == d * Pow(d, m);
    assert Pow(d, m + 2) == d * Pow(d, m + 1);
    LastFloor(CFloor(view, d, d, 0), d, ann * |view|, Denominators(view, 0), Pow(d, m + 1), Lost(view, d, 0));
  }

  // ----- one coin set aside -----

  lemma {:induction false} SplitProduct(xs: seq<nat>, j: nat, k: nat)
    requires j < |xs| && k <= |xs|
    ensures var view := YDView(xs, j);
            && Product(Times(|xs|, xs), k) == (if k <= j then xs[j] * |xs| else 1) * Denominators(view, k)
            && Count(view, k) == |xs| - k - (if k <= j then 1 else 0)
    decreases |xs| - k
  {
    var view := YDView(xs, j);
    if k < |xs| {
      SplitProduct(xs, j, k + 1);
      if k < j {
        var a, b, c := xs[k] * |xs|, xs[j] * |xs|, Denominators(view, k + 1);
        MulAssoc(a, b, c);
        MulAssoc(b, a, c);
      }
    }
  }

  lemma {:induction false} SplitSum(xs: seq<nat>, j: nat, k: nat)
    requires j < |xs| && k <= |xs|
    ensures Sum(xs[k..]) == (if k <= j then xs[j] else 0) + Others(YDView(xs, j), k)
    decreases |xs| - k
  {
    if k < |xs| {
      SplitSum(xs, j, k + 1);
      assert xs[k..][1..] == xs[k + 1..];
    }
  }

  lemma ShareFloor(ann: nat, others: nat, d: nat, z: nat, b: nat)
    requires 0 < ann && b == others + d / ann
    ensures ann * (z * (z + b - d)) <= ann * (z * (z + others - d)) + d * z
  {
    var share := d / ann;
    DivPinned(d, ann);
    MulLe(share * ann, d, z);
    assert z * (z + b - d) == z * (z + others - d) + share * z;
    assert ann * (share * z) == (share * ann) * z;
    assert ann * (z * (z + others - d) + share * z) == ann * (z * (z + others - d)) + ann * (share * z);
  }

  lemma GapAlgebra(ann: nat, n: nat, P: nat, z: nat, others: nat, d: nat, c: nat, b: nat, S: nat)
    requires 0 < ann && b == others + d / ann && S == z + others
    requires c + 1 <= z * (z + b - d)
    ensures ((z * n) * P) * ((ann - 1) * d) - ((z * n) * P) * (ann * S) <= -(((ann * n) * P) * (c + 1))
  {
    var w := z + others - d;
    ShareFloor(ann, others, d, z, b);
    MulLe(c + 1, z * (z + b - d), ann);
    GapScaled(ann, n, P, c + 1, ann * (z * w) + d * z);
    GapFactors(ann, n, P, z, w, d, S);
  }

  lemma GapScaled(ann: nat, n: nat, P: nat, c1: nat, whole: int)
    requires c1 * ann <= whole
    ensures ((ann * n) * P) * c1 <= whole * (n * P)
  {
    MulLe(c1 * ann, whole, n * P);
    MulAssoc(ann, n, P);
    Exchange3(ann, n * P, c1);
  }

  lemma GapFactors(ann: nat, n: nat, P: nat, z: nat, w: int, d: nat, S: nat)
    requires w == S - d
    ensures ((z * n) * P) * ((ann - 1) * d) - ((z * n) * P) * (ann * S) == -((ann * (z * w) + d * z) * (n * P))
  {
    var K := (z * n) * P;
    assert (ann - 1) * d - ann * S == -(ann * w + d) by {
      assert ann * w == ann * S - ann * d;
    }
    MulSub(K, (ann - 1) * d, ann * S);
    assert K == z * (n * P);
    assert K * (ann * w + d) == (z * (ann * w + d)) * (n * P);
    assert z * (ann * w + d) == ann * (z * w) + d * z;
  }

  lemma OneMore(a: nat, c: nat)
    ensures a * (c + 1) == c * a + a
  {
  }

  /** A pool above the computed curve of d has its exact invariant at d or higher, except for what
      the floors inside c gave away: the exact gap at d is below the loss of those floors, less one
      whole unit of c. */
  lemma AboveCurveMeansExact(curve: Curve, balances: seq<nat>, j: nat, d: nat)
    requires j < |balances| && AboveCurve(curve, YDView(balances, j), d, balances[j])
    ensures var ann, view := curve.amp * |balances|, YDView(balances, j);
            && InvariantGap(balances, ann, d)
                 <= Pow(d, |balances| + 1) - Scale(ann, view) * (CCoefficient(ann, view, d) + 1)
                 <= CLost(ann, view, d) - Scale(ann, view)
  {
    var n, ann, view, z := |balances|, curve.amp * |balances|, YDView(balances, j), balances[j];
    var b, c := BCoefficient(ann, view, d), CCoefficient(ann, view, d);
    var P := Denominators(view, 0);
    SplitProduct(balances, j, 0);
    SplitSum(balances, j, 0);
    assert balances[0..] == balances;
    GapAlgebra(ann, n, P, z, Others(view, 0), d, c, b, Sum(balances));
    CIsExactUpToFloors(ann, view, d);
    OneMore(Scale(ann, view), c);
  }

  /** When the nested floors of c lost less than one unit, the exact invariant is at least d. */
  lemma ExactInvariantKept(curve: Curve, balances: seq<nat>, j: nat, d: nat)
    requires j < |balances| && AboveCurve(curve, YDView(balances, j), d, balances[j])
    requires var ann, view := curve.amp * |balances|, YDView(balances, j);
             Pow(d, |balances| + 1) <= Scale(ann, view) * (CCoefficient(ann, view, d) + 1)
    ensures !AboveExact(curve, balances, d)
  {
    AboveCurveMeansExact(curve, balances, j, d);
  }

  // ----- the computed invariant from one state to the next -----

  /** d^n + K*(ann-1) */
  function Slope(ann: nat, balances: seq<nat>, d: nat): nat
    requires 0 < ann
  {
    Pow(d, |balances|) + Product(Times(|balances|, balances), 0) * (ann - 1)
  }

  lemma SlopeAlgebra(pd: nat, pz: nat, z: nat, e: nat, K: nat, A: nat)
    requires pz <= pd
    ensures z * pz + K * (A * z) + e * (pd + K * A) <= (z + e) * pd + K * (A * (z + e))
  {
    MulLe(pz, pd, z);
    LinearPart(K, A, z, e);
    assert e * (pd + K * A) == e * pd + e * (K * A);
    assert (z + e) * pd == z * pd + e * pd;
  }

  /** The exact gap grows by at least d^n + K*(ann-1) per unit below d. */
  lemma GapSlope(amounts: seq<nat>, ann: nat, d: nat, e: nat)
    requires 0 < ann && e <= d
    ensures InvariantGap(amounts, ann, d - e) + e * Slope(ann, amounts, d) <= InvariantGap(amounts, ann, d)
  {
    PowMono(d - e, d, |amounts|);
    SlopeAlgebra(Pow(d, |amounts|), Pow(d - e, |amounts|), d - e, e, Product(Times(|amounts|, amounts), 0), ann - 1);
  }

  lemma LinearPart(K: nat, A: nat, z: nat, e: nat)
    ensures K * (A * (z + e)) == K * (A * z) + e * (K * A)
  {
    assert A * (z + e) == A * z + A * e;
    assert K * (A * e) == e * (K * A);
  }

  /** What c's floors lost of d^(n+1), less one unit of c. */
  function Over(ann: nat, balances: seq<nat>, j: nat, d: nat): int
    requires j < |balances| && 0 < ann && Readable(YDView(balances, j), 0)
  {
    var view := YDView(balances, j);
    Pow(d, |balances| + 1) - Scale(ann, view) * (CCoefficient(ann, view, d) + 1)
  }

  /** How much of d the floors inside c can have given away: nothing when they lost less than one unit,
      else the rest over the slope of the exact invariant. */
  function DLoss(ann: nat, balances: seq<nat>, j: nat, d: nat): nat
    requires j < |balances| && 0 < ann && Readable(YDView(balances, j), 0)
  {
    var over, slope := Over(ann, balances, j, d), Slope(ann, balances, d);
    if over <= 0 || slope == 0 then 0 else CeilDiv(over, slope)
  }

  lemma LossCovers(over: int, slope: nat, gapBelow: int, e: nat)
    requires 0 < slope && gapBelow + e * slope <= over
    requires e == if over <= 0 then 0 else CeilDiv(over, slope)
    ensures gapBelow <= 0
  {
    if 0 < over {
      CeilDivCovers(over, slope);
    }
  }

  lemma GapIsOver(curve: Curve, balances: seq<nat>, j: nat, d: nat)
    requires j < |balances| && AboveCurve(curve, YDView(balances, j), d, balances[j])
    ensures InvariantGap(balances, curve.amp * |balances|, d) <= Over(curve.amp * |balances|, balances, j, d)
  {
    AboveCurveMeansExact(curve, balances, j, d);
  }

  lemma SlopePositive(ann: nat, balances: seq<nat>, d: nat)
    requires 0 < ann && 0 < d
    ensures 0 < Slope(ann, balances, d)
  {
    MulLe(0, ann - 1, Product(Times(|balances|, balances), 0));
  }

  lemma DLossIsEnough(curve: Curve, balances: seq<nat>, j: nat, d: nat, ann: nat)
    requires j < |balances| && AboveCurve(curve, YDView(balances, j), d, balances[j])
    requires 0 < d && ann == curve.amp * |balances|
    ensures DLoss(ann, balances, j, d) <= d ==> InvariantGap(balances, ann, d - DLoss(ann, balances, j, d)) <= 0
  {
    var e := DLoss(ann, balances, j, d);
    GapIsOver(curve, balances, j, d);
    SlopePositive(ann, balances, d);
    if e <= d {
      GapSlope(balances, ann, d, e);
      LossCovers(Over(ann, balances, j, d), Slope(ann, balances, d), InvariantGap(balances, ann, d - e), e);
    }
  }

  lemma CoveredCoinIsThere(curve: Curve, balances: seq<nat>, j: nat, d: nat)
    requires j < |balances| && AboveCurve(curve, YDView(balances, j), d, balances[j])
    ensures 0 < Sum(balances)
  {
    SplitSum(balances, j, 0);
    assert balances[0..] == balances;
  }

  /** Above the computed curve of d, `get_d` of the same balances is at least d less `DLoss`. */
  lemma AboveCurveKeepsD(curve: Curve, balances: seq<nat>, j: nat, d: nat, d': nat)
    requires j < |balances| && AboveCurve(curve, YDView(balances, j), d, balances[j])
    requires curve.D(balances, None) == Some(d')
    ensures d <= d' + DLoss(curve.amp * |balances|, balances, j, d)
  {
    if 0 < d {
      var ann := curve.amp * |balances|;
      var e := DLoss(ann, balances, j, d);
      DLossIsEnough(curve, balances, j, d, ann);
      CoveredCoinIsThere(curve, balances, j, d);
      GetDAboveExact(curve, balances, None, d');
      assert e <= d ==> !AboveExact(curve, balances, d - e);
    }
  }

  // ----- how little the floors of c lose -----

  lemma LostStep(a: nat, m: nat, d: nat, lost: int, c: nat, p: nat, q: nat)
    requires 0 < m && 0 < a <= m * d && 0 < p && lost <= (c * p) * q
    ensures a * lost + (a - 1) * q <= ((c + 1) * (m * p)) * (d * q)
  {
    var u := (c * p) * q;
    MulLe(lost, u, a);
    MulLe(a, m * d, u);
    MulLe(a - 1, m * d, q);
    MulLe(1, p, (m * d) * q);
    LostRegroup(m, d, c, p, q);
  }

  lemma LostRegroup(m: nat, d: nat, c: nat, p: nat, q: nat)
    ensures (m * d) * ((c * p) * q) == (c * (m * p)) * (d * q)
    ensures ((m * d) * q) * p == (m * p) * (d * q)
    ensures ((c + 1) * (m * p)) * (d * q) == (c * (m * p)) * (d * q) + (m * p) * (d * q)
  {
    Interchange(m, d, c * p, q);
    assert m * (c * p) == c * (m * p) by {
      MulAssoc(m, c, p);
      MulAssoc(c, m, p);
    }
    MulAssoc(m, d, q);
    Exchange3(m, d * q, p);
    assert (c + 1) * (m * p) == c * (m * p) + m * p;
  }

  /** When no other coin is above m times the mean, n*x <= m*d, the floors of c lose little. */
  lemma {:induction false} LostAtMost(view: View, d: nat, m: nat, k: nat)
    requires k <= |view| && 0 < m && Readable(view, 0)
    requires forall l :: 0 <= l < |view| && view[l].Some? ==> view[l].value * |view| <= m * d
    ensures Lost(view, d, k) <= (Count(view, k) * Pow(m, Count(view, k))) * Pow(d, Count(view, k))
    decreases |view| - k
  {
    if k < |view| {
      LostAtMost(view, d, m, k + 1);
      match view[k]
      case None =>
      case Some(x) =>
        var c := Count(view, k + 1);
        FactorsKeepPositive(x, |view|);
        LostStep(x * |view|, m, d, Lost(view, d, k + 1), c, Pow(m, c), Pow(d, c));
        assert Pow(m, c + 1) == m * Pow(m, c) && Pow(d, c + 1) == d * Pow(d, c);
    }
  }

  lemma CeilAtMost(a: int, b: nat, q: nat)
    requires 0 < b && a <= q * b
    ensures 0 < a ==> CeilDiv(a, b) <= q
  {
    if 0 < a {
      assert (q + 1) * b == q * b + b;
      DivLess(a + b - 1, b, q + 1);
    }
  }

  lemma OverAtMost(an: nat, P: nat, d: nat, lost: int, q: nat, L: nat, c: nat, power: int)
    requires 0 < an && power <= c * (an * P) + ((an - 1) * P + d * lost) && lost <= L * q
    ensures power - (an * P) * (c + 1) <= L * (d * q)
  {
    MulLe(lost, L * q, d);
    assert (an * P) * (c + 1) == c * (an * P) + an * P;
    assert (an - 1) * P == an * P - P;
    assert (L * q) * d == L * (d * q);
  }

  lemma ViewOver(ann: nat, view: View, d: nat, L: nat, n: nat)
    requires 0 < ann && 0 < |view| && Readable(view, 0) && n == Count(view, 0) + 1
    requires Lost(view, d, 0) <= L * Pow(d, n - 1)
    ensures Pow(d, n + 1) - Scale(ann, view) * (CCoefficient(ann, view, d) + 1) <= L * Pow(d, n)
  {
    var m := n - 1;
    CIsExactUpToFloors(ann, view, d);
    FactorsKeepPositive(ann, |view|);
    OverAtMost(ann * |view|, Denominators(view, 0), d, Lost(view, d, 0), Pow(d, m), L, CCoefficient(ann, view, d), Pow(d, m + 2));
    assert Pow(d, m + 1) == d * Pow(d, m) && m + 2 == n + 1;
  }

  lemma CountOfView(balances: seq<nat>, j: nat) returns (m: nat)
    requires j < |balances|
    ensures m == Count(YDView(balances, j), 0) == |balances| - 1
  {
    SplitProduct(balances, j, 0);
    m := |balances| - 1;
  }

  lemma OverIsSmall(ann: nat, balances: seq<nat>, j: nat, d: nat, L: nat)
    requires j < |balances| && 0 < ann && Readable(YDView(balances, j), 0)
    requires Lost(YDView(balances, j), d, 0) <= L * Pow(d, |balances| - 1)
    ensures Over(ann, balances, j, d) <= L * Pow(d, |balances|)
  {
    var m := CountOfView(balances, j);
    ViewOver(ann, YDView(balances, j), d, L, |balances|);
  }

  /** A test on the balances that bounds what a swap can take off the computed invariant. */
  lemma DLossAtMost(ann: nat, balances: seq<nat>, j: nat, d: nat, L: nat)
    requires j < |balances| && 0 < ann && Readable(YDView(balances, j), 0)
    requires Lost(YDView(balances, j), d, 0) <= L * Pow(d, |balances| - 1)
    ensures DLoss(ann, balances, j, d) <= L
  {
    OverIsSmall(ann, balances, j, d, L);
    SlopeIsSteep(ann, balances, d, L);
    if 0 < Slope(ann, balances, d) {
      CeilAtMost(Over(ann, balances, j, d), Slope(ann, balances, d), L);
    }
  }

  lemma SlopeIsSteep(ann: nat, balances: seq<nat>, d: nat, L: nat)
    requires 0 < ann
    ensures L * Pow(d, |balances|) <= L * Slope(ann, balances, d)
  {
    MulLe(0, Product(Times(|balances|, balances), 0), ann - 1);
    MulLe(Pow(d, |balances|), Slope(ann, balances, d), L);
  }

  /** In particular, with no other coin above m times the mean it is at most (n-1)*m^(n-1). */
  lemma DLossOfEvenCoins(ann: nat, balances: seq<nat>, j: nat, d: nat, m: nat)
    requires j < |balances| && 0 < ann && Readable(YDView(balances, j), 0) && 0 < m
    requires forall k :: 0 <= k < |balances| && k != j ==> balances[k] * |balances| <= m * d
    ensures DLoss(ann, balances, j, d) <= (|balances| - 1) * Pow(m, |balances| - 1)
  {
    SplitProduct(balances, j, 0);
    LostAtMost(YDView(balances, j), d, m, 0);
    DLossAtMost(ann, balances, j, d, (|balances| - 1) * Pow(m, |balances| - 1));
  }
}
