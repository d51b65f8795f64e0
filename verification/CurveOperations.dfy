/** What swaps, deposits and single-coin withdrawals do to the pool's position on its curve. */
module CurveTheorems {
  import opened Options
  import opened Checked
  import opened Arithmetic
  import opened StableCurve
  import opened InvariantTheorems
  import opened SolverTheorems

  // ----- the coefficients b and c without overflow -----

  predicate Readable(view: View, k: nat) {
    forall l :: k <= l < |view| && view[l].Some? ==> 0 < view[l].value
  }

  function CFloor(view: View, d: nat, c: nat, k: nat): nat
    requires k <= |view| && Readable(view, k)
    decreases |view| - k
  {
    if k == |view| then c else
      match view[k]
      case None => CFloor(view, d, c, k + 1)
      case Some(x) => CFloor(view, d, c * d / (x * |view|), k + 1)
  }

  function Others(view: View, k: nat): nat
    requires k <= |view|
    decreases |view| - k
  {
    if k == |view| then 0 else view[k].GetOr(0) + Others(view, k + 1)
  }

  function BCoefficient(ann: nat, view: View, d: nat): nat
    requires 0 < ann
  {
    Others(view, 0) + d / ann
  }

  function CCoefficient(ann: nat, view: View, d: nat): nat
    requires 0 < ann && Readable(view, 0) && 0 < |view|
  {
    CFloor(view, d, d, 0) * d / (ann * |view|)
  }

  lemma {:induction false} LoopIsFloor(view: View, d: nat, c: nat, s: nat, k: nat)
    requires k <= |view| && CSFrom(view, d, c, s, k).Some?
    ensures Readable(view, k)
    ensures CSFrom(view, d, c, s, k).value == (CFloor(view, d, c, k), s + Others(view, k))
    decreases |view| - k
  {
    if k < |view| {
      match view[k]
      case None => LoopIsFloor(view, d, c, s, k + 1);
      case Some(x) => LoopIsFloor(view, d, c * d / (x * |view|), s + x, k + 1);
    }
  }

  lemma CoefficientsAreFloors(curve: Curve, view: View, d: nat, b: nat, c: nat)
    requires curve.BC(view, d) == Some((b, c))
    ensures Readable(view, 0) && 0 < curve.amp * |view| && 0 < |view|
    ensures b == BCoefficient(curve.amp * |view|, view, d)
    ensures c == CCoefficient(curve.amp * |view|, view, d)
  {
    LoopIsFloor(view, d, d, 0, 0);
    FactorsPositive(curve.amp, |view|);
  }

  /** Coin balance z, beside the balances of `view`, lies strictly above the curve of d. */
  predicate AboveCurve(curve: Curve, view: View, d: nat, z: nat) {
    var ann := curve.amp * |view|;
    && 0 < ann && 0 < |view| && Readable(view, 0)
    && 1 <= Height(BCoefficient(ann, view, d), CCoefficient(ann, view, d), d, z)
  }

  /** The same coins at balances at least as large. */
  predicate Dominates(more: View, less: View) {
    |more| == |less| &&
    forall k :: 0 <= k < |more| ==>
      more[k].Some? == less[k].Some? && less[k].GetOr(0) <= more[k].GetOr(0)
  }

  lemma {:induction false} CFloorAntitone(more: View, less: View, d: nat, c: nat, c': nat, k: nat)
    requires k <= |less| && Dominates(more, less) && Readable(less, k) && Readable(more, k) && c <= c'
    ensures CFloor(more, d, c, k) <= CFloor(less, d, c', k)
    decreases |less| - k
  {
    if k < |less| {
      match less[k]
      case None => CFloorAntitone(more, less, d, c, c', k + 1);
      case Some(x) =>
        var x' := more[k].value;
        MulLe(c, c', d);
        MulLe(x, x', |less|);
        DivMono(c * d, x' * |less|, c' * d, x * |less|);
        CFloorAntitone(more, less, d, c * d / (x' * |less|), c' * d / (x * |less|), k + 1);
    }
  }

  lemma {:induction false} OthersMono(more: View, less: View, k: nat)
    requires k <= |less| && Dominates(more, less)
    ensures Others(less, k) <= Others(more, k)
    decreases |less| - k
  {
    if k < |less| {
      OthersMono(more, less, k + 1);
    }
  }

  lemma HeightMono(b: nat, c: nat, b': nat, c': nat, d: nat, z: nat)
    requires b <= b' && c' <= c
    ensures Height(b, c, d, z) <= Height(b', c', d, z)
  {
    MulLe(z + b - d, z + b' - d, z);
  }

  /** More of any coin keeps the pool above the curve. */
  lemma AboveCurveMono(curve: Curve, more: View, less: View, d: nat, z: nat, w: nat)
    requires AboveCurve(curve, less, d, z) && Dominates(more, less) && z <= w
    ensures AboveCurve(curve, more, d, w)
  {
    var ann := curve.amp * |less|;
    var b, c := BCoefficient(ann, less, d), CCoefficient(ann, less, d);
    forall l | 0 <= l < |more| && more[l].Some? ensures 0 < more[l].value {
      assert less[l].Some?;
    }
    var b', c' := BCoefficient(ann, more, d), CCoefficient(ann, more, d);
    OthersMono(more, less, 0);
    CFloorAntitone(more, less, d, d, d, 0);
    MulLe(CFloor(more, d, d, 0), CFloor(less, d, d, 0), d);
    DivMono(CFloor(more, d, d, 0) * d, ann * |less|, CFloor(less, d, d, 0) * d, ann * |less|);
    HeightGrows(b, c, d, z, w);
    HeightMono(b, c, b', c', d, w);
  }

  /** One unit more than the solver's answer is strictly above the curve. */
  lemma SolveIsCovered(curve: Curve, view: View, d: nat, y: nat)
    requires curve.Solve(view, d) == Some(y)
    ensures AboveCurve(curve, view, d, y + 1)
  {
    var (b, c) := curve.BC(view, d).value;
    CoefficientsAreFloors(curve, view, d, b, c);
    assert YRounds(b, c, d, d, ITERATIONS) == Some(y);
    SolverCoversRoot(b, c, d, d, ITERATIONS, y);
  }

  // ----- swaps -----

  function AfterSwap(balances: seq<nat>, i: nat, j: nat, inAmount: nat, out: nat): seq<nat>
    requires i < |balances| && j < |balances| && i != j && out <= balances[j]
  {
    balances[i := balances[i] + inAmount][j := balances[j] - out]
  }

  /** At every fee a swap keeps the coin it pays out strictly above the curve of the old invariant, at
      the balances its solver read, and never takes the last unit. Between two different coins
      those are the real balances after the swap. */
  lemma SwapStaysAbove(curve: Curve, balances: seq<nat>, i: nat, j: nat, inAmount: nat, out: nat)
    requires i < |balances| && j < |balances|
    requires curve.ExchangeOut(i, j, inAmount, balances) == Some(out)
    ensures out < balances[j] && curve.D(balances, None).Some?
    ensures var d := curve.D(balances, None).value;
            && AboveCurve(curve, YView(balances, i, j, balances[i] + inAmount), d, balances[j] - out)
            && (i != j ==> var after := AfterSwap(balances, i, j, inAmount, out);
                           AboveCurve(curve, YDView(after, j), d, after[j]))
  {
    var x := balances[i] + inAmount;
    var d := curve.D(balances, None).value;
    var y := curve.Y(i, j, x, balances).value;
    var view := YView(balances, i, j, x);
    SolveIsCovered(curve, view, d, y);
    AboveCurveMono(curve, view, view, d, y + 1, balances[j] - out);
    if i != j {
      assert YDView(AfterSwap(balances, i, j, inAmount, out), j) == view;
    }
  }

  /** `out` is `gross` less the fee rate f / FEE_DENOMINATOR, rounded up in the recipient's favour. */
  lemma LessFeePinned(curve: Curve, gross: nat, out: nat)
    requires curve.feeNumerator <= FEE_DENOMINATOR && curve.LessFee(gross) == Some(out)
    ensures var kept := gross * (FEE_DENOMINATOR - curve.feeNumerator);
            kept <= out * FEE_DENOMINATOR < kept + FEE_DENOMINATOR
  {
    DivPinned(gross * curve.feeNumerator, FEE_DENOMINATOR);
    MulSub(gross, FEE_DENOMINATOR, curve.feeNumerator);
  }

  /** What a swap pays: the asked balance less the solver's y and one unit, less the fee. When the
      loop settled, y is pinned to the root from both sides, so the pool keeps no more than that. */
  lemma SwapPaysTheGap(curve: Curve, balances: seq<nat>, i: nat, j: nat, inAmount: nat, out: nat)
    returns (y: nat, gross: nat)
    requires i < |balances| && j < |balances| && curve.feeNumerator <= FEE_DENOMINATOR
    requires curve.ExchangeOut(i, j, inAmount, balances) == Some(out)
    ensures gross + y + 1 == balances[j]
    ensures var kept := gross * (FEE_DENOMINATOR - curve.feeNumerator);
            kept <= out * FEE_DENOMINATOR < kept + FEE_DENOMINATOR
    ensures SwapSettles(curve, balances, i, j, inAmount) ==>
      var d := curve.D(balances, None).value;
      var (b, c) := curve.BC(YView(balances, i, j, balances[i] + inAmount), d).value;
      Height(b, c, d, y) <= 1 <= Height(b, c, d, y + 1)
  {
    var x := balances[i] + inAmount;
    y := curve.Y(i, j, x, balances).value;
    gross := balances[j] - y - 1;
    LessFeePinned(curve, gross, out);
    if SwapSettles(curve, balances, i, j, inAmount) {
      var d := curve.D(balances, None).value;
      var (b, c) := curve.BC(YView(balances, i, j, x), d).value;
      assert YRounds(b, c, d, d, ITERATIONS) == Some(y);
      SettledIsPinned(b, c, d, d, ITERATIONS, y);
    }
  }

  lemma FeeKeepsOrder(curve: Curve, dy1: nat, dy2: nat)
    requires curve.feeNumerator <= FEE_DENOMINATOR && dy1 <= dy2 + 1
    requires curve.LessFee(dy1).Some? && curve.LessFee(dy2).Some?
    ensures curve.LessFee(dy1).value <= curve.LessFee(dy2).value + 1
  {
    var f, F := curve.feeNumerator, FEE_DENOMINATOR;
    if dy1 <= dy2 {
      MulLe(f, F, dy2 - dy1);
      assert dy2 * f == dy1 * f + f * (dy2 - dy1);
      DivPinned(dy1 * f, F);
      DivPinned(dy2 * f, F);
    } else {
      MulLe(dy2, dy1, f);
      DivMono(dy2 * f, F, dy1 * f, F);
    }
  }

  /** Offering more never earns materially less: on the same balances the larger offer, if its
      solver loop settled, is paid no more than one unit less than the smaller. */
  lemma LargerOfferEarnsMore(curve: Curve, balances: seq<nat>, i: nat, j: nat, in1: nat, in2: nat, out1: nat, out2: nat)
    requires i < |balances| && j < |balances| && in1 <= in2 && curve.feeNumerator <= FEE_DENOMINATOR
    requires curve.ExchangeOut(i, j, in1, balances) == Some(out1)
    requires curve.ExchangeOut(i, j, in2, balances) == Some(out2)
    requires SwapSettles(curve, balances, i, j, in2)
    ensures out1 <= out2 + 1
  {
    var d := curve.D(balances, None).value;
    var x1, x2 := balances[i] + in1, balances[i] + in2;
    var v1, v2 := YView(balances, i, j, x1), YView(balances, i, j, x2);
    var (b1, c1) := curve.BC(v1, d).value;
    var (b2, c2) := curve.BC(v2, d).value;
    var y1, y2 := curve.Y(i, j, x1, balances).value, curve.Y(i, j, x2, balances).value;
    OrderedRoots(curve, v1, v2, d, b1, c1, b2, c2, y1, y2);
    FeeKeepsOrder(curve, balances[j] - y1 - 1, balances[j] - y2 - 1);
  }

  ghost predicate SwapSettles(curve: Curve, balances: seq<nat>, i: nat, j: nat, inAmount: nat)
    requires i < |balances|
  {
    && curve.D(balances, None).Some?
    && var d := curve.D(balances, None).value;
    && var bc := curve.BC(YView(balances, i, j, balances[i] + inAmount), d);
    && bc.Some? && YSettles(bc.value.0, bc.value.1, d, d, ITERATIONS)
  }

  /** Coefficients that pass the start test of the solver make the swap's loop settle. */
  lemma SwapSettlesWhen(curve: Curve, balances: seq<nat>, i: nat, j: nat, inAmount: nat, out: nat, d: nat, b: nat, c: nat)
    requires i < |balances| && j < |balances| && curve.ExchangeOut(i, j, inAmount, balances) == Some(out)
    requires curve.D(balances, None) == Some(d)
    requires curve.BC(YView(balances, i, j, balances[i] + inAmount), d) == Some((b, c))
    requires (c <= b * d && GoodStart(b, c, d, d, 32)) || (0 < d + b && GoodStart(b, c, d, (d * d + c) / (d + b), 31))
    ensures SwapSettles(curve, balances, i, j, inAmount)
  {
    SolverSettles(b, c, d);
  }

  lemma OrderedRoots(curve: Curve, v1: View, v2: View, d: nat, b1: nat, c1: nat, b2: nat, c2: nat, y1: nat, y2: nat)
    requires Dominates(v2, v1)
    requires curve.BC(v1, d) == Some((b1, c1)) && curve.BC(v2, d) == Some((b2, c2))
    requires curve.Solve(v1, d) == Some(y1) && curve.Solve(v2, d) == Some(y2)
    requires YSettles(b2, c2, d, d, ITERATIONS)
    ensures y2 <= y1 + 1
  {
    CoefficientsAreFloors(curve, v1, d, b1, c1);
    CoefficientsAreFloors(curve, v2, d, b2, c2);
    SolveIsCovered(curve, v1, d, y1);
    AboveCurveMono(curve, v2, v1, d, y1 + 1, y1 + 1);
    assert YRounds(b2, c2, d, d, ITERATIONS) == Some(y2);
    SettledIsPinned(b2, c2, d, d, ITERATIONS, y2);
    if y1 + 1 < y2 {
      HeightGrows(b2, c2, d, y1 + 1, y2);
    }
  }

  // ----- imbalance fees -----

  /** The rate is fee * n / (4 * (n - 1)), rounded down once although the code divides twice. */
  lemma ImbalanceFeePinned(curve: Curve, n: nat, fee: nat)
    requires curve.ImbalanceFee(n) == Some(fee)
    ensures 2 <= n && fee * (4 * (n - 1)) <= curve.feeNumerator * n < (fee + 1) * (4 * (n - 1))
  {
    var m := curve.feeNumerator * n;
    DivPinned(m / 4, n - 1);
    DivPinned(m, 4);
    assert fee * (4 * (n - 1)) == 4 * (fee * (n - 1));
    assert (fee + 1) * (4 * (n - 1)) == 4 * ((fee + 1) * (n - 1));
  }

  function Distance(a: nat, b: nat): nat {
    if a < b then b - a else a - b
  }

  /** Some ideal, the floor of d1*old/d0, from whose distance to the new balance the fee is taken. */
  ghost predicate ChargedForDistance(oldBalance: nat, newBalance: nat, reduced: nat, d0: nat, d1: nat, fee: nat) {
    exists ideal: nat :: ideal * d0 <= d1 * oldBalance < (ideal + 1) * d0
      && ChargedFor(newBalance, reduced, fee, Distance(ideal, newBalance))
  }

  /** balance - reduced is fee * amount / FEE_DENOMINATOR rounded down. */
  predicate ChargedFor(balance: nat, reduced: nat, fee: nat, amount: nat) {
    && reduced <= balance
    && (balance - reduced) * FEE_DENOMINATOR <= fee * amount < (balance - reduced + 1) * FEE_DENOMINATOR
  }

  lemma DepositChargesDistance(curve: Curve, oldBalance: nat, newBalance: nat, d0: nat, d1: nat, fee: nat, reduced: nat)
    requires curve.DepositReduced(oldBalance, newBalance, d0, d1, fee) == Some(reduced)
    ensures ChargedForDistance(oldBalance, newBalance, reduced, d0, d1, fee)
  {
    var ideal := d1 * oldBalance / d0;
    DivPinned(d1 * oldBalance, d0);
    DivPinned(fee * Distance(ideal, newBalance), FEE_DENOMINATOR);
    assert ChargedFor(newBalance, reduced, fee, Distance(ideal, newBalance));
  }

  /** A single-coin withdrawal charges every coin for how far a pro-rata withdrawal would have moved
      it: down to the ideal for the others, from the ideal down to the solved balance for coin i. */
  ghost predicate ChargedForMove(balance: nat, reduced: nat, solved: bool, d0: nat, d1: nat, newY: nat, fee: nat) {
    exists ideal: nat :: ideal * d0 <= balance * d1 < (ideal + 1) * d0
      && (if solved then newY <= ideal && ChargedFor(balance, reduced, fee, ideal - newY)
          else ideal <= balance && ChargedFor(balance, reduced, fee, balance - ideal))
  }

  lemma SingleChargesMove(curve: Curve, balance: nat, solved: bool, d0: nat, d1: nat, newY: nat, fee: nat, dx: nat)
    requires curve.ExpectedChange(balance, solved, d0, d1, newY) == Some(dx)
    requires curve.FeeOn(fee, dx).Some? && curve.FeeOn(fee, dx).value <= balance
    ensures ChargedForMove(balance, balance - curve.FeeOn(fee, dx).value, solved, d0, d1, newY, fee)
  {
    var ideal := balance * d1 / d0;
    DivPinned(balance * d1, d0);
    DivPinned(fee * dx, FEE_DENOMINATOR);
    assert ChargedFor(balance, balance - curve.FeeOn(fee, dx).value, fee, dx);
  }

  lemma SingleReduced(curve: Curve, olds: seq<nat>, i: nat, d0: nat, d1: nat, newY: nat, fee: nat, acc: seq<nat>)
    returns (reduced: nat)
    requires |acc| < |olds| && curve.SingleReducedFrom(olds, i, d0, d1, newY, fee, acc).Some?
    ensures curve.SingleReducedFrom(olds, i, d0, d1, newY, fee, acc)
         == curve.SingleReducedFrom(olds, i, d0, d1, newY, fee, acc + [reduced])
    ensures ChargedForMove(olds[|acc|], reduced, |acc| == i, d0, d1, newY, fee)
  {
    var k := |acc|;
    var dx := curve.ExpectedChange(olds[k], k == i, d0, d1, newY).value;
    reduced := olds[k] - curve.FeeOn(fee, dx).value;
    SingleChargesMove(curve, olds[k], k == i, d0, d1, newY, fee, dx);
  }

  lemma {:induction false} SingleChargesMoves(curve: Curve, olds: seq<nat>, i: nat, d0: nat, d1: nat, newY: nat, fee: nat, acc: seq<nat>)
    requires |acc| <= |olds| && curve.SingleReducedFrom(olds, i, d0, d1, newY, fee, acc).Some?
    requires forall k :: 0 <= k < |acc| ==> ChargedForMove(olds[k], acc[k], k == i, d0, d1, newY, fee)
    ensures var r := curve.SingleReducedFrom(olds, i, d0, d1, newY, fee, acc).value;
            forall k :: 0 <= k < |olds| ==> ChargedForMove(olds[k], r[k], k == i, d0, d1, newY, fee)
    decreases |olds| - |acc|
  {
    if |acc| < |olds| {
      var k := |acc|;
      var reduced := SingleReduced(curve, olds, i, d0, d1, newY, fee, acc);
      SingleChargesMoves(curve, olds, i, d0, d1, newY, fee, acc + [reduced]);
    }
  }

  // ----- single-coin withdrawals -----

  lemma BurnKeepsShare(curve: Curve, d0: nat, unmint: nat, lp: nat, d1: nat)
    requires curve.DAfterBurn(d0, unmint, lp) == Some(d1)
    ensures d0 * (lp - unmint) <= d1 * lp < d0 * (lp - unmint) + lp
  {
    var burned := unmint * d0 / lp;
    DivPinned(unmint * d0, lp);
    assert d1 * lp == d0 * lp - burned * lp;
    MulSub(d0, lp, unmint);
  }

  /** After a single-coin withdrawal the real remaining balances, not the fee-reduced ones the
      solver saw, lie strictly above the curve of d1, and d1 gives every remaining share at least
      its part of the old invariant. */
  lemma SingleWithdrawalStaysAbove(curve: Curve, olds: seq<nat>, unmint: nat, i: nat, lp: nat, out: nat)
    returns (d0: nat, d1: nat, newY: nat, fee: nat, reduced: seq<nat>)
    requires i < |olds| && curve.SinglePayout(olds, unmint, i, lp) == Some(out)
    ensures curve.Solve(YDView(olds, i), d1) == Some(newY) && curve.ImbalanceFee(|olds|) == Some(fee)
    ensures |reduced| == |olds| && forall k :: 0 <= k < |olds| ==> ChargedForMove(olds[k], reduced[k], k == i, d0, d1, newY, fee)
    ensures curve.Solve(YDView(reduced, i), d1) == Some(reduced[i] - out - 1)
    ensures curve.D(olds, None) == Some(d0) && curve.DAfterBurn(d0, unmint, lp) == Some(d1)
    ensures d0 * (lp - unmint) <= d1 * lp < d0 * (lp - unmint) + lp
    ensures out < olds[i]
    ensures AboveCurve(curve, YDView(olds[i := olds[i] - out], i), d1, olds[i] - out)
  {
    d0, d1, newY, fee, reduced := UnfoldSingle(curve, olds, unmint, i, lp, out);
    BurnKeepsShare(curve, d0, unmint, lp, d1);
    SingleChargesMoves(curve, olds, i, d0, d1, newY, fee, []);
    forall k | 0 <= k < |olds| ensures reduced[k] <= olds[k] {
      assert ChargedForMove(olds[k], reduced[k], k == i, d0, d1, newY, fee);
    }
    SingleAbove(curve, olds, reduced, i, d1, out);
  }

  lemma UnfoldSingle(curve: Curve, olds: seq<nat>, unmint: nat, i: nat, lp: nat, out: nat)
    returns (d0: nat, d1: nat, newY: nat, fee: nat, reduced: seq<nat>)
    requires i < |olds| && curve.SinglePayout(olds, unmint, i, lp) == Some(out)
    ensures curve.D(olds, None) == Some(d0) && curve.DAfterBurn(d0, unmint, lp) == Some(d1)
    ensures curve.Solve(YDView(olds, i), d1) == Some(newY) && curve.ImbalanceFee(|olds|) == Some(fee)
    ensures curve.SingleReducedFrom(olds, i, d0, d1, newY, fee, []) == Some(reduced) && |reduced| == |olds|
    ensures out < reduced[i] && curve.Solve(YDView(reduced, i), d1) == Some(reduced[i] - out - 1)
  {
    d0 := curve.D(olds, None).value;
    d1 := curve.DAfterBurn(d0, unmint, lp).value;
    newY := curve.Solve(YDView(olds, i), d1).value;
    fee := curve.ImbalanceFee(|olds|).value;
    reduced := curve.SingleReducedFrom(olds, i, d0, d1, newY, fee, []).value;
  }

  lemma SingleAbove(curve: Curve, olds: seq<nat>, reduced: seq<nat>, i: nat, d1: nat, out: nat)
    requires i < |olds| == |reduced| && forall k :: 0 <= k < |olds| ==> reduced[k] <= olds[k]
    requires out < reduced[i] && curve.Solve(YDView(reduced, i), d1) == Some(reduced[i] - out - 1)
    ensures AboveCurve(curve, YDView(olds[i := olds[i] - out], i), d1, olds[i] - out)
  {
    var y := reduced[i] - out - 1;
    SolveIsCovered(curve, YDView(reduced, i), d1, y);
    AboveCurveMono(curve, YDView(olds, i), YDView(reduced, i), d1, y + 1, olds[i] - out);
    assert YDView(olds[i := olds[i] - out], i) == YDView(olds, i);
  }

  // ----- deposits -----

  lemma {:induction false} DepositChargesAll(curve: Curve, olds: seq<nat>, news: seq<nat>, d0: nat, d1: nat, fee: nat, acc: seq<nat>)
    requires |acc| <= |olds| == |news| && curve.DepositReducedFrom(olds, news, d0, d1, fee, acc).Some?
    requires forall k :: 0 <= k < |acc| ==> ChargedForDistance(olds[k], news[k], acc[k], d0, d1, fee)
    ensures var r := curve.DepositReducedFrom(olds, news, d0, d1, fee, acc).value;
            |r| == |news| && forall k :: 0 <= k < |news| ==> ChargedForDistance(olds[k], news[k], r[k], d0, d1, fee)
    decreases |olds| - |acc|
  {
    if |acc| < |olds| {
      var k := |acc|;
      var reduced := curve.DepositReduced(olds[k], news[k], d0, d1, fee).value;
      DepositChargesDistance(curve, olds[k], news[k], d0, d1, fee, reduced);
      DepositChargesAll(curve, olds, news, d0, d1, fee, acc + [reduced]);
    }
  }

  lemma SuggestBelowCeiling(curve: Curve, news: seq<nat>, reduced: seq<nat>, d1: nat, suggest: nat)
    requires |news| == |reduced| && 0 < Sum(news) && 0 < curve.amp * |news|
    requires BelowCeiling(curve, news, d1) && suggest == Sum(reduced) * d1 / Sum(news)
    ensures BelowCeiling(curve, reduced, suggest)
  {
    var n, ann := |news|, curve.amp * |news|;
    DivPinned(Sum(reduced) * d1, Sum(news));
    SuggestAlgebra(n, n + 1, ann - 1, ann, Sum(news), Sum(reduced), d1, suggest);
  }

  lemma SuggestAlgebra(n: nat, n1: nat, A: nat, ann: nat, S: nat, S': nat, d1: nat, suggest: nat)
    requires 0 < S && suggest * S <= S' * d1
    requires n * (A * d1) <= n1 * (ann * S)
    ensures n * (A * suggest) <= n1 * (ann * S')
  {
    MulAssoc(n, A, d1);
    MulAssoc(n, A, suggest);
    MulAssoc(n1, ann, S);
    MulAssoc(n1, ann, S');
    RatioKeepsBound(n * A, n1 * ann, S, S', d1, suggest);
  }

  lemma RatioKeepsBound(f: nat, g: nat, S: nat, S': nat, d: nat, d': nat)
    requires 0 < S && d' * S <= S' * d && f * d <= g * S
    ensures f * d' <= g * S'
  {
    MulLe(d' * S, S' * d, f);
    MulLe(f * d, g * S, S');
    assert (d' * S) * f == (f * d') * S;
    assert (S' * d) * f == (f * d) * S';
    Exchange3(g, S, S');
    CancelLe(f * d', g * S', S);
  }

  lemma MintShare(lp: nat, d0: nat, d2: nat, mint: nat)
    requires 0 < d0 <= d2 && mint == lp * (d2 - d0) / d0
    ensures (lp + mint) * d0 <= lp * d2 < (lp + mint + 1) * d0
  {
    DivPinned(lp * (d2 - d0), d0);
    MulSub(lp, d2, d0);
    assert (lp + mint) * d0 == lp * d0 + mint * d0;
    assert (lp + mint + 1) * d0 == lp * d0 + (mint + 1) * d0;
  }

  /** The chain of intermediate results of a successful later deposit. */
  ghost predicate MintSteps(curve: Curve, olds: seq<nat>, news: seq<nat>, lp: nat, mint: nat, d0: nat, d1: nat, fee: nat, reduced: seq<nat>, suggest: nat, d2: nat)
    requires |olds| == |news|
  {
    && curve.D(olds, None) == Some(d0) && curve.D(news, None) == Some(d1)
    && curve.ImbalanceFee(|olds|) == Some(fee)
    && curve.DepositReducedFrom(olds, news, d0, d1, fee, []) == Some(reduced)
    && curve.D(reduced, Some(suggest)) == Some(d2)
    && 0 < d0 <= d2 && mint == lp * (d2 - d0) / d0
    && d0 < d1 && 0 < Sum(news) && 0 < Sum(reduced) && suggest == Sum(reduced) * d1 / Sum(news)
  }

  lemma UnfoldMint(curve: Curve, olds: seq<nat>, news: seq<nat>, lp: nat, mint: nat)
    returns (d0: nat, d1: nat, fee: nat, reduced: seq<nat>, suggest: nat, d2: nat)
    requires |olds| == |news| && 0 < lp && curve.MintAmount(olds, news, lp) == Some(mint)
    ensures MintSteps(curve, olds, news, lp, mint, d0, d1, fee, reduced, suggest, d2)
  {
    d0 := curve.D(olds, None).value;
    d1 := curve.D(news, None).value;
    fee := curve.ImbalanceFee(|olds|).value;
    reduced := curve.DepositReducedFrom(olds, news, d0, d1, fee, []).value;
    suggest := Sum(reduced) * d1 / Sum(news);
    d2 := curve.D(reduced, Some(suggest)).value;
  }

  /** A later deposit mints no more than the growth of the invariant between the old balances and
      the fee-reduced new ones, each of which is at most the real new balance; the warm-started
      invariant d2 it is measured by is never below the floor of the exact one. */
  lemma DepositMintIsCovered(curve: Curve, olds: seq<nat>, news: seq<nat>, lp: nat, mint: nat)
    returns (d0: nat, d1: nat, d2: nat, fee: nat, reduced: seq<nat>)
    requires |olds| == |news| && 0 < lp && curve.MintAmount(olds, news, lp) == Some(mint)
    ensures curve.D(olds, None) == Some(d0) && curve.D(news, None) == Some(d1) && curve.ImbalanceFee(|olds|) == Some(fee)
    ensures 0 < d0 <= d2 && (lp + mint) * d0 <= lp * d2 < (lp + mint + 1) * d0
    ensures |reduced| == |news| && forall k :: 0 <= k < |news| ==> ChargedForDistance(olds[k], news[k], reduced[k], d0, d1, fee)
    ensures |reduced| == |news| && forall k :: 0 <= k < |news| ==> 0 < reduced[k] <= news[k]
    ensures AboveExact(curve, reduced, d2 + 1)
  {
    var suggest;
    d0, d1, fee, reduced, suggest, d2 := UnfoldMint(curve, olds, news, lp, mint);
    DepositChargesAll(curve, olds, news, d0, d1, fee, []);
    MintShare(lp, d0, d2, mint);
    GetDAboveExact(curve, reduced, Some(suggest), d2);
  }

  /** The warm start the deposit suggests is below the ceiling of the fee-reduced balances, and so is
      the invariant it leads to. */
  lemma DepositWarmStart(curve: Curve, olds: seq<nat>, news: seq<nat>, lp: nat, mint: nat)
    returns (d1: nat, reduced: seq<nat>, suggest: nat, d2: nat)
    requires |olds| == |news| && 0 < lp && curve.MintAmount(olds, news, lp) == Some(mint)
    ensures curve.D(news, None) == Some(d1) && curve.D(reduced, Some(suggest)) == Some(d2) && |reduced| == |news|
    ensures BelowCeiling(curve, news, d1) && BelowCeiling(curve, reduced, suggest) && BelowCeiling(curve, reduced, d2)
    ensures AboveExact(curve, reduced, d2 + 1)
  {
    var d0, fee;
    d0, d1, fee, reduced, suggest, d2 := UnfoldMint(curve, olds, news, lp, mint);
    DepositChargesAll(curve, olds, news, d0, d1, fee, []);
    GetDAboveExact(curve, news, None, d1);
    GetDAboveExact(curve, reduced, Some(suggest), d2);
    GetDBelowCeiling(curve, news, None, d1);
    assert 0 < curve.amp * |news|;
    SuggestBelowCeiling(curve, news, reduced, d1, suggest);
    GetDBelowCeiling(curve, reduced, Some(suggest), d2);
  }

  /** The first deposit mints the computed invariant itself, and needs every coin. */
  lemma FirstDepositMint(curve: Curve, olds: seq<nat>, news: seq<nat>, mint: nat)
    requires |olds| == |news| && curve.MintAmount(olds, news, 0) == Some(mint)
    ensures curve.D(news, None) == Some(mint) && 0 < mint
    ensures AllPositive(news) && AboveExact(curve, news, mint + 1)
  {
    GetDAboveExact(curve, news, None, mint);
  }
}
