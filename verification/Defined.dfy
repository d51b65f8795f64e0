/** When the curve answers: every operation's answer exists exactly when the tests stated here hold, with the
    widths and constants written out. */
module DefinedTheorems {
  import opened Options
  import opened Checked
  import opened Arithmetic
  import opened StableCurve
  import opened InvariantTheorems
  import opened SolverTheorems
  import opened PowerTheorems
  import opened MeanTheorems
  import opened RoundTheorems
  import opened ConvergenceTheorems
  import opened CurveTheorems

  // ----- fees -----

  /** Fees are in ten-thousandths, rounded down. */
  lemma FeesAreTenThousandths(curve: Curve, fee: nat, amount: nat)
    ensures curve.FeeOn(fee, amount).Some? <==> fee * amount <= U128_MAX
    ensures curve.FeeOn(fee, amount).Some? ==>
      curve.FeeOn(fee, amount).value * 10_000 <= fee * amount < (curve.FeeOn(fee, amount).value + 1) * 10_000
  {
  }

  lemma SwapFeeIsTenThousandths(curve: Curve, gross: nat)
    ensures curve.LessFee(gross).Some? <==>
      gross * curve.feeNumerator <= U128_MAX && gross * curve.feeNumerator < (gross + 1) * 10_000
    ensures curve.LessFee(gross).Some? ==>
      var taken := gross - curve.LessFee(gross).value;
      0 <= taken && taken * 10_000 <= gross * curve.feeNumerator < (taken + 1) * 10_000
  {
  }

  /** The rate charged for imbalance, in ten-thousandths. */
  function ImbalanceRate(feeNumerator: nat, n: nat): nat
    requires 2 <= n
  {
    feeNumerator * n / 4 / (n - 1)
  }

  lemma ImbalanceFeeExists(curve: Curve, n: nat)
    ensures curve.ImbalanceFee(n) ==
      if 2 <= n && curve.feeNumerator * n <= U64_MAX then Some(ImbalanceRate(curve.feeNumerator, n)) else None
  {
  }

  // ----- swaps -----

  /** The products of the c loop fit in 128 bits and its divisors are positive. */
  predicate ChainFits(view: View, d: nat, c: nat, k: nat)
    requires k <= |view|
    decreases |view| - k
  {
    k == |view| ||
    match view[k]
    case None => ChainFits(view, d, c, k + 1)
    case Some(x) =>
      0 < x && x * |view| <= U128_MAX && c * d <= U128_MAX && ChainFits(view, d, c * d / (x * |view|), k + 1)
  }

  lemma {:induction false} ChainIsReadable(view: View, d: nat, c: nat, k: nat)
    requires k <= |view| && ChainFits(view, d, c, k)
    ensures Readable(view, k)
    decreases |view| - k
  {
    if k < |view| {
      match view[k]
      case None => ChainIsReadable(view, d, c, k + 1);
      case Some(x) => ChainIsReadable(view, d, c * d / (x * |view|), k + 1);
    }
  }

  lemma CoinDefinedExactly(view: View, d: nat, c: nat, s: nat, k: nat, x: nat)
    requires k < |view| && view[k] == Some(x)
    ensures CSFrom(view, d, c, s, k) ==
      if s + x <= U128_MAX && 0 < x && x * |view| <= U128_MAX && c * d <= U128_MAX
      then CSFrom(view, d, c * d / (x * |view|), s + x, k + 1) else None
  {
  }

  lemma {:induction false} LoopDefinedExactly(view: View, d: nat, c: nat, s: nat, k: nat)
    requires k <= |view| && s <= U128_MAX
    ensures CSFrom(view, d, c, s, k).Some? <==> ChainFits(view, d, c, k) && s + Others(view, k) <= U128_MAX
    decreases |view| - k
  {
    if k < |view| {
      match view[k]
      case None => LoopDefinedExactly(view, d, c, s, k + 1);
      case Some(x) =>
        CoinDefinedExactly(view, d, c, s, k, x);
        if s + x <= U128_MAX && 0 < x && x * |view| <= U128_MAX && c * d <= U128_MAX {
          LoopDefinedExactly(view, d, c * d / (x * |view|), s + x, k + 1);
        }
    }
  }

  /** When the coefficients exist. */
  predicate CoefficientsFit(curve: Curve, view: View, d: nat) {
    var ann := curve.amp * |view|;
    && 0 < ann <= U64_MAX && ann * |view| <= U64_MAX && 0 < |view|
    && ChainFits(view, d, d, 0)
    && (ChainIsReadable(view, d, d, 0); CFloor(view, d, d, 0) * d <= U128_MAX)
    && Others(view, 0) + d / ann <= U128_MAX
  }

  lemma CoefficientsExistExactly(curve: Curve, view: View, d: nat)
    ensures curve.BC(view, d).Some? <==> CoefficientsFit(curve, view, d)
  {
    LoopDefinedExactly(view, d, d, 0, 0);
    var ann := curve.amp * |view|;
    if curve.BC(view, d).Some? {
      LoopIsFloor(view, d, d, 0, 0);
      FactorsPositive(curve.amp, |view|) by { assert 0 < ann; }
    }
    if CoefficientsFit(curve, view, d) {
      LoopIsFloor(view, d, d, 0, 0);
      FactorsKeepPositive(ann, |view|);
    }
  }

  lemma SolveIsRounds(curve: Curve, view: View, d: nat, b: nat, c: nat, rounds: nat)
    requires curve.BC(view, d) == Some((b, c)) && rounds == ITERATIONS
    ensures curve.Solve(view, d) == YRounds(b, c, d, d, rounds)
  {
  }

  lemma SolveInRounds(curve: Curve, view: View, d: nat, b: nat, c: nat, rounds: nat)
    requires curve.BC(view, d) == Some((b, c)) && rounds == ITERATIONS
    ensures curve.Solve(view, d).Some? <==> SolverFits(b, c, d)
    ensures c <= b * d && 0 < d + b ==> (SolverFits(b, c, d) <==> d * d + c <= U128_MAX && 2 * d + b <= U128_MAX)
  {
    SolveIsRounds(curve, view, d, b, c, rounds);
    SolverAnswersExactly(b, c, d, rounds);
    if c <= b * d && 0 < d + b {
      SolverAnswersBelow(b, c, d);
    }
  }

  /** With coefficients b and c the solver answers exactly when its first round, or its first two, fit; with c up
      to b*d that is one test on two sums. */
  lemma SolveAnswersExactly(curve: Curve, view: View, d: nat, b: nat, c: nat)
    requires curve.BC(view, d) == Some((b, c))
    ensures curve.Solve(view, d).Some? <==> SolverFits(b, c, d)
    ensures c <= b * d && 0 < d + b ==> (SolverFits(b, c, d) <==> d * d + c <= U128_MAX && 2 * d + b <= U128_MAX)
  {
    SolveInRounds(curve, view, d, b, c, ITERATIONS);
  }

  lemma SolveNeedsCoefficients(curve: Curve, view: View, d: nat)
    requires curve.Solve(view, d).Some?
    ensures CoefficientsFit(curve, view, d)
  {
    CoefficientsExistExactly(curve, view, d);
  }

  /** A quote exists exactly when the offer fits, the invariant and y do, y leaves something of the coin asked
      for, and the fee fits and is not above the whole; it is the rest less the fee. */
  lemma QuoteExistsExactly(curve: Curve, i: nat, j: nat, offer: nat, balances: seq<nat>)
    requires i < |balances| && j < |balances|
    ensures curve.ExchangeOut(i, j, offer, balances).Some? <==>
      && balances[i] + offer <= U128_MAX && curve.D(balances, None).Some?
      && var y := curve.Solve(YView(balances, i, j, balances[i] + offer), curve.D(balances, None).value);
         && y.Some? && y.value < balances[j]
         && var gross := balances[j] - y.value - 1;
            gross * curve.feeNumerator <= U128_MAX && gross * curve.feeNumerator < (gross + 1) * 10_000
    ensures curve.ExchangeOut(i, j, offer, balances).Some? ==>
      var y := curve.Solve(YView(balances, i, j, balances[i] + offer), curve.D(balances, None).value).value;
      curve.LessFee(balances[j] - y - 1) == curve.ExchangeOut(i, j, offer, balances)
  {
    if balances[i] + offer <= U128_MAX && curve.D(balances, None).Some? {
      var y := curve.Solve(YView(balances, i, j, balances[i] + offer), curve.D(balances, None).value);
      if y.Some? && y.value < balances[j] {
        SwapFeeIsTenThousandths(curve, balances[j] - y.value - 1);
      }
    }
  }

  // ----- get_d -----

  /** Nothing in the pool means an invariant of zero, at once. */
  lemma GetDOfNothing(curve: Curve, amounts: seq<nat>, suggest: Option<nat>)
    requires Sum(amounts) == 0
    ensures curve.D(amounts, suggest) == Some(0)
  {
  }

  /** The products of the product loop fit in 128 bits and its divisors are positive. */
  predicate ProductFits(scaled: seq<nat>, d: nat, p: nat, k: nat)
    requires k <= |scaled|
    decreases |scaled| - k
  {
    k == |scaled| || (0 < scaled[k] && p * d <= U128_MAX && ProductFits(scaled, d, p * d / scaled[k], k + 1))
  }

  function ProductFloor(scaled: seq<nat>, d: nat, p: nat, k: nat): nat
    requires k <= |scaled| && ProductFits(scaled, d, p, k)
    decreases |scaled| - k
  {
    if k == |scaled| then p else ProductFloor(scaled, d, p * d / scaled[k], k + 1)
  }

  lemma {:induction false} ProductDefinedExactly(scaled: seq<nat>, d: nat, p: nat, k: nat)
    requires k <= |scaled|
    ensures ProdFrom(scaled, d, p, k).Some? <==> ProductFits(scaled, d, p, k)
    ensures ProductFits(scaled, d, p, k) ==> ProdFrom(scaled, d, p, k) == Some(ProductFloor(scaled, d, p, k))
    decreases |scaled| - k
  {
    if k < |scaled| && 0 < scaled[k] {
      ProductDefinedExactly(scaled, d, p * d / scaled[k], k + 1);
    }
  }

  /** What one round of `get_d` needs. */
  predicate DRoundFits(q: DParams, d: nat) {
    && ProductFits(q.scaled, d, d, 0)
    && var n, p := |q.scaled|, ProductFloor(q.scaled, d, d, 0);
       && (q.annSum + n * p) * d <= U128_MAX
       && 0 < q.annSubOne * d + (n + 1) * p <= U128_MAX
  }

  lemma DSumsFit(n: nat, p: nat, T: nat, A: nat, d: nat)
    requires 0 < d
    ensures (T + n * p) * d <= U128_MAX ==> T + n * p <= U128_MAX && n * p <= U128_MAX
    ensures A * d + (n + 1) * p <= U128_MAX ==> A * d <= U128_MAX && p + n * p <= U128_MAX
    ensures (n + 1) * p == p + n * p
  {
    ProductAtLeast(T + n * p, d);
    MulLe(0, A, d);
    MulLe(0, n, p);
  }

  lemma DStepUnfolds(q: DParams, d: nat, p: nat)
    requires ProdFrom(q.scaled, d, d, 0) == Some(p)
    ensures var n := |q.scaled|;
            DStep(q, d).Some? <==>
              && p * n <= U128_MAX && q.annSum + p * n <= U128_MAX && (q.annSum + p * n) * d <= U128_MAX
              && d * q.annSubOne <= U128_MAX && p + p * n <= U128_MAX
              && 0 < d * q.annSubOne + (p + p * n) <= U128_MAX
  {
  }

  lemma DRoundDefinedExactly(q: DParams, d: nat)
    requires 0 < d
    ensures DStep(q, d).Some? <==> DRoundFits(q, d)
  {
    ProductDefinedExactly(q.scaled, d, d, 0);
    if ProductFits(q.scaled, d, d, 0) {
      var n, p := |q.scaled|, ProductFloor(q.scaled, d, d, 0);
      DStepUnfolds(q, d, p);
      DSumsFit(n, p, q.annSum, q.annSubOne, d);
      Commute(n, p);
      Commute(d, q.annSubOne);
    }
  }

  lemma Commute(a: nat, b: nat)
    ensures a * b == b * a
  {
  }

  lemma {:induction false} ProductFitsBelow(scaled: seq<nat>, d: nat, p: nat, d': nat, p': nat, k: nat)
    requires k <= |scaled| && d <= d' && p <= p' && ProductFits(scaled, d', p', k)
    ensures ProductFits(scaled, d, p, k) && ProductFloor(scaled, d, p, k) <= ProductFloor(scaled, d', p', k)
    decreases |scaled| - k
  {
    if k < |scaled| {
      MulLeBoth(p, p', d, d');
      DivMono(p * d, scaled[k], p' * d', scaled[k]);
      ProductFitsBelow(scaled, d, p * d / scaled[k], d', p' * d' / scaled[k], k + 1);
    }
  }

  lemma DSumsBelow(n: nat, T: nat, A: nat, p: nat, p': nat, d: nat, d': nat)
    requires 0 < p <= p' && d <= d'
    ensures (T + n * p) * d <= (T + n * p') * d'
    ensures 0 < A * d + (n + 1) * p <= A * d' + (n + 1) * p'
  {
    MulLe(p, p', n);
    MulLe(0, n, p);
    MulLeBoth(T + n * p, T + n * p', d, d');
    MulLe(d, d', A);
    MulLe(0, A, d);
    MulLe(p, p', n + 1);
    MulLe(1, p, n + 1);
  }

  lemma DRoundFitsBelow(q: DParams, d: nat, d': nat)
    requires 0 < d <= d' && DRoundFits(q, d') && ProductFits(q.scaled, d, d, 0)
    requires 0 < ProductFloor(q.scaled, d, d, 0)
    ensures DRoundFits(q, d)
  {
    ProductFitsBelow(q.scaled, d, d, d', d', 0);
    DSumsBelow(|q.scaled|, q.annSum, q.annSubOne, ProductFloor(q.scaled, d, d, 0), ProductFloor(q.scaled, d', d', 0), d, d');
  }

  lemma ProductStaysPositive(q: DParams, d: nat, z: nat)
    requires Steady(q.scaled, z) && z <= d && ProductFits(q.scaled, d, d, 0)
    ensures 0 < ProductFloor(q.scaled, d, d, 0)
  {
    ProductDefinedExactly(q.scaled, d, d, 0);
    var p, s := ProductNumbers(q, d);
    SteadyAbove(q.scaled, z, d);
    SteadyLoss(d, Pow(d, |q.scaled|), s, Spread(q.scaled, d, 0), |q.scaled| + 1);
    LossLeavesProduct(d, Pow(d, |q.scaled|), s, |q.scaled| + 1, p, Product(q.scaled, 0));
  }

  lemma LossLeavesProduct(d: nat, P: nat, s: nat, N: nat, p: nat, K: nat)
    requires N < d && 0 < P && s <= N * P && d * P <= p * K + s
    ensures 0 < p
  {
    MulLt(N, d, P);
  }

  /** From a start whose round fits, all rounds of a steady pool fit: they do not climb before they settle. */
  lemma {:induction false} SteadyRoundsAnswer(curve: Curve, amounts: seq<nat>, q: DParams, d: nat, w: nat, rounds: nat, z: nat)
    requires Setting(curve, amounts, q, z) && Steady(q.scaled, z) && z <= d <= w && DRoundFits(q, w)
    ensures DRounds(q, d, rounds).Some?
    decreases rounds
  {
    if 0 < rounds {
      ProductFitsBelow(q.scaled, d, d, w, w, 0);
      ProductStaysPositive(q, d, z);
      DRoundFitsBelow(q, d, w);
      DRoundDefinedExactly(q, d);
      var d' := DStep(q, d).value;
      RoundStaysAbove(curve, amounts, q, d, d', z);
      RoundSteps(curve, amounts, q, d, d', z);
      if !Near(d', d) {
        SteadyRoundsAnswer(curve, amounts, q, d', w, rounds - 1, z);
      }
    }
  }

  /** What is fixed before the rounds exists exactly when the sums and products fit. */
  lemma SetupExistsExactly(curve: Curve, amounts: seq<nat>)
    ensures var n, ann := |amounts|, curve.amp * |amounts|;
            curve.DSetup(amounts).Some? <==>
              && Sum(amounts) <= U128_MAX && (forall k :: 0 <= k < n ==> n * amounts[k] <= U128_MAX)
              && 0 < ann <= U64_MAX && ann * Sum(amounts) <= U128_MAX
  {
    var n := |amounts|;
    assert forall k :: 0 <= k < n ==> n * amounts[k] == amounts[k] * n;
  }

  /** On a steady pool a cold start of `get_d` answers exactly when its first round fits. */
  lemma GetDAnswersExactly(curve: Curve, amounts: seq<nat>, q: DParams, z: nat)
    requires curve.DSetup(amounts) == Some(q) && 0 < Sum(amounts) && IsFloor(curve, amounts, z) && Steady(q.scaled, z)
    ensures curve.D(amounts, None).Some? <==> DRoundFits(q, Sum(amounts))
  {
    SetupFacts(curve, amounts, q);
    SumCoversFloor(curve, amounts, z);
    AnswersInRounds(curve, amounts, q, z, ITERATIONS);
  }

  lemma AnswersInRounds(curve: Curve, amounts: seq<nat>, q: DParams, z: nat, rounds: nat)
    requires Setting(curve, amounts, q, z) && 0 < Sum(amounts) && Steady(q.scaled, z)
    requires z <= Sum(amounts) && 0 < rounds
    ensures DRounds(q, Sum(amounts), rounds).Some? <==> DRoundFits(q, Sum(amounts))
  {
    DRoundDefinedExactly(q, Sum(amounts));
    if DRoundFits(q, Sum(amounts)) {
      SteadyRoundsAnswer(curve, amounts, q, Sum(amounts), Sum(amounts), rounds, z);
    }
  }

  /** The same from any w on or below the exact invariant at which the pool is steady. */
  lemma GetDAnswersFrom(curve: Curve, amounts: seq<nat>, w: nat)
    requires 0 < Sum(amounts) && !AboveExact(curve, amounts, w) && Steady(Times(|amounts|, amounts), w)
    requires 0 < curve.amp * |amounts|
    ensures curve.D(amounts, None).Some? <==>
      curve.DSetup(amounts).Some? && DRoundFits(curve.DSetup(amounts).value, Sum(amounts))
  {
    if curve.DSetup(amounts).Some? {
      var q := curve.DSetup(amounts).value;
      SetupFacts(curve, amounts, q);
      var z := FloorAbove(curve, amounts, w);
      SteadyAbove(q.scaled, w, z);
      GetDAnswersExactly(curve, amounts, q, z);
    }
  }

  // ----- a quote on a pool of real size -----

  lemma BalancedPool(curve: Curve, balances: seq<nat>)
    requires curve.amp == 100 && balances == [1_000_000_000_000, 1_000_000_000_000]
    ensures curve.D(balances, None) == Some(2_000_000_000_000)
  {
    assert Sum(balances) == 1_000_000_000_000 + Sum([1_000_000_000_000]) == 2_000_000_000_000;
    GetDBalanced(curve, balances, 1_000_000_000_000);
  }

  lemma QuoteCoefficients(curve: Curve, view: View)
    requires curve.amp == 100 && view == [Some(1_001_000_000_000), None]
    ensures curve.BC(view, 2_000_000_000_000) == Some((1_011_000_000_000, 9_990_009_990_005_000_000_000))
  {
    assert CSFrom(view, 2_000_000_000_000, 2_000_000_000_000, 0, 0)
        == CSFrom(view, 2_000_000_000_000, 1_998_001_998_001, 1_001_000_000_000, 1)
        == CSFrom(view, 2_000_000_000_000, 1_998_001_998_001, 1_001_000_000_000, 2);
  }

  lemma QuoteRound(y: nat, y': nat)
    requires y <= 2_000_000_000_000 && 989_000_000_000 < 2 * y
    requires y' == (y * y + 9_990_009_990_005_000_000_000) / (2 * y - 989_000_000_000) && !Near(y', y)
    ensures forall rounds: nat :: 0 < rounds ==>
              YRounds(1_011_000_000_000, 9_990_009_990_005_000_000_000, 2_000_000_000_000, y, rounds)
              == YRounds(1_011_000_000_000, 9_990_009_990_005_000_000_000, 2_000_000_000_000, y', rounds - 1)
  {
    MulLeBoth(y, 2_000_000_000_000, y, 2_000_000_000_000);
    RoundDefinedExactly(1_011_000_000_000, 9_990_009_990_005_000_000_000, 2_000_000_000_000, y);
  }

  lemma QuoteRounds(b: nat, c: nat, d: nat, rounds: nat)
    requires b == 1_011_000_000_000 && c == 9_990_009_990_005_000_000_000 && d == 2_000_000_000_000 && 8 <= rounds
    ensures YRounds(b, c, d, d, rounds) == Some(999_000_009_900)
  {
    QuoteRound(2_000_000_000_000, 1_331_780_142_806);
    QuoteRound(1_331_780_142_806, 1_065_132_365_844);
    QuoteRound(1_065_132_365_844, 1_002_832_151_893);
    QuoteRound(1_002_832_151_893, 999_014_454_503);
    QuoteRound(999_014_454_503, 999_000_010_107);
    QuoteRound(999_000_010_107, 999_000_009_900);
    RoundDefinedExactly(b, c, d, 999_000_009_900);
    assert YStep(b, c, d, 999_000_009_900) == Some(999_000_009_900);
  }

  lemma RealQuoteSolved(curve: Curve, balances: seq<nat>, rounds: nat)
    requires curve.amp == 100 && balances == [1_000_000_000_000, 1_000_000_000_000] && rounds == ITERATIONS
    ensures curve.Solve(YView(balances, 0, 1, 1_001_000_000_000), 2_000_000_000_000) == Some(999_000_009_900)
  {
    var view := YView(balances, 0, 1, 1_001_000_000_000);
    assert view == [Some(1_001_000_000_000), None];
    QuoteCoefficients(curve, view);
    SolveIsRounds(curve, view, 2_000_000_000_000, 1_011_000_000_000, 9_990_009_990_005_000_000_000, rounds);
    QuoteRounds(1_011_000_000_000, 9_990_009_990_005_000_000_000, 2_000_000_000_000, rounds);
  }

  lemma QuoteFromY(curve: Curve, i: nat, j: nat, offer: nat, balances: seq<nat>, d: nat, y: nat)
    requires i < |balances| && j < |balances| && balances[i] + offer <= U128_MAX
    requires curve.D(balances, None) == Some(d) && curve.Solve(YView(balances, i, j, balances[i] + offer), d) == Some(y)
    requires y < balances[j]
    ensures curve.ExchangeOut(i, j, offer, balances) == curve.LessFee(balances[j] - y - 1)
  {
  }

  lemma RealFee(curve: Curve, gross: nat)
    requires curve.feeNumerator == 4 && gross == 999_990_099
    ensures curve.LessFee(gross) == Some(999_590_103)
  {
  }

  /** At amplification 100 and a fee of four ten-thousandths, a pool of two times 10^12 pays 999590103 for 10^9. */
  lemma RealQuote(curve: Curve, balances: seq<nat>, offer: nat)
    requires curve == Curve(100, 4) && balances == [1_000_000_000_000, 1_000_000_000_000] && offer == 1_000_000_000
    ensures curve.ExchangeOut(0, 1, offer, balances) == Some(999_590_103)
  {
    BalancedPool(curve, balances);
    RealQuoteSolved(curve, balances, ITERATIONS);
    RealFee(curve, balances[1] - 999_000_009_900 - 1);
    QuoteFromY(curve, 0, 1, offer, balances, 2_000_000_000_000, 999_000_009_900);
  }

  // ----- deposits -----

  predicate DepositCoinFits(oldBalance: nat, newBalance: nat, d0: nat, d1: nat, fee: nat) {
    && 0 < d0 && d1 * oldBalance <= U128_MAX
    && var charged := fee * Distance(d1 * oldBalance / d0, newBalance);
       charged <= U128_MAX && charged < (newBalance + 1) * 10_000
  }

  lemma DepositCoinExactly(curve: Curve, oldBalance: nat, newBalance: nat, d0: nat, d1: nat, fee: nat)
    ensures curve.DepositReduced(oldBalance, newBalance, d0, d1, fee).Some? <==> DepositCoinFits(oldBalance, newBalance, d0, d1, fee)
    ensures curve.DepositReduced(oldBalance, newBalance, d0, d1, fee).Some? ==>
      curve.DepositReduced(oldBalance, newBalance, d0, d1, fee)
        == Some(newBalance - fee * Distance(d1 * oldBalance / d0, newBalance) / 10_000)
  {
  }

  lemma {:induction false} DepositCoinsExactly(curve: Curve, olds: seq<nat>, news: seq<nat>, d0: nat, d1: nat, fee: nat, acc: seq<nat>)
    requires |acc| <= |olds| == |news|
    ensures curve.DepositReducedFrom(olds, news, d0, d1, fee, acc).Some? <==>
      forall k :: |acc| <= k < |olds| ==> DepositCoinFits(olds[k], news[k], d0, d1, fee)
    decreases |olds| - |acc|
  {
    if |acc| < |olds| {
      var k := |acc|;
      DepositCoinExactly(curve, olds[k], news[k], d0, d1, fee);
      if DepositCoinFits(olds[k], news[k], d0, d1, fee) {
        DepositCoinsExactly(curve, olds, news, d0, d1, fee, acc + [curve.DepositReduced(olds[k], news[k], d0, d1, fee).value]);
      }
    }
  }

  /** The warm-started invariant exists and is not below the old one, and the mint fits in 64 bits. The start
      suggested is the new invariant times what the charges left of the sum, rounded down. */
  predicate MintFits(curve: Curve, reduced: seq<nat>, newSum: nat, lp: nat, d0: nat, d1: nat) {
    && Sum(reduced) <= U128_MAX && Sum(reduced) * d1 <= U128_MAX && 0 < newSum && 0 < d0
    && var d2 := curve.D(reduced, Some(Suggested(Sum(reduced), d1, newSum)));
       d2.Some? && d0 <= d2.value && lp * (d2.value - d0) <= U128_MAX && lp * (d2.value - d0) / d0 <= U64_MAX
  }

  function Suggested(feeSum: nat, d1: nat, newSum: nat): nat
    requires 0 < newSum
  {
    feeSum * d1 / newSum
  }

  lemma MintExistsExactly(curve: Curve, reduced: seq<nat>, newSum: nat, lp: nat, d0: nat, d1: nat)
    ensures curve.MintOf(reduced, newSum, lp, d0, d1).Some? <==> MintFits(curve, reduced, newSum, lp, d0, d1)
    ensures curve.MintOf(reduced, newSum, lp, d0, d1).Some? ==>
      var d2 := curve.D(reduced, Some(Suggested(Sum(reduced), d1, newSum))).value;
      curve.MintOf(reduced, newSum, lp, d0, d1) == Some(lp * (d2 - d0) / d0)
  {
  }

  lemma MintStage(curve: Curve, olds: seq<nat>, news: seq<nat>, lp: nat, d0: nat, d1: nat)
    requires |olds| == |news| && 0 < lp && curve.D(olds, None) == Some(d0) && curve.D(news, None) == Some(d1)
    ensures curve.MintAmount(olds, news, lp) ==
      if d0 < d1 && curve.ImbalanceFee(|olds|).Some?
         && curve.DepositReducedFrom(olds, news, d0, d1, curve.ImbalanceFee(|olds|).value, []).Some?
      then curve.MintOf(curve.DepositReducedFrom(olds, news, d0, d1, curve.ImbalanceFee(|olds|).value, []).value, Sum(news), lp, d0, d1)
      else None
  {
  }

  /** A later deposit mints exactly when the invariant grew, every coin can be charged, and the mint fits. */
  lemma LaterMintExistsExactly(curve: Curve, olds: seq<nat>, news: seq<nat>, lp: nat, d0: nat, d1: nat)
    requires |olds| == |news| && 0 < lp && curve.D(olds, None) == Some(d0) && curve.D(news, None) == Some(d1)
    ensures curve.MintAmount(olds, news, lp).Some? <==>
      && d0 < d1 && 2 <= |olds| && curve.feeNumerator * |olds| <= U64_MAX
      && var fee := ImbalanceRate(curve.feeNumerator, |olds|);
         && (forall k :: 0 <= k < |olds| ==> DepositCoinFits(olds[k], news[k], d0, d1, fee))
         && MintFits(curve, curve.DepositReducedFrom(olds, news, d0, d1, fee, []).GetOr([]), Sum(news), lp, d0, d1)
  {
    MintStage(curve, olds, news, lp, d0, d1);
    ImbalanceFeeExists(curve, |olds|);
    if 2 <= |olds| && curve.feeNumerator * |olds| <= U64_MAX {
      var fee := ImbalanceRate(curve.feeNumerator, |olds|);
      DepositCoinsExactly(curve, olds, news, d0, d1, fee, []);
      MintExistsExactly(curve, curve.DepositReducedFrom(olds, news, d0, d1, fee, []).GetOr([]), Sum(news), lp, d0, d1);
    }
  }

  // ----- single-coin withdrawals -----

  predicate SingleCoinFits(balance: nat, solved: bool, d0: nat, d1: nat, newY: nat, fee: nat) {
    && 0 < d0 && balance * d1 <= U128_MAX
    && var ideal := balance * d1 / d0;
       && (if solved then newY <= ideal else ideal <= balance)
       && var charged := fee * (if solved then ideal - newY else balance - ideal);
          charged <= U128_MAX && charged < (balance + 1) * 10_000
  }

  lemma {:induction false} SingleCoinsExactly(curve: Curve, olds: seq<nat>, i: nat, d0: nat, d1: nat, newY: nat, fee: nat, acc: seq<nat>)
    requires |acc| <= |olds|
    ensures curve.SingleReducedFrom(olds, i, d0, d1, newY, fee, acc).Some? <==>
      forall k :: |acc| <= k < |olds| ==> SingleCoinFits(olds[k], k == i, d0, d1, newY, fee)
    decreases |olds| - |acc|
  {
    if |acc| < |olds| {
      var k := |acc|;
      var dx := curve.ExpectedChange(olds[k], k == i, d0, d1, newY);
      if dx.Some? {
        FeesAreTenThousandths(curve, fee, dx.value);
        var charge := curve.FeeOn(fee, dx.value);
        if charge.Some? && charge.value <= olds[k] {
          SingleCoinsExactly(curve, olds, i, d0, d1, newY, fee, acc + [olds[k] - charge.value]);
        }
      }
    }
  }

  /** What is left to decide once the other coins' balances allow a y. */
  predicate PayoutFits(curve: Curve, olds: seq<nat>, i: nat, d0: nat, d1: nat, newY: nat)
    requires i < |olds|
  {
    && 2 <= |olds| && curve.feeNumerator * |olds| <= U64_MAX
    && var reduced := curve.SingleReducedFrom(olds, i, d0, d1, newY, ImbalanceRate(curve.feeNumerator, |olds|), []);
       && reduced.Some?
       && var y := curve.Solve(YDView(reduced.value, i), d1);
          y.Some? && y.value < reduced.value[i] && reduced.value[i] - y.value - 1 <= U64_MAX
  }

  lemma PayoutStage(curve: Curve, olds: seq<nat>, unmint: nat, i: nat, lp: nat, d0: nat, d1: nat, newY: nat)
    requires i < |olds| && curve.D(olds, None) == Some(d0) && curve.DAfterBurn(d0, unmint, lp) == Some(d1)
    requires curve.Solve(YDView(olds, i), d1) == Some(newY)
    ensures curve.SinglePayout(olds, unmint, i, lp).Some? <==> PayoutFits(curve, olds, i, d0, d1, newY)
  {
    ImbalanceFeeExists(curve, |olds|);
  }

  lemma BurnExistsExactly(curve: Curve, d0: nat, unmint: nat, lp: nat)
    ensures curve.DAfterBurn(d0, unmint, lp) ==
      if 0 < lp && unmint * d0 <= U128_MAX && unmint * d0 / lp <= d0 then Some(d0 - unmint * d0 / lp) else None
  {
  }

  lemma PayoutNeedsY(curve: Curve, olds: seq<nat>, unmint: nat, i: nat, lp: nat, d0: nat)
    requires i < |olds| && curve.D(olds, None) == Some(d0) && curve.SinglePayout(olds, unmint, i, lp).Some?
    ensures curve.DAfterBurn(d0, unmint, lp).Some?
    ensures curve.Solve(YDView(olds, i), curve.DAfterBurn(d0, unmint, lp).value).Some?
  {
  }

  /** A single-coin withdrawal pays exactly when the burned part of the invariant exists, both solves answer,
      every coin can be charged, and what is paid is not negative and fits in 64 bits. */
  lemma PayoutExistsExactly(curve: Curve, olds: seq<nat>, unmint: nat, i: nat, lp: nat, d0: nat)
    requires i < |olds| && curve.D(olds, None) == Some(d0)
    ensures curve.SinglePayout(olds, unmint, i, lp).Some? <==>
      && 0 < lp && unmint * d0 <= U128_MAX && unmint * d0 / lp <= d0
      && var d1 := d0 - unmint * d0 / lp;
         var newY := curve.Solve(YDView(olds, i), d1);
         newY.Some? && PayoutFits(curve, olds, i, d0, d1, newY.value)
  {
    BurnExistsExactly(curve, d0, unmint, lp);
    if curve.SinglePayout(olds, unmint, i, lp).Some? {
      PayoutNeedsY(curve, olds, unmint, i, lp, d0);
    }
    if curve.DAfterBurn(d0, unmint, lp).Some? {
      var d1 := curve.DAfterBurn(d0, unmint, lp).value;
      var newY := curve.Solve(YDView(olds, i), d1);
      if newY.Some? {
        PayoutStage(curve, olds, unmint, i, lp, d0, d1, newY.value);
      }
    }
  }

  // ----- integer pro-rata refunds -----

  lemma {:induction false} BalancedExistsExactly(olds: seq<nat>, unmint: nat, lp: nat, acc: seq<nat>)
    requires |acc| <= |olds|
    ensures Curve.BalancedFrom(olds, unmint, lp, acc).Some? <==>
      |acc| == |olds| || (0 < lp && forall k :: |acc| <= k < |olds| ==> olds[k] * unmint <= U128_MAX)
    decreases |olds| - |acc|
  {
    if |acc| < |olds| && 0 < lp && olds[|acc|] * unmint <= U128_MAX {
      BalancedExistsExactly(olds, unmint, lp, acc + [olds[|acc|] * unmint / lp]);
    }
  }
}
