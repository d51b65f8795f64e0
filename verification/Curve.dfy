/** The StableSwap curve (contracts/terraswap_stable/src/curve.rs).

    Each operation appears twice: a function that says what it computes, on which the theorems
    of the other files are proved, and the method that computes it with the source's loops,
    proved equal to the function. `None` is Rust's `None` or a panic; every caller in the
    contract unwraps the result, so both abort the transaction. */
module StableCurve {
  import opened Options
  import opened Checked

  const ITERATIONS: nat := 32
  const FEE_DENOMINATOR: nat := 10_000

  /** The balances a y-solver reads; `None` marks the coin it skips. */
  type View = seq<Option<nat>>

  /** What stays fixed during the rounds of `get_d`. */
  datatype DParams = DParams(scaled: seq<nat>, annSum: nat, annSubOne: nat)

  predicate Near(a: nat, b: nat) {
    a <= b + 1 && b <= a + 1
  }

  // ----- get_d -----

  function Scaled(amounts: seq<nat>): (r: Option<seq<nat>>)
    ensures r.Some? <==> forall k :: 0 <= k < |amounts| ==> amounts[k] * |amounts| <= U128_MAX
    ensures r.Some? ==> |r.value| == |amounts|
    ensures r.Some? ==> forall k :: 0 <= k < |amounts| ==> r.value[k] == |amounts| * amounts[k]
  {
    var n := |amounts|;
    if forall k :: 0 <= k < n ==> amounts[k] * n <= U128_MAX
    then Some(seq(n, k requires 0 <= k < n => n * amounts[k]))
    else None
  }

  /** The product loop from coin k on, started at p. */
  function ProdFrom(scaled: seq<nat>, d: nat, p: nat, k: nat): Option<nat>
    requires k <= |scaled|
    decreases |scaled| - k
  {
    if k == |scaled| then Some(p) else
      var pd :- CheckedMul(p, d);
      var q :- CheckedDiv(pd, scaled[k]);
      ProdFrom(scaled, d, q, k + 1)
  }

  function DStep(q: DParams, d: nat): Option<nat> {
    var p :- ProdFrom(q.scaled, d, d, 0);
    var pn :- CheckedMul(p, |q.scaled|);
    var t :- CheckedAdd(q.annSum, pn);
    var numerator :- CheckedMul(t, d);
    var e :- CheckedMul(d, q.annSubOne);
    var f :- CheckedAdd(p, pn);
    var denominator :- CheckedAdd(e, f);
    CheckedDiv(numerator, denominator)
  }

  function DRounds(q: DParams, d: nat, rounds: nat): Option<nat>
    decreases rounds, d
  {
    if rounds == 0 then Some(d) else
      var d' :- DStep(q, d);
      if Near(d', d) then Some(d') else DRounds(q, d', rounds - 1)
  }

  // ----- get_y and get_y_d -----

  function YView(balances: seq<nat>, i: nat, j: nat, x: nat): View {
    seq(|balances|, k requires 0 <= k < |balances| =>
      if k == i then Some(x) else if k != j then Some(balances[k]) else None)
  }

  function YDView(amounts: seq<nat>, i: nat): View {
    seq(|amounts|, k requires 0 <= k < |amounts| => if k != i then Some(amounts[k]) else None)
  }

  function CSFrom(view: View, d: nat, c: nat, s: nat, k: nat): Option<(nat, nat)>
    requires k <= |view|
    decreases |view| - k
  {
    if k == |view| then Some((c, s)) else
      match view[k]
      case None => CSFrom(view, d, c, s, k + 1)
      case Some(x) =>
        var s' :- CheckedAdd(s, x);
        var cd :- CheckedMul(c, d);
        var xn :- CheckedMul(x, |view|);
        var c' :- CheckedDiv(cd, xn);
        CSFrom(view, d, c', s', k + 1)
  }

  function YStep(b: nat, c: nat, d: nat, y: nat): Option<nat> {
    var yy :- CheckedMul(y, y);
    var numerator :- CheckedAdd(yy, c);
    var y2 :- CheckedMul(y, 2);
    var y2b :- CheckedAdd(y2, b);
    var denominator :- CheckedSub(y2b, d);
    CheckedDiv(numerator, denominator)
  }

  function YRounds(b: nat, c: nat, d: nat, y: nat, rounds: nat): Option<nat>
    decreases rounds, d
  {
    if rounds == 0 then Some(y) else
      var y' :- YStep(b, c, d, y);
      if Near(y', y) then Some(y') else YRounds(b, c, d, y', rounds - 1)
  }

  datatype Curve = Curve(amp: nat, feeNumerator: nat) {

    // ----- what the operations compute -----

    function DSetup(amounts: seq<nat>): Option<DParams> {
      var s :- CheckedSum(amounts);
      var scaled :- Scaled(amounts);
      var ann :- CheckedMul64(amp, |amounts|);
      var annSum :- CheckedMul(ann, s);
      var annSubOne :- CheckedSub(ann, 1);
      Some(DParams(scaled, annSum, annSubOne))
    }

    function D(amounts: seq<nat>, suggest: Option<nat>): Option<nat> {
      var s :- CheckedSum(amounts);
      if s == 0 then Some(0) else
        var q :- DSetup(amounts);
        DRounds(q, suggest.GetOr(s), ITERATIONS)
    }

    /** The coefficients b and c of the quadratic y*y + (b - d)*y == c. */
    function BC(view: View, d: nat): Option<(nat, nat)> {
      var ann :- CheckedMul64(amp, |view|);
      var cs :- CSFrom(view, d, d, 0, 0);
      var cd :- CheckedMul(cs.0, d);
      var annN :- CheckedMul64(ann, |view|);
      var c :- CheckedDiv(cd, annN);
      var share :- CheckedDiv(d, ann);
      var b :- CheckedAdd(cs.1, share);
      Some((b, c))
    }

    function Solve(view: View, d: nat): Option<nat> {
      var bc :- BC(view, d);
      YRounds(bc.0, bc.1, d, d, ITERATIONS)
    }

    function Y(i: nat, j: nat, x: nat, balances: seq<nat>): Option<nat> {
      var d :- D(balances, None);
      Solve(YView(balances, i, j, x), d)
    }

    function LessFee(dy: nat): Option<nat> {
      var m :- CheckedMul(dy, feeNumerator);
      CheckedSub(dy, m / FEE_DENOMINATOR)
    }

    function ExchangeOut(i: nat, j: nat, inAmount: nat, balances: seq<nat>): Option<nat>
      requires i < |balances| && j < |balances|
    {
      var x :- CheckedAdd(balances[i], inAmount);
      var y :- Y(i, j, x, balances);
      var gap :- CheckedSub(balances[j], y);
      var dy :- CheckedSub(gap, 1);
      LessFee(dy)
    }

    /** The imbalance fee rate shared by deposits and single-coin withdrawals. */
    function ImbalanceFee(n: nat): Option<nat> {
      var m :- CheckedMul64(feeNumerator, n);
      var others :- CheckedSub(n, 1);
      CheckedDiv(m / 4, others)
    }

    function FeeOn(fee: nat, amount: nat): Option<nat> {
      var m :- CheckedMul(fee, amount);
      Some(m / FEE_DENOMINATOR)
    }

    function DepositReduced(oldBalance: nat, newBalance: nat, d0: nat, d1: nat, fee: nat): Option<nat> {
      var m :- CheckedMul(d1, oldBalance);
      var ideal :- CheckedDiv(m, d0);
      var difference := if ideal < newBalance then newBalance - ideal else ideal - newBalance;
      var feeForToken :- FeeOn(fee, difference);
      CheckedSub(newBalance, feeForToken)
    }

    function DepositReducedFrom(olds: seq<nat>, news: seq<nat>, d0: nat, d1: nat, fee: nat, acc: seq<nat>): Option<seq<nat>>
      requires |acc| <= |olds| == |news|
      decreases |olds| - |acc|
    {
      if |acc| == |olds| then Some(acc) else
        var reduced :- DepositReduced(olds[|acc|], news[|acc|], d0, d1, fee);
        DepositReducedFrom(olds, news, d0, d1, fee, acc + [reduced])
    }

    function MintAmount(olds: seq<nat>, news: seq<nat>, lp: nat): Option<nat>
      requires |olds| == |news|
    {
      var d0 :- D(olds, None);
      var d1 :- D(news, None);
      if d1 <= d0 then None
      else if lp == 0 then ToU64(d1)
      else
        var fee :- ImbalanceFee(|olds|);
        var reduced :- DepositReducedFrom(olds, news, d0, d1, fee, []);
        MintOf(reduced, Sum(news), lp, d0, d1)
    }

    /** The mint for the fee-reduced balances, their invariant computed from a warm start. */
    function MintOf(reduced: seq<nat>, newSum: nat, lp: nat, d0: nat, d1: nat): Option<nat> {
      var feeSum :- CheckedSum(reduced);
      var m :- CheckedMul(feeSum, d1);
      var suggest :- CheckedDiv(m, newSum);
      var d2 :- D(reduced, Some(suggest));
      var diff :- CheckedSub(d2, d0);
      var minted :- CheckedMul(lp, diff);
      var mint :- CheckedDiv(minted, d0);
      ToU64(mint)
    }

    function ExpectedChange(balance: nat, solved: bool, d0: nat, d1: nat, newY: nat): Option<nat> {
      var m :- CheckedMul(balance, d1);
      var ideal :- CheckedDiv(m, d0);
      if solved then CheckedSub(ideal, newY) else CheckedSub(balance, ideal)
    }

    function SingleReducedFrom(olds: seq<nat>, i: nat, d0: nat, d1: nat, newY: nat, fee: nat, acc: seq<nat>): (r: Option<seq<nat>>)
      requires |acc| <= |olds|
      ensures r.Some? ==> |r.value| == |olds|
      decreases |olds| - |acc|
    {
      if |acc| == |olds| then Some(acc) else
        var dx :- ExpectedChange(olds[|acc|], |acc| == i, d0, d1, newY);
        var feeForToken :- FeeOn(fee, dx);
        var reduced :- CheckedSub(olds[|acc|], feeForToken);
        SingleReducedFrom(olds, i, d0, d1, newY, fee, acc + [reduced])
    }

    /** The invariant left to aim for when `unmint` of `lp` shares are burned. */
    function DAfterBurn(d0: nat, unmint: nat, lp: nat): Option<nat> {
      var m :- CheckedMul(unmint, d0);
      var burned :- CheckedDiv(m, lp);
      CheckedSub(d0, burned)
    }

    function SinglePayout(olds: seq<nat>, unmint: nat, i: nat, lp: nat): Option<nat>
      requires i < |olds|
    {
      var d0 :- D(olds, None);
      var d1 :- DAfterBurn(d0, unmint, lp);
      var newY :- Solve(YDView(olds, i), d1);
      var fee :- ImbalanceFee(|olds|);
      var reduced :- SingleReducedFrom(olds, i, d0, d1, newY, fee, []);
      var y :- Solve(YDView(reduced, i), d1);
      var dy :- CheckedSub(reduced[i], y);
      var out :- CheckedSub(dy, 1);
      ToU64(out)
    }

    static function BalancedFrom(olds: seq<nat>, unmint: nat, lp: nat, acc: seq<nat>): Option<seq<nat>>
      requires |acc| <= |olds|
      decreases |olds| - |acc|
    {
      if |acc| == |olds| then Some(acc) else
        var m :- CheckedMul(olds[|acc|], unmint);
        var amount :- CheckedDiv(m, lp);
        BalancedFrom(olds, unmint, lp, acc + [amount])
    }

    // ----- the operations -----

    method GetD(amounts: seq<nat>, suggest: Option<nat>) returns (r: Option<nat>)
      ensures r == D(amounts, suggest)
    {
      var nCoins := |amounts|;
      var sumX :- CheckedSum(amounts);
      if sumX == 0 {
        return Some(0);
      }
      var scaled :- Scaled(amounts);
      var ann :- CheckedMul64(amp, nCoins);
      var annSum :- CheckedMul(ann, sumX);
      var annSubOne :- CheckedSub(ann, 1);
      ghost var q := DParams(scaled, annSum, annSubOne);
      var d := suggest.GetOr(sumX);
      var round := 0;
      while round < ITERATIONS
        invariant round <= ITERATIONS
        invariant D(amounts, suggest) == DRounds(q, d, ITERATIONS - round)
      {
        var dProd := d;
        var k := 0;
        while k < nCoins
          invariant k <= nCoins
          invariant ProdFrom(scaled, d, d, 0) == ProdFrom(scaled, d, dProd, k)
        {
          var grown :- CheckedMul(dProd, d);
          dProd :- CheckedDiv(grown, scaled[k]);
          k := k + 1;
        }
        var dPrev := d;
        var dProdN :- CheckedMul(dProd, nCoins);
        var t :- CheckedAdd(annSum, dProdN);
        var numerator :- CheckedMul(t, d);
        var e :- CheckedMul(d, annSubOne);
        var f :- CheckedAdd(dProd, dProdN);
        var denominator :- CheckedAdd(e, f);
        d :- CheckedDiv(numerator, denominator);
        if d > dPrev {
          if d - dPrev <= 1 { break; }
        } else if dPrev - d <= 1 {
          break;
        }
        round := round + 1;
      }
      return Some(d);
    }

    method YLoop(b: nat, c: nat, d: nat) returns (r: Option<nat>)
      ensures r == YRounds(b, c, d, d, ITERATIONS)
    {
      var y := d;
      var round := 0;
      while round < ITERATIONS
        invariant round <= ITERATIONS
        invariant YRounds(b, c, d, d, ITERATIONS) == YRounds(b, c, d, y, ITERATIONS - round)
      {
        var yPrev := y;
        var yy :- CheckedMul(y, y);
        var numerator :- CheckedAdd(yy, c);
        var y2 :- CheckedMul(y, 2);
        var y2b :- CheckedAdd(y2, b);
        var denominator :- CheckedSub(y2b, d);
        y :- CheckedDiv(numerator, denominator);
        if y > yPrev {
          if y - yPrev <= 1 { break; }
        } else if yPrev - y <= 1 {
          break;
        }
        round := round + 1;
      }
      return Some(y);
    }

    method GetYD(i: nat, amounts: seq<nat>, d: nat) returns (r: Option<nat>)
      ensures r == Solve(YDView(amounts, i), d)
    {
      var nCoins := |amounts|;
      ghost var view := YDView(amounts, i);
      var ann :- CheckedMul64(amp, nCoins);
      var c, s, k := d, 0, 0;
      while k < nCoins
        invariant k <= nCoins
        invariant CSFrom(view, d, d, 0, 0) == CSFrom(view, d, c, s, k)
      {
        if k != i {
          var x := amounts[k];
          s :- CheckedAdd(s, x);
          var cd :- CheckedMul(c, d);
          var xn :- CheckedMul(x, nCoins);
          c :- CheckedDiv(cd, xn);
        }
        k := k + 1;
      }
      var cd :- CheckedMul(c, d);
      var annN :- CheckedMul64(ann, nCoins);
      c :- CheckedDiv(cd, annN);
      var share :- CheckedDiv(d, ann);
      var b :- CheckedAdd(s, share);
      r := YLoop(b, c, d);
    }

    method GetY(i: nat, j: nat, x: nat, balances: seq<nat>) returns (r: Option<nat>)
      ensures r == Y(i, j, x, balances)
    {
      var nCoins := |balances|;
      var d :- GetD(balances, None);
      ghost var view := YView(balances, i, j, x);
      var ann :- CheckedMul64(amp, nCoins);
      var c, s, k := d, 0, 0;
      while k < nCoins
        invariant k <= nCoins
        invariant CSFrom(view, d, d, 0, 0) == CSFrom(view, d, c, s, k)
      {
        if k == i || k != j {
          var xTemp := if k == i then x else balances[k];
          s :- CheckedAdd(s, xTemp);
          var cd :- CheckedMul(c, d);
          var xn :- CheckedMul(xTemp, nCoins);
          c :- CheckedDiv(cd, xn);
        }
        k := k + 1;
      }
      var cd :- CheckedMul(c, d);
      var annN :- CheckedMul64(ann, nCoins);
      c :- CheckedDiv(cd, annN);
      var share :- CheckedDiv(d, ann);
      var b :- CheckedAdd(s, share);
      r := YLoop(b, c, d);
    }

    method Exchange(i: nat, j: nat, inAmount: nat, balances: seq<nat>) returns (r: Option<nat>)
      requires i < |balances| && j < |balances|
      ensures r == ExchangeOut(i, j, inAmount, balances)
    {
      var x :- CheckedAdd(balances[i], inAmount);
      var y :- GetY(i, j, x, balances);
      var dy :- CheckedSub(balances[j], y);
      dy :- CheckedSub(dy, 1);
      var dyFee :- CheckedMul(dy, feeNumerator);
      dyFee := dyFee / FEE_DENOMINATOR;
      dy :- CheckedSub(dy, dyFee);
      return Some(dy);
    }

    /** The loop of `deposit` that charges every coin for its distance from the ideal balance. */
    method DeductFees(oldBalances: seq<nat>, newBalances: seq<nat>, d0: nat, d1: nat, fee: nat) returns (r: Option<seq<nat>>)
      requires |oldBalances| == |newBalances|
      ensures r == DepositReducedFrom(oldBalances, newBalances, d0, d1, fee, [])
    {
      var reduced: seq<nat>, i := [], 0;
      while i < |oldBalances|
        invariant i == |reduced| <= |oldBalances|
        invariant DepositReducedFrom(oldBalances, newBalances, d0, d1, fee, [])
               == DepositReducedFrom(oldBalances, newBalances, d0, d1, fee, reduced)
      {
        var m :- CheckedMul(d1, oldBalances[i]);
        var ideal :- CheckedDiv(m, d0);
        var difference;
        if ideal < newBalances[i] {
          difference := newBalances[i] - ideal;
        } else {
          difference := ideal - newBalances[i];
        }
        var feeForToken :- FeeOn(fee, difference);
        var left :- CheckedSub(newBalances[i], feeForToken);
        reduced := reduced + [left];
        i := i + 1;
      }
      return Some(reduced);
    }

    method Deposit(oldBalances: seq<nat>, newBalances: seq<nat>, lpTotal: nat) returns (r: Option<nat>)
      requires |oldBalances| == |newBalances|
      ensures r == MintAmount(oldBalances, newBalances, lpTotal)
    {
      var nCoins := |oldBalances|;
      var d0 :- GetD(oldBalances, None);
      var d1 :- GetD(newBalances, None);
      if d1 <= d0 {
        return None;
      }
      if lpTotal == 0 {
        return ToU64(d1);
      }
      var fee :- ImbalanceFee(nCoins);
      var reduced :- DeductFees(oldBalances, newBalances, d0, d1, fee);
      var newSum := Sum(newBalances);
      var feeSum :- CheckedSum(reduced);
      var m :- CheckedMul(feeSum, d1);
      var suggest :- CheckedDiv(m, newSum);
      var d2 :- GetD(reduced, Some(suggest));
      var diff :- CheckedSub(d2, d0);
      var minted :- CheckedMul(lpTotal, diff);
      var mint :- CheckedDiv(minted, d0);
      return ToU64(mint);
    }

    static method RemoveBalancedLiquidity(oldBalances: seq<nat>, unmint: nat, lpTotal: nat) returns (r: Option<seq<nat>>)
      ensures r == BalancedFrom(oldBalances, unmint, lpTotal, [])
    {
      var amounts: seq<nat>, i := [], 0;
      while i < |oldBalances|
        invariant i == |amounts| <= |oldBalances|
        invariant BalancedFrom(oldBalances, unmint, lpTotal, []) == BalancedFrom(oldBalances, unmint, lpTotal, amounts)
      {
        var m :- CheckedMul(oldBalances[i], unmint);
        var amount :- CheckedDiv(m, lpTotal);
        amounts := amounts + [amount];
        i := i + 1;
      }
      return Some(amounts);
    }

    method RemoveLiquiditySingleToken(oldBalances: seq<nat>, unmint: nat, i: nat, lpTotal: nat) returns (r: Option<nat>)
      requires i < |oldBalances|
      ensures r == SinglePayout(oldBalances, unmint, i, lpTotal)
    {
      var nCoins := |oldBalances|;
      var d0 :- GetD(oldBalances, None);
      var m :- CheckedMul(unmint, d0);
      var burned :- CheckedDiv(m, lpTotal);
      var d1 :- CheckedSub(d0, burned);
      var newY :- GetYD(i, oldBalances, d1);
      var fee :- ImbalanceFee(nCoins);
      var reduced: seq<nat>, j := [], 0;
      while j < nCoins
        invariant j == |reduced| <= nCoins
        invariant SingleReducedFrom(oldBalances, i, d0, d1, newY, fee, [])
               == SingleReducedFrom(oldBalances, i, d0, d1, newY, fee, reduced)
      {
        var scaledBalance :- CheckedMul(oldBalances[j], d1);
        var ideal :- CheckedDiv(scaledBalance, d0);
        var dxExpected;
        if j == i {
          dxExpected :- CheckedSub(ideal, newY);
        } else {
          dxExpected :- CheckedSub(oldBalances[j], ideal);
        }
        var feeForToken :- FeeOn(fee, dxExpected);
        var left :- CheckedSub(oldBalances[j], feeForToken);
        reduced := reduced + [left];
        j := j + 1;
      }
      var y :- GetYD(i, reduced, d1);
      var dy :- CheckedSub(reduced[i], y);
      dy :- CheckedSub(dy, 1);
      return ToU64(dy);
    }
  }
}
