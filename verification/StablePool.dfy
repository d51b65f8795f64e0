/** The stable pool as a state machine over its messages
    (contracts/terraswap_stable/src/contract.rs). */
module StablePool {
  import opened Options
  import opened Checked
  import opened Arithmetic
  import opened FixedPoint
  import opened StableCurve
  import opened InvariantTheorems
  import opened SolverTheorems
  import opened CurveTheorems
  import opened CurveExactness

  datatype Pool = Pool(balances: seq<nat>, lp: nat)

  /** Coins are named by their position; a swap's position past the last coin is an asset outside the
      pool. `Transfer` is anyone sending tokens to the contract without calling it, `Burn` a
      holder burning shares at the token contract. */
  datatype Message =
    | Provide(deposits: seq<nat>, minOut: nat)
    | Withdraw(amount: nat)
    | WithdrawSingle(coin: nat, unmint: nat, minOut: nat)
    | Swap(offerCoin: nat, askCoin: nat, offer: nat, minOut: nat)
    | Transfer(coin: nat, amount: nat)
    | Burn(amount: nat)

  predicate AllFit(xs: seq<nat>) {
    forall k :: 0 <= k < |xs| ==> xs[k] <= U128_MAX
  }

  function Plus(xs: seq<nat>, ys: seq<nat>): (r: seq<nat>)
    requires |xs| == |ys|
    ensures |r| == |xs| && forall k :: 0 <= k < |xs| ==> r[k] == xs[k] + ys[k]
  {
    seq(|xs|, k requires 0 <= k < |xs| => xs[k] + ys[k])
  }

  function Left(balance: nat, amount: nat, lp: nat): (r: nat)
    requires 0 < lp && amount <= lp
    ensures r == balance - Refund(balance, amount, lp)
  {
    RefundKeepsShare(balance, amount, lp);
    balance - Refund(balance, amount, lp)
  }

  function AfterRefund(balances: seq<nat>, amount: nat, lp: nat): (r: seq<nat>)
    requires 0 < lp && amount <= lp
    ensures |r| == |balances|
    ensures forall k :: 0 <= k < |balances| ==> r[k] == Left(balances[k], amount, lp)
  {
    seq(|balances|, k requires 0 <= k < |balances| => Left(balances[k], amount, lp))
  }

  /** Where a swap takes its offer from: position 0 unless the offer is one of the coins. */
  function OfferAt(n: nat, offerCoin: nat): nat {
    if offerCoin < n then offerCoin else 0
  }

  /** The coin a swap pays out: position 0 unless the ask is one of the coins and not the offer. */
  function AskAt(n: nat, offerCoin: nat, askCoin: nat): nat {
    if askCoin < n && askCoin != offerCoin then askCoin else 0
  }

  /** What arrives at the pool; assets outside it do not count among its balances. */
  function Credited(balances: seq<nat>, coin: nat, amount: nat): (r: seq<nat>)
    ensures |r| == |balances|
    ensures forall k :: 0 <= k < |r| ==> r[k] == balances[k] + if k == coin then amount else 0
  {
    if coin < |balances| then balances[coin := balances[coin] + amount] else balances
  }

  function Paid(balances: seq<nat>, coin: nat, amount: nat): (r: seq<nat>)
    requires coin < |balances| && amount <= balances[coin]
    ensures |r| == |balances|
    ensures forall k :: 0 <= k < |r| ==> r[k] == balances[k] - if k == coin then amount else 0
  {
    balances[coin := balances[coin] - amount]
  }

  /** The state after a message, or None when the transaction aborts. Amounts pass through the
      source's `as u64` casts. */
  function Apply(curve: Curve, s: Pool, m: Message): Option<Pool> {
    var n := |s.balances|;
    match m
    case Provide(deposits, minOut) =>
      if |deposits| != n || !AllFit(Plus(s.balances, deposits)) then None else
        var mint :- curve.MintAmount(s.balances, Plus(s.balances, deposits), AsU64(s.lp));
        if mint < AsU64(minOut) || mint == 0 then None else
          var lp :- Fits(U128_MAX, s.lp + mint);
          Some(Pool(Plus(s.balances, deposits), lp))
    case Withdraw(amount) =>
      if s.lp == 0 || s.lp < amount then None
      else Some(Pool(AfterRefund(s.balances, amount, s.lp), s.lp - amount))
    case WithdrawSingle(coin, unmint, minOut) =>
      if n <= coin || s.lp < unmint then None else
        var out :- curve.SinglePayout(s.balances, AsU64(unmint), coin, AsU64(s.lp));
        if out <= AsU64(minOut) || s.balances[coin] < out then None
        else Some(Pool(s.balances[coin := s.balances[coin] - out], s.lp - unmint))
    case Swap(offerCoin, askCoin, offer, minOut) =>
      if n == 0 || (offerCoin < n && U128_MAX < s.balances[offerCoin] + offer) then None else
        var i, j := OfferAt(n, offerCoin), AskAt(n, offerCoin, askCoin);
        var out :- curve.ExchangeOut(i, j, AsU64(offer), s.balances);
        if out <= minOut then None else
          SwapStaysAbove(curve, s.balances, i, j, AsU64(offer), out);
          Some(Pool(Paid(Credited(s.balances, offerCoin, offer), j, out), s.lp))
    case Transfer(coin, amount) =>
      if n <= coin || U128_MAX < s.balances[coin] + amount then None
      else Some(s.(balances := Credited(s.balances, coin, amount)))
    case Burn(amount) =>
      if s.lp < amount then None else Some(s.(lp := s.lp - amount))
  }

  function Next(curve: Curve, s: Pool, m: Message): Pool {
    Apply(curve, s, m).GetOr(s)
  }

  function Run(curve: Curve, s: Pool, messages: seq<Message>): Pool
    decreases messages
  {
    if messages == [] then s else Run(curve, Next(curve, s, messages[0]), messages[1..])
  }

  // ----- what each message keeps -----

  /** Every successful swap: which coin moves by how much. */
  lemma SwapShape(curve: Curve, s: Pool, offerCoin: nat, askCoin: nat, offer: nat, minOut: nat, t: Pool)
    returns (i: nat, j: nat, out: nat)
    requires Apply(curve, s, Swap(offerCoin, askCoin, offer, minOut)) == Some(t)
    ensures i == OfferAt(|s.balances|, offerCoin) && j == AskAt(|s.balances|, offerCoin, askCoin)
    ensures i < |s.balances| == |t.balances| && j < |s.balances| && t.lp == s.lp
    ensures curve.ExchangeOut(i, j, AsU64(offer), s.balances) == Some(out) && minOut < out < s.balances[j]
    ensures forall k :: 0 <= k < |s.balances| ==>
      t.balances[k] == s.balances[k] + (if k == offerCoin then offer else 0) - (if k == j then out else 0)
  {
    i, j := OfferAt(|s.balances|, offerCoin), AskAt(|s.balances|, offerCoin, askCoin);
    out := curve.ExchangeOut(i, j, AsU64(offer), s.balances).value;
    SwapStaysAbove(curve, s.balances, i, j, AsU64(offer), out);
  }

  /** The guard a caller can read: the offer is one of the coins, and what is paid out is another. */
  predicate Exchanges(n: nat, offerCoin: nat, askCoin: nat) {
    offerCoin < n && AskAt(n, offerCoin, askCoin) != offerCoin
  }

  /** After every successful swap between two coins, casts and assets the pool does not know
      included, the pool lies strictly above the curve of the invariant it had before. */
  lemma SwapMessageStaysAbove(curve: Curve, s: Pool, offerCoin: nat, askCoin: nat, offer: nat, minOut: nat, t: Pool)
    requires Apply(curve, s, Swap(offerCoin, askCoin, offer, minOut)) == Some(t)
    requires Exchanges(|s.balances|, offerCoin, askCoin)
    ensures var j := AskAt(|s.balances|, offerCoin, askCoin);
            && |t.balances| == |s.balances| && j < |s.balances| && t.lp == s.lp
            && curve.D(s.balances, None).Some?
            && AboveCurve(curve, YDView(t.balances, j), curve.D(s.balances, None).value, t.balances[j])
            && 0 < t.balances[j] < s.balances[j] && t.balances[offerCoin] == s.balances[offerCoin] + offer
            && forall k :: 0 <= k < |s.balances| && k != offerCoin && k != j ==> t.balances[k] == s.balances[k]
  {
    var i, j, out := SwapShape(curve, s, offerCoin, askCoin, offer, minOut, t);
    SwapStaysAbove(curve, s.balances, i, j, AsU64(offer), out);
    var after := AfterSwap(s.balances, i, j, AsU64(offer), out);
    AboveCurveMono(curve, YDView(t.balances, j), YDView(after, j),
                   curve.D(s.balances, None).value, t.balances[j], t.balances[j]);
  }

  // ----- swaps the guard excludes -----

  /** An offer from outside the pool is never credited, yet it is paid: exactly one balance falls, and
      nothing else changes. */
  lemma OutsideOfferOnlyTakes(curve: Curve, s: Pool, offerCoin: nat, askCoin: nat, offer: nat, minOut: nat, t: Pool)
    returns (j: nat, out: nat)
    requires Apply(curve, s, Swap(offerCoin, askCoin, offer, minOut)) == Some(t) && |s.balances| <= offerCoin
    ensures j == AskAt(|s.balances|, offerCoin, askCoin) < |s.balances|
    ensures minOut < out < s.balances[j] && t == s.(balances := s.balances[j := s.balances[j] - out])
  {
    var i;
    i, j, out := SwapShape(curve, s, offerCoin, askCoin, offer, minOut, t);
  }

  /** The pool gives something and gets nothing. */
  ghost predicate PureLoss(s: Pool, t: Pool) {
    && t.lp == s.lp && |t.balances| == |s.balances|
    && (forall k :: 0 <= k < |s.balances| ==> t.balances[k] <= s.balances[k])
    && exists k :: 0 <= k < |s.balances| && t.balances[k] < s.balances[k]
  }

  /** What a swap must bring not to be a pure loss: something, of one of the coins, and at least its
      quote when the coin paid out is the coin offered. */
  predicate Brings(curve: Curve, s: Pool, offerCoin: nat, askCoin: nat, offer: nat) {
    var j := AskAt(|s.balances|, offerCoin, askCoin);
    && offerCoin < |s.balances|
    && if j != offerCoin then 0 < offer
       else curve.ExchangeOut(j, j, AsU64(offer), s.balances).GetOr(0) <= offer
  }

  lemma SwapIsPureLossExactly(curve: Curve, s: Pool, offerCoin: nat, askCoin: nat, offer: nat, minOut: nat, t: Pool)
    requires Apply(curve, s, Swap(offerCoin, askCoin, offer, minOut)) == Some(t)
    ensures PureLoss(s, t) <==> !Brings(curve, s, offerCoin, askCoin, offer)
  {
    var i, j, out := SwapShape(curve, s, offerCoin, askCoin, offer, minOut, t);
    if !Brings(curve, s, offerCoin, askCoin, offer) {
      assert t.balances[j] < s.balances[j];
    } else if j != offerCoin {
      assert s.balances[offerCoin] < t.balances[offerCoin];
    }
  }

  ghost predicate SolveSettles(curve: Curve, view: View, d: nat) {
    curve.BC(view, d).Some? && YSettles(curve.BC(view, d).value.0, curve.BC(view, d).value.1, d, d, ITERATIONS)
  }

  lemma AboveSolved(curve: Curve, view: View, d: nat, y: nat, z: nat)
    requires curve.Solve(view, d) == Some(y)
    ensures y < z ==> AboveCurve(curve, view, d, z)
    ensures SolveSettles(curve, view, d) && AboveCurve(curve, view, d, z) ==> y <= z
  {
    SolveIsCovered(curve, view, d, y);
    if y < z {
      AboveCurveMono(curve, view, view, d, y + 1, z);
    }
    if SolveSettles(curve, view, d) && AboveCurve(curve, view, d, z) && z < y {
      var (b, c) := curve.BC(view, d).value;
      CoefficientsAreFloors(curve, view, d, b, c);
      assert YRounds(b, c, d, d, ITERATIONS) == Some(y);
      SettledIsPinned(b, c, d, d, ITERATIONS, y);
      HeightGrows(b, c, d, z, y);
    }
  }

  /** What a swap leaves of the coin it pays out, by its quote. */
  function Kept(curve: Curve, s: Pool, offerCoin: nat, askCoin: nat, offer: nat): int
    requires 0 < |s.balances|
  {
    var n := |s.balances|;
    var i, j := OfferAt(n, offerCoin), AskAt(n, offerCoin, askCoin);
    s.balances[j] + (if j == offerCoin then offer else 0) - curve.ExchangeOut(i, j, AsU64(offer), s.balances).GetOr(0)
  }

  /** A swap outside the guard leaves the pool above its curve exactly when, by its quote, it keeps more of the
      coin it pays out than y, the balance `get_y_d` asks for beside the other coins, which do not
      change. At y itself the curve decides; the loop that finds y has to settle for "only if". */
  lemma UnguardedSwapDecided(curve: Curve, s: Pool, offerCoin: nat, askCoin: nat, offer: nat, minOut: nat, t: Pool, d: nat, y: nat)
    requires Apply(curve, s, Swap(offerCoin, askCoin, offer, minOut)) == Some(t)
    requires !Exchanges(|s.balances|, offerCoin, askCoin) && curve.D(s.balances, None) == Some(d)
    requires curve.Solve(YDView(s.balances, AskAt(|s.balances|, offerCoin, askCoin)), d) == Some(y)
    ensures var j := AskAt(|s.balances|, offerCoin, askCoin);
            && j < |s.balances| == |t.balances| && YDView(t.balances, j) == YDView(s.balances, j)
            && t.balances[j] == Kept(curve, s, offerCoin, askCoin, offer)
            && (y < Kept(curve, s, offerCoin, askCoin, offer) ==> AboveCurve(curve, YDView(t.balances, j), d, t.balances[j]))
            && (SolveSettles(curve, YDView(s.balances, j), d) ==>
                  (AboveCurve(curve, YDView(t.balances, j), d, t.balances[j]) <==>
                   y < Kept(curve, s, offerCoin, askCoin, offer)
                   || (y == Kept(curve, s, offerCoin, askCoin, offer) && AboveCurve(curve, YDView(s.balances, j), d, y))))
  {
    var i, j, out := SwapShape(curve, s, offerCoin, askCoin, offer, minOut, t);
    assert YDView(t.balances, j) == YDView(s.balances, j);
    AboveSolved(curve, YDView(s.balances, j), d, y, t.balances[j]);
  }

  lemma TensBalanced(curve: Curve)
    requires curve == Curve(1, 0)
    ensures curve.D([10, 10], None) == Some(20)
  {
    assert Sum([10, 10]) == 10 + Sum([10]) == 20;
    GetDBalanced(curve, [10, 10], 10);
  }

  lemma ThreeRounds(b: nat, c: nat, d: nat, y1: nat, y2: nat, y3: nat)
    requires YStep(b, c, d, d) == Some(y1) && YStep(b, c, d, y1) == Some(y2) && YStep(b, c, d, y2) == Some(y3)
    requires !Near(y1, d) && !Near(y2, y1) && Near(y3, y2)
    ensures YRounds(b, c, d, d, ITERATIONS) == Some(y3)
  {
    assert YRounds(b, c, d, d, ITERATIONS) == YRounds(b, c, d, y1, ITERATIONS - 1);
    assert YRounds(b, c, d, y1, ITERATIONS - 1) == YRounds(b, c, d, y2, ITERATIONS - 2);
  }

  lemma NoFee(curve: Curve, gross: nat)
    requires curve.feeNumerator == 0
    ensures curve.LessFee(gross) == Some(gross)
  {
  }

  lemma QuoteFrom(curve: Curve, i: nat, j: nat, offer: nat, balances: seq<nat>, d: nat, b: nat, c: nat, y: nat)
    requires i < |balances| && j < |balances| && curve.feeNumerator == 0
    requires balances[i] + offer <= U128_MAX && balances[j] <= U128_MAX
    requires curve.D(balances, None) == Some(d) && y < balances[j]
    requires curve.BC(YView(balances, i, j, balances[i] + offer), d) == Some((b, c))
    requires YRounds(b, c, d, d, ITERATIONS) == Some(y)
    ensures curve.ExchangeOut(i, j, offer, balances) == Some(balances[j] - y - 1)
  {
    var view := YView(balances, i, j, balances[i] + offer);
    assert curve.Solve(view, d) == Some(y);
    assert curve.Y(i, j, balances[i] + offer, balances) == Some(y);
    NoFee(curve, balances[j] - y - 1);
  }

  lemma CoefficientsOfTens(u: Option<nat>, v: Option<nat>, b: nat, c: nat)
    requires (u, v, b, c) == (Some(15), None, 25, 65) || (u, v, b, c) == (Some(11), Some(10), 31, 90)
    ensures Curve(1, 0).BC([u, v], 20) == Some((b, c))
  {
    var c0 := if v.None? then 13 else 18;
    assert CSFrom([u, v], 20, 20, 0, 0) == CSFrom([u, v], 20, c0, u.value, 1);
    assert CSFrom([u, v], 20, c0, u.value, 1) == CSFrom([u, v], 20, if v.None? then 13 else 18, u.value + v.GetOr(0), 2);
  }

  lemma OutsideQuote()
    ensures Curve(1, 0).ExchangeOut(0, 1, 5, [10, 10]) == Some(4)
  {
    TensBalanced(Curve(1, 0));
    assert YView([10, 10], 0, 1, 15) == [Some(15), None];
    CoefficientsOfTens(Some(15), None, 25, 65);
    ThreeRounds(25, 65, 20, 10, 6, 5);
    QuoteFrom(Curve(1, 0), 0, 1, 5, [10, 10], 20, 25, 65, 5);
  }

  lemma SelfQuote()
    ensures Curve(1, 0).ExchangeOut(0, 0, 1, [10, 10]) == Some(4)
  {
    TensBalanced(Curve(1, 0));
    assert YView([10, 10], 0, 0, 11) == [Some(11), Some(10)];
    CoefficientsOfTens(Some(11), Some(10), 31, 90);
    ThreeRounds(31, 90, 20, 9, 5, 5);
    QuoteFrom(Curve(1, 0), 0, 0, 1, [10, 10], 20, 31, 90, 5);
  }

  /** What the message makes of its quote. */
  lemma SwapFromQuote(curve: Curve, s: Pool, offerCoin: nat, askCoin: nat, offer: nat, minOut: nat, out: nat)
    requires offerCoin < |s.balances| ==> s.balances[offerCoin] + offer <= U128_MAX
    requires var i, j := OfferAt(|s.balances|, offerCoin), AskAt(|s.balances|, offerCoin, askCoin);
             0 < |s.balances| && curve.ExchangeOut(i, j, AsU64(offer), s.balances) == Some(out) && minOut < out <= s.balances[j]
    ensures var j := AskAt(|s.balances|, offerCoin, askCoin);
            Apply(curve, s, Swap(offerCoin, askCoin, offer, minOut))
              == Some(Pool(Paid(Credited(s.balances, offerCoin, offer), j, out), s.lp))
  {
  }

  lemma BelowCurveOfTwenty(z: nat, j: nat)
    requires j < 2 && z < 8
    ensures !AboveCurve(Curve(1, 0), YDView([10, 10], j), 20, z)
  {
    var view := YDView([10, 10], j);
    assert Others(view, 0) == 10 && CFloor(view, 20, 20, 0) == 20 by {
      assert Others(view, 1) == view[1].GetOr(0);
      assert CFloor(view, 20, 20, 1) == 20;
    }
    assert BCoefficient(2, view, 20) == 20 && CCoefficient(2, view, 20) == 100;
    MulLeBoth(z, 8, z, 8);
  }

  /** Five units of a foreign coin buy four of the pool's, and one unit of a coin four of itself; both
      leave the pool below its curve. */
  lemma UnguardedSwapsCanDrain()
    ensures var c, s := Curve(1, 0), Pool([10, 10], 20);
            && c.D(s.balances, None) == Some(20)
            && Apply(c, s, Swap(2, 1, 5, 0)) == Some(Pool([10, 6], 20))
            && !AboveCurve(c, YDView([10, 6], 1), 20, 6)
            && Apply(c, s, Swap(0, 0, 1, 0)) == Some(Pool([7, 10], 20))
            && !AboveCurve(c, YDView([7, 10], 0), 20, 7)
  {
    var c, s := Curve(1, 0), Pool([10, 10], 20);
    TensBalanced(c);
    OutsideQuote();
    SwapFromQuote(c, s, 2, 1, 5, 0, 4);
    assert Paid(Credited([10, 10], 2, 5), 1, 4) == [10, 6];
    SelfQuote();
    SwapFromQuote(c, s, 0, 0, 1, 0, 4);
    assert Paid(Credited([10, 10], 0, 1), 0, 4) == [7, 10];
    BelowCurveOfTwenty(6, 1);
    BelowCurveOfTwenty(7, 0);
    assert YDView([10, 6], 1) == YDView([10, 10], 1);
    assert YDView([7, 10], 0) == YDView([10, 10], 0);
  }

  /** Measured exactly: after a swap the exact invariant of the real balances lies below the computed
      one by no more than what the floors inside c lost, less one unit of c. */
  lemma SwapMessageExact(curve: Curve, s: Pool, offerCoin: nat, askCoin: nat, offer: nat, minOut: nat, t: Pool, d: nat)
    requires Apply(curve, s, Swap(offerCoin, askCoin, offer, minOut)) == Some(t) && curve.D(s.balances, None) == Some(d)
    requires Exchanges(|s.balances|, offerCoin, askCoin)
    ensures var j := AskAt(|s.balances|, offerCoin, askCoin);
            && j < |t.balances| && 0 < curve.amp * |t.balances|
            && var ann, view := curve.amp * |t.balances|, YDView(t.balances, j);
               Readable(view, 0) && InvariantGap(t.balances, ann, d) <= CLost(ann, view, d) - Scale(ann, view)
  {
    SwapMessageStaysAbove(curve, s, offerCoin, askCoin, offer, minOut, t);
    AboveCurveMeansExact(curve, t.balances, AskAt(|s.balances|, offerCoin, askCoin), d);
  }

  // ----- deposits and withdrawals -----

  lemma SingleShape(curve: Curve, s: Pool, coin: nat, unmint: nat, minOut: nat, t: Pool) returns (out: nat)
    requires Apply(curve, s, WithdrawSingle(coin, unmint, minOut)) == Some(t)
    ensures coin < |s.balances| && unmint <= s.lp && AsU64(minOut) < out <= s.balances[coin]
    ensures curve.SinglePayout(s.balances, AsU64(unmint), coin, AsU64(s.lp)) == Some(out)
    ensures t == Pool(s.balances[coin := s.balances[coin] - out], s.lp - unmint)
  {
    out := curve.SinglePayout(s.balances, AsU64(unmint), coin, AsU64(s.lp)).value;
  }

  lemma SinglePaid(curve: Curve, s: Pool, coin: nat, unmint: nat, minOut: nat, part: nat, whole: nat, out: nat)
    requires coin < |s.balances| && unmint <= s.lp && part == AsU64(unmint) && whole == AsU64(s.lp)
    requires curve.SinglePayout(s.balances, part, coin, whole) == Some(out) && AsU64(minOut) < out <= s.balances[coin]
    ensures Apply(curve, s, WithdrawSingle(coin, unmint, minOut))
         == Some(Pool(s.balances[coin := s.balances[coin] - out], s.lp - unmint))
  {
  }

  lemma SingleUnavailable(curve: Curve, s: Pool, coin: nat, unmint: nat, minOut: nat)
    requires |s.balances| <= coin || s.lp < unmint
    ensures Apply(curve, s, WithdrawSingle(coin, unmint, minOut)) == None
  {
  }

  lemma SingleRefused(curve: Curve, s: Pool, coin: nat, unmint: nat, minOut: nat, out: Option<nat>)
    requires coin < |s.balances| && unmint <= s.lp
    requires out == curve.SinglePayout(s.balances, AsU64(unmint), coin, AsU64(s.lp))
    requires out.None? || out.value <= AsU64(minOut) || s.balances[coin] < out.value
    ensures Apply(curve, s, WithdrawSingle(coin, unmint, minOut)) == None
  {
  }

  lemma SingleKeepsShare(curve: Curve, olds: seq<nat>, coin: nat, unmint: nat, lp: nat, out: nat, part: nat, whole: nat)
    returns (d0: nat, d1: nat)
    requires coin < |olds| && unmint <= lp && part <= unmint && whole <= lp
    requires curve.SinglePayout(olds, part, coin, whole) == Some(out)
    ensures out < olds[coin] && 0 < whole && curve.D(olds, None) == Some(d0)
    ensures AboveCurve(curve, YDView(olds[coin := olds[coin] - out], coin), d1, olds[coin] - out)
    ensures d0 * (lp - unmint) <= d1 * lp <==> part * d0 / whole <= unmint * d0 / lp
  {
    var newY, fee, reduced;
    d0, d1, newY, fee, reduced := SingleWithdrawalStaysAbove(curve, olds, part, coin, whole, out);
    BurnedPartDecides(d0, lp, unmint, part * d0 / whole);
  }

  /** A single-coin withdrawal takes from one coin only, leaves the pool strictly above the curve of
      d1, and d1 grants the remaining shares at least their part of the old invariant, exactly
      when the casts do not make the burned part of it larger; 64-bit supplies are safe. */
  lemma SingleMessageKeepsShare(curve: Curve, s: Pool, coin: nat, unmint: nat, minOut: nat, t: Pool)
    returns (d0: nat, d1: nat)
    requires Apply(curve, s, WithdrawSingle(coin, unmint, minOut)) == Some(t)
    ensures coin < |s.balances| && |t.balances| == |s.balances| && 0 < AsU64(s.lp)
    ensures curve.D(s.balances, None) == Some(d0)
    ensures d0 * t.lp <= d1 * s.lp <==> AsU64(unmint) * d0 / AsU64(s.lp) <= unmint * d0 / s.lp
    ensures s.lp <= U64_MAX ==> d0 * t.lp <= d1 * s.lp
    ensures AboveCurve(curve, YDView(t.balances, coin), d1, t.balances[coin])
    ensures 0 < t.balances[coin] < s.balances[coin] && t.lp == s.lp - unmint
    ensures forall k :: 0 <= k < |s.balances| && k != coin ==> t.balances[k] == s.balances[k]
  {
    var out := SingleShape(curve, s, coin, unmint, minOut, t);
    d0, d1 := SingleKeepsShare(curve, s.balances, coin, unmint, s.lp, out, AsU64(unmint), AsU64(s.lp));
  }

  lemma BurnedPartDecides(d0: nat, lp: nat, unmint: nat, burned: nat)
    requires unmint <= lp && 0 < lp && burned <= d0
    ensures d0 * (lp - unmint) <= (d0 - burned) * lp <==> burned <= unmint * d0 / lp
  {
    DivPinned(unmint * d0, lp);
    MulSub(d0, lp, unmint);
    MulSub(lp, d0, burned);
    if burned <= unmint * d0 / lp {
      MulLe(burned, unmint * d0 / lp, lp);
    } else {
      MulLe(unmint * d0 / lp + 1, burned, lp);
    }
  }

  lemma MintWithCast(lp: nat, cast: nat, mint: nat, d0: nat, d2: nat)
    requires cast <= lp && (cast + mint) * d0 <= cast * d2 && d0 <= d2
    ensures (lp + mint) * d0 <= lp * d2
  {
    assert (cast + mint) * d0 == cast * d0 + mint * d0;
    assert (lp + mint) * d0 == lp * d0 + mint * d0;
    MulLe(cast, lp, d2 - d0);
    assert (d2 - d0) * cast == cast * d2 - cast * d0;
    assert (d2 - d0) * lp == lp * d2 - lp * d0;
  }

  lemma ProvideShape(curve: Curve, s: Pool, deposits: seq<nat>, minOut: nat, t: Pool)
    requires Apply(curve, s, Provide(deposits, minOut)) == Some(t)
    ensures |deposits| == |s.balances| && t.balances == Plus(s.balances, deposits)
    ensures s.lp < t.lp && curve.MintAmount(s.balances, t.balances, AsU64(s.lp)) == Some(t.lp - s.lp)
  {
  }

  lemma FirstMintAlgebra(lp: nat, d0: nat, d1: nat)
    requires d0 <= d1
    ensures (lp + d1) * d0 <= lp * d1 <==> d0 * d1 <= lp * (d1 - d0)
  {
    MulSub(lp, d1, d0);
    assert (lp + d1) * d0 == lp * d0 + d1 * d0;
  }

  /** The curve takes a supply whose low 64 bits are zero for none and mints the whole invariant. */
  lemma ProvideAsFirst(curve: Curve, olds: seq<nat>, news: seq<nat>, lp: nat, mint: nat)
    returns (d0: nat)
    requires |olds| == |news| && curve.MintAmount(olds, news, 0) == Some(mint)
    ensures curve.D(olds, None) == Some(d0) && curve.D(news, None) == Some(mint) && d0 < mint
    ensures AllPositive(news) && AboveExact(curve, news, mint + 1)
    ensures (lp + mint) * d0 <= lp * mint <==> d0 * mint <= lp * (mint - d0)
  {
    FirstDepositMint(curve, olds, news, mint);
    d0 := curve.D(olds, None).value;
    FirstMintAlgebra(lp, d0, mint);
  }

  lemma MintIsCovered(curve: Curve, olds: seq<nat>, news: seq<nat>, lp: nat, cast: nat, mint: nat)
    returns (d0: nat, d2: nat, reduced: seq<nat>)
    requires |olds| == |news| && cast <= lp && curve.MintAmount(olds, news, cast) == Some(mint)
    ensures curve.D(olds, None) == Some(d0) && d0 <= d2
    ensures (lp + mint) * d0 <= lp * d2 <==> 0 < cast || d0 * d2 <= lp * (d2 - d0)
    ensures |reduced| == |news| && forall k :: 0 <= k < |reduced| ==> 0 < reduced[k] <= news[k]
    ensures AboveExact(curve, reduced, d2 + 1)
  {
    if cast == 0 {
      d0 := ProvideAsFirst(curve, olds, news, lp, mint);
      d2, reduced := mint, news;
    } else {
      var d1, fee;
      d0, d1, d2, fee, reduced := DepositMintIsCovered(curve, olds, news, cast, mint);
      MintWithCast(lp, cast, mint, d0, d2);
    }
  }

  /** What a deposit adds to the supply. Measured by the invariant d2 of balances no larger than the real
      ones, it does not dilute, exactly unless the low 64 bits of the supply are all zero and
      the invariant grew too little for the old supply to outweigh a second first mint. */
  lemma ProvideMessageIsCovered(curve: Curve, s: Pool, deposits: seq<nat>, minOut: nat, t: Pool)
    returns (d0: nat, d2: nat, reduced: seq<nat>)
    requires Apply(curve, s, Provide(deposits, minOut)) == Some(t)
    ensures curve.D(s.balances, None) == Some(d0) && d0 <= d2 && s.lp < t.lp
    ensures t.lp * d0 <= s.lp * d2 <==> 0 < AsU64(s.lp) || d0 * d2 <= s.lp * (d2 - d0)
    ensures |reduced| == |t.balances| && forall k :: 0 <= k < |reduced| ==> 0 < reduced[k] <= t.balances[k]
    ensures AboveExact(curve, reduced, d2 + 1)
  {
    ProvideShape(curve, s, deposits, minOut, t);
    d0, d2, reduced := MintIsCovered(curve, s.balances, t.balances, s.lp, AsU64(s.lp), t.lp - s.lp);
  }

  lemma BalancedTwo(x: nat)
    requires 0 < x <= 0x1_0000_0000_0000
    ensures Curve(1, 0).D([x, x], None) == Some(2 * x)
  {
    assert Sum([x, x]) == x + Sum([x]) == 2 * x;
    var s := 2 * x;
    MulLeBoth(4 * s, 0x8_0000_0000_0000, s, 0x2_0000_0000_0000);
    GetDBalanced(Curve(1, 0), [x, x], x);
  }

  lemma FirstMintOf(curve: Curve, s: Pool, deposits: seq<nat>, t: Pool, d0: nat, d1: nat)
    requires |deposits| == |s.balances| && t.balances == Plus(s.balances, deposits) && AllFit(t.balances)
    requires curve.D(s.balances, None) == Some(d0) && curve.D(t.balances, None) == Some(d1) && d0 < d1 <= U64_MAX
    requires AsU64(s.lp) == 0 && t.lp == s.lp + d1 <= U128_MAX
    ensures Apply(curve, s, Provide(deposits, 0)) == Some(t)
  {
    assert curve.MintAmount(s.balances, t.balances, 0) == Some(d1);
  }

  /** A supply of 2^64 hides behind its cast: one unit of each coin deposited into balances of 2^33 mints
      the whole invariant once more and dilutes the holders. */
  lemma CastDepositCanDilute() returns (c: Curve, s: Pool, m: Message, t: Pool)
    ensures c == Curve(1, 0) && s == Pool([0x2_0000_0000, 0x2_0000_0000], 0x1_0000_0000_0000_0000)
    ensures m == Provide([1, 1], 0) && Apply(c, s, m) == Some(t)
    ensures c.D(s.balances, None) == Some(0x4_0000_0000) && c.D(t.balances, None) == Some(0x4_0000_0002)
    ensures s.lp * 0x4_0000_0002 < t.lp * 0x4_0000_0000
  {
    var x := 0x2_0000_0000;
    c, s := Curve(1, 0), Pool([x, x], 0x1_0000_0000_0000_0000);
    m, t := Provide([1, 1], 0), Pool([x + 1, x + 1], s.lp + 2 * x + 2);
    BalancedTwo(x);
    BalancedTwo(x + 1);
    FirstMintOf(c, s, m.deposits, t, 2 * x, 2 * x + 2);
  }

  lemma SolveOfTens()
    ensures Curve(1, 0).Solve(YDView([10, 10], 0), 10) == Some(1)
  {
    var view := [None, Some(10)];
    assert YDView([10, 10], 0) == view;
    assert CSFrom(view, 10, 10, 0, 0) == CSFrom(view, 10, 10, 0, 1) == CSFrom(view, 10, 5, 10, 2);
    assert Curve(1, 0).BC(view, 10) == Some((15, 12));
    ThreeRounds(15, 12, 10, 4, 2, 1);
  }

  lemma TensReduced(curve: Curve)
    requires curve == Curve(1, 0)
    ensures curve.SingleReducedFrom([10, 10], 0, 20, 10, 1, 0, []) == Some([10, 10])
  {
    var olds := [10, 10];
    assert [] + [10] == [10] && [10] + [10] == olds;
    assert curve.SingleReducedFrom(olds, 0, 20, 10, 1, 0, olds) == Some(olds);
    assert curve.ExpectedChange(10, false, 20, 10, 1) == Some(5);
    assert curve.SingleReducedFrom(olds, 0, 20, 10, 1, 0, [10]) == Some(olds);
    assert curve.ExpectedChange(10, true, 20, 10, 1) == Some(4);
  }

  lemma PayoutFrom(curve: Curve, olds: seq<nat>, unmint: nat, i: nat, lp: nat, d0: nat, d1: nat, fee: nat, newY: nat, y: nat)
    requires i < |olds| && y + 1 < olds[i] <= U64_MAX
    requires curve.D(olds, None) == Some(d0) && curve.DAfterBurn(d0, unmint, lp) == Some(d1)
    requires curve.Solve(YDView(olds, i), d1) == Some(newY) == Some(y) && curve.ImbalanceFee(|olds|) == Some(fee)
    requires curve.SingleReducedFrom(olds, i, d0, d1, newY, fee, []) == Some(olds)
    ensures curve.SinglePayout(olds, unmint, i, lp) == Some(olds[i] - y - 1)
  {
  }

  lemma HalfBurnPays(curve: Curve, balances: seq<nat>, unmint: nat, lp: nat)
    requires curve == Curve(1, 0) && balances == [10, 10] && unmint == 50 && lp == 100
    ensures curve.D(balances, None) == Some(20) && curve.DAfterBurn(20, unmint, lp) == Some(10)
    ensures curve.SinglePayout(balances, unmint, 0, lp) == Some(8)
  {
    assert curve.DAfterBurn(20, unmint, lp) == Some(10) && curve.ImbalanceFee(2) == Some(0);
    TensBalanced(curve);
    SolveOfTens();
    TensReduced(curve);
    PayoutFrom(curve, balances, unmint, 0, lp, 20, 10, 0, 1, 1);
  }

  /** Behind the same cast 50 of 2^64 + 100 shares count as half of the supply: they buy 8 of 10 coins,
      and the invariant left falls short of the remaining shares' part. */
  lemma CastBurnCanDilute() returns (c: Curve, s: Pool, m: Message, t: Pool, d1: nat)
    ensures c == Curve(1, 0) && s == Pool([10, 10], 0x1_0000_0000_0000_0064) && m == WithdrawSingle(0, 50, 0)
    ensures d1 * s.lp < 20 * t.lp && t == Pool([2, 10], s.lp - 50)
    ensures c.D(s.balances, None) == Some(20) && c.DAfterBurn(20, AsU64(m.unmint), AsU64(s.lp)) == Some(d1)
    ensures Apply(c, s, m) == Some(t)
  {
    c, s, m, d1 := Curve(1, 0), Pool([10, 10], 0x1_0000_0000_0000_0064), WithdrawSingle(0, 50, 0), 10;
    t := Pool([2, 10], s.lp - 50);
    assert d1 * s.lp < 20 * t.lp;
    var burned, supply := AsU64(m.unmint), AsU64(s.lp);
    HalfBurnPays(c, s.balances, burned, supply);
    SinglePaid(c, s, 0, m.unmint, 0, burned, supply, 8);
    assert t == Pool(s.balances[0 := s.balances[0] - 8], s.lp - m.unmint);
  }

  /** Pro-rata withdrawals leave every coin's balance per share at least as high. */
  lemma WithdrawMessageKeepsShares(curve: Curve, s: Pool, amount: nat, t: Pool)
    requires Apply(curve, s, Withdraw(amount)) == Some(t)
    ensures |t.balances| == |s.balances| && t.lp == s.lp - amount
    ensures forall k :: 0 <= k < |s.balances| ==> s.balances[k] * t.lp <= t.balances[k] * s.lp
    ensures t.lp > 0 ==> forall k :: 0 <= k < |s.balances| && 0 < s.balances[k] ==> 0 < t.balances[k]
  {
    forall k | 0 <= k < |s.balances|
      ensures s.balances[k] * t.lp <= t.balances[k] * s.lp
      ensures t.lp > 0 && 0 < s.balances[k] ==> 0 < t.balances[k]
    {
      RefundKeepsShare(s.balances[k], amount, s.lp);
      if t.lp > 0 && 0 < s.balances[k] {
        RefundLeavesSome(s.balances[k], amount, s.lp);
      }
    }
  }

  // ----- safety over all runs -----

  /** While shares exist, no coin has run dry. */
  predicate Funded(s: Pool) {
    0 < s.lp ==> AllPositive(s.balances)
  }

  lemma ProvideNeedsEveryCoin(curve: Curve, s: Pool, deposits: seq<nat>, minOut: nat, t: Pool)
    requires Apply(curve, s, Provide(deposits, minOut)) == Some(t)
    ensures AllPositive(t.balances)
  {
    ProvideShape(curve, s, deposits, minOut, t);
    var d1 := curve.D(t.balances, None).value;
    GetDAboveExact(curve, t.balances, None, d1);
  }

  lemma SingleLeavesSome(curve: Curve, s: Pool, coin: nat, unmint: nat, minOut: nat, t: Pool)
    requires Apply(curve, s, WithdrawSingle(coin, unmint, minOut)) == Some(t) && AllPositive(s.balances)
    ensures AllPositive(t.balances)
  {
    var d0, d1 := SingleMessageKeepsShare(curve, s, coin, unmint, minOut, t);
  }

  lemma StepKeepsFunded(curve: Curve, s: Pool, m: Message, t: Pool)
    requires Apply(curve, s, m) == Some(t) && Funded(s)
    ensures Funded(t) && |t.balances| == |s.balances|
  {
    match m
    case Provide(deposits, minOut) => ProvideNeedsEveryCoin(curve, s, deposits, minOut, t);
    case Withdraw(amount) => WithdrawMessageKeepsShares(curve, s, amount, t);
    case WithdrawSingle(coin, unmint, minOut) =>
      if 0 < s.lp {
        SingleLeavesSome(curve, s, coin, unmint, minOut, t);
      }
    case Swap(offerCoin, askCoin, offer, minOut) =>
      var i, j, out := SwapShape(curve, s, offerCoin, askCoin, offer, minOut, t);
    case Transfer(coin, amount) =>
    case Burn(amount) =>
  }

  /** In every state any run reaches, from an empty pool or any funded one, outstanding shares mean
      that every coin balance is positive. */
  lemma {:induction false} RunKeepsFunded(curve: Curve, s: Pool, messages: seq<Message>)
    requires Funded(s)
    ensures Funded(Run(curve, s, messages)) && |Run(curve, s, messages).balances| == |s.balances|
    decreases messages
  {
    if messages != [] {
      var t := Next(curve, s, messages[0]);
      if Apply(curve, s, messages[0]).Some? {
        StepKeepsFunded(curve, s, messages[0], t);
      }
      RunKeepsFunded(curve, t, messages[1..]);
    }
  }

  // ----- the computed invariant over runs of swaps -----

  predicate IsExchange(n: nat, m: Message) {
    m.Swap? && Exchanges(n, m.offerCoin, m.askCoin)
  }

  /** What a swap may take off the computed invariant: the loss of c's floors, nothing when they lost less
      than one unit. */
  ghost function SwapLoss(curve: Curve, s: Pool, m: Message): nat
    requires IsExchange(|s.balances|, m)
  {
    match Apply(curve, s, m)
    case None => 0
    case Some(t) =>
      SwapMessageStaysAbove(curve, s, m.offerCoin, m.askCoin, m.offer, m.minOut, t);
      DLoss(curve.amp * |s.balances|, t.balances, AskAt(|s.balances|, m.offerCoin, m.askCoin), curve.D(s.balances, None).value)
  }

  lemma SwapKeepsD(curve: Curve, s: Pool, m: Message, t: Pool, d: nat, d': nat)
    requires IsExchange(|s.balances|, m) && Apply(curve, s, m) == Some(t)
    requires curve.D(s.balances, None) == Some(d) && curve.D(t.balances, None) == Some(d')
    ensures d <= d' + SwapLoss(curve, s, m)
  {
    SwapMessageStaysAbove(curve, s, m.offerCoin, m.askCoin, m.offer, m.minOut, t);
    AboveCurveKeepsD(curve, t.balances, AskAt(|s.balances|, m.offerCoin, m.askCoin), d, d');
  }

  predicate AllExchange(n: nat, messages: seq<Message>) {
    forall k :: 0 <= k < |messages| ==> IsExchange(n, messages[k])
  }

  lemma NextKeepsCoins(curve: Curve, s: Pool, m: Message)
    requires IsExchange(|s.balances|, m)
    ensures |Next(curve, s, m).balances| == |s.balances| && Next(curve, s, m).lp == s.lp
  {
    if Apply(curve, s, m).Some? {
      SwapMessageStaysAbove(curve, s, m.offerCoin, m.askCoin, m.offer, m.minOut, Next(curve, s, m));
    }
  }

  ghost function RunLoss(curve: Curve, s: Pool, messages: seq<Message>): nat
    requires AllExchange(|s.balances|, messages)
    decreases messages
  {
    if messages == [] then 0 else
      NextKeepsCoins(curve, s, messages[0]);
      SwapLoss(curve, s, messages[0]) + RunLoss(curve, Next(curve, s, messages[0]), messages[1..])
  }

  /** Without a computed invariant no swap succeeds. */
  lemma {:induction false} StuckRun(curve: Curve, s: Pool, messages: seq<Message>)
    requires AllExchange(|s.balances|, messages) && curve.D(s.balances, None) == None
    ensures Run(curve, s, messages) == s
    decreases messages
  {
    if messages != [] {
      if Apply(curve, s, messages[0]).Some? {
        var m := messages[0];
        SwapMessageStaysAbove(curve, s, m.offerCoin, m.askCoin, m.offer, m.minOut, Apply(curve, s, m).value);
      }
      StuckRun(curve, s, messages[1..]);
    }
  }

  /** Over any run of swaps between the pool's coins the computed invariant falls by no more than the
      floors inside c gave away on the way, and the shares stay as they are. */
  lemma {:induction false} RunOfSwapsKeepsD(curve: Curve, s: Pool, messages: seq<Message>, d: nat, d': nat)
    requires AllExchange(|s.balances|, messages)
    requires curve.D(s.balances, None) == Some(d) && curve.D(Run(curve, s, messages).balances, None) == Some(d')
    ensures d <= d' + RunLoss(curve, s, messages) && Run(curve, s, messages).lp == s.lp
    decreases messages
  {
    if messages != [] {
      var m, rest := messages[0], messages[1..];
      var t := Next(curve, s, m);
      NextKeepsCoins(curve, s, m);
      if curve.D(t.balances, None) == None {
        StuckRun(curve, t, rest);
        assert false;
      }
      var e := curve.D(t.balances, None).value;
      if Apply(curve, s, m).Some? {
        SwapKeepsD(curve, s, m, t, d, e);
      }
      RunOfSwapsKeepsD(curve, t, rest, e, d');
    }
  }

  /** In every state a swap of the run leaves, no coin but the one paid out is above m times the mean of the
      invariant the swap started from. */
  ghost predicate EvenRun(curve: Curve, s: Pool, messages: seq<Message>, m: nat)
    requires AllExchange(|s.balances|, messages)
    decreases messages
  {
    messages == [] ||
    (NextKeepsCoins(curve, s, messages[0]);
     EvenAfter(curve, s, messages[0], m) && EvenRun(curve, Next(curve, s, messages[0]), messages[1..], m))
  }

  ghost predicate EvenAfter(curve: Curve, s: Pool, message: Message, m: nat)
    requires IsExchange(|s.balances|, message)
  {
    Apply(curve, s, message).Some? ==>
      var t, j, n := Apply(curve, s, message).value, AskAt(|s.balances|, message.offerCoin, message.askCoin), |s.balances|;
      && curve.D(s.balances, None).Some? && |t.balances| == n
      && forall k :: 0 <= k < n && k != j ==> t.balances[k] * n <= m * curve.D(s.balances, None).value
  }

  lemma SwapLossOfEven(curve: Curve, s: Pool, message: Message, m: nat)
    requires IsExchange(|s.balances|, message) && 0 < m && EvenAfter(curve, s, message, m)
    ensures SwapLoss(curve, s, message) <= EvenLoss(|s.balances|, m)
  {
    if Apply(curve, s, message).Some? {
      var t := Apply(curve, s, message).value;
      SwapMessageStaysAbove(curve, s, message.offerCoin, message.askCoin, message.offer, message.minOut, t);
      LossOfEven(curve, t.balances, AskAt(|s.balances|, message.offerCoin, message.askCoin), curve.D(s.balances, None).value, m);
    }
  }

  /** (n-1)*m^(n-1) */
  function EvenLoss(n: nat, m: nat): nat {
    if n == 0 then 0 else (n - 1) * Pow(m, n - 1)
  }

  lemma LossOfEven(curve: Curve, balances: seq<nat>, j: nat, d: nat, m: nat)
    requires j < |balances| && AboveCurve(curve, YDView(balances, j), d, balances[j]) && 0 < m
    requires forall k :: 0 <= k < |balances| && k != j ==> balances[k] * |balances| <= m * d
    ensures DLoss(curve.amp * |balances|, balances, j, d) <= EvenLoss(|balances|, m)
  {
    DLossOfEvenCoins(curve.amp * |balances|, balances, j, d, m);
  }

  lemma CostOfOneMore(total: nat, first: nat, rest: nat, cost: nat, k: nat)
    requires 0 < k && total == first + rest && first <= cost && rest <= (k - 1) * cost
    ensures total <= k * cost
  {
    assert k * cost == (k - 1) * cost + cost;
  }

  /** Then a run of k swaps costs the computed invariant at most k times (n-1)*m^(n-1). */
  lemma {:induction false} RunLossOfEven(curve: Curve, s: Pool, messages: seq<Message>, m: nat, cost: nat, k: nat)
    requires AllExchange(|s.balances|, messages) && 0 < m && EvenRun(curve, s, messages, m) && k == |messages|
    requires cost == EvenLoss(|s.balances|, m)
    ensures RunLoss(curve, s, messages) <= k * cost
    decreases messages
  {
    if messages != [] {
      var t := Next(curve, s, messages[0]);
      NextKeepsCoins(curve, s, messages[0]);
      SwapLossOfEven(curve, s, messages[0], m);
      RunLossOfEven(curve, t, messages[1..], m, cost, k - 1);
      CostOfOneMore(RunLoss(curve, s, messages), SwapLoss(curve, s, messages[0]), RunLoss(curve, t, messages[1..]), cost, k);
    }
  }

  // ----- the two refund formulas -----

  lemma {:induction false} BalancedAmounts(olds: seq<nat>, unmint: nat, lp: nat, acc: seq<nat>)
    requires |acc| <= |olds| && 0 < lp && forall k :: 0 <= k < |acc| ==> acc[k] == olds[k] * unmint / lp
    ensures var r := Curve.BalancedFrom(olds, unmint, lp, acc);
            r.Some? ==> |r.value| == |olds| && forall k :: 0 <= k < |olds| ==> r.value[k] == olds[k] * unmint / lp
    decreases |olds| - |acc|
  {
    if |acc| < |olds| && Curve.BalancedFrom(olds, unmint, lp, acc).Some? {
      BalancedAmounts(olds, unmint, lp, acc + [olds[|acc|] * unmint / lp]);
    }
  }

  /** The contract's decimal refunds refine the curve's integer ones, coin by coin. */
  lemma RefundsRefineCurve(s: Pool, amount: nat, amounts: seq<nat>)
    requires 0 < s.lp && amount <= s.lp
    requires Curve.BalancedFrom(s.balances, amount, s.lp, []) == Some(amounts)
    ensures |amounts| == |s.balances|
    ensures forall k :: 0 <= k < |amounts| ==>
      Refund(s.balances[k], amount, s.lp) <= amounts[k] <= Refund(s.balances[k], amount, s.lp) + CeilDiv(s.balances[k], E)
  {
    BalancedAmounts(s.balances, amount, s.lp, []);
    forall k | 0 <= k < |amounts|
      ensures Refund(s.balances[k], amount, s.lp) <= amounts[k] <= Refund(s.balances[k], amount, s.lp) + CeilDiv(s.balances[k], E)
    {
      RefundRefinesInteger(s.balances[k], amount, s.lp);
    }
  }

  // ----- the contract -----

  datatype Asset = Asset(info: string, amount: nat)

  /** The position of a coin, or the number of coins when it is not one of the pool's. */
  function IndexOf(assets: seq<string>, info: string): (k: nat)
    ensures k <= |assets| && (k < |assets| <==> info in assets)
    ensures k < |assets| ==> assets[k] == info
  {
    if assets == [] then 0
    else if assets[0] == info then 0
    else 1 + IndexOf(assets[1..], info)
  }

  lemma {:induction false} FirstIndex(assets: seq<string>, info: string, k: nat)
    requires k < |assets| && assets[k] == info && forall l :: 0 <= l < k ==> assets[l] != info
    ensures IndexOf(assets, info) == k
  {
    if 0 < k {
      FirstIndex(assets[1..], info, k - 1);
    }
  }

  predicate Distinct(assets: seq<string>) {
    forall k, l :: 0 <= k < l < |assets| ==> assets[k] != assets[l]
  }

  class StableContract {
    const curve: Curve
    const assets: seq<string>
    const native: seq<bool>
    var balances: seq<nat>
    var lp: nat

    predicate Valid()
      reads this
    {
      |assets| == |native| == |balances| && Distinct(assets) && AllFit(balances)
    }

    function State(): Pool
      reads this
    {
      Pool(balances, lp)
    }

    constructor (amplification: nat, fee: nat, assets: seq<string>, native: seq<bool>)
      requires |assets| == |native| && Distinct(assets)
      ensures Valid() && Funded(State()) && lp == 0 && forall k :: 0 <= k < |balances| ==> balances[k] == 0
      ensures curve == Curve(AsU64(amplification), AsU64(fee))
      ensures this.assets == assets && this.native == native
    {
      curve := Curve(AsU64(amplification), AsU64(fee));
      this.assets, this.native := assets, native;
      balances, lp := seq(|assets|, k => 0), 0;
    }

    /** Success moves to the state of `Apply`; failure leaves everything as it was. */
    twostate predicate Did(m: Message, ok: bool)
      reads this
    {
      match Apply(curve, old(State()), m)
      case Some(t) => ok && State() == t
      case None => !ok && State() == old(State())
    }

    predicate InPoolOrder(deposited: seq<Asset>) {
      |deposited| == |assets| && forall k :: 0 <= k < |assets| ==> deposited[k].info == assets[k]
    }

    function Amounts(deposited: seq<Asset>): seq<nat> {
      seq(|deposited|, k requires 0 <= k < |deposited| => deposited[k].amount)
    }

    /** The deposited amounts, if the assets are exactly the pool's, in its order. */
    method ReadDeposits(deposited: seq<Asset>) returns (r: Option<seq<nat>>)
      ensures r == if InPoolOrder(deposited) then Some(Amounts(deposited)) else None
      ensures r.Some? ==> |r.value| == |deposited| && forall k :: 0 <= k < |deposited| ==> r.value[k] == deposited[k].amount
    {
      var deposits: seq<nat>, i := [], 0;
      while i < |deposited|
        invariant i == |deposits| <= |deposited| && i <= |assets|
        invariant forall k :: 0 <= k < i ==> deposited[k].info == assets[k] && deposits[k] == deposited[k].amount
      {
        if |assets| <= i || deposited[i].info != assets[i] {
          return None;
        }
        deposits := deposits + [deposited[i].amount];
        i := i + 1;
      }
      if |deposits| < |assets| {
        return None;
      }
      assert deposits == Amounts(deposited);
      return Some(deposits);
    }

    /** Native coins are credited before the handler reads the balances, so it takes them off again;
        token coins arrive only with its own messages. */
    method OldAndNew(deposits: seq<nat>) returns (r: Option<(seq<nat>, seq<nat>)>)
      requires Valid() && |deposits| == |assets|
      ensures r == if AllFit(Plus(balances, deposits)) then Some((balances, Plus(balances, deposits))) else None
    {
      var olds: seq<nat>, news: seq<nat>, i := [], [], 0;
      while i < |assets|
        invariant i == |olds| == |news| <= |assets|
        invariant forall k :: 0 <= k < i ==> olds[k] == balances[k] && news[k] == balances[k] + deposits[k] <= U128_MAX
      {
        var queried := balances[i] + if native[i] then deposits[i] else 0;
        if native[i] {
          queried := queried - deposits[i];
        }
        olds := olds + [queried];
        if U128_MAX < queried + deposits[i] {
          assert Plus(balances, deposits)[i] == queried + deposits[i];
          return None;
        }
        news := news + [queried + deposits[i]];
        i := i + 1;
      }
      assert olds == balances && news == Plus(balances, deposits);
      return Some((olds, news));
    }

    method ProvideLiquidity(deposited: seq<Asset>, minOut: nat) returns (ok: bool)
      requires Valid()
      modifies this
      ensures Valid()
      ensures if InPoolOrder(deposited) then Did(Provide(Amounts(deposited), minOut), ok)
              else !ok && State() == old(State())
    {
      var deposits := ReadDeposits(deposited);
      if deposits.None? {
        return false;
      }
      var split := OldAndNew(deposits.value);
      if split.None? {
        return false;
      }
      var (olds, news) := split.value;
      var mint := curve.Deposit(olds, news, AsU64(lp));
      if mint.None? || mint.value < AsU64(minOut) || mint.value == 0 || U128_MAX < lp + mint.value {
        return false;
      }
      balances, lp := news, lp + mint.value;
      ok := true;
    }

    method WithdrawLiquidity(amount: nat) returns (ok: bool)
      requires Valid()
      modifies this
      ensures Valid() && Did(Withdraw(amount), ok)
    {
      if lp == 0 || lp < amount {
        return false;
      }
      balances, lp := AfterRefund(balances, amount, lp), lp - amount;
      ok := true;
    }

    method FindCoin(asset: string) returns (i: nat, found: bool)
      ensures found == (asset in assets) && (found ==> i == IndexOf(assets, asset))
    {
      i, found := 0, false;
      var index := 0;
      while index < |assets|
        invariant index <= |assets|
        invariant !found && forall k :: 0 <= k < index ==> assets[k] != asset
      {
        if asset == assets[index] {
          FirstIndex(assets, asset, index);
          i, found := index, true;
          break;
        }
        index := index + 1;
      }
    }

    method WithdrawSingleLiquidity(asset: string, unmint: nat, minOut: nat) returns (ok: bool)
      requires Valid()
      modifies this
      ensures Valid() && Did(WithdrawSingle(IndexOf(assets, asset), unmint, minOut), ok)
    {
      var i, found := FindCoin(asset);
      if !found || lp < unmint {
        SingleUnavailable(curve, State(), IndexOf(assets, asset), unmint, minOut);
        return false;
      }
      var out := curve.RemoveLiquiditySingleToken(balances, AsU64(unmint), i, AsU64(lp));
      if out.None? || out.value <= AsU64(minOut) || balances[i] < out.value {
        SingleRefused(curve, State(), i, unmint, minOut, out);
        return false;
      }
      SinglePaid(curve, State(), i, unmint, minOut, AsU64(unmint), AsU64(lp), out.value);
      balances, lp := balances[i := balances[i] - out.value], lp - unmint;
      ok := true;
    }

    /** Finds the two coins, staying at position 0 when there is none, and takes an offer that is one
        of them off the balances again, since it has already been credited. */
    method ReadPools(queried: seq<nat>, offerAsset: Asset, askAsset: string) returns (i: nat, j: nat, read: seq<nat>)
      requires Valid()
      requires queried == Credited(balances, IndexOf(assets, offerAsset.info), offerAsset.amount)
      ensures i == OfferAt(|assets|, IndexOf(assets, offerAsset.info))
      ensures j == AskAt(|assets|, IndexOf(assets, offerAsset.info), IndexOf(assets, askAsset))
      ensures read == balances
    {
      ghost var oi, aj := IndexOf(assets, offerAsset.info), IndexOf(assets, askAsset);
      i, j, read := 0, 0, [];
      var index := 0;
      while index < |assets|
        invariant index == |read| <= |assets|
        invariant forall k :: 0 <= k < index ==> read[k] == balances[k]
        invariant i == if oi < index then oi else 0
        invariant j == if aj < index && aj != oi then aj else 0
      {
        if offerAsset.info == assets[index] {
          i := index;
          read := read + [queried[index] - offerAsset.amount];
        } else {
          if askAsset == assets[index] {
            j := index;
          }
          read := read + [queried[index]];
        }
        index := index + 1;
      }
    }

    /** Nothing refuses assets the pool does not know. */
    method Swap(offerAsset: Asset, askAsset: string, minOut: nat) returns (ok: bool)
      requires Valid()
      modifies this
      ensures Valid()
      ensures Did(Message.Swap(IndexOf(assets, offerAsset.info), IndexOf(assets, askAsset), offerAsset.amount, minOut), ok)
    {
      var offerCoin := IndexOf(assets, offerAsset.info);
      if |assets| == 0 || (offerCoin < |assets| && U128_MAX < balances[offerCoin] + offerAsset.amount) {
        return false;
      }
      var queried := Credited(balances, offerCoin, offerAsset.amount);
      var i, j, read := ReadPools(queried, offerAsset, askAsset);
      var out := curve.Exchange(i, j, AsU64(offerAsset.amount), read);
      if out.None? || out.value <= minOut {
        return false;
      }
      SwapStaysAbove(curve, balances, i, j, AsU64(offerAsset.amount), out.value);
      balances := Paid(queried, j, out.value);
      ok := true;
    }
  }
}
