/** Exactly when the stable pool's messages succeed, and what they pay, from both sides. */
module StableMessageTheorems {
  import opened Options
  import opened Checked
  import opened Arithmetic
  import opened FixedPoint
  import opened StableCurve
  import opened InvariantTheorems
  import opened CurveTheorems
  import opened DefinedTheorems
  import opened StablePool

  // ----- deposits -----

  /** A deposit succeeds exactly when it names every coin, the balances stay within 128 bits, the curve mints at
      least what is asked and something, and the supply stays within 128 bits; the mint is all it adds. */
  lemma ProvideSucceedsExactly(curve: Curve, s: Pool, deposits: seq<nat>, minOut: nat)
    ensures Apply(curve, s, Provide(deposits, minOut)).Some? <==>
      && |deposits| == |s.balances|
      && (forall k :: 0 <= k < |deposits| ==> s.balances[k] + deposits[k] <= U128_MAX)
      && var mint := curve.MintAmount(s.balances, Plus(s.balances, deposits), AsU64(s.lp));
         mint.Some? && AsU64(minOut) <= mint.value && 0 < mint.value && s.lp + mint.value <= U128_MAX
    ensures Apply(curve, s, Provide(deposits, minOut)).Some? ==>
      var mint := curve.MintAmount(s.balances, Plus(s.balances, deposits), AsU64(s.lp)).value;
      Apply(curve, s, Provide(deposits, minOut)) == Some(Pool(Plus(s.balances, deposits), s.lp + mint))
  {
  }

  predicate AllZero(xs: seq<nat>) {
    forall k :: 0 <= k < |xs| ==> xs[k] == 0
  }

  lemma {:induction false} SumOfZeros(xs: seq<nat>)
    requires AllZero(xs)
    ensures Sum(xs) == 0
  {
    if xs != [] {
      SumOfZeros(xs[1..]);
    }
  }

  lemma {:induction false} EachWithinSum(xs: seq<nat>, k: nat)
    requires k < |xs|
    ensures xs[k] <= Sum(xs)
    decreases |xs|
  {
    if 0 < k {
      EachWithinSum(xs[1..], k - 1);
    }
  }

  /** A first deposit into an empty pool succeeds and mints the computed invariant, whenever there is one, it is
      positive, fits in 64 bits and is not below what is asked. */
  lemma FirstDepositSucceeds(curve: Curve, s: Pool, deposits: seq<nat>, minOut: nat, d1: nat)
    requires AllZero(s.balances) && s.lp == 0 && |deposits| == |s.balances|
    requires curve.D(deposits, None) == Some(d1) && 0 < d1 <= U64_MAX && AsU64(minOut) <= d1
    ensures Apply(curve, s, Provide(deposits, minOut)) == Some(Pool(deposits, d1))
  {
    SumOfZeros(s.balances);
    GetDOfNothing(curve, s.balances, None);
    assert Plus(s.balances, deposits) == deposits;
    forall k | 0 <= k < |deposits| ensures s.balances[k] + deposits[k] <= U128_MAX {
      EachWithinSum(deposits, k);
    }
    FirstMintExistsExactly(curve, s.balances, deposits, 0, d1);
    ProvideSucceedsExactly(curve, s, deposits, minOut);
  }

  /** Counted as a first deposit, a deposit mints the new invariant exactly when it is above the old one and fits
      in 64 bits. */
  lemma FirstMintExistsExactly(curve: Curve, olds: seq<nat>, news: seq<nat>, d0: nat, d1: nat)
    requires |olds| == |news| && curve.D(olds, None) == Some(d0) && curve.D(news, None) == Some(d1)
    ensures curve.MintAmount(olds, news, 0) == if d0 < d1 <= U64_MAX then Some(d1) else None
  {
  }

  /** In particular equal deposits: they mint their sum. */
  lemma FirstEqualDeposit(curve: Curve, s: Pool, deposits: seq<nat>, x: nat, minOut: nat)
    requires AllZero(s.balances) && s.lp == 0 && |deposits| == |s.balances|
    requires forall k :: 0 <= k < |deposits| ==> deposits[k] == x
    requires 0 < Sum(deposits) <= U64_MAX && AsU64(minOut) <= Sum(deposits)
    requires FirstRoundFits(curve.amp * |deposits|, |deposits|, Sum(deposits))
    ensures Apply(curve, s, Provide(deposits, minOut)) == Some(Pool(deposits, Sum(deposits)))
  {
    GetDBalanced(curve, deposits, x);
    FirstDepositSucceeds(curve, s, deposits, minOut, Sum(deposits));
  }

  // ----- withdrawals -----

  /** A pro-rata withdrawal succeeds exactly when that many shares exist, and pays of every coin the burned
      part, rounded down, short by at most ceil(balance / 10^18). */
  lemma WithdrawPays(curve: Curve, s: Pool, amount: nat)
    ensures Apply(curve, s, Withdraw(amount)).Some? <==> 0 < s.lp && amount <= s.lp
    ensures Apply(curve, s, Withdraw(amount)).Some? ==>
      var t := Apply(curve, s, Withdraw(amount)).value;
      && t.lp == s.lp - amount && |t.balances| == |s.balances|
      && forall k :: 0 <= k < |s.balances| ==>
           && t.balances[k] <= s.balances[k]
           && s.balances[k] - t.balances[k] <= s.balances[k] * amount / s.lp
           && s.balances[k] * amount / s.lp <= s.balances[k] - t.balances[k] + CeilDiv(s.balances[k], E)
  {
    if 0 < s.lp && amount <= s.lp {
      var t := Apply(curve, s, Withdraw(amount)).value;
      forall k | 0 <= k < |s.balances|
        ensures t.balances[k] <= s.balances[k]
        ensures s.balances[k] - t.balances[k] <= s.balances[k] * amount / s.lp
        ensures s.balances[k] * amount / s.lp <= s.balances[k] - t.balances[k] + CeilDiv(s.balances[k], E)
      {
        RefundKeepsShare(s.balances[k], amount, s.lp);
        RefundRefinesInteger(s.balances[k], amount, s.lp);
      }
    }
  }

  function Withdrawals(burns: seq<nat>): (r: seq<Message>)
    ensures |r| == |burns|
  {
    if burns == [] then [] else [Withdraw(burns[0])] + Withdrawals(burns[1..])
  }

  lemma {:induction false} RunOfWithdrawals(curve: Curve, s: Pool, burns: seq<nat>, k: nat)
    requires BurnsFit(s.lp, burns) && k < |s.balances|
    ensures var t := Run(curve, s, Withdrawals(burns));
            && |t.balances| == |s.balances| && Sum(burns) <= s.lp && t.lp == s.lp - Sum(burns)
            && t.balances[k] == PoolAfter(s.balances[k], s.lp, burns)
    decreases burns
  {
    if burns != [] {
      var t := Next(curve, s, Withdraw(burns[0]));
      assert Withdrawals(burns)[0] == Withdraw(burns[0]) && Withdrawals(burns)[1..] == Withdrawals(burns[1..]);
      RunOfWithdrawals(curve, t, burns[1..], k);
    }
  }

  /** Any run of withdrawals burning U of L shares takes at most floor(balance * U / L) of every coin. */
  lemma WithdrawalsTakeTheirPart(curve: Curve, s: Pool, burns: seq<nat>, k: nat)
    requires 0 < s.lp && BurnsFit(s.lp, burns) && k < |s.balances|
    ensures var t := Run(curve, s, Withdrawals(burns));
            && |t.balances| == |s.balances| && t.balances[k] <= s.balances[k]
            && s.balances[k] - t.balances[k] <= s.balances[k] * Sum(burns) / s.lp
  {
    RunOfWithdrawals(curve, s, burns, k);
    WithdrawalsTakeTheirShare(s.balances[k], s.lp, burns);
  }

  /** A single-coin withdrawal succeeds exactly when the coin and the shares exist and the curve pays more than
      asked and no more than there is. */
  lemma SingleSucceedsExactly(curve: Curve, s: Pool, coin: nat, unmint: nat, minOut: nat)
    ensures Apply(curve, s, WithdrawSingle(coin, unmint, minOut)).Some? <==>
      && coin < |s.balances| && unmint <= s.lp
      && var out := curve.SinglePayout(s.balances, AsU64(unmint), coin, AsU64(s.lp));
         out.Some? && AsU64(minOut) < out.value <= s.balances[coin]
  {
  }

  // ----- swaps -----

  /** A swap succeeds exactly when there is a coin, a credited offer fits, and the quote exists and is above what
      is asked. */
  lemma SwapSucceedsExactly(curve: Curve, s: Pool, offerCoin: nat, askCoin: nat, offer: nat, minOut: nat)
    ensures Apply(curve, s, Swap(offerCoin, askCoin, offer, minOut)).Some? <==>
      && 0 < |s.balances| && (offerCoin < |s.balances| ==> s.balances[offerCoin] + offer <= U128_MAX)
      && var i := if offerCoin < |s.balances| then offerCoin else 0;
         var j := if askCoin < |s.balances| && askCoin != offerCoin then askCoin else 0;
         var out := curve.ExchangeOut(i, j, AsU64(offer), s.balances);
         out.Some? && minOut < out.value
  {
  }

  /** A swap on a pool of real size, fee included. */
  lemma RealSwap(curve: Curve, s: Pool, m: Message) returns (t: Pool)
    requires curve == Curve(100, 4) && s == Pool([1_000_000_000_000, 1_000_000_000_000], 2_000_000_000_000)
    requires m == Swap(0, 1, 1_000_000_000, 999_590_102)
    ensures Apply(curve, s, m) == Some(t) && t == Pool([1_001_000_000_000, 999_000_409_897], 2_000_000_000_000)
  {
    RealQuote(curve, s.balances, AsU64(1_000_000_000));
    SwapFromQuote(curve, s, 0, 1, 1_000_000_000, 999_590_102, 999_590_103);
    t := Pool(Paid(Credited(s.balances, 0, 1_000_000_000), 1, 999_590_103), s.lp);
    assert t.balances == [1_001_000_000_000, 999_000_409_897];
  }
}
