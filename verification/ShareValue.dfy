/** What a share of the stable pool is worth: the floor of the pool's exact invariant over the supply.

    No message that passes its guard takes more of it than an explicit loss, in which only the floors of
    the arithmetic appear. */
module ShareValueTheorems {
  import opened Options
  import opened Checked
  import opened Arithmetic
  import opened StableCurve
  import opened InvariantTheorems
  import opened MeanTheorems
  import opened RoundTheorems
  import opened ConvergenceTheorems
  import opened DefinedTheorems
  import opened CurveTheorems
  import opened CurveExactness
  import opened ScalingTheorems
  import opened StablePool

  // ----- the worth of balances -----

  /** The floor of the exact invariant; nothing for no balances. */
  ghost function Worth(curve: Curve, amounts: seq<nat>): nat
    requires 0 < curve.amp
  {
    if Sum(amounts) == 0 then 0 else
      assert exists z: nat :: IsFloor(curve, amounts, z) by { FloorIsThere(curve, amounts); }
      var z: nat :| IsFloor(curve, amounts, z);
      z
  }

  lemma ZeroNotAbove(curve: Curve, amounts: seq<nat>)
    requires 0 < curve.amp * |amounts|
    ensures !AboveExact(curve, amounts, 0)
  {
    var n, ann, K := |amounts|, curve.amp * |amounts|, Product(Times(|amounts|, amounts), 0);
    assert Pow(0, n + 1) == 0 * Pow(0, n) == 0;
    assert (ann - 1) * 0 == 0 && K * 0 == 0;
    ProductsAreNat(K, ann, Sum(amounts));
  }

  lemma CoinsAreThere(curve: Curve, amounts: seq<nat>)
    requires 0 < curve.amp && 0 < Sum(amounts)
    ensures 0 < |amounts| && 0 < curve.amp * |amounts|
  {
    FactorsKeepPositive(curve.amp, |amounts|);
  }

  lemma FloorIsThere(curve: Curve, amounts: seq<nat>)
    requires 0 < curve.amp && 0 < Sum(amounts)
    ensures exists z: nat :: IsFloor(curve, amounts, z)
  {
    CoinsAreThere(curve, amounts);
    ZeroNotAbove(curve, amounts);
    var z := FloorAbove(curve, amounts, 0);
  }

  lemma WorthIsFloor(curve: Curve, amounts: seq<nat>)
    requires 0 < curve.amp && 0 < Sum(amounts)
    ensures IsFloor(curve, amounts, Worth(curve, amounts))
  {
    FloorIsThere(curve, amounts);
  }

  /** The worth is the largest value not above the exact invariant. */
  lemma AtMostWorth(curve: Curve, amounts: seq<nat>, w: nat)
    requires 0 < curve.amp && 0 < Sum(amounts) && !AboveExact(curve, amounts, w)
    ensures w <= Worth(curve, amounts)
  {
    WorthIsFloor(curve, amounts);
    CoinsAreThere(curve, amounts);
    var z := Worth(curve, amounts);
    if z < w {
      GapMono(amounts, curve.amp * |amounts|, z + 1, w);
    }
  }

  /** `get_d` never answers less. */
  lemma WorthBelowD(curve: Curve, amounts: seq<nat>, suggest: Option<nat>, d: nat)
    requires 0 < curve.amp && curve.D(amounts, suggest) == Some(d)
    ensures Worth(curve, amounts) <= d
  {
    if 0 < Sum(amounts) {
      WorthIsFloor(curve, amounts);
      GetDAboveExact(curve, amounts, suggest, d);
    }
  }

  lemma WorthGrows(curve: Curve, more: seq<nat>, less: seq<nat>)
    requires 0 < curve.amp && AtLeast(more, less)
    ensures Worth(curve, less) <= Worth(curve, more)
  {
    if 0 < Sum(less) {
      SumGrows(more, less);
      WorthIsFloor(curve, less);
      CoinsAreThere(curve, more);
      MoreIsNotLower(curve, more, less, Worth(curve, less));
      AtMostWorth(curve, more, Worth(curve, less));
    }
  }

  /** Balances above the computed curve of d are worth d, but for what the floors of c lost. */
  lemma AboveCurveIsWorth(curve: Curve, balances: seq<nat>, j: nat, d: nat)
    requires 0 < curve.amp && j < |balances| && AboveCurve(curve, YDView(balances, j), d, balances[j])
    ensures d <= Worth(curve, balances) + DLoss(curve.amp * |balances|, balances, j, d)
  {
    var ann := curve.amp * |balances|;
    var e := DLoss(ann, balances, j, d);
    if e < d {
      DLossIsEnough(curve, balances, j, d, ann);
      CoveredCoinIsThere(curve, balances, j, d);
      AtMostWorth(curve, balances, d - e);
    }
  }

  // ----- the losses -----

  /** The fee-reduced balances a later deposit is measured by. */
  function Reduced(curve: Curve, olds: seq<nat>, news: seq<nat>): Option<seq<nat>>
    requires |olds| == |news|
  {
    var d0 :- curve.D(olds, None);
    var d1 :- curve.D(news, None);
    var fee :- curve.ImbalanceFee(|olds|);
    curve.DepositReducedFrom(olds, news, d0, d1, fee, [])
  }

  /** The invariant of them that the deposit computes, warm-started. */
  function ReducedD(curve: Curve, olds: seq<nat>, news: seq<nat>): Option<nat>
    requires |olds| == |news|
  {
    var d1 :- curve.D(news, None);
    var reduced :- Reduced(curve, olds, news);
    if Sum(news) == 0 then None else curve.D(reduced, Some(Suggested(Sum(reduced), d1, Sum(news))))
  }

  /** How far `get_d` answered above the worth of the fee-reduced balances. */
  ghost function DepositLoss(curve: Curve, olds: seq<nat>, news: seq<nat>): nat
    requires 0 < curve.amp && |olds| == |news|
  {
    match (Reduced(curve, olds, news), ReducedD(curve, olds, news))
    case (Some(reduced), Some(d2)) =>
      if Worth(curve, reduced) <= d2 then d2 - Worth(curve, reduced) else 0
    case _ => 0
  }

  lemma DepositMeasures(curve: Curve, olds: seq<nat>, news: seq<nat>, lp: nat, mint: nat)
    returns (d0: nat, d2: nat, reduced: seq<nat>, suggest: nat)
    requires |olds| == |news| && 0 < lp && curve.MintAmount(olds, news, lp) == Some(mint)
    ensures curve.D(olds, None) == Some(d0) && (lp + mint) * d0 <= lp * d2 && d0 <= d2
    ensures Reduced(curve, olds, news) == Some(reduced) && ReducedD(curve, olds, news) == Some(d2)
    ensures AtLeast(news, reduced) && 0 < Sum(reduced) && curve.D(reduced, Some(suggest)) == Some(d2)
  {
    var d1, fee;
    d0, d1, fee, reduced, suggest, d2 := UnfoldMint(curve, olds, news, lp, mint);
    DepositChargesAll(curve, olds, news, d0, d1, fee, []);
    MintShare(lp, d0, d2, mint);
  }

  lemma DepositLossIs(curve: Curve, olds: seq<nat>, news: seq<nat>, reduced: seq<nat>, d2: nat)
    requires 0 < curve.amp && |olds| == |news| && Worth(curve, reduced) <= d2
    requires Reduced(curve, olds, news) == Some(reduced) && ReducedD(curve, olds, news) == Some(d2)
    ensures d2 == Worth(curve, reduced) + DepositLoss(curve, olds, news)
  {
  }

  /** A warm-started invariant that settled is close to the worth. */
  lemma SettledNearWorth(curve: Curve, amounts: seq<nat>, suggest: nat, d: nat, L: nat)
    requires 0 < curve.amp && 0 < Sum(amounts) && curve.D(amounts, Some(suggest)) == Some(d)
    requires Loose(Times(|amounts|, amounts), Worth(curve, amounts), L) && Fits2(|amounts|, L, Worth(curve, amounts))
    requires DSettles(curve.DSetup(amounts).value, suggest, ITERATIONS)
    ensures var n, z := |amounts|, Worth(curve, amounts);
            z <= d <= z + Reserve(n, L) + n && (Roomy(n, L, z) ==> n * (d - z - 1) <= L)
  {
    WorthIsFloor(curve, amounts);
    SettledGetDIsClose(curve, amounts, Some(suggest), d, Worth(curve, amounts), L);
  }

  /** What `DepositLossAtMost` promises of the reduced balances and their computed invariant. */
  ghost predicate SmallLoss(curve: Curve, reduced: seq<nat>, suggest: nat, loss: nat, L: nat)
    requires 0 < curve.amp && curve.DSetup(reduced).Some?
  {
    var n, z := |reduced|, Worth(curve, reduced);
    Loose(Times(n, reduced), z, L) && Fits2(n, L, z) && DSettles(curve.DSetup(reduced).value, suggest, ITERATIONS) ==>
      loss <= Reserve(n, L) + n && (Roomy(n, L, z) ==> n * (loss - 1) <= L)
  }

  lemma MeasuredLoss(curve: Curve, reduced: seq<nat>, suggest: nat, d2: nat, loss: nat, L: nat)
    requires 0 < curve.amp && 0 < Sum(reduced) && curve.D(reduced, Some(suggest)) == Some(d2)
    requires d2 == Worth(curve, reduced) + loss
    ensures curve.DSetup(reduced).Some? && SmallLoss(curve, reduced, suggest, loss, L)
  {
    if Loose(Times(|reduced|, reduced), Worth(curve, reduced), L) && Fits2(|reduced|, L, Worth(curve, reduced))
       && DSettles(curve.DSetup(reduced).value, suggest, ITERATIONS) {
      SettledNearWorth(curve, reduced, suggest, d2, L);
    }
  }

  /** The loss of a deposit is small: when the warm-started loop settles, at most the reserve of the reduced
      balances' looseness and n, with room at most 1 + L/n. */
  lemma DepositLossAtMost(curve: Curve, olds: seq<nat>, news: seq<nat>, lp: nat, mint: nat, L: nat)
    returns (reduced: seq<nat>, suggest: nat)
    requires 0 < curve.amp && |olds| == |news| && 0 < lp && curve.MintAmount(olds, news, lp) == Some(mint)
    ensures Reduced(curve, olds, news) == Some(reduced) && |reduced| == |news| && curve.DSetup(reduced).Some?
    ensures SmallLoss(curve, reduced, suggest, DepositLoss(curve, olds, news), L)
  {
    var d0, d2;
    d0, d2, reduced, suggest := DepositMeasures(curve, olds, news, lp, mint);
    WorthBelowD(curve, reduced, Some(suggest), d2);
    DepositLossIs(curve, olds, news, reduced, d2);
    MeasuredLoss(curve, reduced, suggest, d2, DepositLoss(curve, olds, news), L);
  }

  // ----- single messages -----

  /** The guard: swaps are between coins of the pool, and the casts of the supply lose nothing that matters. */
  predicate Sound(s: Pool, m: Message) {
    match m
    case Swap(offerCoin, askCoin, offer, minOut) => Exchanges(|s.balances|, offerCoin, askCoin)
    case WithdrawSingle(coin, unmint, minOut) => s.lp <= U64_MAX
    case Provide(deposits, minOut) => 0 < AsU64(s.lp)
    case _ => true
  }

  /** No more than `loss` of the worth per share is gone: z/l <= (z'+loss)/l'. */
  predicate KeepsValue(z: nat, l: nat, z': nat, l': nat, loss: nat) {
    z * l' <= (z' + loss) * l
  }

  lemma ValueThrough(z: nat, l: nat, z': nat, l': nat, loss: nat, d: nat, d': nat)
    requires z <= d && d * l' <= d' * l && d' <= z' + loss
    ensures KeepsValue(z, l, z', l', loss)
  {
    MulLe(z, d, l');
    MulLe(d', z' + loss, l);
  }

  ghost function SingleLoss(curve: Curve, s: Pool, t: Pool, coin: nat, d1: nat): nat {
    if coin < |t.balances| && 0 < curve.amp * |t.balances| && Readable(YDView(t.balances, coin), 0)
    then DLoss(curve.amp * |t.balances|, t.balances, coin, d1) else 0
  }

  /** What a message may take off the worth: the floors of c after a swap or a single-coin withdrawal, the
      accuracy of `get_d` after a deposit, one unit after a pro-rata withdrawal, nothing otherwise. */
  ghost function MessageLoss(curve: Curve, s: Pool, m: Message): nat
    requires 0 < curve.amp && Sound(s, m)
  {
    match Apply(curve, s, m)
    case None => 0
    case Some(t) =>
      match m
      case Provide(deposits, minOut) =>
        DepositLoss(curve, s.balances, Plus(s.balances, deposits))
      case Withdraw(amount) => 1
      case WithdrawSingle(coin, unmint, minOut) =>
        SingleLoss(curve, s, t, coin, curve.DAfterBurn(curve.D(s.balances, None).GetOr(0), AsU64(unmint), AsU64(s.lp)).GetOr(0))
      case Swap(offerCoin, askCoin, offer, minOut) => SwapLoss(curve, s, m)
      case Transfer(coin, amount) => 0
      case Burn(amount) => 0
  }

  lemma SwapKeepsValue(curve: Curve, s: Pool, m: Message, t: Pool)
    requires 0 < curve.amp && m.Swap? && Sound(s, m) && Apply(curve, s, m) == Some(t)
    ensures KeepsValue(Worth(curve, s.balances), s.lp, Worth(curve, t.balances), t.lp, MessageLoss(curve, s, m))
  {
    SwapMessageStaysAbove(curve, s, m.offerCoin, m.askCoin, m.offer, m.minOut, t);
    var j, d := AskAt(|s.balances|, m.offerCoin, m.askCoin), curve.D(s.balances, None).value;
    WorthBelowD(curve, s.balances, None, d);
    AboveCurveIsWorth(curve, t.balances, j, d);
    ValueThrough(Worth(curve, s.balances), s.lp, Worth(curve, t.balances), t.lp, MessageLoss(curve, s, m), d, d);
  }

  lemma SingleMeasures(curve: Curve, s: Pool, coin: nat, unmint: nat, minOut: nat, t: Pool)
    returns (d0: nat, d1: nat)
    requires Apply(curve, s, WithdrawSingle(coin, unmint, minOut)) == Some(t) && s.lp <= U64_MAX
    ensures coin < |s.balances| == |t.balances| && curve.D(s.balances, None) == Some(d0)
    ensures curve.DAfterBurn(d0, AsU64(unmint), AsU64(s.lp)) == Some(d1) && d0 * t.lp <= d1 * s.lp
    ensures AboveCurve(curve, YDView(t.balances, coin), d1, t.balances[coin])
  {
    var out := SingleShape(curve, s, coin, unmint, minOut, t);
    var newY, fee, reduced;
    d0, d1, newY, fee, reduced := SingleWithdrawalStaysAbove(curve, s.balances, AsU64(unmint), coin, AsU64(s.lp), out);
  }

  lemma SingleKeepsValue(curve: Curve, s: Pool, m: Message, t: Pool)
    requires 0 < curve.amp && m.WithdrawSingle? && Sound(s, m) && Apply(curve, s, m) == Some(t)
    ensures KeepsValue(Worth(curve, s.balances), s.lp, Worth(curve, t.balances), t.lp, MessageLoss(curve, s, m))
  {
    var d0, d1 := SingleMeasures(curve, s, m.coin, m.unmint, m.minOut, t);
    WorthBelowD(curve, s.balances, None, d0);
    AboveCurveIsWorth(curve, t.balances, m.coin, d1);
    ValueThrough(Worth(curve, s.balances), s.lp, Worth(curve, t.balances), t.lp, MessageLoss(curve, s, m), d0, d1);
  }

  lemma Commuted(a: nat, b: nat)
    ensures a * b == b * a
  {
  }

  lemma MeasuredKeepsValue(curve: Curve, olds: seq<nat>, news: seq<nat>, reduced: seq<nat>, suggest: nat, lp: nat, mint: nat, d0: nat, d2: nat)
    requires 0 < curve.amp && |olds| == |news| && d0 * (lp + mint) <= d2 * lp
    requires curve.D(olds, None) == Some(d0) && curve.D(reduced, Some(suggest)) == Some(d2) && AtLeast(news, reduced)
    requires Reduced(curve, olds, news) == Some(reduced) && ReducedD(curve, olds, news) == Some(d2)
    ensures KeepsValue(Worth(curve, olds), lp, Worth(curve, news), lp + mint, DepositLoss(curve, olds, news))
  {
    WorthBelowD(curve, olds, None, d0);
    WorthBelowD(curve, reduced, Some(suggest), d2);
    WorthGrows(curve, news, reduced);
    DepositLossIs(curve, olds, news, reduced, d2);
    ValueThrough(Worth(curve, olds), lp, Worth(curve, news), lp + mint, DepositLoss(curve, olds, news), d0, d2);
  }

  lemma MintKeepsValue(curve: Curve, olds: seq<nat>, news: seq<nat>, lp: nat, cast: nat, mint: nat)
    requires 0 < curve.amp && |olds| == |news| && 0 < cast <= lp && curve.MintAmount(olds, news, cast) == Some(mint)
    ensures KeepsValue(Worth(curve, olds), lp, Worth(curve, news), lp + mint, DepositLoss(curve, olds, news))
  {
    var d0, d2, reduced, suggest := DepositMeasures(curve, olds, news, cast, mint);
    MintWithCast(lp, cast, mint, d0, d2);
    Commuted(lp + mint, d0);
    Commuted(lp, d2);
    MeasuredKeepsValue(curve, olds, news, reduced, suggest, lp, mint, d0, d2);
  }

  lemma ProvideKeepsValue(curve: Curve, s: Pool, m: Message, t: Pool)
    requires 0 < curve.amp && m.Provide? && Sound(s, m) && Apply(curve, s, m) == Some(t)
    ensures KeepsValue(Worth(curve, s.balances), s.lp, Worth(curve, t.balances), t.lp, MessageLoss(curve, s, m))
  {
    ProvideShape(curve, s, m.deposits, m.minOut, t);
    MintKeepsValue(curve, s.balances, t.balances, s.lp, AsU64(s.lp), t.lp - s.lp);
  }

  lemma FlooredShare(z: nat, l: nat, z': nat, l': nat)
    requires 0 < l && z * l' / l <= z'
    ensures KeepsValue(z, l, z', l', 1)
  {
    DivPinned(z * l', l);
    MulLe(z * l' / l + 1, z' + 1, l);
  }

  lemma FloorOfShare(z: nat, l: nat, l': nat) returns (w: nat)
    requires 0 < l
    ensures w == z * l' / l && l * w <= l' * z
  {
    w := z * l' / l;
    DivPinned(z * l', l);
  }

  lemma SharesKeepValue(curve: Curve, xs: seq<nat>, ys: seq<nat>, l: nat, l': nat)
    requires 0 < curve.amp && 0 < l && 0 < l' && |xs| == |ys| && 0 < Sum(xs)
    requires forall k :: 0 <= k < |xs| ==> xs[k] * l' <= ys[k] * l
    ensures KeepsValue(Worth(curve, xs), l, Worth(curve, ys), l', 1)
  {
    var z := Worth(curve, xs);
    var w := FloorOfShare(z, l, l');
    WorthIsFloor(curve, xs);
    CoinsAreThere(curve, xs);
    ShareIsKept(curve, xs, ys, z, l, l', w);
    SomethingStays(xs, ys, l, l');
    AtMostWorth(curve, ys, w);
    FlooredShare(z, l, Worth(curve, ys), l');
  }

  lemma WithdrawKeepsValue(curve: Curve, s: Pool, m: Message, t: Pool)
    requires 0 < curve.amp && m.Withdraw? && Apply(curve, s, m) == Some(t)
    ensures KeepsValue(Worth(curve, s.balances), s.lp, Worth(curve, t.balances), t.lp, 1)
  {
    WithdrawMessageKeepsShares(curve, s, m.amount, t);
    if 0 < t.lp && 0 < Sum(s.balances) {
      SharesKeepValue(curve, s.balances, t.balances, s.lp, t.lp);
    } else {
      assert Worth(curve, s.balances) * t.lp == 0;
    }
  }

  lemma {:induction false} SomethingStays(xs: seq<nat>, ys: seq<nat>, a: nat, b: nat)
    requires |xs| == |ys| && 0 < b && 0 < Sum(xs)
    requires forall k :: 0 <= k < |xs| ==> xs[k] * b <= ys[k] * a
    ensures 0 < Sum(ys)
  {
    if ys[0] == 0 {
      assert xs[0] * b <= 0 * a == 0;
      CancelLe(xs[0], 0, b);
      SomethingStays(xs[1..], ys[1..], a, b);
    }
  }

  lemma FewerSharesKeepValue(z: nat, l: nat, z': nat, l': nat)
    requires z <= z' && l' <= l
    ensures KeepsValue(z, l, z', l', 0)
  {
    MulLeBoth(z, z', l', l);
  }

  /** Every message that passes its guard keeps the worth per share but for its loss. */
  lemma MessageKeepsValue(curve: Curve, s: Pool, m: Message, t: Pool)
    requires 0 < curve.amp && Sound(s, m) && Apply(curve, s, m) == Some(t)
    ensures KeepsValue(Worth(curve, s.balances), s.lp, Worth(curve, t.balances), t.lp, MessageLoss(curve, s, m))
  {
    match m
    case Provide(deposits, minOut) => ProvideKeepsValue(curve, s, m, t);
    case Withdraw(amount) => WithdrawKeepsValue(curve, s, m, t);
    case WithdrawSingle(coin, unmint, minOut) => SingleKeepsValue(curve, s, m, t);
    case Swap(offerCoin, askCoin, offer, minOut) => SwapKeepsValue(curve, s, m, t);
    case Transfer(coin, amount) =>
      WorthGrows(curve, t.balances, s.balances);
      FewerSharesKeepValue(Worth(curve, s.balances), s.lp, Worth(curve, t.balances), t.lp);
    case Burn(amount) =>
      FewerSharesKeepValue(Worth(curve, s.balances), s.lp, Worth(curve, t.balances), t.lp);
  }

  // ----- whole runs -----

  /** Every message passes its guard in the state it meets, and the shares never run out. */
  predicate SoundRun(curve: Curve, s: Pool, messages: seq<Message>)
    decreases messages
  {
    0 < s.lp &&
    (messages == [] || (Sound(s, messages[0]) && SoundRun(curve, Next(curve, s, messages[0]), messages[1..])))
  }

  /** The losses of a run, each over the supply its message leaves. */
  ghost function LossPerShare(curve: Curve, s: Pool, messages: seq<Message>): real
    requires 0 < curve.amp && SoundRun(curve, s, messages)
    decreases messages
  {
    if messages == [] then 0.0 else
      var t := Next(curve, s, messages[0]);
      assert SoundRun(curve, t, messages[1..]);
      MessageLoss(curve, s, messages[0]) as real / t.lp as real + LossPerShare(curve, t, messages[1..])
  }

  ghost function PerShare(curve: Curve, s: Pool): real
    requires 0 < curve.amp && 0 < s.lp
  {
    Worth(curve, s.balances) as real / s.lp as real
  }

  lemma RealCancel(a: real, b: real, c: real)
    requires 0.0 < c && a * c <= b * c
    ensures a <= b
  {
  }

  lemma Quotients(z: nat, l: nat, z': nat, l': nat, loss: nat)
    requires 0 < l && 0 < l' && KeepsValue(z, l, z', l', loss)
    ensures z as real / l as real <= z' as real / l' as real + loss as real / l' as real
  {
    var x, y, x', y' := z as real, l as real, (z' + loss) as real, l' as real;
    assert (z * l') as real == x * y' && ((z' + loss) * l) as real == x' * y;
    QuotientOrder(x, y, x', y');
    assert x' == z' as real + loss as real;
  }

  lemma QuotientOrder(x: real, y: real, x': real, y': real)
    requires 0.0 < y && 0.0 < y' && x * y' <= x' * y
    ensures x / y <= x' / y'
  {
    var a, b := x / y, x' / y';
    assert a * y == x && b * y' == x';
    assert a * (y * y') == x * y' && b * (y * y') == x' * y;
    RealCancel(a, b, y * y');
  }

  /** Over any run of messages that pass their guards, with shares outstanding, the worth per share falls by
      no more than the losses per share on the way. */
  lemma {:induction false} RunKeepsValue(curve: Curve, s: Pool, messages: seq<Message>)
    requires 0 < curve.amp && SoundRun(curve, s, messages)
    ensures 0 < Run(curve, s, messages).lp
    ensures PerShare(curve, s) <= PerShare(curve, Run(curve, s, messages)) + LossPerShare(curve, s, messages)
    decreases messages
  {
    if messages != [] {
      var t := Next(curve, s, messages[0]);
      if Apply(curve, s, messages[0]).Some? {
        MessageKeepsValue(curve, s, messages[0], t);
        Quotients(Worth(curve, s.balances), s.lp, Worth(curve, t.balances), t.lp, MessageLoss(curve, s, messages[0]));
      }
      RunKeepsValue(curve, t, messages[1..]);
    }
  }
}
