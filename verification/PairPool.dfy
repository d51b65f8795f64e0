/** The constant-product pair as a state machine over its messages
    (contracts/terraswap_pair_deprecated/src/contract.rs). */
module PairPool {
  import opened Options
  import opened Checked
  import opened Arithmetic
  import opened FixedPoint
  import opened ConstantProduct

  datatype Pair = Pair(pool0: nat, pool1: nat, share: nat)

  /** `Transfer` is anyone sending tokens to the contract without calling it, `Burn` a holder burning
      shares at the token contract. */
  datatype Message =
    | Provide(deposit0: nat, deposit1: nat)
    | Withdraw(amount: nat)
    | Swap(offersFirst: bool, offer: nat)
    | Transfer(sent0: nat, sent1: nat)
    | Burn(amount: nat)

  function ISqrt(n: nat): (r: nat)
    ensures r * r <= n < (r + 1) * (r + 1)
  {
    if n == 0 then 0 else
      var r := ISqrt(n - 1);
      if (r + 1) * (r + 1) <= n then r + 1 else r
  }

  /** `Uint128::multiply_ratio` */
  function MulRatio(x: nat, numerator: nat, denominator: nat): Option<nat> {
    var q :- CheckedDiv(x * numerator, denominator);
    Fits(U128_MAX, q)
  }

  function MintedShare(s: Pair, deposit0: nat, deposit1: nat): Option<nat> {
    if s.share == 0 then
      var product :- CheckedMul(deposit0, deposit1);
      Some(ISqrt(product))
    else
      var share0 :- MulRatio(deposit0, s.share, s.pool0);
      var share1 :- MulRatio(deposit1, s.share, s.pool1);
      Some(Min(share0, share1))
  }

  function Grown(pool: nat, amount: nat): Option<nat> {
    Fits(U128_MAX, pool + amount)
  }

  /** The state after a message, or None when the transaction aborts. */
  function Apply(s: Pair, m: Message): Option<Pair> {
    match m
    case Provide(d0, d1) =>
      var pool0 :- Grown(s.pool0, d0);
      var pool1 :- Grown(s.pool1, d1);
      var minted :- MintedShare(s, d0, d1);
      if minted == 0 then None else
        var share :- Grown(s.share, minted);
        Some(Pair(pool0, pool1, share))
    case Withdraw(amount) =>
      if s.share == 0 || s.share < amount then None else
        RefundKeepsShare(s.pool0, amount, s.share);
        RefundKeepsShare(s.pool1, amount, s.share);
        Some(Pair(s.pool0 - Refund(s.pool0, amount, s.share), s.pool1 - Refund(s.pool1, amount, s.share), s.share - amount))
    case Swap(true, offer) =>
      var pool0 :- Grown(s.pool0, offer);
      var r :- ComputeSwap(s.pool0, s.pool1, offer);
      SwapShape(s.pool0, s.pool1, offer, r);
      Some(Pair(pool0, s.pool1 - r.returned, s.share))
    case Swap(false, offer) =>
      var pool1 :- Grown(s.pool1, offer);
      var r :- ComputeSwap(s.pool1, s.pool0, offer);
      SwapShape(s.pool1, s.pool0, offer, r);
      Some(Pair(s.pool0 - r.returned, pool1, s.share))
    case Transfer(sent0, sent1) =>
      var pool0 :- Grown(s.pool0, sent0);
      var pool1 :- Grown(s.pool1, sent1);
      Some(Pair(pool0, pool1, s.share))
    case Burn(amount) =>
      if s.share < amount then None else Some(s.(share := s.share - amount))
  }

  /** Aborted transactions leave the state alone. */
  function Next(s: Pair, m: Message): Pair {
    Apply(s, m).GetOr(s)
  }

  function Run(s: Pair, messages: seq<Message>): Pair
    decreases messages
  {
    if messages == [] then s else Run(Next(s, messages[0]), messages[1..])
  }

  function K(s: Pair): nat {
    s.pool0 * s.pool1
  }

  /** k per squared share is at least as high in t as in s. */
  predicate NotWorse(s: Pair, t: Pair) {
    K(s) * (t.share * t.share) <= K(t) * (s.share * s.share)
  }

  /** The test on a swap, readable before the call, that decides whether k is kept. */
  predicate Guarded(s: Pair, m: Message) {
    match m
    case Swap(true, offer) => 0 < s.pool0 + offer ==> KeepsK(s.pool0, s.pool1, offer)
    case Swap(false, offer) => 0 < s.pool1 + offer ==> KeepsK(s.pool1, s.pool0, offer)
    case _ => true
  }

  // ----- single steps -----

  lemma ProductsKeepShare(p0: nat, p1: nat, q0: nat, q1: nat, s: nat, t: nat)
    requires p0 * t <= q0 * s && p1 * t <= q1 * s
    ensures (p0 * p1) * (t * t) <= (q0 * q1) * (s * s)
  {
    MulLeBoth(p0 * t, q0 * s, p1 * t, q1 * s);
    assert (p0 * t) * (p1 * t) == (p0 * p1) * (t * t) by { Regroup(p0, p1, t); }
    assert (q0 * s) * (q1 * s) == (q0 * q1) * (s * s) by { Regroup(q0, q1, s); }
  }

  lemma Regroup(a: nat, b: nat, t: nat)
    ensures (a * t) * (b * t) == (a * b) * (t * t)
  {
    assert (a * t) * (b * t) == a * (t * (b * t));
    assert t * (b * t) == b * (t * t);
  }

  lemma MintKeepsShare(pool: nat, deposit: nat, total: nat, minted: nat)
    requires 0 < pool && minted <= deposit * total / pool
    ensures pool * (total + minted) <= (pool + deposit) * total
  {
    DivPinned(deposit * total, pool);
    MulLe(minted, deposit * total / pool, pool);
    assert pool * (total + minted) == pool * total + minted * pool;
  }

  lemma ProvideKeepsK(s: Pair, d0: nat, d1: nat, t: Pair)
    requires Apply(s, Provide(d0, d1)) == Some(t) && 0 < s.share
    ensures NotWorse(s, t)
  {
    var minted := t.share - s.share;
    MintKeepsShare(s.pool0, d0, s.share, minted);
    MintKeepsShare(s.pool1, d1, s.share, minted);
    ProductsKeepShare(s.pool0, s.pool1, t.pool0, t.pool1, s.share, t.share);
  }

  lemma WithdrawKeepsK(s: Pair, amount: nat, t: Pair)
    requires Apply(s, Withdraw(amount)) == Some(t)
    ensures NotWorse(s, t)
  {
    RefundKeepsShare(s.pool0, amount, s.share);
    RefundKeepsShare(s.pool1, amount, s.share);
    ProductsKeepShare(s.pool0, s.pool1, t.pool0, t.pool1, s.share, t.share);
  }

  lemma SameShare(k: nat, k': nat, s: nat)
    requires 0 < s
    ensures k * s <= k' * s <==> k <= k'
  {
    if k <= k' {
      MulLe(k, k', s);
    } else {
      MulLe(k' + 1, k, s);
    }
  }

  lemma SwapDecides(o: nat, a: nat, offer: nat, r: SwapResult)
    requires ComputeSwap(o, a, offer) == Some(r)
    ensures 0 < o && r.returned <= a
    ensures o * a <= (o + offer) * (a - r.returned) <==> KeepsK(o, a, offer)
  {
    SwapShape(o, a, offer, r);
    SwapKeepsKExactly(o, a, offer);
  }

  /** A swap lowers k, and k per squared share, exactly when its guard fails. */
  lemma SwapKeepsK(s: Pair, offersFirst: bool, offer: nat, t: Pair)
    requires Apply(s, Swap(offersFirst, offer)) == Some(t) && 0 < s.share
    ensures K(s) <= K(t) <==> Guarded(s, Swap(offersFirst, offer))
    ensures NotWorse(s, t) <==> Guarded(s, Swap(offersFirst, offer))
  {
    if offersFirst {
      SwapDecides(s.pool0, s.pool1, offer, ComputeSwap(s.pool0, s.pool1, offer).value);
    } else {
      SwapDecides(s.pool1, s.pool0, offer, ComputeSwap(s.pool1, s.pool0, offer).value);
      assert K(s) == s.pool1 * s.pool0 && K(t) == t.pool1 * t.pool0;
    }
    assert 0 < s.share * s.share;
    SameShare(K(s), K(t), s.share * s.share);
  }

  lemma TransferKeepsK(s: Pair, sent0: nat, sent1: nat, t: Pair)
    requires Apply(s, Transfer(sent0, sent1)) == Some(t)
    ensures NotWorse(s, t)
  {
    MulLe(s.pool0, t.pool0, s.share);
    MulLe(s.pool1, t.pool1, s.share);
    ProductsKeepShare(s.pool0, s.pool1, t.pool0, t.pool1, s.share, s.share);
  }

  lemma BurnKeepsK(s: Pair, amount: nat, t: Pair)
    requires Apply(s, Burn(amount)) == Some(t)
    ensures NotWorse(s, t)
  {
    MulLeBoth(t.share, s.share, t.share, s.share);
    MulLe(t.share * t.share, s.share * s.share, K(s));
  }

  lemma StepKeepsK(s: Pair, m: Message, t: Pair)
    requires Apply(s, m) == Some(t) && 0 < s.share && Guarded(s, m)
    ensures NotWorse(s, t)
  {
    match m
    case Provide(d0, d1) => ProvideKeepsK(s, d0, d1, t);
    case Withdraw(amount) => WithdrawKeepsK(s, amount, t);
    case Swap(first, offer) => SwapKeepsK(s, first, offer, t);
    case Transfer(sent0, sent1) => TransferKeepsK(s, sent0, sent1, t);
    case Burn(amount) => BurnKeepsK(s, amount, t);
  }

  // ----- what each message pays -----

  /** The exact floor of a*x/(o+x), plus one exactly when the double floor rounds up. */
  function FairGross(o: nat, a: nat, x: nat): nat
    requires 0 < o + x
  {
    Quotient(a * x, o + x) + if RoundsUp(o, a, o + x) then 1 else 0
  }

  function Quotient(n: nat, d: nat): nat
    requires 0 < d
  {
    n / d
  }

  /** The trader gets 997 thousandths of the gross return, rounded up; the offer side takes all of the offer. */
  lemma SwapPays(s: Pair, offersFirst: bool, offer: nat, t: Pair)
    requires Apply(s, Swap(offersFirst, offer)) == Some(t)
    ensures t.share == s.share
    ensures var o, a := if offersFirst then s.pool0 else s.pool1, if offersFirst then s.pool1 else s.pool0;
            var o', a' := if offersFirst then t.pool0 else t.pool1, if offersFirst then t.pool1 else t.pool0;
            && 0 < o && o' == o + offer && a' <= a
            && 997 * FairGross(o, a, offer) <= 1000 * (a - a') < 997 * FairGross(o, a, offer) + 1000
  {
    var o, a := if offersFirst then s.pool0 else s.pool1, if offersFirst then s.pool1 else s.pool0;
    var r := ComputeSwap(o, a, offer).value;
    SwapShape(o, a, offer, r);
    GrossIsExact(o, a, offer);
    NetPinned(Gross(o, a, offer));
  }

  /** Exactly when a swap succeeds. */
  lemma SwapSucceedsExactly(s: Pair, offersFirst: bool, offer: nat)
    requires s.pool0 <= U128_MAX && s.pool1 <= U128_MAX
    ensures var o, a := if offersFirst then s.pool0 else s.pool1, if offersFirst then s.pool1 else s.pool0;
            Apply(s, Swap(offersFirst, offer)).Some? <==>
              && o + offer <= U128_MAX && 0 < o && o * a * E <= U256_MAX
              && Gross(o, a, offer) <= offer * (a * E / o) / E <= Gross(o, a, offer) + U128_MAX
  {
    if offersFirst {
      SwapDefinedExactly(s.pool0, s.pool1, offer);
    } else {
      SwapDefinedExactly(s.pool1, s.pool0, offer);
    }
  }

  /** The first mint is the integer square root of the product; a later one is the largest number of shares
      that neither deposit falls short of. */
  lemma ProvideMints(s: Pair, d0: nat, d1: nat, t: Pair)
    requires Apply(s, Provide(d0, d1)) == Some(t)
    ensures t.pool0 == s.pool0 + d0 && t.pool1 == s.pool1 + d1 && s.share < t.share
    ensures var minted := t.share - s.share;
            if s.share == 0 then minted * minted <= d0 * d1 < (minted + 1) * (minted + 1)
            else && minted * s.pool0 <= d0 * s.share && minted * s.pool1 <= d1 * s.share
                 && (d0 * s.share < (minted + 1) * s.pool0 || d1 * s.share < (minted + 1) * s.pool1)
  {
    if 0 < s.share {
      var minted := t.share - s.share;
      DivPinned(d0 * s.share, s.pool0);
      DivPinned(d1 * s.share, s.pool1);
      MulLe(minted, d0 * s.share / s.pool0, s.pool0);
      MulLe(minted, d1 * s.share / s.pool1, s.pool1);
    }
  }

  lemma QuotientPositive(n: nat, b: nat)
    requires 0 < b
    ensures 0 < n / b <==> b <= n
  {
    if b <= n {
      DivAtLeast(n, b, 1);
    } else {
      DivLess(n, b, 1);
    }
  }

  lemma RootPositive(n: nat)
    ensures 0 < ISqrt(n) <==> 0 < n
    ensures ISqrt(n) <= n
  {
    var r := ISqrt(n);
    if 0 < r {
      MulLe(1, r, r);
    }
  }

  lemma LaterMintExactly(s: Pair, d0: nat, d1: nat)
    requires 0 < s.share
    ensures MintedShare(s, d0, d1) ==
      if 0 < s.pool0 && 0 < s.pool1 && d0 * s.share / s.pool0 <= U128_MAX && d1 * s.share / s.pool1 <= U128_MAX
      then Some(Min(d0 * s.share / s.pool0, d1 * s.share / s.pool1)) else None
  {
  }

  lemma ProvideDecided(s: Pair, d0: nat, d1: nat)
    ensures Apply(s, Provide(d0, d1)).Some? <==>
      && s.pool0 + d0 <= U128_MAX && s.pool1 + d1 <= U128_MAX
      && MintedShare(s, d0, d1).Some? && 0 < MintedShare(s, d0, d1).value
      && s.share + MintedShare(s, d0, d1).value <= U128_MAX
  {
  }

  /** Exactly when a first deposit succeeds: the pools stay within 128 bits and so does the product, which is
      not zero. */
  lemma FirstProvideSucceedsExactly(s: Pair, d0: nat, d1: nat)
    requires s.share == 0
    ensures Apply(s, Provide(d0, d1)).Some? <==>
      s.pool0 + d0 <= U128_MAX && s.pool1 + d1 <= U128_MAX && 0 < d0 * d1 <= U128_MAX
  {
    ProvideDecided(s, d0, d1);
    RootPositive(d0 * d1);
  }

  /** Exactly when a later one does: the pools and the supply stay within 128 bits, and each deposit is worth a
      share. */
  lemma LaterProvideSucceedsExactly(s: Pair, d0: nat, d1: nat)
    requires 0 < s.share
    ensures Apply(s, Provide(d0, d1)).Some? <==>
      && s.pool0 + d0 <= U128_MAX && s.pool1 + d1 <= U128_MAX
      && 0 < s.pool0 <= d0 * s.share && 0 < s.pool1 <= d1 * s.share
      && d0 * s.share / s.pool0 <= U128_MAX && d1 * s.share / s.pool1 <= U128_MAX
      && s.share + Min(d0 * s.share / s.pool0, d1 * s.share / s.pool1) <= U128_MAX
  {
    ProvideDecided(s, d0, d1);
    LaterMintExactly(s, d0, d1);
    if 0 < s.pool0 && 0 < s.pool1 {
      QuotientPositive(d0 * s.share, s.pool0);
      QuotientPositive(d1 * s.share, s.pool1);
    }
  }

  /** A withdrawal succeeds exactly when that many shares exist, and pays each pool's part of them, short by at
      most ceil(pool / 10^18). */
  lemma WithdrawPays(s: Pair, amount: nat)
    ensures Apply(s, Withdraw(amount)).Some? <==> 0 < s.share && amount <= s.share
    ensures Apply(s, Withdraw(amount)).Some? ==>
      var t := Apply(s, Withdraw(amount)).value;
      && t.share == s.share - amount && t.pool0 <= s.pool0 && t.pool1 <= s.pool1
      && s.pool0 - t.pool0 <= s.pool0 * amount / s.share <= s.pool0 - t.pool0 + CeilDiv(s.pool0, E)
      && s.pool1 - t.pool1 <= s.pool1 * amount / s.share <= s.pool1 - t.pool1 + CeilDiv(s.pool1, E)
  {
    if 0 < s.share && amount <= s.share {
      RefundKeepsShare(s.pool0, amount, s.share);
      RefundKeepsShare(s.pool1, amount, s.share);
      RefundRefinesInteger(s.pool0, amount, s.share);
      RefundRefinesInteger(s.pool1, amount, s.share);
    }
  }

  // ----- whole runs -----

  /** Every message of the run passes its guard in the state it meets. */
  predicate GuardedRun(s: Pair, messages: seq<Message>)
    decreases messages
  {
    messages == [] ||
    (Guarded(s, messages[0]) && GuardedRun(Next(s, messages[0]), messages[1..]))
  }

  /** The share supply never runs out during the run. */
  predicate LiveRun(s: Pair, messages: seq<Message>)
    decreases messages
  {
    0 < s.share && (messages == [] || LiveRun(Next(s, messages[0]), messages[1..]))
  }

  /** The pool a swap pays into, counting the offer, is within 10^18. */
  predicate SmallOffer(s: Pair, m: Message) {
    match m
    case Swap(true, offer) => s.pool0 + offer <= E
    case Swap(false, offer) => s.pool1 + offer <= E
    case _ => true
  }

  predicate SmallRun(s: Pair, messages: seq<Message>)
    decreases messages
  {
    messages == [] ||
    (SmallOffer(s, messages[0]) && SmallRun(Next(s, messages[0]), messages[1..]))
  }

  lemma NotWorseTransitive(s: Pair, t: Pair, u: Pair)
    requires NotWorse(s, t) && NotWorse(t, u) && 0 < t.share
    ensures NotWorse(s, u)
  {
    var s2, t2, u2 := s.share * s.share, t.share * t.share, u.share * u.share;
    assert 0 < t2;
    MulLe(K(s) * t2, K(t) * s2, u2);
    MulLe(K(t) * u2, K(u) * t2, s2);
    assert (K(s) * t2) * u2 == (K(s) * u2) * t2;
    assert (K(t) * s2) * u2 == (K(t) * u2) * s2;
    assert (K(u) * t2) * s2 == (K(u) * s2) * t2;
    CancelLe(K(s) * u2, K(u) * s2, t2);
  }

  /** Over every guarded run during which shares exist, k per squared share never falls. */
  lemma {:induction false} RunKeepsK(s: Pair, messages: seq<Message>)
    requires GuardedRun(s, messages) && LiveRun(s, messages)
    ensures NotWorse(s, Run(s, messages))
    decreases messages
  {
    if messages != [] {
      var t := Next(s, messages[0]);
      if Apply(s, messages[0]).Some? {
        StepKeepsK(s, messages[0], t);
      }
      RunKeepsK(t, messages[1..]);
      NotWorseTransitive(s, t, Run(t, messages[1..]));
    }
  }

  /** The supply is backed: its square is at most k. */
  predicate Backed(s: Pair) {
    s.share * s.share <= K(s)
  }

  lemma FirstMintIsBacked(s: Pair, d0: nat, d1: nat, t: Pair)
    requires Apply(s, Provide(d0, d1)) == Some(t) && s.share == 0
    ensures Backed(t)
  {
    MulLeBoth(d0, t.pool0, d1, t.pool1);
  }

  lemma BackedFollows(k: nat, k': nat, s: nat, t: nat)
    requires 0 < s && s <= k && k * t <= k' * s
    ensures t <= k'
  {
    MulLe(s, k, t);
    CancelLe(t, k', s) by { assert s * t == t * s; }
  }

  lemma StepKeepsBacked(s: Pair, m: Message, t: Pair)
    requires Apply(s, m) == Some(t) && Backed(s) && Guarded(s, m)
    ensures Backed(t)
  {
    if s.share == 0 {
      if m.Provide? {
        FirstMintIsBacked(s, m.deposit0, m.deposit1, t);
      }
    } else {
      FactorsKeepPositive(s.share, s.share);
      StepKeepsK(s, m, t);
      BackedFollows(K(s), K(t), s.share * s.share, t.share * t.share);
    }
  }

  /** In every state a guarded run reaches from a pair without shares, also across full withdrawals
      and restarts, the squared supply is at most k. So while shares exist both pools are positive
      and every later division by a pool is defined. */
  lemma {:induction false} RunIsBacked(s: Pair, messages: seq<Message>)
    requires Backed(s) && GuardedRun(s, messages)
    ensures Backed(Run(s, messages))
    ensures 0 < Run(s, messages).share ==> 0 < Run(s, messages).pool0 && 0 < Run(s, messages).pool1
    decreases messages
  {
    if messages == [] {
      if 0 < s.share {
        assert 0 < s.share * s.share;
        FactorsPositive(s.pool0, s.pool1);
      }
    } else {
      var t := Next(s, messages[0]);
      if Apply(s, messages[0]).Some? {
        StepKeepsBacked(s, messages[0], t);
      }
      RunIsBacked(t, messages[1..]);
    }
  }

  lemma SmallOfferIsGuarded(s: Pair, m: Message)
    requires SmallOffer(s, m)
    ensures Guarded(s, m)
  {
    if m.Swap? {
      var o, a := if m.offersFirst then s.pool0 else s.pool1, if m.offersFirst then s.pool1 else s.pool0;
      if 0 < o + m.offer {
        GrossIsExact(o, a, m.offer);
      }
    }
  }

  /** Runs whose offer sides stay within 10^18 pass every guard. */
  lemma {:induction false} SmallRunIsGuarded(s: Pair, messages: seq<Message>)
    requires SmallRun(s, messages)
    ensures GuardedRun(s, messages)
    decreases messages
  {
    if messages != [] {
      SmallOfferIsGuarded(s, messages[0]);
      SmallRunIsGuarded(Next(s, messages[0]), messages[1..]);
    }
  }

  // ----- the contract -----

  datatype Asset = Asset(info: string, amount: nat)

  function Find(assets: seq<Asset>, info: string): Option<nat> {
    if assets == [] then None
    else if assets[0].info == info then Some(assets[0].amount)
    else Find(assets[1..], info)
  }

  predicate IsFirst(assets: seq<Asset>, info: string, k: nat) {
    k < |assets| && assets[k].info == info && forall l :: 0 <= l < k ==> assets[l].info != info
  }

  /** The amount of the first asset of that name, if there is one. */
  lemma {:induction false} FindsFirst(assets: seq<Asset>, info: string)
    ensures Find(assets, info).Some? <==> exists k :: 0 <= k < |assets| && assets[k].info == info
    ensures forall k: nat :: IsFirst(assets, info, k) ==> Find(assets, info) == Some(assets[k].amount)
  {
    if assets != [] {
      var rest := assets[1..];
      FindsFirst(rest, info);
      if assets[0].info != info {
        forall k: nat | IsFirst(assets, info, k) ensures Find(assets, info) == Some(assets[k].amount) {
          assert forall l :: 0 <= l < k - 1 ==> rest[l] == assets[l + 1];
          assert IsFirst(rest, info, k - 1);
        }
        if Find(rest, info).Some? {
          var k :| 0 <= k < |rest| && rest[k].info == info;
          assert assets[k + 1].info == info;
        }
        if k :| 0 <= k < |assets| && assets[k].info == info {
          assert rest[k - 1].info == info;
        }
      }
    }
  }

  class PairContract {
    const asset0: string
    const asset1: string
    const native: seq<bool>
    var pool0: nat
    var pool1: nat
    var totalShare: nat

    predicate Valid()
      reads this
    {
      |native| == 2 && asset0 != asset1 && pool0 <= U128_MAX && pool1 <= U128_MAX
    }

    function State(): Pair
      reads this
    {
      Pair(pool0, pool1, totalShare)
    }

    constructor (asset0: string, asset1: string, native: seq<bool>)
      requires asset0 != asset1 && |native| == 2
      ensures Valid() && State() == Pair(0, 0, 0) && Backed(State())
      ensures this.asset0 == asset0 && this.asset1 == asset1 && this.native == native
    {
      this.asset0, this.asset1, this.native := asset0, asset1, native;
      pool0, pool1, totalShare := 0, 0, 0;
    }

    /** Success moves to the state of `Apply`; failure leaves everything as it was. */
    twostate predicate Did(m: Message, ok: bool)
      reads this
    {
      match Apply(old(State()), m)
      case Some(t) => ok && State() == t
      case None => !ok && State() == old(State())
    }

    /** Native coins are credited before the handler reads the balances, so it takes them off again;
        token coins arrive only with its own messages. */
    method ProvideLiquidity(assets: seq<Asset>) returns (ok: bool)
      requires Valid()
      modifies this
      ensures Valid()
      ensures var d0, d1 := Find(assets, asset0), Find(assets, asset1);
              if d0.Some? && d1.Some? then Did(Provide(d0.value, d1.value), ok)
              else !ok && State() == old(State())
    {
      var d0, d1 := Find(assets, asset0), Find(assets, asset1);
      if d0.None? || d1.None? {
        return false;
      }
      var deposits := [d0.value, d1.value];
      if U128_MAX < pool0 + deposits[0] || U128_MAX < pool1 + deposits[1] {
        return false;
      }
      var pools := [pool0, pool1];
      var i := 0;
      while i < 2
        invariant 0 <= i <= 2 && pools == [pool0, pool1]
      {
        var queried := pools[i] + if native[i] then deposits[i] else 0;
        if native[i] {
          queried := queried - deposits[i];
        }
        pools := pools[i := queried];
        i := i + 1;
      }
      var share;
      if totalShare == 0 {
        var product := CheckedMul(deposits[0], deposits[1]);
        if product.None? {
          return false;
        }
        share := ISqrt(product.value);
      } else {
        var share0 := MulRatio(deposits[0], totalShare, pools[0]);
        var share1 := MulRatio(deposits[1], totalShare, pools[1]);
        if share0.None? || share1.None? {
          return false;
        }
        share := Min(share0.value, share1.value);
      }
      if share == 0 || U128_MAX < totalShare + share {
        return false;
      }
      pool0, pool1, totalShare := pool0 + deposits[0], pool1 + deposits[1], totalShare + share;
      ok := true;
    }

    method WithdrawLiquidity(amount: nat) returns (ok: bool)
      requires Valid()
      modifies this
      ensures Valid() && Did(Withdraw(amount), ok)
    {
      if totalShare == 0 || totalShare < amount {
        return false;
      }
      RefundKeepsShare(pool0, amount, totalShare);
      RefundKeepsShare(pool1, amount, totalShare);
      var refund0, refund1 := Refund(pool0, amount, totalShare), Refund(pool1, amount, totalShare);
      pool0, pool1, totalShare := pool0 - refund0, pool1 - refund1, totalShare - amount;
      ok := true;
    }

    /** The offer has already been credited when the handler reads the balances. */
    method Swap(offer: Asset) returns (ok: bool)
      requires Valid()
      modifies this
      ensures Valid()
      ensures if offer.info == asset0 then Did(Message.Swap(true, offer.amount), ok)
              else if offer.info == asset1 then Did(Message.Swap(false, offer.amount), ok)
              else !ok && State() == old(State())
    {
      var balance0 := pool0 + if offer.info == asset0 then offer.amount else 0;
      var balance1 := pool1 + if offer.info == asset1 then offer.amount else 0;
      if U128_MAX < balance0 || U128_MAX < balance1 {
        return false;
      }
      var offerPool, askPool;
      if offer.info == asset0 {
        offerPool, askPool := balance0 - offer.amount, balance1;
      } else if offer.info == asset1 {
        offerPool, askPool := balance1 - offer.amount, balance0;
      } else {
        return false;
      }
      var r := ComputeSwap(offerPool, askPool, offer.amount);
      if r.None? {
        return false;
      }
      SwapShape(offerPool, askPool, offer.amount, r.value);
      if offer.info == asset0 {
        pool0, pool1 := balance0, balance1 - r.value.returned;
      } else {
        pool0, pool1 := balance0 - r.value.returned, balance1;
      }
      ok := true;
    }
  }
}
