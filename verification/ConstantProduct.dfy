/** Pricing in the constant-product pair (contracts/terraswap_pair_deprecated/src/contract.rs). */
module ConstantProduct {
  import opened Options
  import opened Checked
  import opened Arithmetic
  import opened FixedPoint

  /** 0.3% in atomics. */
  const COMMISSION_RATE: nat := 3_000_000_000_000_000

  datatype SwapResult = SwapResult(returned: nat, spread: nat, commission: nat)
  datatype OfferResult = OfferResult(offered: nat, spread: nat, commission: nat)

  /** Arguments are 128-bit amounts, so of the 256-bit products only the one inside `RatioDec` can be
      what overflows: a pool times a pool or times 10^18 stays below 2^256, and an ideal return beyond
      2^256 / 10^18 leaves a spread that fails the 128-bit conversion. */
  function ComputeSwap(offerPool: nat, askPool: nat, offerAmount: nat): Option<SwapResult> {
    var kept :- RatioDec(offerPool * askPool, offerPool + offerAmount);
    var atoms :- CheckedSub(askPool * E, kept);
    var gross := atoms / E;
    var price :- CheckedDiv(askPool * E, offerPool);
    var ideal := TimesDec(offerAmount, price);
    var spread :- CheckedSub(ideal, gross);
    var commission := TimesDec(gross, COMMISSION_RATE);
    var net :- CheckedSub(gross, commission);
    var returned :- Fits(U128_MAX, net);
    var spread' :- Fits(U128_MAX, spread);
    var commission' :- Fits(U128_MAX, commission);
    Some(SwapResult(returned, spread', commission'))
  }

  /** 1 / (1 - 0.003) in atomics, rounded down. */
  const INVERSE: nat := E * E / (E - COMMISSION_RATE)

  function ComputeOfferAmount(offerPool: nat, askPool: nat, askAmount: nat): Option<OfferResult> {
    var before := TimesDec(askAmount, INVERSE);
    var m :- CheckedSub(askPool, before);
    var w :- CheckedDiv(offerPool * askPool, m);
    var offered :- CheckedSub(w, offerPool);
    var price :- CheckedDiv(askPool * E, offerPool);
    var ideal := TimesDec(offered, price);
    var spread := if ideal > before then ideal - before else 0;
    var commission := TimesDec(before, COMMISSION_RATE);
    if spread == 0 || commission == 0 then None else
      var offered' :- Fits(U128_MAX, offered);
      var spread' :- Fits(U128_MAX, spread);
      var commission' :- Fits(U128_MAX, commission);
      Some(OfferResult(offered', spread', commission'))
  }

  // ----- the gross return -----

  lemma KeptAtMostAll(o: nat, a: nat, x: nat)
    requires 0 < o + x
    ensures o * a * E / (o + x) <= a * E
  {
    MulLe(o, o + x, a * E);
    assert o * (a * E) == o * a * E;
    DivLess(o * a * E, o + x, a * E + 1) by {
      assert (a * E + 1) * (o + x) == (o + x) * (a * E) + (o + x);
    }
  }

  /** What the offer buys before commission, through two floored decimals. */
  function Gross(o: nat, a: nat, x: nat): nat
    requires 0 < o + x
  {
    KeptAtMostAll(o, a, x);
    (a * E - o * a * E / (o + x)) / E
  }

  function Commission(gross: nat): nat {
    gross * COMMISSION_RATE / E
  }

  /** Exactly when the double floor rounds up: the residue of k is nonzero but below w / 10^18. */
  predicate RoundsUp(offerPool: nat, askPool: nat, w: nat)
    requires 0 < w
  {
    0 < (offerPool * askPool % w) * E < w
  }

  /** The exact product split by w, with the ask side counted from the full pool. */
  lemma ProductSplit(o: nat, a: nat, x: nat, w: nat) returns (g: nat, r: nat, m: nat)
    requires w == o + x && 0 < w
    ensures g == a * x / w && g <= a
    ensures o * a + a * x == a * w && a * x == g * w + r && r < w
    ensures m == o * a % w
    ensures m == (if r == 0 then 0 else w - r)
    ensures o * a == (if r == 0 then a - g else a - g - 1) * w + m
    ensures r != 0 ==> g < a
  {
    g, m := a * x / w, o * a % w;
    assert a * w == o * a + a * x;
    r := QuotientRest(a * x, w, g, a);
    SplitRemainder(a, g, r, w, o * a);
  }

  lemma QuotientRest(n: nat, w: nat, g: nat, a: nat) returns (r: nat)
    requires 0 < w && g == n / w && n <= a * w
    ensures n == g * w + r && r < w && g <= a
  {
    DivPinned(n, w);
    r := n - g * w;
    assert (g + 1) * w == g * w + w;
    CancelLe(g, a, w);
  }

  lemma SplitRemainder(a: nat, g: nat, r: nat, w: nat, cp: nat)
    requires r < w && g <= a && cp + g * w + r == a * w
    ensures r != 0 ==> g < a
    ensures cp % w == (if r == 0 then 0 else w - r)
    ensures cp == (if r == 0 then a - g else a - g - 1) * w + cp % w
  {
    assert (a - g) * w == a * w - g * w;
    if r == 0 {
      QuotientUnique(cp, w, a - g, 0);
    } else {
      assert g < a;
      assert (a - g - 1) * w == (a - g) * w - w;
      QuotientUnique(cp, w, a - g - 1, w - r);
    }
  }

  /** The double-floored fixed-point return is the exact floor, plus one exactly when it rounds up.
      It never does while the offer side stays within 10^18. */
  lemma GrossIsExact(o: nat, a: nat, x: nat)
    requires 0 < o + x
    ensures Gross(o, a, x) == a * x / (o + x) + (if RoundsUp(o, a, o + x) then 1 else 0)
    ensures o + x <= E ==> !RoundsUp(o, a, o + x)
  {
    var w := o + x;
    var g, r, m := ProductSplit(o, a, x, w);
    var q := if r == 0 then a - g else a - g - 1;
    FlooredAtoms(o * a, q, w, m);
    GrossFromAtoms(a, g, q, m * E / w, o * a * E / w);
  }

  lemma GrossFromAtoms(a: nat, g: nat, q: nat, s: nat, kept: nat)
    requires kept == q * E + s && s < E && ((q == a - g && s == 0) || q == a - g - 1)
    ensures (a * E - kept) / E == if q == a - g - 1 && s == 0 then g + 1 else g
  {
  }

  lemma FlooredAtoms(cp: nat, q: nat, w: nat, m: nat)
    requires m < w && cp == q * w + m
    ensures cp * E / w == q * E + m * E / w && m * E / w < E
    ensures m * E / w == 0 <==> m * E < w
    ensures w <= E ==> (m * E < w <==> m == 0)
  {
    var s := QuotientOf(m * E, w);
    MulLe(m + 1, w, E);
    CancelLt(s, E, w);
    AtomsQuotient(cp, q, w, m, s);
  }

  lemma QuotientOf(n: nat, w: nat) returns (s: nat)
    requires 0 < w
    ensures s == n / w && s * w <= n < s * w + w
    ensures s == 0 <==> n < w
  {
    s := n / w;
    DivPinned(n, w);
    assert (s + 1) * w == s * w + w;
    if 0 < s {
      MulLe(1, s, w);
    }
  }

  lemma AtomsQuotient(cp: nat, q: nat, w: nat, m: nat, s: nat)
    requires m < w && cp == q * w + m && s * w <= m * E < s * w + w
    ensures cp * E / w == q * E + s
  {
    assert (q * w + m) * E == (q * E) * w + m * E;
    assert (q * E + s) * w == (q * E) * w + s * w;
    QuotientUnique(cp * E, w, q * E + s, m * E - s * w);
  }

  // ----- k under swaps -----

  /** k after the swap, the commission staying in the pool. */
  function KAfterSwap(o: nat, a: nat, x: nat): int
    requires 0 < o + x
  {
    var gross := Gross(o, a, x);
    (o + x) * (a - (gross - Commission(gross)))
  }

  lemma CommissionFree(gross: nat)
    ensures Commission(gross) == 0 <==> gross <= 333
    ensures Commission(gross) <= gross
  {
  }

  /** The exact condition under which a swap does not lower k: the return did not round up, or it is
      at least 334, so that the commission left in the pool is worth at least one unit. */
  predicate KeepsK(o: nat, a: nat, x: nat)
    requires 0 < o + x
  {
    RoundsUp(o, a, o + x) ==> 333 <= a * x / (o + x)
  }

  lemma KGain(w: nat, a: nat, g: nat, r: nat, up: nat, com: nat, cp: nat)
    requires cp == a * w - g * w - r && r < w
    ensures w * (a - (g + up - com)) == cp + r - up * w + com * w
  {
    assert w * (a - (g + up - com)) == a * w - g * w - up * w + com * w;
  }

  /** A swap lowers k exactly when the guard fails; the guard reads only the pools and the offer. */
  lemma SwapKeepsKExactly(o: nat, a: nat, x: nat)
    requires 0 < o + x
    ensures Gross(o, a, x) <= a
    ensures o * a <= KAfterSwap(o, a, x) <==> KeepsK(o, a, x)
  {
    GrossAtMostPool(o, a, x);
    var w := o + x;
    var g, r, m := ProductSplit(o, a, x, w);
    GrossIsExact(o, a, x);
    var up := if RoundsUp(o, a, w) then 1 else 0;
    var com := Commission(g + up);
    CommissionFree(g + up);
    KGain(w, a, g, r, up, com, o * a);
    MulLe(if 0 < com then 1 else 0, com, w);
  }

  /** The guard can fail: with an offer side just above 10^18 a swap pays out one whole unit for an
      exact value below one, and k drops. */
  lemma SwapCanLowerK()
    ensures var o, a, x := 500_000_000_000_000_001, 2, 500_000_000_000_000_000;
            && ComputeSwap(o, a, x) == Some(SwapResult(1, 0, 0))
            && (o + x) * (a - 1) < o * a
            && !KeepsK(o, a, x)
  {
    var o, a, x := 500_000_000_000_000_001, 2, 500_000_000_000_000_000;
    KeptJustBelow(E);
    assert o * a == E + 2 && o + x == E + 1;
    assert RatioDec(E + 2, E + 1) == Some(E);
    QuotientUnique(a * E, o, 3, 499_999_999_999_999_997);
    assert CheckedDiv(a * E, o) == Some(3);
    SwapFrom(o, a, x, E, 3);
    SwapKeepsKExactly(o, a, x);
    assert Gross(o, a, x) == 1;
  }

  lemma KeptJustBelow(n: nat)
    requires 1 < n
    ensures (n + 2) * n / (n + 1) == n && (n + 2) % (n + 1) == 1
  {
    assert (n + 2) * n == n * (n + 1) + n;
    QuotientUnique((n + 2) * n, n + 1, n, n);
    QuotientUnique(n + 2, n + 1, 1, 1);
  }

  /** The swap in terms of its two decimals. */
  lemma SwapFrom(o: nat, a: nat, x: nat, kept: nat, price: nat)
    requires RatioDec(o * a, o + x) == Some(kept) && CheckedDiv(a * E, o) == Some(price)
    requires x * price <= U128_MAX && a <= U128_MAX && kept <= a * E
    requires (a * E - kept) / E <= x * price / E
    ensures var gross := (a * E - kept) / E;
            ComputeSwap(o, a, x) == Some(SwapResult(gross - Commission(gross), x * price / E - gross, Commission(gross)))
  {
    CommissionFree((a * E - kept) / E);
  }

  lemma SwapShape(o: nat, a: nat, x: nat, s: SwapResult)
    requires ComputeSwap(o, a, x) == Some(s)
    ensures 0 < o && Gross(o, a, x) <= a
    ensures s.commission == Commission(Gross(o, a, x))
    ensures s.returned == Gross(o, a, x) - s.commission
    ensures s.spread == x * (a * E / o) / E - Gross(o, a, x)
    ensures s.returned <= a
  {
    SwapKeepsKExactly(o, a, x);
  }

  // ----- when a swap is defined -----

  lemma PriceFloor(o: nat, a: nat)
    requires 0 < o
    ensures a * E - (o - 1) <= (a * E / o) * o
  {
    DivPinned(a * E, o);
    assert (a * E / o + 1) * o == (a * E / o) * o + o;
  }

  /** The gross return exceeds the exact quotient by less than w / 10^18, if at all. */
  lemma GrossExcess(o: nat, a: nat, x: nat) returns (mu: nat)
    requires 0 < o + x
    ensures Gross(o, a, x) * (o + x) <= a * x + mu
    ensures mu * E < o + x && mu < o + x
    ensures o + x <= E ==> mu == 0
  {
    var w := o + x;
    var g, r, m := ProductSplit(o, a, x, w);
    GrossIsExact(o, a, x);
    mu := if RoundsUp(o, a, w) then m else 0;
    assert (g + 1) * w == g * w + w;
  }

  lemma SpreadAlgebra(o: nat, a: nat, x: nat, mu: nat, gross: nat, price: nat)
    requires 0 < o && 0 < x && 1 <= gross
    requires gross * (o + x) <= a * x + mu && mu * E < o + x
    requires a * E - (o - 1) <= price * o
    requires 2 * o <= E || (mu == 0 && o <= E)
    ensures gross * E <= x * price
  {
    var w, ax := o + x, a * x;
    MulLe(1, gross, w);
    var have := ax * E - x * (o - 1);
    assert have <= (x * price) * o by {
      MulLe(a * E - (o - 1), price * o, x);
      assert (a * E - (o - 1)) * x == ax * E - x * (o - 1);
      assert (price * o) * x == (x * price) * o;
    }
    SpreadCore(o, x, w, ax, mu);
    SpreadCancel(o, x, w, gross, price, ax + mu, have);
  }

  lemma SpreadCancel(o: nat, x: nat, w: nat, gross: nat, price: nat, limit: nat, have: int)
    requires 0 < o && 0 < w && gross * w <= limit
    requires (limit * E) * o <= have * w && have <= (x * price) * o
    ensures gross * E <= x * price
  {
    MulLe(gross * w, limit, E);
    MulLe((gross * w) * E, limit * E, o);
    MulLe(have, (x * price) * o, w);
    assert ((gross * w) * E) * o == (gross * E) * (o * w);
    assert ((x * price) * o) * w == (x * price) * (o * w);
    MulLe(1, o, w);
    CancelLe(gross * E, x * price, o * w);
  }

  /** What the price's floor leaves over, per unit offered. */
  lemma SpreadMargin(o: nat, w: nat, ax: nat, mu: nat)
    requires 0 < o && w <= ax + mu && mu * E < w
    requires 2 * o <= E || (mu == 0 && o <= E)
    ensures (mu * E) * o <= ax * E - (o - 1) * w
    ensures 0 <= ax * E - (o - 1) * w
  {
    if mu == 0 {
      MulLeBoth(o - 1, E, w, ax);
    } else {
      MulLe(2 * o, E, w);
      assert (2 * o) * w == o * w + o * w;
      assert (o - 1) * w == o * w - w;
      MulLe(mu * E, w, o);
    }
  }

  lemma SpreadCore(o: nat, x: nat, w: nat, ax: nat, mu: nat)
    requires 0 < o && 0 < x && w == o + x && w <= ax + mu && mu * E < w
    requires 2 * o <= E || (mu == 0 && o <= E)
    ensures ((ax + mu) * E) * o <= (ax * E - x * (o - 1)) * w
  {
    SpreadMargin(o, w, ax, mu);
    var atoms, t := ax * E, ax * E - (o - 1) * w;
    MulLe(1, x, t);
    SpreadExpand(o, x, w, atoms, t);
    assert ((ax + mu) * E) * o == atoms * o + (mu * E) * o;
  }

  lemma SpreadExpand(o: nat, x: nat, w: nat, atoms: nat, t: int)
    requires 0 < o && w == o + x && t == atoms - (o - 1) * w
    ensures (atoms - x * (o - 1)) * w == atoms * o + x * t
  {
    var u, v := (o - 1) * w, x * (o - 1);
    MulSub(w, atoms, v);
    assert w * atoms == atoms * o + atoms * x;
    assert w * v == x * u by { MulAssoc(x, o - 1, w); }
    MulSub(x, atoms, u);
  }

  /** The spread subtraction cannot underflow while the offer pool is at most half of 10^18, or the
      whole offer side at most 10^18. */
  lemma SpreadNeverUnderflows(o: nat, a: nat, x: nat)
    requires 0 < o && (2 * o <= E || o + x <= E)
    ensures Gross(o, a, x) <= x * (a * E / o) / E
  {
    var gross, price := Gross(o, a, x), a * E / o;
    if x == 0 {
      GrossOfNothing(o, a);
    } else if gross != 0 {
      var mu := GrossExcess(o, a, x);
      PriceFloor(o, a);
      SpreadAlgebra(o, a, x, mu, gross, price);
      DivAtLeast(x * price, E, gross);
    }
  }

  lemma GrossOfNothing(o: nat, a: nat)
    requires 0 < o
    ensures Gross(o, a, 0) == 0
  {
    GrossIsExact(o, a, 0);
    QuotientUnique(a * 0, o, 0, 0);
    QuotientUnique(o * a, o, a, 0);
  }

  /** Pools within 10^18 can always be swapped against. */
  lemma SwapIsDefined(o: nat, a: nat, x: nat)
    requires 0 < o && o + x <= E && a <= E
    ensures ComputeSwap(o, a, x).Some?
  {
    SpreadNeverUnderflows(o, a, x);
    KeptAtMostAll(o, a, x);
    GrossAtMostPool(o, a, x);
    PriceFits(o, a, x);
    MulLeBoth(o, E, a, E);
    CommissionFree(Gross(o, a, x));
  }

  lemma GrossAtMostPool(o: nat, a: nat, x: nat)
    requires 0 < o + x
    ensures Gross(o, a, x) <= a
  {
  }

  lemma PriceFits(o: nat, a: nat, x: nat)
    requires 0 < o && x <= E && a <= E
    ensures x * (a * E / o) <= E * E * E
  {
    var price := a * E / o;
    DivMono(a * E, o, a * E, 1);
    MulLeBoth(x, E, price, E * E);
  }

  /** Exactly when a swap of 128-bit amounts is defined: the offer pool is not empty, k times 10^18 fits in 256
      bits, and the spread is neither negative nor beyond 128 bits. */
  lemma SwapDefinedExactly(o: nat, a: nat, x: nat)
    requires a <= U128_MAX
    ensures ComputeSwap(o, a, x).Some? <==>
      && 0 < o && o * a * E <= U256_MAX
      && Gross(o, a, x) <= x * (a * E / o) / E <= Gross(o, a, x) + U128_MAX
  {
    if 0 < o {
      KeptAtMostAll(o, a, x);
      GrossAtMostPool(o, a, x);
      CommissionFree(Gross(o, a, x));
    }
  }

  /** The commission is three in a thousand of the gross return, rounded down, in the trader's favour. */
  lemma NetPinned(gross: nat)
    ensures Commission(gross) <= gross
    ensures 997 * gross <= 1000 * (gross - Commission(gross)) < 997 * gross + 1000
  {
    assert COMMISSION_RATE * 1000 == 3 * E;
    DivPinned(gross * COMMISSION_RATE, E);
  }

  // ----- quoting, then swapping -----

  function Net(gross: nat): nat {
    gross - Commission(gross)
  }

  lemma NetMono(g: nat, g': nat)
    requires g <= g'
    ensures Net(g) <= Net(g') <= Net(g) + (g' - g)
  {
  }

  /** Net undoes the inverse commission from both sides. */
  lemma NetOfInverse(x: nat)
    ensures Net(x * INVERSE / E) <= x
    ensures x <= Net(x * INVERSE / E) + 997 * (x + E) / (1000 * E)
  {
    assert INVERSE == 1_003_009_027_081_243_731;
    var before := x * INVERSE / E;
    assert before * E <= x * INVERSE < before * E + E;
  }

  lemma RoundTripUpper(o: nat, a: nat, before: nat, m: nat, w: nat)
    requires 0 < m && before + m == a && w == o * a / m && o <= w && 0 < o
    ensures Gross(o, a, w - o) <= before
  {
    DivPinned(o * a, m);
    MulLe(w * m, o * a, E);
    assert (m * E) * w == (w * m) * E;
    DivAtLeast(o * a * E, w, m * E);
  }

  lemma RoundTripLower(o: nat, a: nat, before: nat, m: nat, w: nat)
    requires 0 < m && before + m == a && w == o * a / m && o <= w && 0 < o
    ensures before <= Gross(o, a, w - o) + CeilDiv(m, w)
  {
    var c := CeilDiv(m, w);
    DivPinned(o * a, m);
    CeilDivCovers(m, w);
    assert (w + 1) * m == w * m + m;
    assert o * a < (m + c) * w by { assert (m + c) * w == w * m + c * w; }
    MulLe(o * a + 1, (m + c) * w, E);
    assert ((m + c) * w) * E == ((m + c) * E) * w;
    DivLess(o * a * E, w, (m + c) * E);
  }

  /** The offer quoted for an ask of x buys, where the swap is defined, at most x; and it falls short
      of x by no more than ceil(m / w) for the floored offer and the fixed-point slack, where m is
      what the ask pool keeps and w the offer pool after the swap. */
  lemma QuoteThenSwap(o: nat, a: nat, x: nat, q: OfferResult, s: SwapResult)
    requires ComputeOfferAmount(o, a, x) == Some(q)
    requires ComputeSwap(o, a, q.offered) == Some(s)
    ensures s.returned <= x
    ensures var before := x * INVERSE / E;
            && before < a && 0 < o + q.offered
            && x <= s.returned + CeilDiv(a - before, o + q.offered) + 997 * (x + E) / (1000 * E)
  {
    var before := x * INVERSE / E;
    var m := a - before;
    var w := o * a / m;
    SwapShape(o, a, q.offered, s);
    assert q.offered == w - o;
    RoundTripUpper(o, a, before, m, w);
    RoundTripLower(o, a, before, m, w);
    var gross, c := Gross(o, a, w - o), CeilDiv(m, w);
    NetOfInverse(x);
    NetMono(gross, before);
  }

  /** Up to 3 * 10^15 the fixed-point slack vanishes. */
  lemma QuoteThenSwapSmall(o: nat, a: nat, x: nat, q: OfferResult, s: SwapResult)
    requires x <= 3_000_000_000_000_000
    requires ComputeOfferAmount(o, a, x) == Some(q)
    requires ComputeSwap(o, a, q.offered) == Some(s)
    ensures var before := x * INVERSE / E;
            && before < a && 0 < o + q.offered
            && s.returned <= x <= s.returned + CeilDiv(a - before, o + q.offered)
  {
    QuoteThenSwap(o, a, x, q, s);
  }

  lemma OfferShape(o: nat, a: nat, x: nat, q: OfferResult)
    requires ComputeOfferAmount(o, a, x) == Some(q)
    ensures var before := x * INVERSE / E;
            && before < a && 0 < o && o + q.offered == o * a / (a - before)
            && q.commission == Commission(before) > 0
            && 0 < q.spread && q.spread + before == q.offered * (a * E / o) / E
  {
  }

  /** Exactly when an ask has a quote: it leaves something of the ask pool, what has to be offered is not
      negative, and neither the spread nor the commission vanishes or outgrows 128 bits. */
  lemma OfferDefinedExactly(o: nat, a: nat, x: nat)
    ensures var before := x * INVERSE / E;
            ComputeOfferAmount(o, a, x).Some? <==>
              && before < a && 0 < o <= o * a / (a - before)
              && var offered := o * a / (a - before) - o;
                 var spread := offered * (a * E / o) / E - before;
                 && offered <= U128_MAX && 0 < spread <= U128_MAX && 334 <= before && Commission(before) <= U128_MAX
  {
    var before := x * INVERSE / E;
    CommissionFree(before);
  }

  /** The quote's other two figures bound the swap's: it pays no more commission than quoted and has
      no less spread, and each differs by at most ceil(m / w). */
  lemma QuoteThenSwapParts(o: nat, a: nat, x: nat, q: OfferResult, s: SwapResult)
    requires ComputeOfferAmount(o, a, x) == Some(q)
    requires ComputeSwap(o, a, q.offered) == Some(s)
    ensures var before := x * INVERSE / E;
            && before < a && 0 < o + q.offered
            && var c := CeilDiv(a - before, o + q.offered);
            && s.commission <= q.commission <= s.commission + c
            && q.spread <= s.spread <= q.spread + c
  {
    var before := x * INVERSE / E;
    var m := a - before;
    OfferShape(o, a, x, q);
    SwapShape(o, a, q.offered, s);
    RoundTripUpper(o, a, before, m, o + q.offered);
    RoundTripLower(o, a, before, m, o + q.offered);
    CommissionSlope(Gross(o, a, q.offered), before);
  }

  lemma CommissionSlope(g: nat, g': nat)
    requires g <= g'
    ensures Commission(g) <= Commission(g') <= Commission(g) + (g' - g)
  {
  }
}
