/** Eighteen-digit fixed point and the pro-rata refunds both pools pay with it. */
module FixedPoint {
  import opened Options
  import opened Checked
  import opened Arithmetic

  const E: nat := 1_000_000_000_000_000_000

  function Mul256(a: nat, b: nat): Option<nat> {
    Fits(U256_MAX, a * b)
  }

  /** `Decimal256::from_ratio` */
  function RatioDec(a: nat, b: nat): Option<nat> {
    var m :- Mul256(a, E);
    CheckedDiv(m, b)
  }

  /** An integer times a decimal given by its atomics. Every use is bounded to 128 bits afterwards,
      or is of an amount within 128 bits and a fixed decimal near one, so the 256-bit product cannot be what overflows. */
  function TimesDec(x: nat, atomics: nat): nat {
    x * atomics / E
  }

  /** `pool * Decimal::from_ratio(amount, total)`: two floors. */
  function Refund(pool: nat, amount: nat, total: nat): nat
    requires 0 < total
  {
    pool * (amount * E / total) / E
  }

  lemma RefundPinned(pool: nat, amount: nat, total: nat)
    requires 0 < total
    ensures (Refund(pool, amount, total) * E) * total <= (pool * amount) * E
    ensures (pool * amount) * E <= (Refund(pool, amount, total) * E + (E - 1)) * total + pool * (total - 1)
  {
    var ratio := amount * E / total;
    var r := Refund(pool, amount, total);
    DivPinned(amount * E, total);
    DivPinned(pool * ratio, E);
    MulLe(r * E, pool * ratio, total);
    MulLe(pool * ratio, r * E + (E - 1), total);
    MulLe(ratio * total, amount * E, pool);
    assert (ratio + 1) * total == ratio * total + total;
    MulLe(amount * E, ratio * total + (total - 1), pool);
    assert (pool * ratio) * total == (ratio * total) * pool;
    assert (amount * E) * pool == (pool * amount) * E;
    assert (ratio * total + (total - 1)) * pool == (ratio * total) * pool + pool * (total - 1);
  }

  /** The refund never exceeds the burned share of the pool, so what stays per share never falls. */
  lemma RefundKeepsShare(pool: nat, amount: nat, total: nat)
    requires 0 < total && amount <= total
    ensures Refund(pool, amount, total) * total <= pool * amount
    ensures Refund(pool, amount, total) <= pool
    ensures pool * (total - amount) <= (pool - Refund(pool, amount, total)) * total
  {
    var r := Refund(pool, amount, total);
    RefundPinned(pool, amount, total);
    assert (r * E) * total == (r * total) * E;
    CancelLe(r * total, pool * amount, E);
    MulLe(amount, total, pool);
    CancelLe(r, pool, total);
    MulSub(pool, total, amount);
    assert (pool - r) * total == pool * total - r * total;
  }

  /** Burning less than everything leaves something of every nonempty pool. */
  lemma RefundLeavesSome(pool: nat, amount: nat, total: nat)
    requires amount < total && 0 < pool
    ensures Refund(pool, amount, total) < pool
  {
    RefundKeepsShare(pool, amount, total);
    MulLe(1, total - amount, pool);
    FactorsPositive(pool - Refund(pool, amount, total), total);
  }

  /** The decimal refund refines the integer one: never more than floor(pool * amount / total), and
      short of it by at most ceil(pool / 10^18). */
  lemma RefundRefinesInteger(pool: nat, amount: nat, total: nat)
    requires 0 < total && amount <= total
    ensures Refund(pool, amount, total) <= pool * amount / total <= Refund(pool, amount, total) + CeilDiv(pool, E)
  {
    var r, exact := Refund(pool, amount, total), pool * amount / total;
    RefundKeepsShare(pool, amount, total);
    DivAtLeast(pool * amount, total, r);
    DivPinned(pool * amount, total);
    RefundPinned(pool, amount, total);
    CeilDivCovers(pool, E);
    ShortfallAlgebra(pool, total, r, exact, pool * amount, CeilDiv(pool, E));
  }

  lemma ShortfallAlgebra(pool: nat, total: nat, r: nat, exact: nat, product: nat, ceil: nat)
    requires 0 < total && exact * total <= product && pool <= ceil * E
    requires product * E <= (r * E + (E - 1)) * total + pool * (total - 1)
    ensures exact <= r + ceil
  {
    var bound := r * E + (E - 1);
    MulLe(exact * total, product, E);
    assert (exact * total) * E == (exact * E) * total;
    assert pool * (total - 1) <= pool * total;
    assert bound * total + pool * total == (bound + pool) * total;
    CancelLe(exact * E, bound + pool, total);
  }

  // ----- sequences of withdrawals -----

  /** Every burn is covered by the supply left by the ones before it. */
  predicate BurnsFit(total: nat, burns: seq<nat>)
    decreases burns
  {
    burns == [] || (0 < total && burns[0] <= total && BurnsFit(total - burns[0], burns[1..]))
  }

  function PoolAfter(pool: nat, total: nat, burns: seq<nat>): (r: nat)
    requires BurnsFit(total, burns)
    decreases burns
  {
    if burns == [] then pool
    else
      RefundKeepsShare(pool, burns[0], total);
      PoolAfter(pool - Refund(pool, burns[0], total), total - burns[0], burns[1..])
  }

  lemma ChainShares(pool: nat, pool': nat, pool'': nat, t: nat, t': nat, t'': nat)
    requires 0 < t && t' <= t && t'' <= t'
    requires pool * t' <= pool' * t && pool' * t'' <= pool'' * t'
    requires t' == 0 ==> pool'' <= pool'
    ensures pool * t'' <= pool'' * t
  {
    if t' == 0 {
      assert t'' == 0;
    } else {
      MulLe(pool * t', pool' * t, t'');
      MulLe(pool' * t'', pool'' * t', t);
      assert (pool * t') * t'' == (pool * t'') * t';
      assert (pool' * t) * t'' == (pool' * t'') * t;
      assert (pool'' * t') * t == (pool'' * t) * t';
      CancelLe(pool * t'', pool'' * t, t');
    }
  }

  lemma {:induction false} PoolPerShareKept(pool: nat, total: nat, burns: seq<nat>)
    requires 0 < total && BurnsFit(total, burns)
    ensures Sum(burns) <= total
    ensures pool * (total - Sum(burns)) <= PoolAfter(pool, total, burns) * total
    ensures PoolAfter(pool, total, burns) <= pool
    decreases burns
  {
    if burns != [] {
      RefundKeepsShare(pool, burns[0], total);
      var pool', total' := pool - Refund(pool, burns[0], total), total - burns[0];
      if total' == 0 {
        assert burns[1..] == [];
      } else {
        PoolPerShareKept(pool', total', burns[1..]);
      }
      ChainShares(pool, pool', PoolAfter(pool, total, burns), total, total', total - Sum(burns));
    }
  }

  /** Any sequence of withdrawals burning U of L shares takes at most floor(pool * U / L). */
  lemma WithdrawalsTakeTheirShare(pool: nat, total: nat, burns: seq<nat>)
    requires 0 < total && BurnsFit(total, burns)
    ensures PoolAfter(pool, total, burns) <= pool
    ensures pool - PoolAfter(pool, total, burns) <= pool * Sum(burns) / total
  {
    PoolPerShareKept(pool, total, burns);
    var left, burned := PoolAfter(pool, total, burns), Sum(burns);
    MulSub(pool, total, burned);
    assert (pool - left) * total == pool * total - left * total;
    DivAtLeast(pool * burned, total, pool - left);
  }
}
