/** Rust's bounded unsigned integers: every operation that leaves the type's range fails. */
module Checked {
  import opened Options

  const U64_MAX: nat := 0xFFFF_FFFF_FFFF_FFFF
  const U128_MAX: nat := 0xFFFF_FFFF_FFFF_FFFF_FFFF_FFFF_FFFF_FFFF
  const U256_MAX: nat := 0x1_0000_0000_0000_0000_0000_0000_0000_0000 * 0x1_0000_0000_0000_0000_0000_0000_0000_0000 - 1

  function Fits(max: nat, a: nat): Option<nat> {
    if a <= max then Some(a) else None
  }

  function CheckedAdd(a: nat, b: nat): Option<nat> {
    Fits(U128_MAX, a + b)
  }

  function CheckedSub(a: nat, b: nat): Option<nat> {
    if b <= a then Some(a - b) else None
  }

  function CheckedMul(a: nat, b: nat): Option<nat> {
    Fits(U128_MAX, a * b)
  }

  function CheckedDiv(a: nat, b: nat): Option<nat> {
    if b == 0 then None else Some(a / b)
  }

  function CheckedMul64(a: nat, b: nat): Option<nat> {
    Fits(U64_MAX, a * b)
  }

  function ToU64(a: nat): Option<nat> {
    Fits(U64_MAX, a)
  }

  /** The `as u64` cast keeps the low 64 bits. */
  function AsU64(a: nat): (r: nat)
    ensures r <= a && r <= U64_MAX
    ensures a <= U64_MAX ==> r == a
  {
    a % (U64_MAX + 1)
  }

  function Sum(xs: seq<nat>): nat {
    if xs == [] then 0 else xs[0] + Sum(xs[1..])
  }

  /** `iter().sum()`; partial sums only grow, so it overflows exactly when the total does. */
  function CheckedSum(xs: seq<nat>): Option<nat> {
    Fits(U128_MAX, Sum(xs))
  }
}
