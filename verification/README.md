# A verified model of the TerraSwap pools, router and factory

The model covers four parts of the repository.

* **The StableSwap curve.** `Curve` finds the pool invariant D and a coin balance y by floored integer
  Newton iterations over checked 128-bit arithmetic, with a tolerance exit and 32 rounds. Every
  operation appears as a function that says what it computes and as a method with the source's
  loops, proved equal to that function; the theorems are about the functions.
* **The stable pool** as a state machine over its messages, on top of the curve.
* **The constant-product pair**: its eighteen-digit fixed-point pricing and its state machine.
* **The router's route check and the factory's registry**, with its pagination.

Integers are unbounded in Dafny, so the source's widths are written out (`Checked`): a checked
operation that leaves its type yields `None`. A panic (an overflowing `sum()`, an `unwrap`, a failed
`assert_eq!`) also yields `None`: every caller in the contracts unwraps or propagates, so both abort
the transaction. The `as u64` casts of the stable contract are `AsU64`. Checks that an earlier check
already guarantees are written as plain arithmetic in the methods, and so are the pair's
256-bit products that cannot overflow for 128-bit arguments or only where a later check fails too. Chain balances and the LP supply
are the state; token and bank messages are atomic updates of it, and `Transfer` stands for anyone
sending tokens to a pool without calling it, `Burn` for a holder burning shares at the token contract.

## How the parts fit

| file | content |
|---|---|
| `Options.dfy`, `Checked.dfy`, `Arithmetic.dfy` | options, bounded integers, and the integer inequalities the proofs use |
| `Curve.dfy` | the curve: functions and the methods proved equal to them |
| `Invariant.dfy` | `get_d` against the exact StableSwap invariant |
| `Powers.dfy`, `Means.dfy`, `Scaling.dfy` | powers against their tangents; the exact invariant against the means of the balances, larger balances and scaling |
| `Rounds.dfy`, `Convergence.dfy` | one round of `get_d` against the exact invariant; when the loop settles and how close it ends |
| `Solver.dfy` | the y-solvers against their quadratic: rounding, accuracy, convergence |
| `Defined.dfy` | exactly when each operation of the curve answers |
| `CurveOperations.dfy` | swaps, deposits and single-coin withdrawals against the curve |
| `Exactness.dfy` | the computed curve against the exact invariant |
| `FixedPoint.dfy` | decimals and pro-rata refunds |
| `StablePool.dfy`, `StableMessages.dfy`, `ShareValue.dfy` | the stable contract and its runs; exactly when its messages succeed and what they pay; what a share is worth over all runs |
| `ConstantProduct.dfy`, `PairPool.dfy` | pair pricing, the pair contract and its runs |
| `Router.dfy`, `Factory.dfy`, `Pagination.dfy` | the route check, the registry, paging through it |

Main results, hardest first.

1. `GetDAboveExact`: `get_d` is never below the floor of the exact invariant, for any number of coins,
   from any start, whether or not the loop settled. It rests on a homogeneous form of Bernoulli's inequality
   (`Bernoulli`) and needs no bound on the iterates. `GetDBelowCeiling` bounds it from above,
   `GetDAccuracy` pins it when the loop settles, and `GetDBalanced` computes it on balanced pools.
2. `GetDNearExact`, `GetDWithin`, `GetDSettles`, `SettledGetDIsClose`: how close to z, the floor of the exact
   invariant, `get_d` ends on any pool. Every pool has a looseness L at z, the units of d^n that the
   floors of the product loop can lose (`EveryPoolIsLoose`; it is at most n*m^n when no coin is above m
   times the mean). One round shrinks the distance to z, but for 2L+4(n+1), by n/(n+1), and close to z
   squares it over z. So from a start that is not too far off the answer is z to z+L+4, settled or
   not, and a settled answer from any start is z to z+1+L/n, all for z large beside L and n; pools whose
   looseness is below n+1 (`Steady`) leave the loop within the 32 rounds. `GetDWithinFrom` and
   `GetDSettlesFrom` state the tests in any lower bound of z, such as one from the geometric mean
   (`MeanIsBelow`), and `UnevenPoolSettles` carries them out on a pool of 11 and 9 million million units.
   `SumCoversFloor` proves, from the inequality of the means, that a cold start is never below z.
3. `SwapMessageStaysAbove`, `SingleMessageKeepsShare`, `ProvideMessageIsCovered`: no swap between two coins
   of the pool and no single-coin withdrawal leaves the pool on or below the curve it was priced on; when
   the supply's cast to 64 bits loses nothing, withdrawals and deposits do not dilute the remaining shares,
   and the exact condition is given for every supply. `SwapMessageExact` translates the swap's
   result to the exact invariant, and `RunOfSwapsKeepsD` carries the computed invariant over runs
   of swaps, with the loss of the floors made explicit.
4. `RunKeepsValue`: over any run of deposits, withdrawals, swaps, transfers and burns that pass their guards,
   the exact invariant per share falls by no more than the accumulated losses, in which only floors appear:
   those of c for swaps and single-coin withdrawals (at most (n-1)*m^(n-1) when no other coin is above m
   times the mean, `DLossOfEvenCoins`), the accuracy of `get_d` for deposits (`DepositLossAtMost`), one
   unit for a pro-rata withdrawal.
5. `SolverCoversRoot`, `SettledIsPinned`, `SolverSettles`: the y-solvers are never below the floor of
   the root, are within one of it on a tolerance exit, and do exit within 32 rounds from every start
   below 2^31 or within a factor 2^24 of the root. `HalvingIsSharp` shows that the number of rounds matters.
6. `RunKeepsK`, `RunIsBacked`: over all guarded runs of the pair, k per squared share never falls and
   the squared supply stays at most k.
7. `SolverAnswersExactly`, `GetDAnswersExactly`, `QuoteExistsExactly`, `LaterMintExistsExactly`,
   `PayoutExistsExactly` and their counterparts for the messages of both pools: exactly when an operation
   answers, with every width written out. The y-solvers answer exactly when their first round, or first two,
   fit in 128 bits, for all coefficients; `get_d` of a steady pool exactly when its first round fits.
   `RealQuote` and `RealSwap` carry one swap through, fee included.
8. `PagingCompleteExactly`, `PagingCompleteAt`, `AcceptedRouteStrands`, `QuoteThenSwap`, `RunKeepsFunded`.

Six properties one might expect are false of the code, and the model says exactly when they hold.

* **A swap in the stable pool can give coins away.** The handler refuses no asset: an offer or an ask
  that is not one of the pool's coins resolves to coin 0, an offer from outside the pool (a native coin;
  token offers are checked against the pool before) is priced but not credited, and an offer of coin 0
  for itself or for an unknown asset is priced against itself. `UnguardedSwapsCanDrain` gives an input of each
  kind. `SwapIsPureLossExactly` says when the pool gets nothing for what it pays, `UnguardedSwapDecided`
  when it stays above its curve; swaps that pass the guard `Exchanges` always do (`SwapMessageStaysAbove`).
* **Supplies above 64 bits can dilute.** A supply whose low 64 bits are zero makes a deposit mint like the
  first (`CastDepositCanDilute`), and a cast supply makes a burn count for more (`CastBurnCanDilute`).
  `ProvideMessageIsCovered` and `SingleMessageKeepsShare` hold the exact conditions.
* **A swap in the constant-product pair can lower k.** The double floor rounds the return up when
  0 < (k mod w) * 10^18 < w, w being the offer side after the swap; `SwapCanLowerK` gives an
  input. `SwapKeepsKExactly` and `SwapKeepsK` prove that k falls exactly when that happens and the
  return is too small (below 334) to leave a commission. Offer sides within 10^18 are safe.
* **An accepted route can leave coins in the router.** `AcceptedRouteStrands` proves that it does so
  exactly when an earlier operation also brings the route's target and no later one offers it.
  The route in the repository's own test is such a route (`AcceptedRouteCanStrand`).
* **A key does not identify its pair.** It is the concatenation of two names, so a different pair can be
  shut out and a query can answer with another pair's entry (`SharedKeyShutsOut`).
  `LookupAnswersExactly` proves that the answer is the pair asked for exactly when the two lower
  names are equally long.
* **Paging through the factory can skip pairs.** A comment in the source says that appending one byte
  gives the first key after the last one; the byte appended is 1, so extensions by a zero byte and
  the appended key itself are passed over (`SkippedKeys`). `PagingCanSkip` reaches such a registry in two
  creations. `PagingCompleteExactly` proves that paging is complete at every limit exactly when
  no stored key is passed over in this way, and `PagingCompleteAt` does the same for one limit.

## Model

| member | source | states |
|---|---|---|
| StableCurve.Curve.GetD | contracts/terraswap_stable/src/curve.rs:34-76 | the nested loops return what `D` says, through every failure, early exit and round |
| StableCurve.Curve.YLoop | contracts/terraswap_stable/src/curve.rs:108-123 | the shared Newton loop of the y-solvers returns what `YRounds` says |
| StableCurve.Curve.GetYD | contracts/terraswap_stable/src/curve.rs:83-126 | the solver that leaves coin i out returns the solution for the other coins' balances |
| StableCurve.Curve.GetY | contracts/terraswap_stable/src/curve.rs:132-177 | the solver with coin i replaced and coin j left out, at the invariant of the unchanged balances |
| StableCurve.Curve.Exchange | contracts/terraswap_stable/src/curve.rs:324-337 | a swap pays the asked balance less y, less one, less the fee |
| StableCurve.Curve.DeductFees | contracts/terraswap_stable/src/curve.rs:215-235 | the loop of a deposit that charges every coin for its distance from the ideal balance |
| StableCurve.Curve.Deposit | contracts/terraswap_stable/src/curve.rs:193-250 | a deposit mints what `MintAmount` says, first deposits and warm start included |
| StableCurve.Curve.RemoveBalancedLiquidity | contracts/terraswap_stable/src/curve.rs:252-269 | the integer pro-rata refund of every coin |
| StableCurve.Curve.RemoveLiquiditySingleToken | contracts/terraswap_stable/src/curve.rs:271-322 | a single-coin withdrawal pays what `SinglePayout` says |
| Arithmetic.Bernoulli | contracts/terraswap_stable/src/curve.rs:59-64 | (n+1) z d^n <= z^(n+1) + n d^(n+1), the inequality that makes the iteration round the right way |
| InvariantTheorems.ProdUpper | contracts/terraswap_stable/src/curve.rs:53-57 | the floored product is at most the exact one, and a zero coin makes it fail |
| InvariantTheorems.ProdLower | contracts/terraswap_stable/src/curve.rs:53-57 | the floors of the product lose at most an explicit slack |
| InvariantTheorems.RoundAbove | contracts/terraswap_stable/src/curve.rs:53-64 | one round from any start ends at or above the floor of the exact invariant |
| InvariantTheorems.GetDAboveExact | contracts/terraswap_stable/src/curve.rs:34-76 | any answer d > 0 satisfies the strict exact inequality at d+1, so every z on or below the invariant is at most d, and all coins are positive |
| InvariantTheorems.GetDAccuracy | contracts/terraswap_stable/src/curve.rs:52-75 | on a tolerance exit the last residual g satisfies -2Q < g*prev <= Q, and the last iterate exceeds the exact invariant by at most an explicit amount |
| InvariantTheorems.GetDBelowCeiling | contracts/terraswap_stable/src/curve.rs:50-64 | n(ann-1)d <= (n+1)*ann*S is kept by every round and holds of the answer |
| InvariantTheorems.GetDBalanced | contracts/terraswap_stable/src/curve.rs:34-76 | on equal balances the answer is exactly the sum if the first round's products fit, and there is none otherwise |
| PowerTheorems.DeficitIsQuadratic | contracts/terraswap_stable/src/curve.rs:59-64 | near its tangent's foot the power z^(n+1) exceeds the tangent by at most n(n+1)/2 d^(n-1) (d-z)^2 |
| MeanTheorems.MeanInequality | contracts/terraswap_stable/src/curve.rs:48-50 | the product of n balances times n^n is at most the n-th power of their sum |
| MeanTheorems.SumCoversFloor | contracts/terraswap_stable/src/curve.rs:48-50 | the sum, where a cold start begins, is never below the exact invariant |
| MeanTheorems.MeanIsBelow | contracts/terraswap_stable/src/curve.rs:48-50 | a number whose n-th power is at most the product of the n*x is not above the exact invariant |
| RoundTheorems.SlackWithinSpread | contracts/terraswap_stable/src/curve.rs:53-57 | the floors of the product loop lose at most the spread of the pool |
| RoundTheorems.SpreadFalls | contracts/terraswap_stable/src/curve.rs:53-57 | against d^n the spread only falls as d grows, so a test at z bounds every round above it |
| RoundTheorems.CoinsAreLoose | contracts/terraswap_stable/src/curve.rs:53-57 | when no n*x exceeds m*z the floors lose at most n*m^n units of d^n |
| RoundTheorems.RoundShrinks | contracts/terraswap_stable/src/curve.rs:51-64 | on every pool one round from z or above stays at or above z and shrinks the distance, but for the reserve, by n/(n+1) |
| RoundTheorems.RoundCloses | contracts/terraswap_stable/src/curve.rs:51-64 | close to z one round squares the distance over d, but for 1 + L/n |
| RoundTheorems.RoundSteps | contracts/terraswap_stable/src/curve.rs:51-64 | on a steady pool no round climbs, but for one unit from z itself |
| ConvergenceTheorems.GetDNearExact | contracts/terraswap_stable/src/curve.rs:48-75 | on every pool, settled or not, the answer is at least z and at most the reserve and n above it, or as close as any number k of linear rounds brings the start |
| ConvergenceTheorems.GetDWithin | contracts/terraswap_stable/src/curve.rs:48-75 | from a start that is not too far off the answer is at most L+4 above z, settled or not |
| ConvergenceTheorems.GetDSettles | contracts/terraswap_stable/src/curve.rs:48-75 | on a steady pool such a start leaves the loop through the tolerance test within 32 rounds |
| ConvergenceTheorems.SettledGetDIsClose | contracts/terraswap_stable/src/curve.rs:66-75 | from any start a settled answer is z to z plus the reserve and n, with room z to z + 1 + L/n |
| ConvergenceTheorems.GetDWithinFrom | contracts/terraswap_stable/src/curve.rs:48-75 | the same accuracy from tests stated in any w on or below the exact invariant |
| ConvergenceTheorems.GetDSettlesFrom | contracts/terraswap_stable/src/curve.rs:48-75 | settling, and an answer at most two above the floor for two coins or more, from tests stated in such a w |
| ConvergenceTheorems.UnevenPoolSettles | contracts/terraswap_stable/src/curve.rs:34-76 | the tests hold on a pool of 11 and 9 million million units at amplification 100; its answer |
| SolverTheorems.RoundAboveRoot | contracts/terraswap_stable/src/curve.rs:109-113 | one round from anywhere leaves y+1 strictly above the root |
| SolverTheorems.SolverCoversRoot | contracts/terraswap_stable/src/curve.rs:107-125 | any answer y has (y+1)^2 + (b-d)(y+1) - c >= 1 and is at least every z at or below the root |
| SolverTheorems.SettledIsPinned | contracts/terraswap_stable/src/curve.rs:160-174 | a tolerance exit gives h(y) <= 1 <= h(y+1), whichever way the last step went |
| SolverTheorems.RoundContracts | contracts/terraswap_stable/src/curve.rs:160-164 | from y >= z with h(z) >= 0 the distance to z at least halves |
| SolverTheorems.HalvingSettles | contracts/terraswap_stable/src/curve.rs:108-123 | within 2^(rounds-1) of the crossing the loop exits by tolerance |
| SolverTheorems.SquaringSettles | contracts/terraswap_stable/src/curve.rs:108-123 | near the root the relative error squares every round until the loop exits |
| SolverTheorems.FactorSettles | contracts/terraswap_stable/src/curve.rs:108-123 | m+8 rounds suffice from within a factor 2^m of the root, for every 128-bit value |
| SolverTheorems.SolverSettles | contracts/terraswap_stable/src/curve.rs:3-3 | the 32 rounds suffice when the start or the first iterate is below the stated bounds and nothing overflows |
| SolverTheorems.HalvingIsSharp | contracts/terraswap_stable/src/curve.rs:3-3 | with b == d and c == 0, 2^k settles exactly when k <= rounds |
| SolverTheorems.RoundLimitIs32 | contracts/terraswap_stable/src/curve.rs:3-3 | with b == d and c == 0 the loop just settles from 2^32 and not from 2^33 |
| SolverTheorems.SolverAnswersExactly | contracts/terraswap_stable/src/curve.rs:107-125 | for all coefficients the solver answers exactly when its first round fits in 128 bits with a positive divisor, and its second too unless the first settled |
| SolverTheorems.SolverAnswersBelow | contracts/terraswap_stable/src/curve.rs:158-176 | for c up to b*d that is d*d + c and 2d + b within 128 bits |
| DefinedTheorems.SwapFeeIsTenThousandths | contracts/terraswap_stable/src/curve.rs:331-335 | when the fee on a swap exists, and that it is feeNumerator ten-thousandths of the whole, rounded down |
| DefinedTheorems.CoefficientsExistExactly | contracts/terraswap_stable/src/curve.rs:90-106 | exactly when b and c exist: widths, positive coins and every product of the loop |
| DefinedTheorems.SolveAnswersExactly | contracts/terraswap_stable/src/curve.rs:83-126 | with coefficients b and c, exactly when a y-solver answers |
| DefinedTheorems.QuoteExistsExactly | contracts/terraswap_stable/src/curve.rs:324-337 | exactly when a swap has a quote, and that it is the rest less the fee |
| DefinedTheorems.RealQuote | contracts/terraswap_stable/src/curve.rs:324-337 | the quote for 10^9 on a pool of two times 10^12 at amplification 100 and fee 4 |
| DefinedTheorems.GetDOfNothing | contracts/terraswap_stable/src/curve.rs:37-39 | no balances have invariant zero, from any start |
| DefinedTheorems.SetupExistsExactly | contracts/terraswap_stable/src/curve.rs:36-48 | exactly when what is fixed before the rounds exists |
| DefinedTheorems.GetDAnswersExactly | contracts/terraswap_stable/src/curve.rs:48-75 | on a steady pool a cold start answers exactly when its first round fits |
| DefinedTheorems.GetDAnswersFrom | contracts/terraswap_stable/src/curve.rs:48-75 | the same, steadiness tested at any w on or below the exact invariant |
| DefinedTheorems.LaterMintExistsExactly | contracts/terraswap_stable/src/curve.rs:193-250 | exactly when a later deposit mints, the suggested start included |
| DefinedTheorems.MintExistsExactly | contracts/terraswap_stable/src/curve.rs:236-249 | the mint is lp*(d2-d0)/d0 rounded down, d2 from the suggested start, and exactly when it exists |
| DefinedTheorems.PayoutExistsExactly | contracts/terraswap_stable/src/curve.rs:271-322 | exactly when a single-coin withdrawal pays |
| DefinedTheorems.SingleCoinsExactly | contracts/terraswap_stable/src/curve.rs:295-314 | exactly when every coin can be charged for its move |
| DefinedTheorems.BalancedExistsExactly | contracts/terraswap_stable/src/curve.rs:252-269 | exactly when the integer pro-rata refunds exist |
| CurveTheorems.CoefficientsAreFloors | contracts/terraswap_stable/src/curve.rs:140-158 | when no check fails, b and c are the floored quotients, and every coin read is positive |
| CurveTheorems.AboveCurveMono | contracts/terraswap_stable/src/curve.rs:90-107 | b grows and c falls with the balances, so more of any coin keeps the pool above the curve |
| CurveTheorems.SwapStaysAbove | contracts/terraswap_stable/src/curve.rs:324-337 | for any two positions a swap keeps the asked coin strictly above the curve of the old invariant at the balances the solver read, which between different coins are the real ones; the asked coin is not exhausted |
| CurveTheorems.SwapPaysTheGap | contracts/terraswap_stable/src/curve.rs:326-336 | the payment is the gap to y less one, less the fee rounded down; when settled, y is pinned to the root |
| CurveTheorems.LargerOfferEarnsMore | contracts/terraswap_stable/src/curve.rs:324-337 | on the same balances a larger offer is paid at most one unit less than a smaller one |
| CurveTheorems.SwapSettlesWhen | contracts/terraswap_stable/src/curve.rs:158-174 | a test on the swap's coefficients that guarantees a tolerance exit |
| CurveTheorems.ImbalanceFeePinned | contracts/terraswap_stable/src/curve.rs:289-293 | the fee rate is feeNumerator*n/(4(n-1)) rounded down once; one coin alone is refused |
| CurveTheorems.DepositChargesDistance | contracts/terraswap_stable/src/curve.rs:219-234 | each coin is charged the fee on its distance from floor(d1*old/d0), rounded down |
| CurveTheorems.SingleChargesMoves | contracts/terraswap_stable/src/curve.rs:295-314 | each coin is charged the fee on how far a pro-rata withdrawal would have moved it |
| CurveTheorems.SingleWithdrawalStaysAbove | contracts/terraswap_stable/src/curve.rs:271-322 | the real remaining balances lie strictly above the curve of d1, and d1*lp is d0*(lp-unmint) rounded up by less than lp |
| CurveTheorems.DepositMintIsCovered | contracts/terraswap_stable/src/curve.rs:210-250 | lp*d2 lies between (lp+mint)*d0 and (lp+mint+1)*d0, every reduced balance is positive and at most the new one, d2 is not below the exact invariant |
| CurveTheorems.DepositWarmStart | contracts/terraswap_stable/src/curve.rs:237-243 | the suggested start and the invariant reached from it stay below the ceiling, and the invariant is not below the exact one |
| CurveTheorems.FirstDepositMint | contracts/terraswap_stable/src/curve.rs:207-209 | the first deposit mints the computed invariant and needs every coin |
| CurveExactness.CIsExactUpToFloors | contracts/terraswap_stable/src/curve.rs:98-104 | c times its exact denominator is d^(n+1) less an explicit loss |
| CurveExactness.AboveCurveMeansExact | contracts/terraswap_stable/src/curve.rs:128-131 | above the computed curve of d, the exact invariant is at least d up to the loss of c's floors less one unit |
| CurveExactness.ExactInvariantKept | contracts/terraswap_stable/src/curve.rs:128-131 | when those floors lost less than one unit the exact invariant is at least d |
| CurveExactness.AboveCurveKeepsD | contracts/terraswap_stable/src/curve.rs:128-131 | above the computed curve of d, get_d of the same balances is at least d less an explicit loss |
| CurveExactness.DLossAtMost | contracts/terraswap_stable/src/curve.rs:98-104 | a test on the other coins that bounds that loss by any L |
| CurveExactness.DLossOfEvenCoins | contracts/terraswap_stable/src/curve.rs:98-104 | with no other coin above m times the mean the loss is at most (n-1)*m^(n-1) |
| ScalingTheorems.MoreIsNotLower | contracts/terraswap_stable/src/curve.rs:34-76 | more of any coin never lowers the exact invariant |
| ScalingTheorems.ShareIsKept | contracts/terraswap_stable/src/curve.rs:34-76 | balances that keep b/a of theirs keep b/a of the exact invariant |
| FixedPoint.RefundRefinesInteger | contracts/terraswap_stable/src/contract.rs:351-358 | the decimal refund is at most floor(pool*amount/total) and short of it by at most ceil(pool/10^18) |
| FixedPoint.RefundKeepsShare | contracts/terraswap_stable/src/contract.rs:351-358 | what stays per remaining share never falls |
| FixedPoint.RefundLeavesSome | contracts/terraswap_stable/src/contract.rs:351-358 | burning less than everything leaves some of every nonempty pool |
| FixedPoint.WithdrawalsTakeTheirShare | contracts/terraswap_stable/src/contract.rs:338-387 | any sequence of withdrawals burning U of L takes at most floor(pool*U/L) |
| StablePool.RefundsRefineCurve | contracts/terraswap_stable/src/curve.rs:252-269 | coin by coin the contract's refunds refine the curve's integer ones |
| StableMessageTheorems.ProvideSucceedsExactly | contracts/terraswap_stable/src/contract.rs:240-309 | exactly when a deposit succeeds, and that it adds the deposits and the mint |
| StableMessageTheorems.FirstDepositSucceeds | contracts/terraswap_stable/src/contract.rs:284-309 | a first deposit into an empty pool succeeds and mints the computed invariant, whenever that is positive, 64 bits and not below what is asked |
| StableMessageTheorems.FirstEqualDeposit | contracts/terraswap_stable/src/contract.rs:284-309 | equal first deposits mint their sum |
| StableMessageTheorems.FirstMintExistsExactly | contracts/terraswap_stable/src/curve.rs:200-209 | exactly when a deposit counted as first mints |
| StableMessageTheorems.WithdrawPays | contracts/terraswap_stable/src/contract.rs:351-372 | a pro-rata withdrawal succeeds exactly when the shares exist and pays every coin's part rounded down, short by at most ceil(balance / 10^18) |
| StableMessageTheorems.WithdrawalsTakeTheirPart | contracts/terraswap_stable/src/contract.rs:338-387 | any run of withdrawals burning U of L takes at most floor(balance*U/L) of every coin |
| StableMessageTheorems.SingleSucceedsExactly | contracts/terraswap_stable/src/contract.rs:406-427 | exactly when a single-coin withdrawal succeeds |
| StableMessageTheorems.SwapSucceedsExactly | contracts/terraswap_stable/src/contract.rs:500-529 | exactly when a swap succeeds |
| StableMessageTheorems.RealSwap | contracts/terraswap_stable/src/contract.rs:463-557 | one swap carried through on a pool of real size |
| StablePool.SwapMessageStaysAbove | contracts/terraswap_stable/src/contract.rs:500-529 | every successful swap whose offer is a coin of the pool and whose resolved ask is another, cast and unknown asks included, leaves the pool strictly above its curve and touches two coins only |
| StablePool.OutsideOfferOnlyTakes | contracts/terraswap_stable/src/contract.rs:500-522 | a successful swap of an asset outside the pool lowers one balance and changes nothing else |
| StablePool.SwapIsPureLossExactly | contracts/terraswap_stable/src/contract.rs:500-541 | a successful swap takes without giving exactly when it offers an outside asset, nothing, or less of a coin than it is paid of the same coin |
| StablePool.UnguardedSwapDecided | contracts/terraswap_stable/src/contract.rs:500-529 | a swap the guard excludes leaves the pool above its curve exactly when, by its quote, it keeps more of the paid coin than a settled get_y_d asks for; at equality the curve itself decides |
| StablePool.UnguardedSwapsCanDrain | contracts/terraswap_stable/src/contract.rs:500-529 | an outside coin and a coin offered for itself each buy coins and leave the pool below its curve |
| StablePool.SwapMessageExact | contracts/terraswap_stable/src/contract.rs:500-529 | for guarded swaps the exact gap is bounded by the loss of c's floors less one unit |
| StablePool.SwapKeepsD | contracts/terraswap_stable/src/contract.rs:500-529 | get_d after a guarded swap is at least get_d before less the loss of c's floors |
| StablePool.RunOfSwapsKeepsD | contracts/terraswap_stable/src/contract.rs:500-529 | over any run of guarded swaps get_d falls by at most the accumulated loss and the supply stays |
| StablePool.RunLossOfEven | contracts/terraswap_stable/src/contract.rs:500-529 | that loss is at most k times (n-1)*m^(n-1) for k swaps that leave no other coin above m times the mean |
| StablePool.SingleMessageKeepsShare | contracts/terraswap_stable/src/contract.rs:417-437 | a single-coin withdrawal takes from one coin, stays above the curve of d1, and does not dilute exactly when the casts do not enlarge the burned part, so never for 64-bit supplies |
| StablePool.CastBurnCanDilute | contracts/terraswap_stable/src/contract.rs:417-425 | a supply above 64 bits and a burn that dilutes the holders |
| StablePool.ProvideMessageIsCovered | contracts/terraswap_stable/src/contract.rs:284-309 | every deposit grows the supply at most as the invariant grows, exactly unless the low 64 bits of the supply are all zero and the growth is too small |
| StablePool.CastDepositCanDilute | contracts/terraswap_stable/src/contract.rs:295-300 | a supply of 2^64 and a deposit that mints the whole invariant again |
| StablePool.WithdrawMessageKeepsShares | contracts/terraswap_stable/src/contract.rs:351-372 | a pro-rata withdrawal keeps every coin's balance per share and never empties a coin while shares remain |
| StablePool.RunKeepsFunded | contracts/terraswap_stable/src/contract.rs:80-189 | in every reachable state, over all messages, outside and self-asked swaps, plain transfers and burns at the token included, outstanding shares mean every coin balance is positive |
| ShareValueTheorems.AboveCurveIsWorth | contracts/terraswap_stable/src/curve.rs:324-337 | balances above the computed curve of d are worth at least d, but for what the floors of c lost |
| ShareValueTheorems.DepositLossAtMost | contracts/terraswap_stable/src/curve.rs:237-247 | when the warm-started loop of a deposit settles, its invariant is close to the exact one of the reduced balances |
| ShareValueTheorems.MessageKeepsValue | contracts/terraswap_stable/src/contract.rs:80-189 | every message that passes its guard keeps the exact invariant per share, but for its loss |
| ShareValueTheorems.RunKeepsValue | contracts/terraswap_stable/src/contract.rs:80-189 | over any run of such messages the exact invariant per share falls by at most the accumulated losses per share |
| StablePool.StableContract.constructor | contracts/terraswap_stable/src/contract.rs:34-52 | a new pool is empty, without shares, at the cast amplification and fee |
| StablePool.StableContract.ReadDeposits | contracts/terraswap_stable/src/contract.rs:240-244 | the deposited amounts, only if the assets are exactly the pool's in order |
| StablePool.StableContract.OldAndNew | contracts/terraswap_stable/src/contract.rs:258-290 | old and new balances with native coins already credited, failing on overflow |
| StablePool.StableContract.ProvideLiquidity | contracts/terraswap_stable/src/contract.rs:224-336 | the deposit step, or no change |
| StablePool.StableContract.WithdrawLiquidity | contracts/terraswap_stable/src/contract.rs:338-387 | the pro-rata withdrawal step, or no change |
| StablePool.StableContract.FindCoin | contracts/terraswap_stable/src/contract.rs:406-415 | the search loop finds the coin exactly when it is in the pool |
| StablePool.StableContract.WithdrawSingleLiquidity | contracts/terraswap_stable/src/contract.rs:389-459 | the single-coin withdrawal step, or no change |
| StablePool.StableContract.ReadPools | contracts/terraswap_stable/src/contract.rs:500-522 | the two positions, 0 for what is not found, and the balances with a credited offer taken off |
| StablePool.StableContract.Swap | contracts/terraswap_stable/src/contract.rs:463-557 | the swap step for any two assets, or no change |
| ConstantProduct.GrossIsExact | contracts/terraswap_pair_deprecated/src/contract.rs:553-556 | the double-floored return is the exact floor, plus one exactly when 0 < (k mod w)*10^18 < w; never for w <= 10^18 |
| ConstantProduct.SwapKeepsKExactly | contracts/terraswap_pair_deprecated/src/contract.rs:545-569 | a swap keeps k exactly when it did not round up or the return is at least 334 |
| ConstantProduct.SwapCanLowerK | contracts/terraswap_pair_deprecated/src/contract.rs:545-569 | a concrete successful swap that lowers k |
| ConstantProduct.SwapShape | contracts/terraswap_pair_deprecated/src/contract.rs:540-570 | a defined swap has a positive offer pool, returns at most the ask pool, and splits the gross return |
| ConstantProduct.SpreadNeverUnderflows | contracts/terraswap_pair_deprecated/src/contract.rs:559-560 | the spread subtraction is safe for offer pools up to half of 10^18 or offer sides up to 10^18 |
| ConstantProduct.SwapIsDefined | contracts/terraswap_pair_deprecated/src/contract.rs:540-570 | pools within 10^18 can always be swapped against |
| ConstantProduct.SwapDefinedExactly | contracts/terraswap_pair_deprecated/src/contract.rs:540-570 | exactly when a swap of 128-bit amounts is defined |
| ConstantProduct.NetPinned | contracts/terraswap_pair_deprecated/src/contract.rs:562-565 | the trader's part is 997 thousandths of the gross return, rounded up |
| ConstantProduct.OfferDefinedExactly | contracts/terraswap_pair_deprecated/src/contract.rs:583-627 | exactly when an ask has a quote |
| ConstantProduct.QuoteThenSwap | contracts/terraswap_pair_deprecated/src/contract.rs:583-627 | swapping the quoted offer returns at most x, and at least x less ceil(m/w) and the fixed-point slack, for every x |
| ConstantProduct.QuoteThenSwapSmall | contracts/terraswap_pair_deprecated/src/contract.rs:583-627 | up to 3*10^15 the loss is at most ceil(m/w) |
| ConstantProduct.QuoteThenSwapParts | contracts/terraswap_pair_deprecated/src/contract.rs:605-615 | the quoted commission and spread bound the swap's, each within ceil(m/w) |
| PairPool.ISqrt | contracts/terraswap_pair_deprecated/src/contract.rs:258-258 | the integer square root |
| PairPool.ProvideKeepsK | contracts/terraswap_pair_deprecated/src/contract.rs:259-269 | a later deposit keeps k per squared share |
| PairPool.WithdrawKeepsK | contracts/terraswap_pair_deprecated/src/contract.rs:312-319 | a withdrawal keeps k per squared share |
| PairPool.SwapPays | contracts/terraswap_pair_deprecated/src/contract.rs:404-414 | a swap pays 997 thousandths of the exact gross return, rounded up, in either direction, and takes all of the offer |
| PairPool.SwapSucceedsExactly | contracts/terraswap_pair_deprecated/src/contract.rs:374-415 | exactly when a swap succeeds |
| PairPool.ProvideMints | contracts/terraswap_pair_deprecated/src/contract.rs:244-269 | the mint is pinned from both sides, first and later |
| PairPool.FirstProvideSucceedsExactly | contracts/terraswap_pair_deprecated/src/contract.rs:256-275 | exactly when a first deposit succeeds |
| PairPool.LaterProvideSucceedsExactly | contracts/terraswap_pair_deprecated/src/contract.rs:244-275 | exactly when a later deposit succeeds |
| PairPool.WithdrawPays | contracts/terraswap_pair_deprecated/src/contract.rs:312-319 | a withdrawal succeeds exactly when the shares exist and pays each pool's part, short by at most ceil(pool / 10^18) |
| PairPool.FindsFirst | contracts/terraswap_pair_deprecated/src/contract.rs:214-228 | the deposit taken is the first asset of that name |
| PairPool.SwapKeepsK | contracts/terraswap_pair_deprecated/src/contract.rs:374-415 | a swap keeps k, and k per squared share, exactly when its guard holds |
| PairPool.FirstMintIsBacked | contracts/terraswap_pair_deprecated/src/contract.rs:256-258 | after the first mint the squared supply is at most k |
| PairPool.RunKeepsK | contracts/terraswap_pair_deprecated/src/contract.rs:74-115 | over every guarded run with shares outstanding k per squared share never falls |
| PairPool.RunIsBacked | contracts/terraswap_pair_deprecated/src/contract.rs:256-269 | in every state a guarded run reaches the squared supply is at most k, so the divisions by pools are defined |
| PairPool.SmallRunIsGuarded | contracts/terraswap_pair_deprecated/src/contract.rs:545-569 | runs whose offer sides stay within 10^18 pass every guard |
| PairPool.PairContract.constructor | contracts/terraswap_pair_deprecated/src/contract.rs:31-46 | a new pair is empty and without shares |
| PairPool.PairContract.ProvideLiquidity | contracts/terraswap_pair_deprecated/src/contract.rs:203-297 | the deposit step, or no change |
| PairPool.PairContract.WithdrawLiquidity | contracts/terraswap_pair_deprecated/src/contract.rs:299-349 | the withdrawal step, or no change |
| PairPool.PairContract.Swap | contracts/terraswap_pair_deprecated/src/contract.rs:353-431 | the swap step of whichever asset is offered, or no change; other assets are refused |
| Router.PendingGrows | contracts/terraswap_router/src/contract.rs:341-342 | removing the offer and inserting the ask keeps the map equal to the names asked and not offered later |
| Router.OnePendingIsTarget | contracts/terraswap_router/src/contract.rs:345-349 | one name remains exactly when the last ask is the only unconsumed output |
| Router.NameTellsExactly | contracts/terraswap_router/src/contract.rs:341-342 | names tell two native coins, or two tokens, apart, and nothing across the two kinds |
| Router.AcceptedGrows | contracts/terraswap_router/src/contract.rs:320-352 | one more operation keeps a route accepted exactly when it offers the target so far or asks for it again |
| Router.MultipleOutputsAreRefused | contracts/terraswap_router/src/contract.rs:384-446 | the other tested routes: four operations to one output accepted, multiple outputs and the empty route refused |
| Router.AssertOperations | contracts/terraswap_router/src/contract.rs:320-352 | the map loop accepts exactly those routes |
| Router.ExecuteSwapOperations | contracts/terraswap_router/src/contract.rs:126-182 | only accepted routes run, only the last swap names the recipient, and the minimum is checked on the last operation's ask, the one unconsumed output |
| Router.HoldsExactlyLeftOvers | contracts/terraswap_router/src/operations.rs:18-97 | which assets the router holds after any number of operations |
| Router.AcceptedRouteStrands | contracts/terraswap_router/src/contract.rs:139-163 | an accepted route leaves nothing behind but possibly its target, and exactly when that is |
| Router.AcceptedRouteCanStrand | contracts/terraswap_router/src/contract.rs:359-382 | the tested route is accepted and leaves the first operation's output in the router |
| Factory.PairKeyOrderIndependent | contracts/terraswap_factory/src/state.rs:27-32 | the key does not depend on the order of the assets |
| Factory.SameKeySamePair | contracts/terraswap_factory/src/state.rs:27-32 | equal keys mean equal pairs exactly when the lower parts are equally long |
| Factory.DifferentPairsCanShareKey | contracts/terraswap_factory/src/state.rs:27-32 | two different pairs with one key |
| Factory.LookupAnswersExactly | contracts/terraswap_factory/src/contract.rs:185-192 | a lookup answers with the pair asked for exactly when the lower parts are equally long |
| Factory.SharedKeyShutsOut | contracts/terraswap_factory/src/contract.rs:98-101 | after one creation a different pair is refused and its query finds the first |
| Factory.CallsKeepConsistent | contracts/terraswap_factory/src/contract.rs:98-155 | after any calls in any order every entry sits under the key of its own assets |
| Factory.CommitAddsOne | contracts/terraswap_factory/src/contract.rs:86-161 | a committed creation adds one entry, found under both orders of its assets |
| Factory.EntriesArePermanent | contracts/terraswap_factory/src/contract.rs:98-101 | over any run of transactions a stored entry never changes |
| Factory.FactoryContract.ExecuteCreatePair | contracts/terraswap_factory/src/contract.rs:86-132 | refuses an existing key, otherwise remembers the pending pair |
| Factory.FactoryContract.HandleReply | contracts/terraswap_factory/src/contract.rs:136-161 | stores the pending pair under its key |
| Factory.FactoryContract.QueryPair | contracts/terraswap_factory/src/contract.rs:185-192 | finds an entry under either order of the assets |
| Pagination.SeekIsFilter | contracts/terraswap_factory/src/state.rs:46-48 | the range holds exactly the keys above its exclusive start |
| Pagination.SkippedKeys | contracts/terraswap_factory/src/state.rs:56-69 | which keys the appended byte passes over |
| Pagination.PrefixFreeSkipsNone | contracts/terraswap_factory/src/state.rs:56-69 | if no stored key properly extends another, none is passed over |
| Pagination.PagingCompleteExactly | contracts/terraswap_factory/src/state.rs:37-54 | paging lists every pair once in key order, for every limit, exactly when no key is passed over |
| Pagination.PagingCompleteAt | contracts/terraswap_factory/src/state.rs:37-54 | the same for one limit: exactly when no key right after the end of a full page is passed over |
| Pagination.PageLengths | contracts/terraswap_factory/src/state.rs:34-54 | a page holds ten pairs by default, never more than thirty, else as asked, fewer only at the end |
| Pagination.PagingCanSkip | contracts/terraswap_factory/src/state.rs:56-69 | two creations after which the page behind the first pair is empty and paging by one misses the second |

## Left out

- Message encoding, storage serialization, protobuf replies, address canonicalization, queriers and permission checks.
- Tax and the recipient of a payment: the pool is debited the full amount either way; in the router swaps are untaxed.
- Zero-amount transfers, which the bank and token modules may refuse: they would only abort more transactions.
- `assert_max_spread`, `assert_slippage_tolerance`, `update_config` and the token's instantiation: single-branch checks that abort more transactions.
- `reverse_exchange` and `get_virtual_price`: plain expressions over the solvers; nested floors make an exact inverse of `exchange` false.
- `simulate_swap_operations`: a chain of queries to other contracts.
- StablePool.StableContract.constructor: requires the listed assets to differ; with one asset listed twice two positions would read the same balance.
- StablePool.StableContract.WithdrawSingleLiquidity: pools of more than 256 coins, where the `as u8` cast of the position would matter.
- PairPool.PairContract.constructor: requires the two assets to differ; otherwise both pools would be the same balance.
- Router.HoldsExactlyLeftOvers: assumes that every swap yields something and that no tax is taken.
- Router.AcceptedRouteStrands: assets of one route with the same display name; the check cannot tell a token from a native coin of that name.
- Order-independence and exact monotonicity of `get_d`, which nested floors break.
- ConvergenceTheorems.GetDNearExact: requires z to be at least twice the looseness and twice n+1; below that the bound would exceed z itself. A warm start below z is covered once it settled, by `SettledGetDIsClose`.
- DefinedTheorems.GetDAnswersExactly: requires a steady pool; on looser ones a later round may climb above the start and overflow where the first did not.
- ConvergenceTheorems.GetDSettles: requires a steady pool; on looser ones the floors may keep the loop moving until its last round, and `GetDWithin` bounds where it ends.
- The factory's entries carry only the fields its own source writes.
