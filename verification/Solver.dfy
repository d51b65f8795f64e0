/** What the two y-solvers return, measured against the quadratic they iterate on.

    `Height(b, c, d, z)` is z*z + (b - d)*z - c, whose positive root the loop approaches. */
module SolverTheorems {
  import opened Options
  import opened Checked
  import opened Arithmetic
  import opened StableCurve

  function Height(b: nat, c: nat, d: nat, z: nat): int {
    z * (z + b - d) - c
  }

  /** Past a point where the height is positive it grows by at least one per unit. */
  lemma HeightGrows(b: nat, c: nat, d: nat, z: nat, w: nat)
    requires 0 < Height(b, c, d, z) && z <= w
    ensures Height(b, c, d, z) + (w - z) <= Height(b, c, d, w)
    ensures 0 < z && 0 < z + b - d
  {
    var e := b - d;
    assert 0 < z * (z + e);
    SignOfFactors(z, z + e);
    DifferenceOfProducts(z, w, e);
    MulLe(1, w + z + e, w - z);
  }

  lemma SignOfFactors(z: nat, f: int)
    requires 0 < z * f
    ensures 0 < z && 0 < f
  {
    if f <= 0 {
      MulLe(f, 0, z);
    }
  }

  lemma DifferenceOfProducts(z: int, w: int, e: int)
    ensures w * (w + e) - z * (z + e) == (w + z + e) * (w - z)
  {
  }

  // ----- one round -----

  lemma RoundShape(b: nat, c: nat, d: nat, y: nat, y': nat)
    requires YStep(b, c, d, y) == Some(y')
    ensures 0 < 2 * y + b - d
    ensures y' * (2 * y + b - d) <= y * y + c < (y' + 1) * (2 * y + b - d)
    ensures y * y <= U128_MAX
  {
    DivPinned(y * y + c, 2 * y + b - d);
  }

  /** The tangent's distance from the parabola is a square. */
  lemma TangentIdentity(b: nat, c: nat, d: nat, y: nat, z: nat)
    ensures z * (2 * y + b - d) - (y * y + c) == Height(b, c, d, z) - (y - z) * (y - z)
  {
    var e := b - d;
    assert z * (2 * y + e) == 2 * (z * y) + z * e;
    assert z * (z + e) == z * z + z * e;
    assert (y - z) * (y - z) == y * y - 2 * (z * y) + z * z;
  }

  lemma RoundAboveRoot(b: nat, c: nat, d: nat, y: nat, y': nat)
    requires YStep(b, c, d, y) == Some(y')
    ensures 1 <= Height(b, c, d, y' + 1)
  {
    var z := y' + 1;
    RoundShape(b, c, d, y, y');
    TangentIdentity(b, c, d, y, z);
    SquareNonNegative(y - z);
  }

  lemma {:induction false} RoundsAboveRoot(b: nat, c: nat, d: nat, y: nat, rounds: nat)
    requires 0 < rounds && YRounds(b, c, d, y, rounds).Some?
    ensures 1 <= Height(b, c, d, YRounds(b, c, d, y, rounds).value + 1)
    decreases rounds
  {
    var y' := YStep(b, c, d, y).value;
    RoundAboveRoot(b, c, d, y, y');
    if !Near(y', y) && 1 < rounds {
      RoundsAboveRoot(b, c, d, y', rounds - 1);
    }
  }

  /** Every answer of the solver, after any number of rounds from any start, is at least the floor
      of the true root. */
  lemma SolverCoversRoot(b: nat, c: nat, d: nat, start: nat, rounds: nat, y: nat)
    requires 0 < rounds && YRounds(b, c, d, start, rounds) == Some(y)
    ensures 1 <= Height(b, c, d, y + 1)
    ensures forall z: nat :: Height(b, c, d, z) <= 0 ==> z <= y
  {
    RoundsAboveRoot(b, c, d, start, rounds);
    forall z: nat | Height(b, c, d, z) <= 0 ensures z <= y {
      if y < z {
        HeightGrows(b, c, d, y + 1, z);
      }
    }
  }

  // ----- the tolerance exit -----

  ghost predicate YSettles(b: nat, c: nat, d: nat, y: nat, rounds: nat)
    decreases rounds
  {
    0 < rounds && YStep(b, c, d, y).Some? &&
    var y' := YStep(b, c, d, y).value;
    Near(y', y) || YSettles(b, c, d, y', rounds - 1)
  }

  lemma SettledRound(b: nat, c: nat, d: nat, y: nat, y': nat)
    requires YStep(b, c, d, y) == Some(y') && Near(y', y)
    ensures Height(b, c, d, y') <= 1
  {
    RoundShape(b, c, d, y, y');
    TangentIdentity(b, c, d, y, y');
    SmallSquare(y - y');
  }

  /** A tolerance exit pins the answer on both sides of the root. */
  lemma {:induction false} SettledIsPinned(b: nat, c: nat, d: nat, start: nat, rounds: nat, y: nat)
    requires YSettles(b, c, d, start, rounds) && YRounds(b, c, d, start, rounds) == Some(y)
    ensures Height(b, c, d, y) <= 1 <= Height(b, c, d, y + 1)
    decreases rounds
  {
    var y' := YStep(b, c, d, start).value;
    if Near(y', start) {
      SettledRound(b, c, d, start, y');
      RoundAboveRoot(b, c, d, start, y');
    } else {
      SettledIsPinned(b, c, d, y', rounds - 1, y);
    }
  }

  // ----- contraction and convergence -----

  lemma RoundGap(b: nat, c: nat, d: nat, y: nat, y': nat, z: nat)
    requires YStep(b, c, d, y) == Some(y')
    ensures (y' - z) * (2 * y + b - d) <= (y - z) * (y - z) - Height(b, c, d, z)
  {
    RoundShape(b, c, d, y, y');
    TangentIdentity(b, c, d, y, z);
    var Q := 2 * y + b - d;
    assert (y' - z) * Q == y' * Q - z * Q;
  }

  lemma SlopeAtLeast(b: nat, c: nat, d: nat, y: nat, z: nat)
    requires 0 < z <= y && 0 <= Height(b, c, d, z)
    ensures 2 * (y - z) + z <= 2 * y + b - d
  {
    if z + b - d < 0 {
      MulLe(z + b - d, -1, z);
    }
  }

  lemma HalvedBySlope(g: nat, g': int, Q: int)
    requires g' * Q <= g * g && 2 * g <= Q && 0 < Q
    ensures 2 * g' <= g
  {
    if g < 2 * g' {
      MulLe(2 * g, Q, g');
      MulLe(g + 1, 2 * g', g);
      MulLe(1, g', Q);
    }
  }

  /** One round at least halves the distance to any point on or above the root. */
  lemma RoundContracts(b: nat, c: nat, d: nat, y: nat, y': nat, z: nat)
    requires YStep(b, c, d, y) == Some(y')
    requires 0 < z <= y && 0 <= Height(b, c, d, z)
    ensures 2 * (y' - z) <= y - z
  {
    RoundGap(b, c, d, y, y', z);
    SlopeAtLeast(b, c, d, y, z);
    HalvedBySlope(y - z, y' - z, 2 * y + b - d);
  }

  /** z is the least point where the height is positive: the ceiling of the root, plus one when
      the root is an integer. */
  ghost predicate Crossing(b: nat, c: nat, d: nat, z: nat) {
    0 < z && 1 <= Height(b, c, d, z) && Height(b, c, d, z - 1) <= 0
  }

  lemma CrossingIsLeast(b: nat, c: nat, d: nat, z: nat, w: nat)
    requires Crossing(b, c, d, z) && 1 <= Height(b, c, d, w)
    ensures z <= w
  {
    if w < z {
      HeightGrows(b, c, d, w, z - 1);
    }
  }

  lemma HeightFar(b: nat, c: nat, d: nat, z: nat)
    requires c + d < z
    ensures 1 <= Height(b, c, d, z)
  {
    MulLe(1, z + b - d, z);
  }

  lemma {:induction false} FindCrossing(b: nat, c: nat, d: nat, from: nat) returns (z: nat)
    requires 0 < from && Height(b, c, d, from - 1) <= 0
    ensures Crossing(b, c, d, z)
    decreases c + d + 2 - from
  {
    if 1 <= Height(b, c, d, from) {
      z := from;
    } else {
      if c + d < from {
        HeightFar(b, c, d, from);
      }
      z := FindCrossing(b, c, d, from + 1);
    }
  }

  /** Just below or at the crossing, the next round stays within one. */
  lemma RoundAtCrossing(b: nat, c: nat, d: nat, y: nat, y': nat, z: nat)
    requires Crossing(b, c, d, z) && YStep(b, c, d, y) == Some(y') && z - 1 <= y <= z
    ensures Near(y', y)
  {
    RoundGap(b, c, d, y, y', z);
    RoundShape(b, c, d, y, y');
    SmallSquare(y - z);
    if y < y' {
      RoundPastCrossing(b, c, d, y, y', z);
    }
    RoundAboveRoot(b, c, d, y, y');
    CrossingIsLeast(b, c, d, z, y' + 1);
  }

  lemma RoundPastCrossing(b: nat, c: nat, d: nat, y: nat, y': nat, z: nat)
    requires 0 < 2 * y + b - d && (y' - z) * (2 * y + b - d) <= 0
    ensures y' <= z
  {
    if z < y' {
      MulLe(1, y' - z, 2 * y + b - d);
    }
  }

  /** Within 2^(rounds-1) of the crossing, the loop leaves through its tolerance test. */
  lemma {:induction false} HalvingSettles(b: nat, c: nat, d: nat, y: nat, rounds: nat, z: nat)
    requires 0 < rounds && YRounds(b, c, d, y, rounds).Some?
    requires Crossing(b, c, d, z) && z - 1 <= y && y - z < Pow(2, rounds - 1)
    ensures YSettles(b, c, d, y, rounds)
    decreases rounds
  {
    var y' := YStep(b, c, d, y).value;
    if y <= z {
      RoundAtCrossing(b, c, d, y, y', z);
    } else if !Near(y', y) {
      RoundContracts(b, c, d, y, y', z);
      RoundAboveRoot(b, c, d, y, y');
      CrossingIsLeast(b, c, d, z, y' + 1);
      HalvingSettles(b, c, d, y', rounds - 1, z);
    }
  }

  function Tower(t: nat, k: nat): nat
    decreases k
  {
    if k == 0 then t else Tower(t * t, k - 1)
  }

  lemma SquaredBySlope(g: nat, g': nat, Q: int, z: nat, t: nat)
    requires 0 < z <= Q && g' * Q <= g * g && t * g <= z
    ensures (t * t) * g' <= z
  {
    MulLe(z, Q, g');
    MulLe(g' * z, g * g, t * t);
    MulLeBoth(t * g, z, t * g, z);
    SquareOfProduct(t, g);
    assert (g' * z) * (t * t) == ((t * t) * g') * z;
    CancelLe((t * t) * g', z, z);
  }

  lemma RoundSquares(b: nat, c: nat, d: nat, y: nat, y': nat, z: nat, t: nat)
    requires Crossing(b, c, d, z) && z < y && YStep(b, c, d, y) == Some(y')
    requires t * (y - z) <= z
    ensures (t * t) * (y' - z) <= z
  {
    RoundGap(b, c, d, y, y', z);
    SlopeAtLeast(b, c, d, y, z);
    if z <= y' {
      SquaredBySlope(y - z, y' - z, 2 * y + b - d, z, t);
    } else {
      MulLe(y' - z, 0, t * t);
    }
  }

  lemma SquareOfProduct(t: nat, g: nat)
    ensures (g * g) * (t * t) == (t * g) * (t * g)
  {
    assert (t * g) * (t * g) == t * (g * (t * g));
    assert g * (t * g) == (g * g) * t;
  }

  /** Once within a third of the root, the relative error squares every round. */
  lemma {:induction false} SquaringSettles(b: nat, c: nat, d: nat, y: nat, rounds: nat, z: nat, t: nat, k: nat)
    requires k < rounds && YRounds(b, c, d, y, rounds).Some?
    requires Crossing(b, c, d, z) && z - 1 <= y && t * (y - z) <= z < Tower(t, k)
    ensures YSettles(b, c, d, y, rounds)
    decreases k
  {
    var y' := YStep(b, c, d, y).value;
    RoundAboveRoot(b, c, d, y, y');
    CrossingIsLeast(b, c, d, z, y' + 1);
    if k == 0 {
      BelowOne(t, y - z, z);
    }
    if y <= z {
      RoundAtCrossing(b, c, d, y, y', z);
    } else if !Near(y', y) {
      RoundSquares(b, c, d, y, y', z, t);
      assert Tower(t, k) == Tower(t * t, k - 1);
      SquaringSettles(b, c, d, y', rounds - 1, z, t * t, k - 1);
    }
  }

  lemma BelowOne(t: nat, g: int, z: nat)
    requires t * g <= z < t
    ensures g <= 0
  {
    if 0 < g {
      MulLe(1, g, t);
    }
  }

  lemma ThirdBySlope(g: nat, g': nat, Q: int)
    requires 0 < g && g' * Q <= g * g && 3 * g <= Q
    ensures 3 * g' <= g
  {
    MulLe(3 * g, Q, g');
    assert (3 * g) * g' == (3 * g') * g;
    CancelLe(3 * g', g, g);
  }

  lemma RoundThirds(b: nat, c: nat, d: nat, y: nat, y': nat, z: nat)
    requires Crossing(b, c, d, z) && z < y <= 2 * z && YStep(b, c, d, y) == Some(y')
    ensures 3 * (y' - z) <= z
  {
    RoundGap(b, c, d, y, y', z);
    SlopeAtLeast(b, c, d, y, z);
    if z < y' {
      ThirdBySlope(y - z, y' - z, 2 * y + b - d);
    }
  }

  lemma ThirdSettles(b: nat, c: nat, d: nat, y: nat, rounds: nat, z: nat)
    requires 8 <= rounds && YRounds(b, c, d, y, rounds).Some?
    requires Crossing(b, c, d, z) && z < y <= 2 * z
    ensures YSettles(b, c, d, y, rounds)
  {
    var y' := YStep(b, c, d, y).value;
    RoundAboveRoot(b, c, d, y, y');
    CrossingIsLeast(b, c, d, z, y' + 1);
    RoundThirds(b, c, d, y, y', z);
    RootBelowTower(b, c, d, y, z);
    if !Near(y', y) {
      SquaringSettles(b, c, d, y', rounds - 1, z, 3, 6);
    }
  }

  lemma HalveFactor(g': int, g: int, p: nat, z: nat)
    requires 2 * g' <= g <= (2 * p) * z
    ensures g' <= p * z
  {
    assert (2 * p) * z == 2 * (p * z);
  }

  /** Starting within a factor 2^m of the root, m halvings, one third and six squarings reach the
      crossing for every value whose square fits in 128 bits; one more round leaves the loop. */
  lemma {:induction false} FactorSettles(b: nat, c: nat, d: nat, y: nat, rounds: nat, z: nat, m: nat)
    requires m + 8 <= rounds && YRounds(b, c, d, y, rounds).Some?
    requires Crossing(b, c, d, z) && z - 1 <= y && y - z <= Pow(2, m) * z
    ensures YSettles(b, c, d, y, rounds)
    decreases m
  {
    var y' := YStep(b, c, d, y).value;
    RoundAboveRoot(b, c, d, y, y');
    CrossingIsLeast(b, c, d, z, y' + 1);
    if y <= z {
      RoundAtCrossing(b, c, d, y, y', z);
    } else if !Near(y', y) {
      if m == 0 {
        ThirdSettles(b, c, d, y, rounds, z);
      } else {
        RoundContracts(b, c, d, y, y', z);
        HalveFactor(y' - z, y - z, Pow(2, m - 1), z);
        FactorSettles(b, c, d, y', rounds - 1, z, m - 1);
      }
    }
  }

  lemma RootBelowTower(b: nat, c: nat, d: nat, y: nat, z: nat)
    requires YStep(b, c, d, y).Some? && z <= y
    ensures z < Tower(3, 6)
  {
    RoundShape(b, c, d, y, YStep(b, c, d, y).value);
    var limit := 0x1_0000_0000_0000_0000;
    if limit <= y {
      MulLeBoth(limit, y, limit, y);
    }
    assert Tower(3, 6) == 3433683820292512484657849089281;
  }

  // ----- when the loop settles -----

  /** A start from which the remaining rounds are enough: either small, or at most 2^m times the
      root. Both tests read only the coefficients. */
  predicate GoodStart(b: nat, c: nat, d: nat, y: nat, rounds: nat) {
    8 <= rounds && (y < Pow(2, rounds - 1) || Height(b, c, d, y / Pow(2, rounds - 8)) <= 0)
  }

  lemma GoodStartSettles(b: nat, c: nat, d: nat, y: nat, rounds: nat)
    requires GoodStart(b, c, d, y, rounds) && YRounds(b, c, d, y, rounds).Some?
    requires 1 <= Height(b, c, d, y + 1)
    ensures YSettles(b, c, d, y, rounds)
  {
    var z := FindCrossing(b, c, d, 1);
    CrossingIsLeast(b, c, d, z, y + 1);
    if y < Pow(2, rounds - 1) {
      HalvingSettles(b, c, d, y, rounds, z);
    } else {
      var m := rounds - 8;
      var w := y / Pow(2, m);
      if z <= w {
        HeightGrows(b, c, d, z, w);
      }
      FactorBound(y, Pow(2, m), z);
      FactorSettles(b, c, d, y, rounds, z, m);
    }
  }

  lemma FactorBound(y: nat, p: nat, z: nat)
    requires 0 < p && y / p < z
    ensures y - z <= p * z
  {
    DivPinned(y, p);
    MulLe(y / p + 1, z, p);
  }

  lemma StartIsHigh(b: nat, c: nat, d: nat)
    requires c <= b * d
    ensures 1 <= Height(b, c, d, d + 1)
  {
    assert (d + 1) * (b + 1) == d * b + d + b + 1;
  }

  /** The 32 rounds are enough whenever the start d (if c <= b*d) or the first iterate (always)
      passes the test of `GoodStart` and no checked operation fails. */
  lemma SolverSettles(b: nat, c: nat, d: nat)
    requires YRounds(b, c, d, d, ITERATIONS).Some?
    requires (c <= b * d && GoodStart(b, c, d, d, 32))
          || GoodStart(b, c, d, (d * d + c) / (d + b), 31)
    ensures YSettles(b, c, d, d, ITERATIONS)
  {
    if c <= b * d && GoodStart(b, c, d, d, 32) {
      StartIsHigh(b, c, d);
      GoodStartSettles(b, c, d, d, 32);
    } else {
      var y' := YStep(b, c, d, d).value;
      RoundAboveRoot(b, c, d, d, y');
      if !Near(y', d) {
        GoodStartSettles(b, c, d, y', 31);
      }
    }
  }

  // ----- when the solver answers -----

  /** What one round needs: the sums fit in 128 bits and the divisor is positive. */
  predicate RoundFits(b: nat, c: nat, d: nat, y: nat) {
    && y * y + c <= 0xFFFF_FFFF_FFFF_FFFF_FFFF_FFFF_FFFF_FFFF
    && 2 * y + b <= 0xFFFF_FFFF_FFFF_FFFF_FFFF_FFFF_FFFF_FFFF
    && d < 2 * y + b
  }

  lemma RoundDefinedExactly(b: nat, c: nat, d: nat, y: nat)
    ensures YStep(b, c, d, y).Some? <==> RoundFits(b, c, d, y)
    ensures RoundFits(b, c, d, y) ==> YStep(b, c, d, y) == Some((y * y + c) / (2 * y + b - d))
  {
    SquareNonNegative(y);
  }

  /** What holds of every iterate after the first round: one more is above the root, and zero is reached only
      where the next divisor is positive. */
  predicate Settling(b: nat, c: nat, d: nat, y: nat) {
    1 <= Height(b, c, d, y + 1) && (y == 0 ==> d < b)
  }

  lemma ZeroIterate(b: nat, c: nat, d: nat, y: nat)
    requires YStep(b, c, d, y) == Some(0) && !Near(0, y)
    ensures d < b
  {
    RoundShape(b, c, d, y, 0);
    if b <= d {
      MulLe(2, y, y);
    }
  }

  lemma DivisorPositive(b: nat, c: nat, d: nat, y: nat)
    requires Settling(b, c, d, y)
    ensures d < 2 * y + b
  {
    if 0 < y {
      SignOfFactors(y + 1, y + 1 + b - d) by { assert 0 < (y + 1) * (y + 1 + b - d); }
    }
  }

  /** A round that needs less than one that fits fits too. */
  lemma FitsBelow(b: nat, c: nat, d: nat, y: nat, w: nat)
    requires RoundFits(b, c, d, w) && y <= w && d < 2 * y + b
    ensures RoundFits(b, c, d, y)
  {
    MulLeBoth(y, w, y, w);
  }

  /** On or above the root a round does not climb. */
  lemma NoClimbAboveRoot(b: nat, c: nat, d: nat, y: nat, y': nat)
    requires YStep(b, c, d, y) == Some(y') && 0 <= Height(b, c, d, y)
    ensures y' <= y
  {
    RoundGap(b, c, d, y, y', y);
    RoundShape(b, c, d, y, y');
    RoundPastCrossing(b, c, d, y, y', y);
  }

  /** Once an iterate fits, all later ones do. */
  lemma {:induction false} SettlingAnswers(b: nat, c: nat, d: nat, y: nat, rounds: nat)
    requires Settling(b, c, d, y) && RoundFits(b, c, d, y)
    ensures YRounds(b, c, d, y, rounds).Some?
    decreases rounds
  {
    if 0 < rounds {
      RoundDefinedExactly(b, c, d, y);
      var y' := YStep(b, c, d, y).value;
      RoundAboveRoot(b, c, d, y, y');
      if !Near(y', y) {
        if Height(b, c, d, y) < 0 {
          RoundAtCrossing(b, c, d, y, y', y + 1);
        }
        NoClimbAboveRoot(b, c, d, y, y');
        if y' == 0 {
          ZeroIterate(b, c, d, y);
        }
        DivisorPositive(b, c, d, y');
        FitsBelow(b, c, d, y', y);
        SettlingAnswers(b, c, d, y', rounds - 1);
      }
    }
  }

  lemma SecondRoundDecides(b: nat, c: nat, d: nat, y: nat, y': nat, rounds: nat)
    requires YStep(b, c, d, y) == Some(y') && !Near(y', y) && 2 <= rounds
    ensures YRounds(b, c, d, y, rounds).Some? <==> RoundFits(b, c, d, y')
  {
    assert YRounds(b, c, d, y, rounds) == YRounds(b, c, d, y', rounds - 1);
    RoundDefinedExactly(b, c, d, y');
    if RoundFits(b, c, d, y') {
      RoundAboveRoot(b, c, d, y, y');
      if y' == 0 {
        ZeroIterate(b, c, d, y);
      }
      SettlingAnswers(b, c, d, y', rounds - 1);
    }
  }

  function FirstIterate(b: nat, c: nat, d: nat): nat {
    if d + b == 0 then 0 else (d * d + c) / (d + b)
  }

  /** The first round fits and so does the second, unless the first already settled. */
  predicate SolverFits(b: nat, c: nat, d: nat) {
    RoundFits(b, c, d, d) && (Near(FirstIterate(b, c, d), d) || RoundFits(b, c, d, FirstIterate(b, c, d)))
  }

  lemma FirstIterateIs(b: nat, c: nat, d: nat)
    requires RoundFits(b, c, d, d)
    ensures YStep(b, c, d, d) == Some(FirstIterate(b, c, d))
  {
    RoundDefinedExactly(b, c, d, d);
    assert 2 * d + b - d == d + b;
  }

  /** The solver answers exactly when its first round fits and, unless that one already settled, its second. */
  lemma SolverAnswersExactly(b: nat, c: nat, d: nat, rounds: nat)
    requires 2 <= rounds
    ensures YRounds(b, c, d, d, rounds).Some? <==> SolverFits(b, c, d)
  {
    RoundDefinedExactly(b, c, d, d);
    if RoundFits(b, c, d, d) {
      FirstIterateIs(b, c, d);
      if !Near(FirstIterate(b, c, d), d) {
        SecondRoundDecides(b, c, d, d, FirstIterate(b, c, d), rounds);
      }
    }
  }

  /** From on or above the root, as from every balanced or larger d, the first round decides. */
  lemma SolverAnswersBelow(b: nat, c: nat, d: nat)
    requires c <= b * d && 0 < d + b
    ensures SolverFits(b, c, d) <==> d * d + c <= U128_MAX && 2 * d + b <= U128_MAX
  {
    if RoundFits(b, c, d, d) {
      var y' := FirstIterate(b, c, d);
      FirstIterateIs(b, c, d);
      NoClimbAboveRoot(b, c, d, d, y') by { assert Height(b, c, d, d) == d * b - c; }
      RoundAboveRoot(b, c, d, d, y');
      if !Near(y', d) {
        if y' == 0 {
          ZeroIterate(b, c, d, d);
        }
        DivisorPositive(b, c, d, y');
        FitsBelow(b, c, d, y', d);
      }
    }
  }

  // ----- the round limit is sharp -----

  lemma {:induction false} PowTwoMono(j: nat, k: nat)
    requires j <= k
    ensures Pow(2, j) <= Pow(2, k)
    decreases k - j
  {
    if j < k {
      PowTwoMono(j + 1, k);
      assert Pow(2, j + 1) == 2 * Pow(2, j);
    }
  }

  lemma HalvingRound(d: nat, y: nat)
    requires 0 < y && y <= 0x8000_0000_0000_0000 && d <= U64_MAX
    ensures YStep(d, 0, d, 2 * y) == if 4 * (y * y) <= U128_MAX then Some(y) else None
  {
    assert (2 * y) * (2 * y) == 4 * (y * y);
    MulLeBoth(y, 0x8000_0000_0000_0000, y, 0x8000_0000_0000_0000);
    DivAtLeast(4 * (y * y), 4 * y, y);
    DivLess(4 * (y * y), 4 * y, y + 1);
  }

  /** With b == d and c == 0 every round merely halves, so from 2^k the loop settles exactly when it
      has k rounds (at least one): 32 rounds settle 2^32 and no larger power. */
  lemma {:induction false} HalvingIsSharp(d: nat, k: nat, rounds: nat)
    requires Pow(2, k) <= 0x8000_0000_0000_0000 && d <= U64_MAX && 0 < rounds
    ensures YSettles(d, 0, d, Pow(2, k), rounds) <==> k <= rounds
    decreases k
  {
    if k == 0 {
      assert Pow(2, 0) == 1;
    } else {
      var y := Pow(2, k - 1);
      assert Pow(2, k) == 2 * y;
      MulLeBoth(y, 0x4000_0000_0000_0000, y, 0x4000_0000_0000_0000);
      HalvingRound(d, y);
      if k == 1 {
        assert y == 1;
      } else {
        PowTwoMono(1, k - 1);
        assert Pow(2, 1) == 2 * Pow(2, 0) == 2;
        if 1 < rounds {
          HalvingIsSharp(d, k - 1, rounds - 1);
        }
      }
    }
  }

  /** The limit is 32: from 2^32 the loop just settles, from 2^33 it does not. */
  lemma RoundLimitIs32(d: nat)
    requires d <= U64_MAX
    ensures YSettles(d, 0, d, 0x1_0000_0000, ITERATIONS) && !YSettles(d, 0, d, 0x2_0000_0000, ITERATIONS)
  {
    TwoTo32();
    PowTwoMono(32, 63);
    PowTwoMono(33, 63);
    HalvingIsSharp(d, 32, ITERATIONS);
    HalvingIsSharp(d, 33, ITERATIONS);
  }

  lemma EightMore(k: nat)
    ensures Pow(2, k + 8) == 256 * Pow(2, k)
  {
    assert Pow(2, k + 4) == 16 * Pow(2, k) by { FourMore(k); }
    FourMore(k + 4);
  }

  lemma FourMore(k: nat)
    ensures Pow(2, k + 4) == 16 * Pow(2, k)
  {
    assert Pow(2, k + 1) == 2 * Pow(2, k) && Pow(2, k + 2) == 2 * Pow(2, k + 1);
    assert Pow(2, k + 3) == 2 * Pow(2, k + 2) && Pow(2, k + 4) == 2 * Pow(2, k + 3);
  }

  lemma TwoTo32()
    ensures Pow(2, 32) == 0x1_0000_0000 && Pow(2, 33) == 0x2_0000_0000 && Pow(2, 63) == 0x8000_0000_0000_0000
  {
    assert Pow(2, 0) == 1;
    EightMore(0);
    EightMore(8);
    EightMore(16);
    EightMore(24);
    EightMore(32);
    EightMore(40);
    EightMore(48);
    assert Pow(2, 33) == 2 * Pow(2, 32);
    FourMore(56);
    assert Pow(2, 61) == 2 * Pow(2, 60) && Pow(2, 62) == 2 * Pow(2, 61) && Pow(2, 63) == 2 * Pow(2, 62);
  }
}
