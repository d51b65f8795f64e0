/** When the loop of `get_d` settles, and how close to the exact invariant it ends.

    Every pool has a looseness L at the floor z of its exact invariant (`Loose`), and every distance
    below is stated in it. Steady pools, whose looseness is below n+1, also leave the loop. */
module ConvergenceTheorems {
  import opened Options
  import opened Checked
  import opened Arithmetic
  import opened StableCurve
  import opened InvariantTheorems
  import opened SolverTheorems
  import opened PowerTheorems
  import opened MeanTheorems
  import opened RoundTheorems

  /** Room for the linear bounds. */
  predicate Fits2(n: nat, L: nat, z: nat) {
    2 * L <= z && 2 * (n + 1) <= z
  }

  /** Room for the quadratic ones: z is large beside the looseness and the number of coins. */
  predicate Roomy(n: nat, L: nat, z: nat) {
    var R := Reserve(n, L);
    && 3 * (((L + 5) * (n + 1)) * R) <= z
    && (n * (n + 1)) * ((R + n + 1) * (R + n + 1)) < 2 * z
  }

  lemma RoomyIsEnough(n: nat, L: nat, z: nat)
    requires Roomy(n, L, z)
    ensures Fits2(n, L, z) && (n + 1) * L <= z && L <= z && 0 < z
  {
    var R, N := Reserve(n, L), n + 1;
    MulLe(5, L + 5, N);
    MulLe(5 * N, (L + 5) * N, R);
    MulLe(N, 5 * N, R);
    MulLe(L, R, N);
    MulLe(1, N, R);
  }

  /** A distance, less the reserve, that has shrunk by n/(n+1) in each of so many rounds. */
  ghost predicate Shrunk(n: nat, L: nat, rounds: nat, before: int, after: int) {
    Weighed(n + 1, rounds, after - Reserve(n, L)) <= Weighed(n, rounds, before - Reserve(n, L))
  }

  function Weighed(b: nat, rounds: nat, distance: int): int {
    Pow(b, rounds) * distance
  }

  /** A final distance within the reserve and n, or shrunk in every round. */
  ghost predicate EndsNear(n: nat, L: nat, rounds: nat, before: int, after: int) {
    after <= Reserve(n, L) + n || Shrunk(n, L, rounds, before, after)
  }

  /** A distance, less the reserve, that r rounds bring close to z. */
  ghost predicate Reaches(n: nat, L: nat, r: nat, distance: int, z: nat) {
    (3 * ((L + 5) * (n + 1))) * (Pow(n, r) * (distance - Reserve(n, L))) <= Pow(n + 1, r) * z
  }

  // ----- where a settled loop ends -----

  lemma SettledShrinks(n: nat, e: int, e': int)
    requires (n + 1) * e' <= n * e && e <= e' + 1
    ensures e' <= n
  {
    MulLe(e, e' + 1, n);
    assert (n + 1) * e' == n * e' + e';
    assert (e' + 1) * n == n * e' + n;
  }

  lemma SmallDistance(n: nat, L: nat, z: nat, d: nat, d': nat, bound: nat)
    requires Squares(n, L, z, d, d') && z <= d && d - z <= bound && z <= d'
    requires (n * (n + 1)) * (bound * bound) < 2 * z && (d == z ==> d' <= z + 1)
    ensures n * (d' - z - 1) <= L
  {
    if z < d {
      ScaledSquare(n * (n + 1), d - z, bound);
      if L < n * (d' - z - 1) {
        MulLe(1, n * (d' - z - 1) - L, d);
      }
    } else {
      MulLe(d' - z - 1, 0, n);
    }
  }

  lemma SettledDistance(n: nat, L: nat, z: nat, d: nat, d': nat)
    requires Shrinks(n, L, z, d, d') && Near(d', d) && z <= d
    ensures z <= d' <= z + Reserve(n, L) + n
    ensures Roomy(n, L, z) && Squares(n, L, z, d, d') ==> n * (d' - z - 1) <= L
  {
    var R := Reserve(n, L);
    SettledShrinks(n, d - z - R, d' - z - R);
    if Roomy(n, L, z) && Squares(n, L, z, d, d') {
      SmallDistance(n, L, z, d, d', R + n + 1);
    }
  }

  lemma LastRoundAbove(curve: Curve, amounts: seq<nat>, q: DParams, d: nat, d': nat, z: nat, L: nat)
    requires Setting(curve, amounts, q, z) && Loose(q.scaled, z, L) && Fits2(|amounts|, L, z) && z <= d
    requires DStep(q, d) == Some(d') && Near(d', d)
    ensures z <= d' <= z + Reserve(|amounts|, L) + |amounts|
    ensures Roomy(|amounts|, L, z) ==> |amounts| * (d' - z - 1) <= L
  {
    RoundShrinks(curve, amounts, q, d, d', z, L);
    if Roomy(|amounts|, L, z) {
      RoomyIsEnough(|amounts|, L, z);
      RoundCloses(curve, amounts, q, d, d', z, L);
    }
    SettledDistance(|amounts|, L, z, d, d');
  }

  lemma LastRound(curve: Curve, amounts: seq<nat>, q: DParams, d: nat, d': nat, z: nat, L: nat)
    requires Setting(curve, amounts, q, z) && Loose(q.scaled, z, L) && Fits2(|amounts|, L, z)
    requires DStep(q, d) == Some(d') && Near(d', d)
    ensures z <= d' <= z + Reserve(|amounts|, L) + |amounts|
    ensures Roomy(|amounts|, L, z) ==> |amounts| * (d' - z - 1) <= L
  {
    if z <= d {
      LastRoundAbove(curve, amounts, q, d, d', z, L);
    } else {
      RoundStaysAbove(curve, amounts, q, d, d', z);
      AtTheFloor(|amounts|, L, z, d');
    }
  }

  lemma AtTheFloor(n: nat, L: nat, z: nat, d: nat)
    requires z == d
    ensures d <= z + Reserve(n, L) + n && n * (d - z - 1) <= L
  {
    MulLe(d - z - 1, 0, n);
  }

  /** A loop that left through its tolerance test, from whatever start, ended at z or within the reserve
      and n of it; with room, within L/n + 1. */
  lemma {:induction false} SettledIsClose(curve: Curve, amounts: seq<nat>, q: DParams, d: nat, rounds: nat, z: nat, L: nat, r: nat)
    requires Setting(curve, amounts, q, z) && Loose(q.scaled, z, L) && Fits2(|amounts|, L, z)
    requires DSettles(q, d, rounds) && DRounds(q, d, rounds) == Some(r)
    ensures z <= r <= z + Reserve(|amounts|, L) + |amounts|
    ensures Roomy(|amounts|, L, z) ==> |amounts| * (r - z - 1) <= L
    decreases rounds
  {
    var d' := DStep(q, d).value;
    if Near(d', d) {
      LastRound(curve, amounts, q, d, d', z, L);
    } else {
      SettledIsClose(curve, amounts, q, d', rounds - 1, z, L, r);
    }
  }

  // ----- any number of rounds -----

  lemma ScaleStep(w: nat, W: nat, n1: nat, n: nat, r: int, e': int, e: int)
    requires W * r <= w * e' && n1 * e' <= n * e
    ensures (n1 * W) * r <= (n * w) * e
  {
    MulLe(W * r, w * e', n1);
    assert (W * r) * n1 == (n1 * W) * r;
    assert (w * e') * n1 == (n1 * e') * w;
    MulLe(n1 * e', n * e, w);
    assert (n * e) * w == (n * w) * e;
  }

  lemma NoFarther(n: nat, e: int, e': int, last: int)
    requires (n + 1) * e' <= n * e && last <= e' && 0 < last
    ensures last <= e
  {
    assert (n + 1) * e' == n * e' + e';
    if e < e' {
      MulLe(e, e', n);
    }
  }

  /** Whatever the number of rounds, the answer is not below z, and it is within the reserve and n of it or
      the distance, less the reserve, has shrunk in each of the first k. */
  lemma {:induction false} RoundsStayClose(curve: Curve, amounts: seq<nat>, q: DParams, d: nat, rounds: nat, z: nat, L: nat, k: nat, r: nat)
    requires Setting(curve, amounts, q, z) && Loose(q.scaled, z, L) && Fits2(|amounts|, L, z)
    requires z <= d && DRounds(q, d, rounds) == Some(r) && k <= rounds
    ensures z <= r && EndsNear(|amounts|, L, k, d - z, r - z)
    decreases rounds
  {
    if 0 < rounds {
      var n, d', R := |amounts|, DStep(q, d).value, Reserve(|amounts|, L);
      RoundShrinks(curve, amounts, q, d, d', z, L);
      if Near(d', d) {
        SettledDistance(n, L, z, d, d');
      } else {
        RoundsStayClose(curve, amounts, q, d', rounds - 1, z, L, if k == 0 then 0 else k - 1, r);
        if z + R + n < r {
          OneMoreRound(n, k, R, d - z - R, d' - z - R, r - z - R);
        }
      }
    }
  }

  lemma OneMoreRound(n: nat, k: nat, R: nat, e: int, e': int, last: int)
    requires (n + 1) * e' <= n * e && 0 < last
    requires var j := if k == 0 then 0 else k - 1; Weighed(n + 1, j, last) <= Weighed(n, j, e')
    ensures Weighed(n + 1, k, last) <= Weighed(n, k, e)
  {
    if k == 0 {
      assert Pow(n, 0) == 1 && Pow(n + 1, 0) == 1;
      NoFarther(n, e, e', last);
    } else {
      ScaleStep(Pow(n, k - 1), Pow(n + 1, k - 1), n + 1, n, last, e', e);
    }
  }

  // ----- landing -----

  /** The loop leaves through its tolerance test or comes within L+4 of z with `rest` rounds left. */
  ghost predicate Lands(q: DParams, d: nat, rounds: nat, z: nat, L: nat, rest: nat)
    decreases rounds
  {
    rest <= rounds &&
    (d <= z + L + 4 ||
     (0 < rounds && DStep(q, d).Some? &&
      (Near(DStep(q, d).value, d) || Lands(q, DStep(q, d).value, rounds - 1, z, L, rest))))
  }

  function ScaledBy2(f: nat, a: nat): nat {
    f * (a * a)
  }

  /** The quadratic bound in its widest form, from z itself included. */
  lemma CloserWide(n: nat, L: nat, z: nat, d: nat, d': nat)
    requires 0 < n && z <= d && Shrinks(n, L, z, d, d') && Squares(n, L, z, d, d')
    ensures 2 * (d * (d' - z - (L + 4))) <= (n + 1) * ((d - z) * (d - z))
  {
    if d == z {
      FromFloorShort(n, Reserve(n, L), L, d' - z);
    }
    WideCases(n + 1, L, d, d' - z - 1, d - z) by {
      if z < d {
        MulAssoc(n, n + 1, (d - z) * (d - z));
        WideAlgebra(n, L, d, d' - z - 1, ScaledBy2(n + 1, d - z));
      }
    }
  }

  lemma WideCases(N: nat, L: nat, d: nat, x: int, g: nat)
    requires 2 * (d * (x - L)) <= N * (g * g) || x <= L + 3
    ensures 2 * (d * (x - L - 3)) <= N * (g * g)
  {
    ProductsAreNat(N, g, g);
    MulLe(x - L - 3, if x <= L + 3 then 0 else x - L, d);
  }

  lemma FromFloorShort(n: nat, R: int, L: nat, x: int)
    requires 0 < n && R == Reserve(n, L) && (n + 1) * (x - R) <= n * (-R)
    ensures x <= L + 4
  {
    MulSub(n + 1, x, R);
    assert (n + 1) * x <= R by { assert (n + 1) * R == n * R + R && n * (-R) == -(n * R); }
    if L + 4 < x {
      MulLe(L + 5, x, n + 1);
      assert (L + 5) * (n + 1) == L * (n + 1) + 5 * (n + 1);
      MulLe(2, n + 1, L);
    }
  }

  lemma WideAlgebra(n: nat, L: nat, d: nat, x: int, bound: nat)
    requires 0 < n && 2 * (d * (n * x - L)) <= n * bound
    ensures 2 * (d * (x - L)) <= bound
  {
    MulLe(1, n, L);
    MulLe(n * (x - L), n * x - L, d) by { MulSub(n, x, L); }
    assert (n * (x - L)) * d == n * (d * (x - L));
    assert (n * x - L) * d == d * (n * x - L);
    CancelLe(2 * (d * (x - L)), bound, n) by { assert (2 * (d * (x - L))) * n == 2 * (n * (d * (x - L))); }
  }

  lemma SquaringRound(N: nat, B: nat, z: nat, d: nat, g: nat, g': nat, t: nat, sq: nat)
    requires 0 < z <= d && sq == N * (g * g) && 2 * (d * (g' - B)) <= sq && 2 * z <= sq
    requires t * (((B + 1) * N) * g) <= 2 * z
    ensures (t * t) * (((B + 1) * N) * g') <= 2 * z
  {
    GrowthAbsorbed(B, z, d, g', sq);
    MulAssoc(B + 1, N, g * g);
    SquaringAlgebra((B + 1) * N, 2 * z, g, g', t);
  }

  lemma GrowthAbsorbed(B: nat, z: nat, d: nat, g': nat, sq: nat)
    requires z <= d && 2 * (d * (g' - B)) <= sq && 2 * z <= sq
    ensures (2 * z) * g' <= (B + 1) * sq
  {
    if B <= g' {
      MulLe(z, d, g' - B);
    } else {
      MulLe(g' - B, 0, z);
    }
    assert (2 * z) * g' == 2 * (z * (g' - B)) + (2 * z) * B;
    MulLe(2 * z, sq, B);
    assert (B + 1) * sq == sq * B + sq;
  }

  lemma SquaringAlgebra(M: nat, G: nat, g: nat, g': nat, t: nat)
    requires 0 < G && G * g' <= M * (g * g) && t * (M * g) <= G
    ensures (t * t) * (M * g') <= G
  {
    var u := M * g;
    MulLe(G * g', M * (g * g), M);
    assert M * (M * (g * g)) == u * u by {
      MulAssoc(M, g, g);
      Exchange3(M, g, u);
    }
    SquaredBySlope(u, M * g', G, G, t) by {
      Exchange3(G, g', M);
      assert G * (M * g') == (G * M) * g';
    }
  }

  lemma FactorGone(t: nat, f: nat, g: nat, G: nat)
    requires 0 < f && t * (f * g) <= G < t
    ensures g == 0
  {
    if 0 < g {
      FactorsKeepPositive(f, g);
      MulLe(1, f * g, t);
    }
  }

  lemma AlmostThere(d: nat, x: int, z: nat, bound: int)
    requires z <= d && 2 * (d * x) <= bound < 2 * z
    ensures x <= 0
  {
    if 0 < x {
      MulLe(1, x, d);
    }
  }

  /** Once the distance is small beside z, its ratio to z squares every round. */
  lemma {:induction false} SquaringLands(curve: Curve, amounts: seq<nat>, q: DParams, d: nat, rounds: nat, z: nat, L: nat, t: nat, k: nat, rest: nat)
    requires Setting(curve, amounts, q, z) && Loose(q.scaled, z, L) && Roomy(|amounts|, L, z) && 0 < |amounts|
    requires z <= d && DRounds(q, d, rounds).Some? && k + rest <= rounds
    requires t * (((L + 5) * (|amounts| + 1)) * (d - z)) <= 2 * z < Tower(t, k)
    ensures Lands(q, d, rounds, z, L, rest)
    decreases k
  {
    var n := |amounts|;
    RoomyIsEnough(n, L, z);
    if k == 0 {
      FactorsKeepPositive(L + 5, n + 1);
      FactorGone(t, (L + 5) * (n + 1), d - z, 2 * z);
    } else {
      var d' := DStep(q, d).value;
      RoundShrinks(curve, amounts, q, d, d', z, L);
      RoundCloses(curve, amounts, q, d, d', z, L);
      CloserWide(n, L, z, d, d');
      if !Near(d', d) {
        SquaringStep(n, L, z, d, d', t);
        if d' > z + L + 4 {
          assert Tower(t, k) == Tower(t * t, k - 1);
          SquaringLands(curve, amounts, q, d', rounds - 1, z, L, t * t, k - 1, rest);
        }
      }
    }
  }

  lemma SquaringStep(n: nat, L: nat, z: nat, d: nat, d': nat, t: nat)
    requires 0 < z <= d && z <= d' && t * (((L + 5) * (n + 1)) * (d - z)) <= 2 * z
    requires 2 * (d * (d' - z - (L + 4))) <= (n + 1) * ((d - z) * (d - z))
    ensures d' <= z + L + 4 || (t * t) * (((L + 5) * (n + 1)) * (d' - z)) <= 2 * z
  {
    var sq := ScaledBy2(n + 1, d - z);
    if sq < 2 * z {
      AlmostThere(d, d' - z - (L + 4), z, sq);
    } else {
      SquaringRound(n + 1, L + 4, z, d, d - z, d' - z, t, sq);
    }
  }

  lemma StartBelowTower(q: DParams, d: nat, z: nat)
    requires DStep(q, d).Some? && 0 < |q.scaled| && z <= d
    ensures 2 * z < Tower(3, 6)
  {
    assert d * d <= U128_MAX;
    var limit := 0x1_0000_0000_0000_0000;
    if limit <= d {
      MulLeBoth(limit, d, limit, d);
    }
    assert Tower(3, 6) == 3433683820292512484657849089281;
  }

  lemma LinearSettleStep(n: nat, n1: nat, w: nat, W: nat, wr: nat, Wr: nat, e: int, e': int, f: nat, z: nat)
    requires 0 < n1 && n1 * e' <= n * e && f * (wr * e) <= Wr * z && wr == n * w && Wr == n1 * W
    ensures f * (w * e') <= W * z
  {
    MulLe(n1 * e', n * e, f * w);
    Interchange(n1, e', f, w);
    Interchange(n, e, w, f);
    Exchange3(n1, W, z);
    assert (n1 * f) * (e' * w) == (f * (w * e')) * n1;
    assert (n * w) * (e * f) == f * ((n * w) * e);
    CancelLe(f * (w * e'), W * z, n1);
  }

  lemma ReachedAlready(n: nat, L: nat, distance: nat, z: nat)
    requires Roomy(n, L, z) && Reaches(n, L, 0, distance, z)
    ensures 3 * (((L + 5) * (n + 1)) * distance) <= 2 * z
  {
    assert Pow(n, 0) == 1 && Pow(n + 1, 0) == 1;
    ReserveRegained((L + 5) * (n + 1), distance, Reserve(n, L), z);
  }

  lemma ReserveRegained(M: nat, distance: nat, R: nat, z: nat)
    requires (3 * M) * (distance - R) <= z && 3 * (M * R) <= z
    ensures 3 * (M * distance) <= 2 * z
  {
    MulSub(3 * M, distance, R);
    MulAssoc(3, M, distance);
    MulAssoc(3, M, R);
  }

  lemma LandsByNow(curve: Curve, amounts: seq<nat>, q: DParams, d: nat, rounds: nat, z: nat, L: nat, rest: nat)
    requires Setting(curve, amounts, q, z) && Loose(q.scaled, z, L) && Roomy(|amounts|, L, z)
    requires z <= d && DRounds(q, d, rounds).Some? && 6 + rest <= rounds
    requires Reaches(|amounts|, L, 0, d - z, z)
    ensures Lands(q, d, rounds, z, L, rest)
  {
    SetupFacts(curve, amounts, q);
    StartBelowTower(q, d, z);
    ReachedAlready(|amounts|, L, d - z, z);
    SquaringLands(curve, amounts, q, d, rounds, z, L, 3, 6, rest);
  }

  lemma ReachesOn(n: nat, L: nat, r: nat, d: nat, d': nat, z: nat)
    requires 0 < r && Reaches(n, L, r, d - z, z) && Shrinks(n, L, z, d, d')
    ensures Reaches(n, L, r - 1, d' - z, z)
  {
    var R := Reserve(n, L);
    LinearSettleStep(n, n + 1, Pow(n, r - 1), Pow(n + 1, r - 1), Pow(n, r), Pow(n + 1, r),
                     d - z - R, d' - z - R, 3 * ((L + 5) * (n + 1)), z);
  }

  /** r rounds of linear descent and six of squaring land. */
  lemma {:induction false} LinearLands(curve: Curve, amounts: seq<nat>, q: DParams, d: nat, rounds: nat, z: nat, L: nat, r: nat, rest: nat)
    requires Setting(curve, amounts, q, z) && Loose(q.scaled, z, L) && Roomy(|amounts|, L, z)
    requires z <= d && DRounds(q, d, rounds).Some? && r + 6 + rest <= rounds
    requires Reaches(|amounts|, L, r, d - z, z)
    ensures Lands(q, d, rounds, z, L, rest)
    decreases r
  {
    if r == 0 {
      LandsByNow(curve, amounts, q, d, rounds, z, L, rest);
    } else {
      var d' := DStep(q, d).value;
      RoomyIsEnough(|amounts|, L, z);
      RoundShrinks(curve, amounts, q, d, d', z, L);
      if !Near(d', d) {
        ReachesOn(|amounts|, L, r, d, d', z);
        LinearLands(curve, amounts, q, d', rounds - 1, z, L, r - 1, rest);
      }
    }
  }

  // ----- after landing -----

  lemma StaysLanded(n: nat, L: nat, z: nat, d: nat, d': nat)
    requires 0 < n && Roomy(n, L, z) && z <= d <= z + L + 4
    requires 2 * (d * (d' - z - (L + 4))) <= (n + 1) * ((d - z) * (d - z))
    ensures d' <= z + L + 4
  {
    var b := Reserve(n, L) + n + 1;
    ScaledSquare(n + 1, d - z, b);
    MulLe(n + 1, n * (n + 1), b * b) by { MulLe(1, n, n + 1); SquareNonNegative(b); }
    AlmostThere(d, d' - z - (L + 4), z, (n + 1) * ((d - z) * (d - z)));
  }

  lemma QuotientWithin(n: nat, L: nat, x: int)
    requires 0 < n && n * (x - 1) <= L
    ensures x <= L + 1
  {
    if L + 1 < x {
      MulLe(1, n, x - 1);
    }
  }

  /** A loop that lands ends within L+4 of z, settled or not. */
  lemma {:induction false} LandedIsClose(curve: Curve, amounts: seq<nat>, q: DParams, d: nat, rounds: nat, z: nat, L: nat, r: nat)
    requires Setting(curve, amounts, q, z) && Loose(q.scaled, z, L) && Roomy(|amounts|, L, z) && 0 < |amounts|
    requires z <= d && DRounds(q, d, rounds) == Some(r) && Lands(q, d, rounds, z, L, 0)
    ensures z <= r <= z + L + 4
    decreases rounds
  {
    if 0 < rounds {
      var n, d' := |amounts|, DStep(q, d).value;
      RoomyIsEnough(n, L, z);
      RoundShrinks(curve, amounts, q, d, d', z, L);
      RoundCloses(curve, amounts, q, d, d', z, L);
      CloserWide(n, L, z, d, d');
      if Near(d', d) {
        SettledDistance(n, L, z, d, d');
        QuotientWithin(n, L, d' - z);
      } else {
        if d <= z + L + 4 {
          StaysLanded(n, L, z, d, d');
        }
        LandedIsClose(curve, amounts, q, d', rounds - 1, z, L, r);
      }
    }
  }

  /** On a steady pool every round that does not leave the loop comes closer by two at least. */
  lemma {:induction false} FewLeftSettles(curve: Curve, amounts: seq<nat>, q: DParams, d: nat, rounds: nat, z: nat)
    requires Setting(curve, amounts, q, z) && Steady(q.scaled, z) && z <= d
    requires DRounds(q, d, rounds).Some? && d - z < 2 * rounds
    ensures DSettles(q, d, rounds)
    decreases rounds
  {
    var d' := DStep(q, d).value;
    RoundStaysAbove(curve, amounts, q, d, d', z);
    RoundSteps(curve, amounts, q, d, d', z);
    if !Near(d', d) {
      FewLeftSettles(curve, amounts, q, d', rounds - 1, z);
    }
  }

  lemma {:induction false} LandedSettles(curve: Curve, amounts: seq<nat>, q: DParams, d: nat, rounds: nat, z: nat, L: nat, rest: nat)
    requires Setting(curve, amounts, q, z) && Steady(q.scaled, z) && z <= d
    requires DRounds(q, d, rounds).Some? && Lands(q, d, rounds, z, L, rest) && L + 4 < 2 * rest
    ensures DSettles(q, d, rounds)
    decreases rounds
  {
    if d <= z + L + 4 {
      FewLeftSettles(curve, amounts, q, d, rounds, z);
    } else {
      var d' := DStep(q, d).value;
      RoundStaysAbove(curve, amounts, q, d, d', z);
      if !Near(d', d) {
        LandedSettles(curve, amounts, q, d', rounds - 1, z, L, rest);
      }
    }
  }

  // ----- main results -----

  lemma SettingOfD(curve: Curve, amounts: seq<nat>, suggest: Option<nat>, z: nat, rounds: nat) returns (q: DParams, start: nat)
    requires rounds == ITERATIONS && curve.D(amounts, suggest).Some? && 0 < Sum(amounts) && IsFloor(curve, amounts, z)
    requires suggest.Some? ==> z <= suggest.value
    ensures curve.DSetup(amounts) == Some(q) && Setting(curve, amounts, q, z)
    ensures q.scaled == Times(|amounts|, amounts) && 0 < |amounts|
    ensures start == suggest.GetOr(Sum(amounts)) && z <= start
    ensures curve.D(amounts, suggest) == DRounds(q, start, rounds)
  {
    q, start := curve.DSetup(amounts).value, suggest.GetOr(Sum(amounts));
    SetupFacts(curve, amounts, q);
    SumCoversFloor(curve, amounts, z);
  }

  lemma NearExactFrom(curve: Curve, amounts: seq<nat>, q: DParams, start: nat, d: nat, z: nat, L: nat, k: nat, rounds: nat, before: int, after: int)
    requires Setting(curve, amounts, q, z) && Loose(q.scaled, z, L) && Fits2(|amounts|, L, z) && k <= rounds
    requires z <= start && DRounds(q, start, rounds) == Some(d) && before == start - z && after == d - z
    ensures EndsNear(|amounts|, L, k, before, after) && 0 <= after
  {
    RoundsStayClose(curve, amounts, q, start, rounds, z, L, k, d);
  }

  lemma NearExactInRounds(curve: Curve, amounts: seq<nat>, suggest: Option<nat>, d: nat, z: nat, L: nat, k: nat, rounds: nat, before: int, after: int)
    requires curve.D(amounts, suggest) == Some(d) && 0 < Sum(amounts) && IsFloor(curve, amounts, z)
    requires suggest.Some? ==> z <= suggest.value
    requires Loose(Times(|amounts|, amounts), z, L) && Fits2(|amounts|, L, z) && k <= rounds == ITERATIONS
    requires before == suggest.GetOr(Sum(amounts)) - z && after == d - z
    ensures EndsNear(|amounts|, L, k, before, after)
  {
    var q, start := SettingOfD(curve, amounts, suggest, z, rounds);
    NearExactFrom(curve, amounts, q, start, d, z, L, k, rounds, before, after);
  }

  /** On every pool, settled or not: `get_d` is at least the floor z of the exact invariant, and at most the
      reserve and n above it, or else the start's distance, less the reserve, has shrunk k times, for
      any k up to 32. */
  lemma GetDNearExact(curve: Curve, amounts: seq<nat>, suggest: Option<nat>, d: nat, z: nat, L: nat, k: nat)
    returns (before: nat, after: nat)
    requires curve.D(amounts, suggest) == Some(d) && 0 < Sum(amounts) && IsFloor(curve, amounts, z)
    requires suggest.Some? ==> z <= suggest.value
    requires Loose(Times(|amounts|, amounts), z, L) && Fits2(|amounts|, L, z) && k <= ITERATIONS
    ensures suggest.GetOr(Sum(amounts)) == z + before && d == z + after
    ensures EndsNear(|amounts|, L, k, before, after)
  {
    before, after := DistancesOf(curve, amounts, suggest, d, z);
    NearExactInRounds(curve, amounts, suggest, d, z, L, k, ITERATIONS, before, after);
  }

  lemma DistancesOf(curve: Curve, amounts: seq<nat>, suggest: Option<nat>, d: nat, z: nat) returns (before: nat, after: nat)
    requires curve.D(amounts, suggest) == Some(d) && 0 < Sum(amounts) && IsFloor(curve, amounts, z)
    requires suggest.Some? ==> z <= suggest.value
    ensures suggest.GetOr(Sum(amounts)) == z + before && d == z + after
  {
    SetupFacts(curve, amounts, curve.DSetup(amounts).value);
    SumCoversFloor(curve, amounts, z);
    GetDAboveExact(curve, amounts, suggest, d);
    before, after := suggest.GetOr(Sum(amounts)) - z, d - z;
  }

  lemma LandsFromStart(curve: Curve, amounts: seq<nat>, suggest: Option<nat>, z: nat, L: nat, r: nat, rest: nat, rounds: nat)
    returns (q: DParams, start: nat)
    requires curve.D(amounts, suggest).Some? && 0 < Sum(amounts) && IsFloor(curve, amounts, z)
    requires suggest.Some? ==> z <= suggest.value
    requires Loose(Times(|amounts|, amounts), z, L) && Roomy(|amounts|, L, z)
    requires r + 6 + rest <= rounds == ITERATIONS && Reaches(|amounts|, L, r, suggest.GetOr(Sum(amounts)) - z, z)
    ensures curve.DSetup(amounts) == Some(q) && Setting(curve, amounts, q, z)
    ensures q.scaled == Times(|amounts|, amounts) && 0 < |amounts|
    ensures start == suggest.GetOr(Sum(amounts)) && z <= start
    ensures curve.D(amounts, suggest) == DRounds(q, start, rounds) && Lands(q, start, rounds, z, L, rest)
  {
    q, start := SettingOfD(curve, amounts, suggest, z, rounds);
    LinearLands(curve, amounts, q, start, rounds, z, L, r, rest);
  }

  lemma WithinInRounds(curve: Curve, amounts: seq<nat>, suggest: Option<nat>, d: nat, z: nat, L: nat, r: nat, rounds: nat)
    requires curve.D(amounts, suggest) == Some(d) && 0 < Sum(amounts) && IsFloor(curve, amounts, z)
    requires suggest.Some? ==> z <= suggest.value
    requires Loose(Times(|amounts|, amounts), z, L) && Roomy(|amounts|, L, z)
    requires r + 6 <= rounds == ITERATIONS && Reaches(|amounts|, L, r, suggest.GetOr(Sum(amounts)) - z, z)
    ensures z <= d <= z + L + 4
  {
    var q, start := LandsFromStart(curve, amounts, suggest, z, L, r, 0, rounds);
    LandedIsClose(curve, amounts, q, start, rounds, z, L, d);
  }

  /** On every pool with room, from a start within about z * ((n+1)/n)^26 / (3*(L+5)*(n+1)) of z: the answer is
      at most L+4 above z, settled or not. */
  lemma GetDWithin(curve: Curve, amounts: seq<nat>, suggest: Option<nat>, d: nat, z: nat, L: nat, r: nat)
    requires curve.D(amounts, suggest) == Some(d) && 0 < Sum(amounts) && IsFloor(curve, amounts, z)
    requires suggest.Some? ==> z <= suggest.value
    requires Loose(Times(|amounts|, amounts), z, L) && Roomy(|amounts|, L, z)
    requires r + 6 <= ITERATIONS && Reaches(|amounts|, L, r, suggest.GetOr(Sum(amounts)) - z, z)
    ensures z <= d <= z + L + 4
  {
    WithinInRounds(curve, amounts, suggest, d, z, L, r, ITERATIONS);
  }

  /** The rounds a steady pool needs to leave the loop once it has landed. */
  function LastRounds(n: nat): nat {
    (n + 1) / 2 + 3
  }

  lemma SettlesInRounds(curve: Curve, amounts: seq<nat>, suggest: Option<nat>, z: nat, r: nat, rounds: nat)
    requires curve.D(amounts, suggest).Some? && 0 < Sum(amounts) && IsFloor(curve, amounts, z)
    requires suggest.Some? ==> z <= suggest.value
    requires Steady(Times(|amounts|, amounts), z) && Roomy(|amounts|, |amounts| + 1, z)
    requires r + 6 + LastRounds(|amounts|) <= rounds == ITERATIONS
    requires Reaches(|amounts|, |amounts| + 1, r, suggest.GetOr(Sum(amounts)) - z, z)
    ensures DSettles(curve.DSetup(amounts).value, suggest.GetOr(Sum(amounts)), rounds)
  {
    var n := |amounts|;
    SteadyIsLoose(Times(n, amounts), z);
    var q, start := LandsFromStart(curve, amounts, suggest, z, n + 1, r, LastRounds(n), rounds);
    LandedSettles(curve, amounts, q, start, rounds, z, n + 1, LastRounds(n));
  }

  /** On a steady pool the 32 rounds are enough, when no checked operation fails. */
  lemma GetDSettles(curve: Curve, amounts: seq<nat>, suggest: Option<nat>, z: nat, r: nat)
    requires curve.D(amounts, suggest).Some? && 0 < Sum(amounts) && IsFloor(curve, amounts, z)
    requires suggest.Some? ==> z <= suggest.value
    requires Steady(Times(|amounts|, amounts), z) && Roomy(|amounts|, |amounts| + 1, z)
    requires r + 6 + LastRounds(|amounts|) <= ITERATIONS
    requires Reaches(|amounts|, |amounts| + 1, r, suggest.GetOr(Sum(amounts)) - z, z)
    ensures DSettles(curve.DSetup(amounts).value, suggest.GetOr(Sum(amounts)), ITERATIONS)
  {
    SettlesInRounds(curve, amounts, suggest, z, r, ITERATIONS);
  }

  lemma SettledInRounds(curve: Curve, amounts: seq<nat>, suggest: Option<nat>, d: nat, z: nat, L: nat, rounds: nat)
    requires curve.D(amounts, suggest) == Some(d) && 0 < Sum(amounts) && IsFloor(curve, amounts, z)
    requires Loose(Times(|amounts|, amounts), z, L) && Fits2(|amounts|, L, z) && rounds == ITERATIONS
    requires DSettles(curve.DSetup(amounts).value, suggest.GetOr(Sum(amounts)), rounds)
    ensures z <= d <= z + Reserve(|amounts|, L) + |amounts|
    ensures Roomy(|amounts|, L, z) ==> |amounts| * (d - z - 1) <= L
  {
    var q := curve.DSetup(amounts).value;
    SetupFacts(curve, amounts, q);
    SettledIsClose(curve, amounts, q, suggest.GetOr(Sum(amounts)), rounds, z, L, d);
  }

  /** From any start, on every pool: a settled answer is z to z plus the reserve and n, with room z to
      z + 1 + L/n. */
  lemma SettledGetDIsClose(curve: Curve, amounts: seq<nat>, suggest: Option<nat>, d: nat, z: nat, L: nat)
    requires curve.D(amounts, suggest) == Some(d) && 0 < Sum(amounts) && IsFloor(curve, amounts, z)
    requires Loose(Times(|amounts|, amounts), z, L) && Fits2(|amounts|, L, z)
    requires DSettles(curve.DSetup(amounts).value, suggest.GetOr(Sum(amounts)), ITERATIONS)
    ensures z <= d <= z + Reserve(|amounts|, L) + |amounts|
    ensures Roomy(|amounts|, L, z) ==> |amounts| * (d - z - 1) <= L
  {
    SettledInRounds(curve, amounts, suggest, d, z, L, ITERATIONS);
  }

  // ----- tests that do not need z -----

  lemma RoomyAbove(n: nat, L: nat, w: nat, z: nat)
    requires Roomy(n, L, w) && w <= z
    ensures Roomy(n, L, z)
  {
  }

  lemma ReachMono(f: nat, a: nat, b: nat, e: int, e': int, w: nat, z: nat)
    requires f * (a * e) <= b * w && e' <= e && w <= z
    ensures f * (a * e') <= b * z
  {
    MulLe(e', e, a);
    MulLe(a * e', a * e, f);
    MulLe(w, z, b);
  }

  lemma ReachesAbove(n: nat, L: nat, r: nat, S: nat, w: nat, z: nat)
    requires Reaches(n, L, r, S - w, w) && w <= z
    ensures Reaches(n, L, r, S - z, z)
  {
    var R := Reserve(n, L);
    ReachMono(3 * ((L + 5) * (n + 1)), Pow(n, r), Pow(n + 1, r), S - w - R, S - z - R, w, z);
  }

  /** The same from any w on or below the exact invariant, such as one whose n-th power is at most the product
      of the n*x: the tests are stated in w, and the answer is close to the floor all the same. */
  lemma GetDWithinFrom(curve: Curve, amounts: seq<nat>, d: nat, w: nat, L: nat, r: nat) returns (z: nat)
    requires curve.D(amounts, None) == Some(d) && 0 < Sum(amounts) && !AboveExact(curve, amounts, w)
    requires Loose(Times(|amounts|, amounts), w, L) && Roomy(|amounts|, L, w)
    requires r + 6 <= ITERATIONS && Reaches(|amounts|, L, r, Sum(amounts) - w, w)
    ensures w <= z && IsFloor(curve, amounts, z) && z <= d <= z + L + 4
  {
    var n := |amounts|;
    SetupFacts(curve, amounts, curve.DSetup(amounts).value);
    z := FloorAbove(curve, amounts, w);
    RoomyIsEnough(n, L, w);
    LooseAbove(Times(n, amounts), w, z, L);
    RoomyAbove(n, L, w, z);
    ReachesAbove(n, L, r, Sum(amounts), w, z);
    GetDWithin(curve, amounts, None, d, z, L, r);
  }

  lemma TestsAbove(curve: Curve, amounts: seq<nat>, w: nat, r: nat) returns (z: nat)
    requires 0 < curve.amp * |amounts| && 0 < Sum(amounts) && !AboveExact(curve, amounts, w)
    requires Steady(Times(|amounts|, amounts), w) && Roomy(|amounts|, |amounts| + 1, w)
    requires Reaches(|amounts|, |amounts| + 1, r, Sum(amounts) - w, w)
    ensures w <= z && IsFloor(curve, amounts, z)
    ensures Steady(Times(|amounts|, amounts), z) && Roomy(|amounts|, |amounts| + 1, z)
    ensures Reaches(|amounts|, |amounts| + 1, r, Sum(amounts) - z, z)
  {
    z := FloorAbove(curve, amounts, w);
    SteadyAbove(Times(|amounts|, amounts), w, z);
    RoomyAbove(|amounts|, |amounts| + 1, w, z);
    ReachesAbove(|amounts|, |amounts| + 1, r, Sum(amounts), w, z);
  }

  lemma SteadySettledIsClose(curve: Curve, amounts: seq<nat>, suggest: Option<nat>, d: nat, z: nat, rounds: nat)
    requires curve.D(amounts, suggest) == Some(d) && 0 < Sum(amounts) && IsFloor(curve, amounts, z)
    requires Steady(Times(|amounts|, amounts), z) && Roomy(|amounts|, |amounts| + 1, z) && rounds == ITERATIONS
    requires DSettles(curve.DSetup(amounts).value, suggest.GetOr(Sum(amounts)), rounds)
    ensures z <= d && |amounts| * (d - z - 1) <= |amounts| + 1
  {
    SteadyIsLoose(Times(|amounts|, amounts), z);
    RoomyIsEnough(|amounts|, |amounts| + 1, z);
    SettledInRounds(curve, amounts, suggest, d, z, |amounts| + 1, rounds);
  }

  lemma AtMostTwo(n: nat, x: int)
    requires n * (x - 1) <= n + 1
    ensures 2 <= n ==> x <= 2
  {
    if 2 <= n && 2 < x {
      MulLe(2, x - 1, n);
    }
  }

  /** On a pool that is steady at w a cold start settles, at most two above the floor for two coins or more. */
  lemma GetDSettlesFrom(curve: Curve, amounts: seq<nat>, d: nat, w: nat, r: nat) returns (z: nat)
    requires curve.D(amounts, None) == Some(d) && 0 < Sum(amounts) && !AboveExact(curve, amounts, w)
    requires Steady(Times(|amounts|, amounts), w) && Roomy(|amounts|, |amounts| + 1, w)
    requires r + 6 + LastRounds(|amounts|) <= ITERATIONS
    requires Reaches(|amounts|, |amounts| + 1, r, Sum(amounts) - w, w)
    ensures DSettles(curve.DSetup(amounts).value, Sum(amounts), ITERATIONS)
    ensures w <= z <= d && IsFloor(curve, amounts, z) && (2 <= |amounts| ==> d <= z + 2)
  {
    SetupFacts(curve, amounts, curve.DSetup(amounts).value);
    z := TestsAbove(curve, amounts, w, r);
    GetDSettles(curve, amounts, None, z, r);
    SteadySettledIsClose(curve, amounts, None, d, z, ITERATIONS);
    AtMostTwo(|amounts|, d - z);
  }

  // ----- an uneven pool -----

  function Uneven(): seq<nat> {
    [11_000_000_000_000, 9_000_000_000_000]
  }

  lemma UnevenSums()
    ensures Sum(Uneven()) == 20_000_000_000_000 && Times(2, Uneven()) == [22_000_000_000_000, 18_000_000_000_000]
    ensures Product(Times(2, Uneven()), 0) == 396_000_000_000_000_000_000_000_000
  {
    var t := Times(2, Uneven());
    assert Sum(Uneven()) == 11_000_000_000_000 + Sum([9_000_000_000_000]);
    assert Product(t, 2) == 1 && Product(t, 1) == 18_000_000_000_000;
  }

  lemma UnevenPasses(w: nat)
    requires w == 19_899_748_742_132
    ensures Pow(w, 2) <= Product(Times(2, Uneven()), 0)
    ensures Steady(Times(2, Uneven()), w) && Roomy(2, 3, w) && Reaches(2, 3, 0, Sum(Uneven()) - w, w)
  {
    var t := Times(2, Uneven());
    UnevenSums();
    assert Pow(w, 0) == 1 && Pow(w, 1) == w && Pow(w, 2) == w * w;
    assert Prefix(t, 0) == 1 && Prefix(t, 1) == 22_000_000_000_000;
    assert Spread(t, w, 2) == 0 && Spread(t, w, 1) == 396_000_000_000_000_000_000_000_000;
    assert Spread(t, w, 0) == 22_000_000_000_000 * w + Spread(t, w, 1);
    assert Pow(2, 0) == 1 && Pow(3, 0) == 1;
  }

  lemma UnevenRounds(q: DParams)
    requires q == DParams(Times(2, Uneven()), 4_000_000_000_000_000, 199)
    ensures DRounds(q, 20_000_000_000_000, ITERATIONS) == Some(19_999_000_049_247)
  {
    UnevenSums();
    var a, b := 22_000_000_000_000, 18_000_000_000_000;
    ProductOfTwo(a, b, 20_000_000_000_000, 18_181_818_181_818, 20_202_020_202_020);
    UnevenRound(q, 20_000_000_000_000, a, b, 20_202_020_202_020, 19_999_000_049_997);
    ProductOfTwo(a, b, 19_999_000_049_997, 18_180_000_136_353, 20_198_990_201_992);
    UnevenRound(q, 19_999_000_049_997, a, b, 20_198_990_201_992, 19_999_000_049_247);
    ProductOfTwo(a, b, 19_999_000_049_247, 18_180_000_134_990, 20_198_990_199_720);
    UnevenRound(q, 19_999_000_049_247, a, b, 20_198_990_199_720, 19_999_000_049_247);
    assert DRounds(q, 20_000_000_000_000, ITERATIONS) == DRounds(q, 19_999_000_049_997, ITERATIONS - 1);
    assert DRounds(q, 19_999_000_049_997, ITERATIONS - 1) == DRounds(q, 19_999_000_049_247, ITERATIONS - 2);
  }

  lemma ProductOfTwo(a: nat, b: nat, d: nat, x: nat, p: nat)
    requires 0 < a && 0 < b && d * d <= U128_MAX && x == d * d / a && x * d <= U128_MAX && p == x * d / b
    ensures ProdFrom([a, b], d, d, 0) == Some(p)
  {
    assert ProdFrom([a, b], d, x, 1) == ProdFrom([a, b], d, p, 2);
  }

  lemma UnevenRound(q: DParams, d: nat, a: nat, b: nat, p: nat, d': nat)
    requires q == DParams([a, b], 4_000_000_000_000_000, 199) && ProdFrom([a, b], d, d, 0) == Some(p)
    requires p * 2 <= U128_MAX && 4_000_000_000_000_000 + p * 2 <= U128_MAX && d * 199 <= U128_MAX && p + p * 2 <= U128_MAX
    requires (4_000_000_000_000_000 + p * 2) * d <= U128_MAX && 0 < d * 199 + (p + p * 2) <= U128_MAX
    requires d' == (4_000_000_000_000_000 + p * 2) * d / (d * 199 + (p + p * 2))
    ensures DStep(q, d) == Some(d')
  {
  }

  /** The tests apply to pools as they are traded: with 11 and 9 million million units and amplification 100
      the loop settles, and the answer is within two of the floor of the exact invariant. */
  lemma UnevenPoolSettles(curve: Curve) returns (z: nat)
    requires curve.amp == 100
    ensures DSettles(curve.DSetup(Uneven()).value, Sum(Uneven()), ITERATIONS)
    ensures IsFloor(curve, Uneven(), z) && curve.D(Uneven(), None) == Some(19_999_000_049_247)
    ensures z <= 19_999_000_049_247 <= z + 2
  {
    UnevenSums();
    UnevenAnswer(curve);
    UnevenPasses(19_899_748_742_132);
    MeanIsBelow(curve, Uneven(), 19_899_748_742_132);
    z := GetDSettlesFrom(curve, Uneven(), 19_999_000_049_247, 19_899_748_742_132, 0);
  }

  lemma UnevenAnswer(curve: Curve)
    requires curve.amp == 100
    ensures curve.D(Uneven(), None) == Some(19_999_000_049_247)
  {
    UnevenSums();
    var q := DParams(Times(2, Uneven()), 4_000_000_000_000_000, 199);
    assert Scaled(Uneven()) == Some(Times(2, Uneven()));
    assert curve.DSetup(Uneven()) == Some(q);
    UnevenRounds(q);
  }
}
