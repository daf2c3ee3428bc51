/** Searching noisy samples of a concave curve, feasible on an interval: how much the search
    loses as long as its narrowing keeps the interval. */
module ConcaveSearch {
  import opened Domain
  import opened Concavity
  import opened Search
  import opened SearchGuarantees
  import opened IntervalSearch

  ghost predicate SlopesFall(h: int -> real, x: int, y: int, z: int) {
    FallingSlopes(h(x), h(y), h(z), x as real, y as real, z as real)
  }

  ghost predicate Concave(h: int -> real, max: u128) {
    forall x: int, y: int, z: int :: 1 <= x < y < z <= max ==> SlopesFall(h, x, y, z)
  }

  /** Where it is feasible the objective is at most `delta` below `h`. */
  ghost predicate Samples(objective: Objective, h: int -> real, delta: real, max: u128) {
    forall x: u128 :: 1 <= x <= max && objective(x).Some? ==>
      h(x) - delta <= objective(x).value as real <= h(x)
  }

  lemma ChordTolerance(u: real, v: real, near: real, far: real, delta: real)
    requires 0.0 <= near <= far && far > 0.0 && delta >= 0.0
    requires u * far >= v * near && v >= -delta
    ensures u >= -delta
  {
    assert (v + delta) * near >= 0.0;
    assert delta * (far - near) >= 0.0;
    assert (u + delta) * far == u * far + delta * far;
    assert (v + delta) * near == v * near + delta * near;
    assert delta * (far - near) == delta * far - delta * near;
    NonNegativeFactor(u + delta, far);
  }

  lemma NonNegativeFactor(u: real, k: real)
    requires k > 0.0 && u * k >= 0.0
    ensures u >= 0.0
  {
  }

  /** When the left probe is at most `delta` higher, nothing to its left is much higher. */
  lemma LeftOfProbes(h: int -> real, x: int, m1: int, m2: int, delta: real)
    requires x < m1 < m2 && m1 - x <= m2 - m1 && delta >= 0.0
    requires SlopesFall(h, x, m1, m2) && h(m2) - h(m1) >= -delta
    ensures h(m1) >= h(x) - delta
  {
    ChordTolerance(h(m1) - h(x), h(m2) - h(m1), m1 as real - x as real, m2 as real - m1 as real, delta);
  }

  /** When the right probe is at most `delta` lower, nothing to its right is much higher. */
  lemma RightOfProbes(h: int -> real, m1: int, m2: int, x: int, delta: real)
    requires m1 < m2 < x && x - m2 <= m2 - m1 && delta >= 0.0
    requires SlopesFall(h, m1, m2, x) && h(m1) - h(m2) >= -delta
    ensures h(m2) >= h(x) - delta
  {
    var near, far := x as real - m2 as real, m2 as real - m1 as real;
    assert (h(x) - h(m2)) * far == -((h(m2) - h(x)) * far);
    assert (h(m2) - h(m1)) * near == -((h(m1) - h(m2)) * near);
    ChordTolerance(h(m2) - h(x), h(m1) - h(m2), near, far, delta);
  }

  /** `rounds` times `delta`, added up. */
  ghost function Loss(rounds: nat, delta: real): real {
    if rounds == 0 then 0.0 else Loss(rounds - 1, delta) + delta
  }

  lemma {:induction false} LossIsProduct(rounds: nat, delta: real)
    ensures Loss(rounds, delta) == rounds as real * delta
  {
    if rounds == 0 {
    } else {
      LossIsProduct(rounds - 1, delta);
      assert rounds as real * delta == (rounds - 1) as real * delta + delta;
    }
  }

  lemma OneMoreLoss(rounds: nat, delta: real)
    ensures Loss(rounds + 1, delta) == Loss(rounds, delta) + delta
  {
  }

  lemma LossOfRound(objective: Objective, lo: u128, hi: u128, delta: real)
    requires 1 <= lo <= hi && hi - lo > WINDOW
    ensures var (l, r) := NextBracket(objective, lo, hi);
            Loss(Rounds(objective, lo, hi), delta) == Loss(Rounds(objective, l, r), delta) + delta
  {
  }

  /** The narrowing of the bracket keeps the interval, or has secured it. */
  ghost predicate Held(first: u128, last: u128, lo: u128, hi: u128)
    requires 1 <= lo <= hi
  {
    && lo <= last && first <= hi
    && (Keeps(first, last, lo, hi) || Secured(first, last, lo, hi))
  }

  /** A round leaves the interval held, and its right probe is not short of it. */
  lemma HeldStays(objective: Objective, max: u128, first: u128, last: u128, lo: u128, hi: u128)
    requires FeasibleOn(objective, max, first, last)
    requires 1 <= lo <= hi <= max && hi - lo > WINDOW && Held(first, last, lo, hi)
    ensures first <= RightProbe(lo, hi)
    ensures var (l, r) := NextBracket(objective, lo, hi); Held(first, last, l, r)
  {
    var m1, m2 := LeftProbe(lo, hi), RightProbe(lo, hi);
    assert objective(m1).Some? <==> first <= m1 <= last;
    assert objective(m2).Some? <==> first <= m2 <= last;
    if Secured(first, last, lo, hi) {
      SecuredStays(objective, max, first, last, lo, hi);
    } else if first <= m1 && m2 <= last {
      BothInsideSecure(objective, first, last, lo, hi);
    }
  }

  /** Dropping a third costs at most `delta`: any feasible height in the bracket is nearly
      reached, feasibly, in what is kept. */
  lemma DroppedThirdCostsLittle(
    objective: Objective, h: int -> real, delta: real, max: u128, first: u128, last: u128, lo: u128, hi: u128,
    x: u128)
    returns (kept: u128)
    requires delta >= 0.0 && Concave(h, max) && Samples(objective, h, delta, max)
    requires FeasibleOn(objective, max, first, last)
    requires 1 <= lo <= x <= hi <= max && hi - lo > WINDOW && first <= RightProbe(lo, hi)
    requires objective(x).Some?
    ensures var (l, r) := NextBracket(objective, lo, hi); l <= kept <= r
    ensures objective(kept).Some? && h(kept) >= h(x) - delta
  {
    var m1, m2 := LeftProbe(lo, hi), RightProbe(lo, hi);
    assert objective(m1).Some? <==> first <= m1 <= last;
    assert objective(m2).Some? <==> first <= m2 <= last;
    kept := x;
    if DropsLeft(objective, lo, hi) {
      if x < m1 {
        LeftOfProbes(h, x, m1, m2, delta);
        kept := m1;
      }
    } else {
      if x > m2 {
        RightOfProbes(h, m1, m2, x, delta);
        kept := m2;
      }
    }
  }

  lemma {:induction false} NarrowingCostsLittle(
    objective: Objective, h: int -> real, delta: real, max: u128, first: u128, last: u128, lo: u128, hi: u128,
    x: u128)
    returns (kept: u128)
    requires delta >= 0.0 && Concave(h, max) && Samples(objective, h, delta, max)
    requires FeasibleOn(objective, max, first, last)
    requires 1 <= lo <= x <= hi <= max && Held(first, last, lo, hi) && objective(x).Some?
    ensures var (l, r) := Narrowed(objective, lo, hi); l <= kept <= r
    ensures objective(kept).Some? && h(kept) >= h(x) - Loss(Rounds(objective, lo, hi), delta)
    decreases hi - lo
  {
    if hi - lo <= WINDOW {
      kept := x;
    } else {
      HeldStays(objective, max, first, last, lo, hi);
      var next := DroppedThirdCostsLittle(objective, h, delta, max, first, last, lo, hi, x);
      var (l', r') := NextBracket(objective, lo, hi);
      LossOfRound(objective, lo, hi, delta);
      kept := NarrowingCostsLittle(objective, h, delta, max, first, last, l', r', next);
    }
  }

  /** On samples at most `delta` below a concave curve, feasible on an interval that the
      narrowing keeps, the answer is within (rounds + 1) * delta of the curve at every
      feasible input. */
  lemma NearOptimalOnConcave(
    objective: Objective, h: int -> real, delta: real, max: u128, first: u128, last: u128,
    best: Option<(u128, i128)>, x: u128)
    requires delta >= 0.0 && Concave(h, max) && Samples(objective, h, delta, max)
    requires FeasibleOn(objective, max, first, last) && Keeps(first, last, 1, max)
    requires 1 <= x <= max && objective(x).Some? && Searched(objective, max, best)
    ensures best.Some?
    ensures best.value.1 as real >= h(x) - Loss(Rounds(objective, 1, max) + 1, delta)
  {
    var kept := NarrowingCostsLittle(objective, h, delta, max, first, last, 1, max, x);
    OneMoreLoss(Rounds(objective, 1, max), delta);
    NearbyHeightIsReached(objective, h, delta, max, best, kept);
  }

  lemma NearbyHeightIsReached(
    objective: Objective, h: int -> real, delta: real, max: u128, best: Option<(u128, i128)>, x: u128)
    requires max >= 1 && Samples(objective, h, delta, max) && Searched(objective, max, best)
    requires NearBracket(objective, max, x) && objective(x).Some?
    ensures best.Some? && best.value.1 as real >= h(x) - delta
  {
    CoversNeighbourhood(objective, max, best, x);
  }

  lemma LossAtMost(k: nat, n: nat, delta: real)
    requires k <= n && delta >= 0.0
    ensures Loss(k, delta) <= n as real * delta
  {
    LossIsProduct(k, delta);
    assert (n - k) as real * delta >= 0.0;
    assert (n - k) as real * delta == n as real * delta - k as real * delta;
  }

  /** The value `v` exceeds the answer by at most (rounds + 1) * delta, and in any case by
      at most 217 * delta. */
  ghost predicate NearlyBest(objective: Objective, max: u128, delta: real, best: Option<(u128, i128)>, v: int):
    (near: bool)
    requires max >= 1
    ensures near ==> best.Some? && v as real <= best.value.1 as real + 217.0 * delta
    ensures near ==> v as real <= best.value.1 as real + Loss(Rounds(objective, 1, max) + 1, delta)
  {
    && best.Some?
    && v as real <= best.value.1 as real + Loss(Rounds(objective, 1, max) + 1, delta)
    && v as real <= best.value.1 as real + 217.0 * delta
  }

  /** On noisy samples of a concave curve the search misses the best value of a kept
      interval by at most (rounds + 1) * delta, and by at most 217 * delta in any case. */
  lemma SearchLosesLittle(
    objective: Objective, h: int -> real, delta: real, max: u128, first: u128, last: u128,
    best: Option<(u128, i128)>, x: u128)
    requires delta >= 0.0 && Concave(h, max) && Samples(objective, h, delta, max)
    requires FeasibleOn(objective, max, first, last) && Keeps(first, last, 1, max)
    requires 1 <= x <= max && objective(x).Some? && Searched(objective, max, best)
    ensures NearlyBest(objective, max, delta, best, objective(x).value)
  {
    NearOptimalOnConcave(objective, h, delta, max, first, last, best, x);
    RoundsAtMost216(objective, max);
    LossAtMost(Rounds(objective, 1, max) + 1, 217, delta);
  }
}
