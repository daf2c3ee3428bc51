/** When the gross profit of a cycle is single-peaked, as its documentation claims, and when
    the floors make it fall and rise again. */
module Unimodality {
  import opened Domain
  import opened Amm
  import opened Sizing

  // ---- One floor: how the ceiling of p/n steps down as n grows

  ghost predicate IsCeiling(p: nat, n: nat, c: nat) {
    (c - 1) * n < p <= c * n
  }

  lemma CeilIsCeiling(p: nat, n: nat)
    requires n > 0
    ensures IsCeiling(p, n, DivCeil(p, n))
  {
    CeilAtMost(p, n, DivCeil(p, n));
    CeilAtMost(p, n, DivCeil(p, n) - 1);
  }

  lemma CeilingUnique(p: nat, n: nat, c: nat)
    requires n > 0 && IsCeiling(p, n, c)
    ensures c == DivCeil(p, n)
  {
    CeilAtMost(p, n, c);
    CeilAtMost(p, n, c - 1);
  }

  ghost predicate FlatAt(p: nat, n: nat)
    requires n > 0
  {
    DivCeil(p, n + 1) == DivCeil(p, n)
  }

  ghost predicate JumpsAt(p: nat, n: nat)
    requires n > 0
  {
    DivCeil(p, n + 1) + 2 <= DivCeil(p, n)
  }

  lemma CeilFalls(p: nat, n: nat)
    requires n > 0
    ensures DivCeil(p, n + 1) <= DivCeil(p, n)
  {
    var c := DivCeil(p, n);
    CeilIsCeiling(p, n);
    assert c * (n + 1) == c * n + c;
    CeilAtMost(p, n + 1, c);
  }

  lemma FlatIsLate(p: nat, n: nat)
    requires n > 0 && FlatAt(p, n)
    ensures p <= n * n
  {
    CeilIsCeiling(p, n);
    CeilIsCeiling(p, n + 1);
    FlatBound(p, n, DivCeil(p, n));
  }

  lemma FlatBound(p: nat, n: nat, c: nat)
    requires IsCeiling(p, n, c) && IsCeiling(p, n + 1, c)
    ensures p <= n * n
  {
    assert (c - 1) * (n + 1) == c * n + c - n - 1;
    MulLe(c, n, n);
  }

  lemma JumpIsEarly(p: nat, n: nat)
    requires n > 0 && JumpsAt(p, n)
    ensures p > n * (n + 2)
  {
    CeilIsCeiling(p, n);
    CeilIsCeiling(p, n + 1);
    JumpBound(p, n, DivCeil(p, n), DivCeil(p, n + 1));
  }

  lemma JumpBound(p: nat, n: nat, c: nat, d: nat)
    requires IsCeiling(p, n, c) && IsCeiling(p, n + 1, d) && d + 2 <= c
    ensures p > n * (n + 2)
  {
    MulLe(d, c - 2, n + 1);
    assert (c - 2) * (n + 1) == c * n + c - 2 * n - 2;
    assert (c - 1) * n == c * n - n;
    assert c >= n + 3;
    MulLe(n + 2, c - 1, n);
  }

  /** Once the ceiling stands still, it never again steps down by two. */
  lemma FlatEndsJumps(p: nat, n: nat, m: nat)
    requires 0 < n <= m && FlatAt(p, n)
    ensures !JumpsAt(p, m)
  {
    FlatIsLate(p, n);
    MulLe(n, m, n);
    MulLe(n, m, m);
    assert m * n == n * m && m * (m + 2) == m * m + 2 * m;
    if JumpsAt(p, m) {
      JumpIsEarly(p, m);
    }
  }

  ghost predicate JumpWithin(p: nat, from: nat, to: nat)
    requires from > 0
  {
    exists m: nat :: from <= m < to && JumpsAt(p, m)
  }

  /** A drop of n + DivCeil(p, n) takes a jump on the way. */
  lemma {:induction false} DropHasJump(p: nat, from: nat, n: nat)
    requires 0 < from <= n && n + DivCeil(p, n) < from + DivCeil(p, from)
    ensures JumpWithin(p, from, n)
  {
    if n - 1 + DivCeil(p, n - 1) < from + DivCeil(p, from) {
      DropHasJump(p, from, n - 1);
      var m: nat :| from <= m < n - 1 && JumpsAt(p, m);
    } else {
      assert JumpsAt(p, n - 1);
    }
  }

  /** Ahead of a jump n + DivCeil(p, n) never grows. */
  lemma {:induction false} NeverGrowsBeforeJump(p: nat, from: nat, n: nat, m: nat)
    requires 0 < from <= n <= m && JumpsAt(p, m)
    ensures n + DivCeil(p, n) <= from + DivCeil(p, from)
  {
    if n == from {
    } else {
      NeverGrowsBeforeJump(p, from, n - 1, m);
      CeilFalls(p, n - 1);
      if FlatAt(p, n - 1) {
        FlatEndsJumps(p, n - 1, m);
      }
    }
  }

  /** The point of from..=to nearest to t/2, where n*(t - n) is largest. */
  function Middle(t: nat, from: nat, to: nat): (n: nat)
    requires from <= to
    ensures from <= n <= to
  {
    if t / 2 <= from then from else if t / 2 <= to then t / 2 else to
  }

  lemma MiddleIsLargest(t: nat, from: nat, to: nat, n: nat)
    requires from <= n <= to
    ensures var mid := Middle(t, from, to); n * (t - n) <= mid * (t - mid)
  {
    var mid := Middle(t, from, to);
    assert mid * (t - mid) - n * (t - n) == (mid - n) * (t - mid - n);
    if n <= mid {
      assert n == mid || t - mid - n >= 0;
      assert (mid - n) * (t - mid - n) >= 0;
    } else {
      assert (n - mid) * (mid + n - t) >= 0;
    }
  }

  /** In closed form: within from..to the ceiling of p/n steps down by two exactly when the
      largest n*(t - n), t one short of from + DivCeil(p, from), reaches p. */
  lemma JumpWithinExactly(p: nat, from: nat, to: nat)
    requires 0 < p && 0 < from <= to
    ensures var t := from + DivCeil(p, from) - 1;
            var n := Middle(t, from, to);
            JumpWithin(p, from, to) <==> p <= n * (t - n)
  {
    var t := from + DivCeil(p, from) - 1;
    var n := Middle(t, from, to);
    if p <= n * (t - n) {
      assert (t - n) * n == n * (t - n);
      CeilAtMost(p, n, t - n);
      DropHasJump(p, from, n);
    }
    if JumpWithin(p, from, to) {
      JumpReaches(p, from, to, t);
    }
  }

  lemma JumpReaches(p: nat, from: nat, to: nat, t: nat)
    requires 0 < p && 0 < from <= to && t == from + DivCeil(p, from) - 1 && JumpWithin(p, from, to)
    ensures var n := Middle(t, from, to); p <= n * (t - n)
  {
    var m: nat :| from <= m < to && JumpsAt(p, m);
    NeverGrowsBeforeJump(p, from, m, m);
    CeilAtMost(p, m + 1, t - (m + 1));
    assert (t - (m + 1)) * (m + 1) == (m + 1) * (t - (m + 1));
    MiddleIsLargest(t, from, to, m + 1);
  }

  // ---- The fee: where the input left after it stands still

  /** The first size from which one more unit is lost to the fee whole. */
  function FirstStall(leg: CpmmReserves): (x: nat)
    requires 0 < leg.fee.points <= DENOMINATOR
    ensures x >= 1
  {
    FloorAtLeast(DENOMINATOR, leg.fee.points, 1);
    DENOMINATOR / leg.fee.points
  }

  lemma AfterFeeBeforeStall(leg: CpmmReserves, x: u128, lost: nat)
    requires leg.fee.points <= DENOMINATOR
    requires 1 <= lost <= x && (lost - 1) * DENOMINATOR < x * leg.fee.points <= lost * DENOMINATOR
    ensures AfterFee(leg, x) == x - lost
  {
    assert x * leg.Kept() == x * DENOMINATOR - x * leg.fee.points;
    assert (x - lost) * DENOMINATOR == x * DENOMINATOR - lost * DENOMINATOR;
    DivisionUnique(x * leg.Kept(), DENOMINATOR, x - lost);
  }

  lemma StallsFirst(leg: CpmmReserves)
    requires 0 < leg.fee.points <= DENOMINATOR
    ensures FirstStall(leg) + 1 < TWO_TO_THE_128
    ensures AfterFee(leg, FirstStall(leg)) == AfterFee(leg, FirstStall(leg) + 1) == FirstStall(leg) - 1
  {
    var f, x := leg.fee.points, FirstStall(leg);
    Division(DENOMINATOR, f);
    assert (x + 1) * f == x * f + f;
    assert x * f > 0 by { MulLe(1, x, f); }
    MulLe(x, DENOMINATOR, 1) by { MulLe(1, f, x); assert f * x == x * f; }
    AfterFeeBeforeStall(leg, x, 1);
    AfterFeeBeforeStall(leg, x + 1, 2);
  }

  lemma NoStallBefore(leg: CpmmReserves, x: u128)
    requires 0 < leg.fee.points <= DENOMINATOR && 1 <= x && x + 1 < TWO_TO_THE_128
    requires AfterFee(leg, x + 1) == AfterFee(leg, x)
    ensures x >= FirstStall(leg)
  {
    var f := leg.fee.points;
    if x < FirstStall(leg) {
      FloorAtLeast(DENOMINATOR, f, x + 1);
      assert (x + 1) * f == x * f + f;
      assert x * f > 0 by { MulLe(1, x, f); }
      AfterFeeBeforeStall(leg, x, 1);
      AfterFeeBeforeStall(leg, x + 1, 1);
    }
  }

  lemma AfterFeeStep(leg: CpmmReserves, x: u128)
    requires leg.fee.points <= DENOMINATOR && x + 1 < TWO_TO_THE_128
    ensures AfterFee(leg, x) <= AfterFee(leg, x + 1) <= AfterFee(leg, x) + 1
  {
    var a, k := AfterFee(leg, x), leg.Kept();
    ProductNonNegative(x, k);
    Division(x * k, DENOMINATOR);
    assert (x + 1) * k == x * k + k;
    FloorMonotone(x * k, (x + 1) * k, DENOMINATOR);
    FloorMonotone((x + 1) * k, x * k + DENOMINATOR, DENOMINATOR);
    assert (x * k + DENOMINATOR) / DENOMINATOR == a + 1;
  }

  lemma AfterFeeMonotone(leg: CpmmReserves, x: u128, y: u128)
    requires x <= y
    ensures AfterFee(leg, x) <= AfterFee(leg, y)
  {
    MulLe(x, y, leg.Kept());
    FloorMonotone(x * leg.Kept(), y * leg.Kept(), DENOMINATOR);
  }

  /** Every amount up to that of `max` is what some size leaves just before the next one. */
  lemma {:induction false} AmountIsPassed(leg: CpmmReserves, max: u128, a: nat) returns (x: u128)
    requires leg.fee.points <= DENOMINATOR && a < AfterFee(leg, max)
    ensures x < max && AfterFee(leg, x) == a && AfterFee(leg, x + 1) == a + 1
  {
    AfterFeeStep(leg, max - 1);
    if AfterFee(leg, max - 1) == a {
      x := max - 1;
    } else {
      x := AmountIsPassed(leg, max - 1, a);
    }
  }

  // ---- Falling and rising

  ghost predicate Falls(legs: seq<CpmmReserves>, x: u128) {
    && x + 1 < TWO_TO_THE_128
    && Gross(legs, x).Some? && Gross(legs, x + 1).Some?
    && Gross(legs, x + 1).value < Gross(legs, x).value
  }

  ghost predicate Rises(legs: seq<CpmmReserves>, x: u128) {
    && x + 1 < TWO_TO_THE_128
    && Gross(legs, x).Some? && Gross(legs, x + 1).Some?
    && Gross(legs, x + 1).value > Gross(legs, x).value
  }

  /** Within 1..=max the gross profit falls and later rises: it is not single-peaked. */
  ghost predicate RisesAfterFall(legs: seq<CpmmReserves>, max: u128) {
    exists x: u128, y: u128 :: 1 <= x < y < max && Falls(legs, x) && Rises(legs, y)
  }

  /** What the reserves multiply to. */
  function Invariant(leg: CpmmReserves): (p: nat)
    ensures leg.Positive() ==> p > 0
  {
    ProductNonNegative(leg.reserveIn, leg.reserveOut);
    PositiveProduct(leg.reserveIn, leg.reserveOut);
    leg.reserveIn * leg.reserveOut
  }

  lemma PositiveProduct(a: nat, b: nat)
    ensures a > 0 && b > 0 ==> a * b > 0
  {
  }

  lemma LeftIsCeiling(ri: nat, ro: nat, a: nat, q: nat)
    requires ri + a > 0 && q <= ro && q * (ri + a) <= ro * a < (q + 1) * (ri + a)
    ensures 0 <= ri * ro && ro - q == DivCeil(ri * ro, ri + a)
  {
    ProductNonNegative(ri, ro);
    assert (ro - q) * (ri + a) == ri * ro + ro * a - q * (ri + a);
    assert (ro - q - 1) * (ri + a) == ri * ro + ro * a - (q + 1) * (ri + a);
    CeilingUnique(ri * ro, ri + a, ro - q);
  }

  /** What a priced swap leaves in the pool is a ceiling. */
  lemma LegOutput(leg: CpmmReserves, x: u128)
    requires leg.Positive() && leg.AmountOut(x).Some?
    ensures leg.AmountOut(x).value
            == leg.reserveOut - DivCeil(Invariant(leg), leg.reserveIn + AfterFee(leg, x))
  {
    var ri, ro, a := leg.reserveIn, leg.reserveOut, AfterFee(leg, x);
    PricedSwap(leg, x);
    ProductNonNegative(ro, a);
    Division(ro * a, ri + a);
    LeftIsCeiling(ri, ro, a, leg.AmountOut(x).value);
  }

  /** The gross profit of one leg has one floor more than that ceiling, the fee's. */
  lemma LegGross(leg: CpmmReserves, max: u128, x: u128)
    requires leg.Positive() && x <= max && Gross([leg], max).Some?
    ensures Gross([leg], x)
            == Some(leg.reserveOut - DivCeil(Invariant(leg), leg.reserveIn + AfterFee(leg, x)) - x)
  {
    GrossFeasibleBelow([leg], x, max);
    OneLegChain(leg, x);
    LegOutput(leg, x);
  }

  /** What the swap of `x` leaves in the pool. */
  ghost function Left(leg: CpmmReserves, x: u128): nat
    requires leg.reserveIn > 0
  {
    DivCeil(Invariant(leg), leg.reserveIn + AfterFee(leg, x))
  }

  lemma LegSteps(leg: CpmmReserves, max: u128, x: u128)
    requires leg.Positive() && x < max && Gross([leg], max).Some?
    ensures Falls([leg], x) <==> Left(leg, x + 1) >= Left(leg, x)
    ensures Rises([leg], x) <==> Left(leg, x + 1) + 2 <= Left(leg, x)
  {
    LegGross(leg, max, x);
    LegGross(leg, max, x + 1);
  }

  /** The pool's input side when the fee first swallows a whole unit. */
  function StalledReserve(leg: CpmmReserves): nat
    requires 0 < leg.fee.points <= DENOMINATOR
  {
    leg.reserveIn + FirstStall(leg) - 1
  }

  /** The ceiling behind the gross profit jumps somewhere from the first stall on. */
  ghost predicate JumpsAfterStall(leg: CpmmReserves, max: u128)
    requires 0 < leg.fee.points <= DENOMINATOR && leg.reserveIn > 0
  {
    JumpWithin(Invariant(leg), StalledReserve(leg), leg.reserveIn + AfterFee(leg, max))
  }

  /** A jump from the first stall on is met by some size after the stall. */
  lemma JumpIsMet(leg: CpmmReserves, max: u128) returns (y: u128)
    requires leg.Positive() && leg.fee.points > 0 && JumpsAfterStall(leg, max)
    ensures FirstStall(leg) < y < max && Left(leg, y + 1) + 2 <= Left(leg, y)
    ensures Left(leg, FirstStall(leg) + 1) == Left(leg, FirstStall(leg))
  {
    var stall := FirstStall(leg);
    var m: nat :| StalledReserve(leg) <= m < leg.reserveIn + AfterFee(leg, max) && JumpsAt(Invariant(leg), m);
    y := AmountIsPassed(leg, max, m - leg.reserveIn);
    StallsFirst(leg);
    if y <= stall {
      AfterFeeMonotone(leg, y + 1, stall + 1);
    }
  }

  /** A jump after a standstill: the fee has stalled before, since a flat ceiling lets no
      jump follow. */
  lemma JumpAfterStandstill(leg: CpmmReserves, max: u128, x: u128, y: u128)
    requires leg.Positive() && 1 <= x < y < max
    requires Left(leg, x + 1) >= Left(leg, x) && Left(leg, y + 1) + 2 <= Left(leg, y)
    ensures leg.fee.points > 0 && JumpsAfterStall(leg, max)
  {
    var ri, p := leg.reserveIn, Invariant(leg);
    AfterFeeStep(leg, x);
    AfterFeeStep(leg, y);
    AfterFeeMonotone(leg, x, y);
    AfterFeeMonotone(leg, y + 1, max);
    assert JumpsAt(p, ri + AfterFee(leg, y));
    if AfterFee(leg, x + 1) != AfterFee(leg, x) {
      CeilFalls(p, ri + AfterFee(leg, x));
      FlatEndsJumps(p, ri + AfterFee(leg, x), ri + AfterFee(leg, y));
    }
    StandstillIsStall(leg, x);
    AfterFeeMonotone(leg, FirstStall(leg), y);
  }

  lemma StandstillIsStall(leg: CpmmReserves, x: u128)
    requires leg.fee.points <= DENOMINATOR && 1 <= x && x + 1 < TWO_TO_THE_128
    requires AfterFee(leg, x + 1) == AfterFee(leg, x)
    ensures leg.fee.points > 0 && FirstStall(leg) <= x
    ensures AfterFee(leg, FirstStall(leg)) == FirstStall(leg) - 1
  {
    if leg.fee.points > 0 {
      NoStallBefore(leg, x);
      StallsFirst(leg);
    }
  }

  lemma JumpMakesValley(leg: CpmmReserves, max: u128)
    requires leg.Positive() && leg.fee.points > 0 && Gross([leg], max).Some?
    requires JumpsAfterStall(leg, max)
    ensures RisesAfterFall([leg], max)
  {
    var y := JumpIsMet(leg, max);
    LegSteps(leg, max, FirstStall(leg));
    LegSteps(leg, max, y);
  }

  lemma ValleyHasJump(leg: CpmmReserves, max: u128)
    requires leg.Positive() && Gross([leg], max).Some? && RisesAfterFall([leg], max)
    ensures leg.fee.points > 0 && JumpsAfterStall(leg, max)
  {
    var x: u128, y: u128 :| 1 <= x < y < max && Falls([leg], x) && Rises([leg], y);
    LegSteps(leg, max, x);
    LegSteps(leg, max, y);
    JumpAfterStandstill(leg, max, x, y);
  }

  /** For a leg with a fee, in numbers known before the search: with `from` and `to` the
      input reserve at the first stall and at the end of the range, and t one short of
      from plus the ceiling of the invariant over `from`, some n of from..=to has
      n*(t - n) at or above the invariant. */
  ghost predicate Steep(leg: CpmmReserves, max: u128)
    requires 0 < leg.fee.points <= DENOMINATOR && leg.reserveIn > 0
  {
    var from, to := StalledReserve(leg), leg.reserveIn + AfterFee(leg, max);
    && from <= to
    && var t := from + DivCeil(Invariant(leg), from) - 1;
       var n := Middle(t, from, to);
       Invariant(leg) <= n * (t - n)
  }

  lemma JumpIsSteep(leg: CpmmReserves, max: u128)
    requires leg.Positive() && leg.fee.points > 0
    ensures JumpsAfterStall(leg, max) <==> Steep(leg, max)
  {
    var from, to := StalledReserve(leg), leg.reserveIn + AfterFee(leg, max);
    if from <= to {
      JumpWithinExactly(Invariant(leg), from, to);
    }
  }

  lemma PricedLegIsUnimodalExactly(leg: CpmmReserves, max: u128)
    requires leg.Positive() && Gross([leg], max).Some?
    ensures RisesAfterFall([leg], max) <==> leg.fee.points > 0 && Steep(leg, max)
  {
    if leg.fee.points > 0 {
      JumpIsSteep(leg, max);
      if JumpsAfterStall(leg, max) {
        JumpMakesValley(leg, max);
      }
    }
    if RisesAfterFall([leg], max) {
      ValleyHasJump(leg, max);
    }
  }

  lemma {:induction false} NothingYieldsNothing(legs: seq<CpmmReserves>)
    ensures CycleOutput(legs, 0) == Some(0)
  {
    if legs == [] {
    } else {
      NothingYieldsNothing(legs[..|legs|-1]);
    }
  }

  /** The largest size up to `max` whose gross profit is defined; size 0 always is one. */
  ghost function LargestPriced(legs: seq<CpmmReserves>, max: u128): (top: u128)
    ensures top <= max && Gross(legs, top).Some?
    ensures forall x: u128 :: top < x <= max ==> Gross(legs, x).None?
  {
    NothingYieldsNothing(legs);
    if Gross(legs, max).Some? then max else LargestPriced(legs, max - 1)
  }

  lemma RisesOnlyWherePriced(legs: seq<CpmmReserves>, max: u128)
    ensures RisesAfterFall(legs, max) <==> RisesAfterFall(legs, LargestPriced(legs, max))
  {
    var top := LargestPriced(legs, max);
    forall x: u128 | top < x <= max ensures Gross(legs, x).None? {
    }
    if RisesAfterFall(legs, max) {
      var x: u128, y: u128 :| 1 <= x < y < max && Falls(legs, x) && Rises(legs, y);
      assert Gross(legs, y + 1).Some?;
      assert y < top;
    }
  }

  /** The exact condition for one leg under any cap: its gross profit falls and rises again
      exactly when it charges a fee and is steep up to the largest priced size. */
  lemma LegIsUnimodalExactly(leg: CpmmReserves, max: u128)
    requires leg.Positive()
    ensures RisesAfterFall([leg], max) <==>
              leg.fee.points > 0 && Steep(leg, LargestPriced([leg], max))
  {
    RisesOnlyWherePriced([leg], max);
    PricedLegIsUnimodalExactly(leg, LargestPriced([leg], max));
  }

  /** A leg without a fee is single-peaked: its gross profit never rises after it fell. */
  lemma FreeLegIsUnimodal(leg: CpmmReserves, max: u128)
    requires leg.Positive() && leg.fee.points == 0
    ensures !RisesAfterFall([leg], max)
  {
    LegIsUnimodalExactly(leg, max);
  }

  /** A leg at work: 3, then 2, then 6. */
  lemma GrossIsNotUnimodal()
    ensures var legs := [CpmmReserves(10, 60, Bps(5000))];
            && Gross(legs, 2) == Some(3) && Gross(legs, 3) == Some(2) && Gross(legs, 4) == Some(6)
            && RisesAfterFall(legs, 4)
  {
    var leg := CpmmReserves(10, 60, Bps(5000));
    SmallQuotes(leg);
    OneLegChain(leg, 2);
    OneLegChain(leg, 3);
    OneLegChain(leg, 4);
    assert Falls([leg], 2) && Rises([leg], 3);
  }

  lemma SmallQuotes(leg: CpmmReserves)
    requires leg == CpmmReserves(10, 60, Bps(5000))
    ensures leg.AmountOut(2) == Some(5) && leg.AmountOut(3) == Some(5) && leg.AmountOut(4) == Some(10)
  {
  }

  // ---- Whole cycles

  lemma {:induction false} SamePrefixSameEnd(legs: seq<CpmmReserves>, k: nat, x: u128, y: u128)
    requires k <= |legs| && CycleOutput(legs[..k], x) == CycleOutput(legs[..k], y)
    ensures CycleOutput(legs, x) == CycleOutput(legs, y)
  {
    if k == |legs| {
      assert legs[..k] == legs;
    } else {
      assert legs[..|legs|-1][..k] == legs[..k];
      SamePrefixSameEnd(legs[..|legs|-1], k, x, y);
    }
  }

  /** The amount after the first `k` legs is the same for `s` and the next size. */
  ghost predicate StandsStill(legs: seq<CpmmReserves>, k: nat, s: u128) {
    && k <= |legs| && s + 1 < TWO_TO_THE_128
    && CycleOutput(legs[..k], s) == CycleOutput(legs[..k], s + 1)
  }

  /** Where some of the first legs let two sizes come out alike, the gross profit falls. */
  lemma StandstillFalls(legs: seq<CpmmReserves>, k: nat, s: u128)
    requires StandsStill(legs, k, s) && Gross(legs, s + 1).Some?
    ensures Falls(legs, s)
  {
    GrossFeasibleBelow(legs, s, s + 1);
    SamePrefixSameEnd(legs, k, s, s + 1);
  }

  lemma {:induction false} ClimbHasRise(legs: seq<CpmmReserves>, x: u128, z: u128) returns (y: u128)
    requires x < z && Gross(legs, z).Some?
    requires Gross(legs, x).Some? && Gross(legs, x).value < Gross(legs, z).value
    ensures x <= y < z && Rises(legs, y)
    decreases z
  {
    GrossFeasibleBelow(legs, z - 1, z);
    if Gross(legs, z - 1).value < Gross(legs, z).value {
      y := z - 1;
    } else {
      y := ClimbHasRise(legs, x, z - 1);
    }
  }

  /** No cycle is single-peaked whose first `k` legs, for some `k`, stand still at a size `s`
      while a size past s + 1 makes more than s + 1 does. */
  lemma StandstillBreaksUnimodality(legs: seq<CpmmReserves>, k: nat, s: u128, z: u128)
    requires 1 <= s && StandsStill(legs, k, s)
    requires s + 1 < z && Gross(legs, z).Some?
    requires Gross(legs, s + 1).Some? && Gross(legs, s + 1).value < Gross(legs, z).value
    ensures RisesAfterFall(legs, z)
  {
    StandstillFalls(legs, k, s);
    var y := ClimbHasRise(legs, s + 1, z);
    assert Falls(legs, s) && Rises(legs, y);
  }

  /** The whole cycle stands still at a size `s`, and a size past s + 1 makes more than
      s + 1 does. */
  ghost predicate OutdoneAt(legs: seq<CpmmReserves>, s: u128, z: u128) {
    && 1 <= s && s + 1 < z && StandsStill(legs, |legs|, s)
    && Gross(legs, s + 1).Some? && Gross(legs, z).Some?
    && Gross(legs, s + 1).value < Gross(legs, z).value
  }

  lemma FallIsStandstill(legs: seq<CpmmReserves>, s: u128)
    requires Falls(legs, s)
    ensures StandsStill(legs, |legs|, s)
  {
    CycleMonotone(legs, s, s + 1);
    assert legs[..|legs|] == legs;
  }

  /** After the last fall before `y` the gross profit has not fallen. */
  lemma {:induction false} LastFall(legs: seq<CpmmReserves>, x: u128, y: u128) returns (s: u128)
    requires x < y && Falls(legs, x) && Gross(legs, y).Some?
    ensures x <= s < y && Falls(legs, s) && Gross(legs, s + 1).value <= Gross(legs, y).value
    decreases y
  {
    if Falls(legs, y - 1) {
      s := y - 1;
    } else {
      GrossFeasibleBelow(legs, y - 1, y);
      s := LastFall(legs, x, y - 1);
    }
  }

  /** For cycles of any length: the gross profit falls and rises again exactly when some size
      makes more than the size right after a standstill before it. */
  lemma CycleIsUnimodalExactly(legs: seq<CpmmReserves>, max: u128)
    ensures RisesAfterFall(legs, max) <==> exists s: u128, z: u128 :: z <= max && OutdoneAt(legs, s, z)
  {
    if RisesAfterFall(legs, max) {
      var x: u128, y: u128 :| 1 <= x < y < max && Falls(legs, x) && Rises(legs, y);
      var s := LastFall(legs, x, y);
      FallIsStandstill(legs, s);
      assert OutdoneAt(legs, s, y + 1);
    }
    if s: u128, z: u128 :| z <= max && OutdoneAt(legs, s, z) {
      StandstillBreaksUnimodality(legs, |legs|, s, z);
      var x: u128, y: u128 :| 1 <= x < y < z && Falls(legs, x) && Rises(legs, y);
    }
  }

  lemma {:induction false} FirstLegPriced(legs: seq<CpmmReserves>, x: u128)
    requires legs != [] && CycleOutput(legs, x).Some?
    ensures legs[0].AmountOut(x).Some?
  {
    var init := legs[..|legs|-1];
    if init == [] {
      assert CycleOutput(init, x) == Some(x);
    } else {
      FirstLegPriced(init, x);
    }
  }

  lemma FirstLegStandsStill(legs: seq<CpmmReserves>, s: u128)
    requires legs != [] && s + 1 < TWO_TO_THE_128 && legs[0].AmountOut(s) == legs[0].AmountOut(s + 1)
    ensures StandsStill(legs, 1, s)
  {
    assert legs[..1] == [legs[0]];
    OneLegChain(legs[0], s);
    OneLegChain(legs[0], s + 1);
  }

  /** A first leg stands still at its first fee stall. */
  lemma FeeStandsStill(legs: seq<CpmmReserves>)
    requires legs != [] && 0 < legs[0].fee.points <= DENOMINATOR
    requires FirstStall(legs[0]) + 1 < TWO_TO_THE_128 && Gross(legs, FirstStall(legs[0]) + 1).Some?
    ensures StandsStill(legs, 1, FirstStall(legs[0]))
  {
    var leg, x := legs[0], FirstStall(legs[0]);
    StallsFirst(leg);
    FirstLegPriced(legs, x + 1);
    SwapMonotone(leg, x, x + 1);
    if leg.reserveIn > 0 && leg.reserveOut > 0 {
      PricedSwap(leg, x);
      PricedSwap(leg, x + 1);
    }
    FirstLegStandsStill(legs, x);
  }

  /** A first leg, with or without a fee, stands still where its own curve is flat. */
  lemma FlatStandsStill(legs: seq<CpmmReserves>, s: u128)
    requires legs != [] && legs[0].Positive() && s + 1 < TWO_TO_THE_128 && Gross(legs, s + 1).Some?
    requires FlatAt(Invariant(legs[0]), legs[0].reserveIn + AfterFee(legs[0], s))
    ensures StandsStill(legs, 1, s)
  {
    FirstLegPriced(legs, s + 1);
    SwapMonotone(legs[0], s, s + 1);
    FlatKeepsLeft(legs[0], s);
    var left := Left(legs[0], s);
    OutputFromLeft(legs[0], s, left);
    OutputFromLeft(legs[0], s + 1, left);
    FirstLegStandsStill(legs, s);
  }

  lemma FlatKeepsLeft(leg: CpmmReserves, s: u128)
    requires leg.Positive() && s + 1 < TWO_TO_THE_128
    requires FlatAt(Invariant(leg), leg.reserveIn + AfterFee(leg, s))
    ensures Left(leg, s + 1) == Left(leg, s)
  {
    AfterFeeStep(leg, s);
    assert AfterFee(leg, s + 1) == AfterFee(leg, s) || AfterFee(leg, s + 1) == AfterFee(leg, s) + 1;
  }

  lemma OutputFromLeft(leg: CpmmReserves, x: u128, left: int)
    requires leg.Positive() && leg.AmountOut(x).Some? && left == Left(leg, x)
    ensures leg.AmountOut(x) == Some(leg.reserveOut - left)
  {
    LegOutput(leg, x);
  }

  /** No cycle whose first leg charges a fee of f points is single-peaked once some size
      past 10000/f + 1 makes more than that size: it falls there by one unit and rises
      again. */
  lemma FeeBreaksUnimodality(legs: seq<CpmmReserves>, z: u128)
    requires legs != [] && 0 < legs[0].fee.points <= DENOMINATOR
    requires FirstStall(legs[0]) + 1 < z && Gross(legs, z).Some?
    requires var past := Gross(legs, FirstStall(legs[0]) + 1);
             past.Some? && past.value < Gross(legs, z).value
    ensures RisesAfterFall(legs, z)
  {
    FeeStandsStill(legs);
    StandstillBreaksUnimodality(legs, 1, FirstStall(legs[0]), z);
  }

  /** No cycle whose first leg has a flat step at `s` is single-peaked once some size past
      s + 1 makes more than s + 1 does; the leg need not charge a fee. */
  lemma FlatStepBreaksUnimodality(legs: seq<CpmmReserves>, s: u128, z: u128)
    requires legs != [] && legs[0].Positive() && 1 <= s && s + 1 < z && Gross(legs, z).Some?
    requires FlatAt(Invariant(legs[0]), legs[0].reserveIn + AfterFee(legs[0], s))
    requires Gross(legs, s + 1).Some? && Gross(legs, s + 1).value < Gross(legs, z).value
    ensures RisesAfterFall(legs, z)
  {
    FlatStandsStill(legs, s);
    StandstillBreaksUnimodality(legs, 1, s, z);
  }

  /** Two legs without fees, each single-peaked, that make a valley together: 46 at size 4,
      59 at size 7. */
  lemma FreeLegsTogetherAreNotUnimodal()
    ensures var legs := [CpmmReserves(10, 5, Bps(0)), CpmmReserves(1, 100, Bps(0))];
            && Gross(legs, 3) == Some(47) && Gross(legs, 4) == Some(46) && Gross(legs, 7) == Some(59)
            && RisesAfterFall(legs, 7)
  {
    var first, second := CpmmReserves(10, 5, Bps(0)), CpmmReserves(1, 100, Bps(0));
    var legs := [first, second];
    assert first.AmountOut(3) == Some(1) && first.AmountOut(4) == Some(1) && first.AmountOut(7) == Some(2);
    assert second.AmountOut(1) == Some(50) && second.AmountOut(2) == Some(66);
    assert legs[..1] == [first];
    OneLegChain(first, 3);
    OneLegChain(first, 4);
    OneLegChain(first, 7);
    FirstLegStandsStill(legs, 3);
    StandstillBreaksUnimodality(legs, 1, 3, 7);
  }
}
