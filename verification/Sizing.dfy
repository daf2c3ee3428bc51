/** Sizing a whole cycle: the gross profit of an input, the search for the best one, and
    how good the input found is. */
module Sizing {
  import opened Domain
  import opened Amm
  import opened Moebius
  import opened Search
  import opened SearchGuarantees
  import opened IntervalSearch
  import opened ConcaveSearch

  /** Output minus input, None when unpriced or outside i128. */
  function Gross(legs: seq<CpmmReserves>, x: u128): Option<i128> {
    match CycleOutput(legs, x)
    case None => None
    case Some(output) =>
      match TryIntoI128(output)
      case None => None
      case Some(out) =>
        match TryIntoI128(x)
        case None => None
        case Some(input) => Some(out - input)
  }

  /** The gross profit is defined exactly where the cycle is priced and both its output and
      the input fit i128. */
  lemma GrossExactly(legs: seq<CpmmReserves>, x: u128)
    ensures Gross(legs, x).Some? <==>
              && CycleOutput(legs, x).Some?
              && CycleOutput(legs, x).value < TWO_TO_THE_127 && x < TWO_TO_THE_127
    ensures Gross(legs, x).Some? ==> Gross(legs, x).value == CycleOutput(legs, x).value - x
  {
  }

  function GrossOf(legs: seq<CpmmReserves>): Objective {
    (x: u128) => Gross(legs, x)
  }

  /** The answer drawn from a search outcome: nothing unless the gross is positive. */
  ghost predicate Sized(legs: seq<CpmmReserves>, max: u128, sized: Option<(u128, u128)>) {
    if legs == [] || max == 0 then sized.None?
    else exists best: Option<(u128, i128)> :: SizedBy(legs, max, best, sized)
  }

  ghost predicate SizedBy(legs: seq<CpmmReserves>, max: u128, best: Option<(u128, i128)>, sized: Option<(u128, u128)>) {
    && Searched(GrossOf(legs), max, best)
    && (sized.None? <==> best.None? || best.value.1 <= 0)
    && (sized.Some? ==>
          && sized.value.0 == best.value.0
          && sized.value.1 - sized.value.0 == best.value.1)
  }

  method OptimalCycleSize(legs: seq<CpmmReserves>, max: u128) returns (sized: Option<(u128, u128)>)
    ensures Sized(legs, max, sized)
    ensures sized.Some? ==>
              && 1 <= sized.value.0 <= max
              && CycleOutput(legs, sized.value.0) == Some(sized.value.1)
              && sized.value.0 < sized.value.1
  {
    if legs == [] || max == 0 {
      return None;
    }
    var best := MaximizeUnimodal(max, GrossOf(legs));
    if best.None? {
      assert SizedBy(legs, max, best, None);
      return None;
    }
    var (bestInput, bestGross) := best.value;
    if bestGross <= 0 {
      assert SizedBy(legs, max, best, None);
      return None;
    }
    assert Gross(legs, bestInput) == Some(bestGross);
    var bestOutput := ComputeCycleOutput(legs, bestInput);
    sized := Some((bestInput, bestOutput.value));
    assert SizedBy(legs, max, best, sized);
  }

  /** The gross profit of the answer, 0 when there is none. */
  ghost function FoundGross(sized: Option<(u128, u128)>): (gross: int)
    ensures sized.None? ==> gross == 0
    ensures sized.Some? ==> sized.value.0 + gross == sized.value.1
  {
    if sized.None? then 0 else sized.value.1 - sized.value.0
  }

  // ---- Soundness against the folded curve

  /** A cycle whose folded curve starts with slope at most 1 is never sized. */
  lemma FlatCurveIsNeverSized(legs: seq<CpmmReserves>, max: u128, sized: Option<(u128, u128)>)
    requires Folded(legs).a <= Folded(legs).b && Sized(legs, max, sized)
    ensures sized.None?
  {
    if legs != [] && max != 0 {
      var best: Option<(u128, i128)> :| SizedBy(legs, max, best, sized);
      if best.Some? {
        AnswerInRange(GrossOf(legs), max, best);
        assert Gross(legs, best.value.0) == Some(best.value.1);
        UnprofitableUnderFlatCurve(legs, best.value.0);
      }
    }
  }

  lemma UnprofitableUnderFlatCurve(legs: seq<CpmmReserves>, x: u128)
    requires Folded(legs).a <= Folded(legs).b && CycleOutput(legs, x).Some?
    ensures CycleOutput(legs, x).value <= x
  {
    if CycleOutput(legs, x).value > x {
      ProfitableSizeBound(legs, x);
      ProductNonNegative(Folded(legs).c, x);
    }
  }

  /** One symmetric pool never yields a profit, whatever its fee and the size. */
  lemma SymmetricLegIsNeverSized(leg: CpmmReserves, max: u128, sized: Option<(u128, u128)>)
    requires leg.reserveIn == leg.reserveOut && Sized([leg], max, sized)
    ensures sized.None?
  {
    SymmetricCurveIsFlat(leg);
    FlatCurveIsNeverSized([leg], max, sized);
  }

  lemma SymmetricCurveIsFlat(leg: CpmmReserves)
    requires leg.reserveIn == leg.reserveOut
    ensures Folded([leg]).a <= Folded([leg]).b
  {
    assert [leg][..0] == [];
    assert Folded([leg]) == Composed(Folded([leg][..0]), leg);
    MulLe(leg.Kept(), DENOMINATOR, leg.reserveIn);
    assert leg.reserveOut * leg.Kept() == leg.Kept() * leg.reserveIn;
  }

  // ---- Optimality

  /** On ranges up to 1025 the sizing is exact: no input the swaps can price makes more. */
  lemma ExactSizingOnShortRange(legs: seq<CpmmReserves>, max: u128, sized: Option<(u128, u128)>, x: u128)
    requires legs != [] && 1 <= x <= max <= 1025 && Sized(legs, max, sized)
    requires CycleOutput(legs, x).Some? && CycleOutput(legs, x).value < TWO_TO_THE_127 && x < TWO_TO_THE_127
    ensures CycleOutput(legs, x).value - x <= FoundGross(sized)
  {
    GrossExactly(legs, x);
    var best: Option<(u128, i128)> :| SizedBy(legs, max, best, sized);
    ExactOnShortRange(GrossOf(legs), max, best);
    assert GrossOf(legs)(x) == Gross(legs, x);
  }

  /** Feasibility of the gross profit is a prefix of the inputs. */
  lemma GrossFeasibleBelow(legs: seq<CpmmReserves>, x: u128, y: u128)
    requires x <= y && Gross(legs, y).Some?
    ensures Gross(legs, x).Some?
    ensures Gross(legs, x).value == CycleOutput(legs, x).value - x
  {
    CycleMonotone(legs, x, y);
  }

  /** The concave curve the gross profit hangs below. */
  ghost function GrossCurve(m: Curve): int -> real
    requires m.b > 0
  {
    (x: int) => if x >= 0 then GrossEnvelope(m, x) else 0.0
  }

  lemma GrossCurveConcave(m: Curve, max: u128)
    requires m.b > 0
    ensures Concave(GrossCurve(m), max)
  {
    forall x: int, y: int, z: int | 1 <= x < y < z <= max ensures SlopesFall(GrossCurve(m), x, y, z) {
      EnvelopeConcave(m, x, y, z);
    }
  }

  lemma GrossSamplesCurve(legs: seq<CpmmReserves>, max: u128)
    requires PositiveLegs(legs)
    ensures Folded(legs).b > 0
    ensures Samples(GrossOf(legs), GrossCurve(Folded(legs)), Slack(legs), max)
  {
    PositiveLegsKeepConstant(legs);
    forall x: u128 | 1 <= x <= max && GrossOf(legs)(x).Some?
      ensures var h := GrossCurve(Folded(legs))(x);
              h - Slack(legs) <= GrossOf(legs)(x).value as real <= h
    {
      CycleBelowEnvelope(legs, x);
      CycleNearEnvelope(legs, x);
    }
  }

  lemma GrossIsPrefixFeasible(legs: seq<CpmmReserves>, max: u128)
    ensures PrefixFeasible(GrossOf(legs), max) && FeasibleSpan(GrossOf(legs), max)
  {
    forall x: u128, y: u128 | 1 <= x <= y <= max && GrossOf(legs)(y).Some?
      ensures GrossOf(legs)(x).Some?
    {
      GrossFeasibleBelow(legs, x, y);
    }
  }

  lemma GrossSearchLosesLittle(legs: seq<CpmmReserves>, max: u128, best: Option<(u128, i128)>, x: u128)
    requires PositiveLegs(legs) && Searched(GrossOf(legs), max, best)
    requires 1 <= x <= max && GrossOf(legs)(x).Some?
    ensures NearlyBest(GrossOf(legs), max, Slack(legs), best, GrossOf(legs)(x).value)
  {
    PositiveLegsKeepConstant(legs);
    GrossCurveConcave(Folded(legs), max);
    GrossSamplesCurve(legs, max);
    GrossIsPrefixFeasible(legs, max);
    var first, last := SpanHasEnds(GrossOf(legs), max, x);
    assert GrossOf(legs)(1).Some?;
    TwoThirdsKeep(first, last, 1, max);
    SearchLosesLittle(GrossOf(legs), GrossCurve(Folded(legs)), Slack(legs), max, first, last, best, x);
  }

  /** The sizing of a cycle of positive legs misses the gross profit of no size the swaps can
      price by more than (rounds + 1) times the slack of the legs. */
  lemma SizingIsNearOptimal(legs: seq<CpmmReserves>, max: u128, sized: Option<(u128, u128)>, x: u128)
    requires legs != [] && PositiveLegs(legs) && Sized(legs, max, sized)
    requires 1 <= x <= max
    requires CycleOutput(legs, x).Some? && CycleOutput(legs, x).value < TWO_TO_THE_127 && x < TWO_TO_THE_127
    ensures (CycleOutput(legs, x).value - x) as real
            <= FoundGross(sized) as real + Loss(Rounds(GrossOf(legs), 1, max) + 1, Slack(legs))
    ensures (CycleOutput(legs, x).value - x) as real <= FoundGross(sized) as real + 217.0 * Slack(legs)
  {
    GrossExactly(legs, x);
    var best: Option<(u128, i128)> :| SizedBy(legs, max, best, sized);
    assert GrossOf(legs)(x) == Gross(legs, x);
    GrossSearchLosesLittle(legs, max, best, x);
  }

  /** Whatever the cycle and the range, the miss is at most 217 times the slack of the legs,
      and nothing when some leg is not positive. */
  lemma SizingErrorIsBounded(legs: seq<CpmmReserves>, max: u128, sized: Option<(u128, u128)>, x: u128)
    requires legs != [] && Sized(legs, max, sized)
    requires 1 <= x <= max
    requires CycleOutput(legs, x).Some? && CycleOutput(legs, x).value < TWO_TO_THE_127 && x < TWO_TO_THE_127
    ensures PositiveLegs(legs) ==>
              (CycleOutput(legs, x).value - x) as real <= FoundGross(sized) as real + 217.0 * Slack(legs)
    ensures !PositiveLegs(legs) ==> CycleOutput(legs, x).value < x && sized.None?
  {
    GrossExactly(legs, x);
    if PositiveLegs(legs) {
      SizingIsNearOptimal(legs, max, sized, x);
    } else {
      IdleLegsNeverPay(legs, x);
      if sized.Some? {
        var best: Option<(u128, i128)> :| SizedBy(legs, max, best, sized);
        AnswerInRange(GrossOf(legs), max, best);
        assert Gross(legs, best.value.0) == Some(best.value.1);
        IdleLegsNeverPay(legs, best.value.0);
      }
    }
  }

  lemma IdleLegsNeverPay(legs: seq<CpmmReserves>, x: u128)
    requires !PositiveLegs(legs) && x >= 1 && Gross(legs, x).Some?
    ensures Gross(legs, x).value < 0
  {
    if CycleOutput(legs, x).value > 0 {
      YieldNeedsPositiveLegs(legs, x);
    }
  }

  /** Gross feasibility is a prefix, so the underlying search comes back empty-handed only
      when the swaps can price no size at all. */
  lemma GrossSearchIsComplete(legs: seq<CpmmReserves>, max: u128, best: Option<(u128, i128)>)
    requires Searched(GrossOf(legs), max, best)
    ensures best.None? <==>
              forall x: u128 :: 1 <= x <= max && x < TWO_TO_THE_127 && CycleOutput(legs, x).Some? ==>
                CycleOutput(legs, x).value >= TWO_TO_THE_127
  {
    GrossIsPrefixFeasible(legs, max);
    PrefixNone(GrossOf(legs), max, best);
    if best.None? {
      forall x: u128 | 1 <= x <= max && x < TWO_TO_THE_127 && CycleOutput(legs, x).Some?
        ensures CycleOutput(legs, x).value >= TWO_TO_THE_127
      {
        GrossExactly(legs, x);
        assert GrossOf(legs)(x).None?;
      }
    } else {
      var x: u128 :| 1 <= x <= max && GrossOf(legs)(x).Some?;
      GrossExactly(legs, x);
    }
  }
}
