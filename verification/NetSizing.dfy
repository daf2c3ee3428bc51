/** Sizing a trade by its net profit: which sizes are feasible, when the search finds one,
    and how far the net profit it finds can be from the best. */
module NetSizing {
  import opened Domain
  import opened Amm
  import opened Concavity
  import opened Moebius
  import opened Repricing
  import opened Search
  import opened SearchGuarantees
  import opened Costs
  import opened IntervalSearch
  import opened ConcaveSearch

  /** The oriented reserves along the trade's route from its base token. */
  function TradeLegs(trade: Trade): Option<seq<CpmmReserves>> {
    match FirstFrom(trade.edges, trade.base)
    case None => None
    case Some(start) => Legs(trade.pools, Rotated(trade.edges, start))
  }

  /** The simulation succeeds exactly when the legs resolve and yield something, and then
      yields what they do. */
  lemma SimulationIsChain(trade: Trade, x: u128)
    ensures var sim := Simulated(trade.pools, trade.edges, trade.base, x);
            var legs := TradeLegs(trade);
            && (sim.Some? <==>
                  legs.Some? && CycleOutput(legs.value, x).Some? && CycleOutput(legs.value, x).value > 0)
            && (sim.Some? ==> CycleOutput(legs.value, x) == Some(sim.value.1))
  {
    if FirstFrom(trade.edges, trade.base).Some? {
      RepricingRefines(trade.pools, Rotated(trade.edges, FirstFrom(trade.edges, trade.base).value), x);
    }
  }

  /** Feasible sizes in terms of the chained swap: it yields something that fits i128. */
  lemma NetFeasibleExactly(trade: Trade, x: u64)
    requires |trade.edges| < TWO_TO_THE_32
    ensures NetAt(trade, x).Some? <==>
              && TradeLegs(trade).Some?
              && CycleOutput(TradeLegs(trade).value, x).Some?
              && 0 < CycleOutput(TradeLegs(trade).value, x).value < TWO_TO_THE_127
    ensures NetAt(trade, x).Some? ==>
              var cost := TotalCost(trade.costs, x, |trade.edges|);
              && cost.Some? && cost.value < REACHABLE_COST
              && NetAt(trade, x).value == CycleOutput(TradeLegs(trade).value, x).value - x - cost.value
  {
    NetIsExact(trade, x);
    SimulationIsChain(trade, x);
    CostNeverOverflows(trade.costs, x, |trade.edges|);
  }

  /** Feasible sizes form an interval: too small ones floor to nothing, too large ones
      overflow. */
  lemma NetFeasibleBetween(trade: Trade, x: u64, y: u64, z: u64)
    requires |trade.edges| < TWO_TO_THE_32 && x <= y <= z
    requires NetAt(trade, x).Some? && NetAt(trade, z).Some?
    ensures NetAt(trade, y).Some?
  {
    NetFeasibleExactly(trade, x);
    NetFeasibleExactly(trade, y);
    NetFeasibleExactly(trade, z);
    CycleMonotone(TradeLegs(trade).value, y, z);
    CycleMonotone(TradeLegs(trade).value, x, y);
  }

  lemma NetFeasibleSpan(trade: Trade, max: u64)
    requires |trade.edges| < TWO_TO_THE_32
    ensures FeasibleSpan(NetOf(trade), max)
  {
    forall x: u128, y: u128, z: u128
      | 1 <= x <= y <= z <= max && NetOf(trade)(x).Some? && NetOf(trade)(z).Some?
      ensures NetOf(trade)(y).Some?
    {
      NetFeasibleBetween(trade, x, y, z);
    }
    forall x: u128 | 1 <= x <= max && NetOf(trade)(x).Some?
      ensures NetOf(trade)(x).value > I128_MIN
    {
      NetFeasibleExactly(trade, x);
    }
  }

  /** The smallest and the largest feasible size up to a cap. */
  ghost predicate NetEnds(trade: Trade, max: u64, first: u64, last: u64) {
    && 1 <= first <= last <= max
    && NetAt(trade, first).Some? && NetAt(trade, last).Some?
    && forall x: u64 :: 1 <= x < first || last < x <= max ==> NetAt(trade, x).None?
  }

  lemma NetFeasibleInside(trade: Trade, max: u64, first: u64, last: u64)
    requires FeasibleSpan(NetOf(trade), max) && NetEnds(trade, max, first, last)
    ensures FeasibleOn(NetOf(trade), max, first, last)
  {
    var net := NetOf(trade);
    assert net(first).Some? && net(last).Some?;
    forall x: u128 | 1 <= x <= max
      ensures net(x).Some? <==> first <= x <= last
      ensures net(x).Some? ==> net(x).value > I128_MIN
    {
      assert net(x) == NetAt(trade, x);
    }
  }

  /** For any cap the search comes back empty-handed exactly when the narrowing loses the
      sizes between the smallest and the largest feasible one, which these two decide. */
  lemma NetMissedExactly(trade: Trade, max: u64, first: u64, last: u64, best: Option<(u128, i128)>)
    requires |trade.edges| < TWO_TO_THE_32 && NetEnds(trade, max, first, last)
    requires Searched(NetOf(trade), max, best)
    ensures best.None? <==> Loses(first, last, 1, max)
  {
    NetFeasibleSpan(trade, max);
    NetFeasibleInside(trade, max, first, last);
    IntervalNoneExactly(NetOf(trade), max, first, last, best);
  }

  /** With a feasible cap the ends need not be known: the search comes back empty-handed
      exactly when two sizes are infeasible, the one two thirds up to the cap and the end of
      the blind search. */
  lemma NetNoneExactly(trade: Trade, max: u64, best: Option<(u128, i128)>)
    requires |trade.edges| < TWO_TO_THE_32 && max >= 1 && NetAt(trade, max).Some?
    requires Searched(NetOf(trade), max, best)
    ensures best.None? <==> NetAt(trade, RightProbe(1, max)).None? && NetAt(trade, BlindReach(max)).None?
  {
    NetFeasibleSpan(trade, max);
    assert NetOf(trade)(max).Some?;
    var first, last := SpanHasEnds(NetOf(trade), max, max);
    UpwardNoneExactly(NetOf(trade), max, first, best);
  }

  // ---- The concave curve above the net profit

  /** Basis points of the size that go to the flash loan and to slippage. */
  function VariableRate(trade: Trade): nat {
    ProductNonNegative(trade.costs.slippagePerHop.points, |trade.edges|);
    trade.costs.flashLoanFee.points + trade.costs.slippagePerHop.points * |trade.edges|
  }

  ghost function VariableShare(trade: Trade): real {
    VariableRate(trade) as real / DENOMINATOR as real
  }

  function FixedFees(trade: Trade): nat {
    trade.costs.priorityFee + trade.costs.jitoTip
  }

  /** The cost of a size against the straight line of its exact value. */
  lemma CostNearLine(trade: Trade, x: u128, cost: u128)
    requires TotalCost(trade.costs, x, |trade.edges|) == Some(cost)
    ensures var line := VariableShare(trade) * x as real + FixedFees(trade) as real;
            line - 2.0 <= cost as real <= line
  {
    var v := cost - FixedFees(trade);
    CostIsExactToTwoUnits(trade.costs, x, |trade.edges|);
    assert v * DENOMINATOR <= x * VariableRate(trade) < (v + 2) * DENOMINATOR;
    NearFraction(v, x, VariableRate(trade));
  }

  lemma NearFraction(v: int, x: nat, k: nat)
    requires v * DENOMINATOR <= x * k < (v + 2) * DENOMINATOR
    ensures v as real <= (k as real / DENOMINATOR as real) * x as real <= v as real + 2.0
  {
    RealOfProduct(x, k);
    var share := k as real / DENOMINATOR as real;
    assert share * x as real * DENOMINATOR as real == x as real * k as real;
  }

  /** The net profit of the folded curve, two units up. */
  ghost function NetEnvelope(trade: Trade, m: Curve, x: int): real
    requires m.b > 0 && x >= 0
  {
    GrossEnvelope(m, x) - (VariableShare(trade) * x as real + (FixedFees(trade) as real - 2.0))
  }

  ghost function NetCurve(trade: Trade, m: Curve): int -> real
    requires m.b > 0
  {
    (x: int) => if x >= 0 then NetEnvelope(trade, m, x) else 0.0
  }

  lemma NetEnvelopeConcave(trade: Trade, m: Curve, x: int, y: int, z: int)
    requires m.b > 0 && 0 <= x < y < z
    ensures FallingSlopes(NetEnvelope(trade, m, x), NetEnvelope(trade, m, y), NetEnvelope(trade, m, z),
                          x as real, y as real, z as real)
  {
    EnvelopeConcave(m, x, y, z);
    MinusLine(GrossEnvelope(m, x), GrossEnvelope(m, y), GrossEnvelope(m, z), x as real, y as real, z as real,
              VariableShare(trade), FixedFees(trade) as real - 2.0);
  }

  lemma NetCurveConcave(trade: Trade, m: Curve, max: u128)
    requires m.b > 0
    ensures Concave(NetCurve(trade, m), max)
  {
    forall x: int, y: int, z: int | 1 <= x < y < z <= max ensures SlopesFall(NetCurve(trade, m), x, y, z) {
      NetEnvelopeConcave(trade, m, x, y, z);
      var h := NetCurve(trade, m);
      assert h(x) == NetEnvelope(trade, m, x);
      assert h(y) == NetEnvelope(trade, m, y);
      assert h(z) == NetEnvelope(trade, m, z);
    }
  }

  lemma NetParts(trade: Trade, legs: seq<CpmmReserves>, x: u64) returns (out: u128, cost: u128)
    requires |trade.edges| < TWO_TO_THE_32 && TradeLegs(trade) == Some(legs) && NetAt(trade, x).Some?
    ensures CycleOutput(legs, x) == Some(out) && TotalCost(trade.costs, x, |trade.edges|) == Some(cost)
    ensures NetAt(trade, x).value == out - x - cost
  {
    NetFeasibleExactly(trade, x);
    out, cost := CycleOutput(legs, x).value, TotalCost(trade.costs, x, |trade.edges|).value;
  }

  lemma PartsNearEnvelope(trade: Trade, m: Curve, x: nat, out: nat, cost: nat, slack: real)
    requires m.b > 0
    requires var g := GrossEnvelope(m, x); g - slack <= out as real - x as real <= g
    requires var line := VariableShare(trade) * x as real + FixedFees(trade) as real;
             line - 2.0 <= cost as real <= line
    ensures var h := NetEnvelope(trade, m, x);
            h - (slack + 2.0) <= (out - x - cost) as real <= h
  {
  }

  /** The net profit stays within the slack of the legs and two units for the floors of the
      cost below a concave curve. */
  lemma NetNearEnvelope(trade: Trade, legs: seq<CpmmReserves>, x: u64)
    requires |trade.edges| < TWO_TO_THE_32 && TradeLegs(trade) == Some(legs) && PositiveLegs(legs)
    requires NetAt(trade, x).Some?
    ensures Folded(legs).b > 0
    ensures var h := NetEnvelope(trade, Folded(legs), x);
            h - (Slack(legs) + 2.0) <= NetAt(trade, x).value as real <= h
  {
    var out, cost := NetParts(trade, legs, x);
    CycleAtEnvelope(legs, x, out);
    CostNearLine(trade, x, cost);
    PartsNearEnvelope(trade, Folded(legs), x, out, cost, Slack(legs));
  }

  lemma CycleAtEnvelope(legs: seq<CpmmReserves>, x: u128, out: u128)
    requires PositiveLegs(legs) && CycleOutput(legs, x) == Some(out)
    ensures Folded(legs).b > 0
    ensures var g := GrossEnvelope(Folded(legs), x); g - Slack(legs) <= out as real - x as real <= g
  {
    CycleBelowEnvelope(legs, x);
    CycleNearEnvelope(legs, x);
  }

  lemma NetSamplesCurve(trade: Trade, legs: seq<CpmmReserves>, max: u64)
    requires |trade.edges| < TWO_TO_THE_32 && TradeLegs(trade) == Some(legs) && PositiveLegs(legs)
    ensures Folded(legs).b > 0
    ensures Samples(NetOf(trade), NetCurve(trade, Folded(legs)), Slack(legs) + 2.0, max)
  {
    PositiveLegsKeepConstant(legs);
    forall x: u128 | 1 <= x <= max && NetOf(trade)(x).Some?
      ensures var h := NetCurve(trade, Folded(legs))(x);
              h - (Slack(legs) + 2.0) <= NetOf(trade)(x).value as real <= h
    {
      NetNearEnvelope(trade, legs, x);
    }
  }

  /** The legs of a trade with a feasible size resolve and are positive. */
  lemma FeasibleLegs(trade: Trade, x: u64) returns (legs: seq<CpmmReserves>)
    requires |trade.edges| < TWO_TO_THE_32 && NetAt(trade, x).Some?
    ensures TradeLegs(trade) == Some(legs) && PositiveLegs(legs)
  {
    NetFeasibleExactly(trade, x);
    legs := TradeLegs(trade).value;
    YieldNeedsPositiveLegs(legs, x);
  }

  // ---- What the search for the best net profit finds

  /** Where it is feasible the net profit is a noisy sample of a concave curve. */
  lemma NetIsNoisySample(trade: Trade, legs: seq<CpmmReserves>, max: u64)
    requires |trade.edges| < TWO_TO_THE_32 && TradeLegs(trade) == Some(legs) && PositiveLegs(legs)
    ensures Folded(legs).b > 0 && Slack(legs) >= 0.0
    ensures Concave(NetCurve(trade, Folded(legs)), max)
    ensures Samples(NetOf(trade), NetCurve(trade, Folded(legs)), Slack(legs) + 2.0, max)
  {
    PositiveLegsKeepConstant(legs);
    NetSamplesCurve(trade, legs, max);
    NetCurveConcave(trade, Folded(legs), max);
  }

  /** How far below its curve the net profit can be: the slack of the legs, and two units for
      the floors of the cost. */
  ghost function NetSlack(trade: Trade): (slack: real)
    requires TradeLegs(trade).Some? && PositiveLegs(TradeLegs(trade).value)
    ensures slack == Slack(TradeLegs(trade).value) + 2.0
  {
    Slack(TradeLegs(trade).value) + 2.0
  }

  lemma NetSearchLosesLittle(
    trade: Trade, legs: seq<CpmmReserves>, net: Objective, max: u64, first: u64, last: u64,
    best: Option<(u128, i128)>, x: u128)
    requires |trade.edges| < TWO_TO_THE_32 && net == NetOf(trade)
    requires TradeLegs(trade) == Some(legs) && PositiveLegs(legs)
    requires FeasibleOn(net, max, first, last) && Keeps(first, last, 1, max)
    requires Searched(net, max, best) && 1 <= x <= max && net(x).Some?
    ensures NearlyBest(net, max, NetSlack(trade), best, net(x).value)
  {
    NetIsNoisySample(trade, legs, max);
    SearchLosesLittle(net, NetCurve(trade, Folded(legs)), NetSlack(trade), max, first, last, best, x);
  }

  /** When the narrowing keeps the sizes between the smallest and the largest feasible one,
      which these two decide, the search misses the best net profit by at most (rounds + 1)
      times, and so by at most 217 times, the slack of the legs plus two. */
  lemma NetSearchIsNearOptimal(
    trade: Trade, max: u64, first: u64, last: u64, best: Option<(u128, i128)>, x: u64)
    requires |trade.edges| < TWO_TO_THE_32 && NetEnds(trade, max, first, last) && Keeps(first, last, 1, max)
    requires Searched(NetOf(trade), max, best) && 1 <= x <= max && NetAt(trade, x).Some?
    ensures TradeLegs(trade).Some? && PositiveLegs(TradeLegs(trade).value)
    ensures NearlyBest(NetOf(trade), max, NetSlack(trade), best, NetAt(trade, x).value)
  {
    var legs := FeasibleLegs(trade, x);
    NetFeasibleSpan(trade, max);
    NetFeasibleInside(trade, max, first, last);
    NetSearchLosesLittle(trade, legs, NetOf(trade), max, first, last, best, x);
  }
}
