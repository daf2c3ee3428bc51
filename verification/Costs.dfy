/** The cost model and the net profit of a simulated trade. None also stands for an
    arithmetic overflow of the program's plain operators; for every size and hop count the
    backtest can reach there is none. */
module Costs {
  import opened Domain
  import opened Amm
  import opened Routes
  import opened Repricing
  import opened Search

  datatype CostConfig = CostConfig(flashLoanFee: Bps, priorityFee: u64, jitoTip: u64, slippagePerHop: Bps)

  /** Flash-loan fee, slippage per hop, and fixed network fees. */
  function TotalCost(cfg: CostConfig, notional: u128, hops: nat): Option<u128> {
    if hops >= TWO_TO_THE_128 then None
    else
      match CheckedMul(notional, cfg.flashLoanFee.points)
      case None => None
      case Some(f) =>
        match CheckedMul(notional, cfg.slippagePerHop.points)
        case None => None
        case Some(perHop) =>
          match CheckedMul(perHop, hops)
          case None => None
          case Some(s) =>
            match CheckedAdd(f / DENOMINATOR, s / DENOMINATOR)
            case None => None
            case Some(variable) => CheckedAdd(variable, cfg.priorityFee + cfg.jitoTip)
  }

  /** A cost is three parts: the floor of the flash-loan share, the floor of the slippage
      share, and the fixed fees. */
  lemma CostIsTwoFloors(cfg: CostConfig, notional: u128, hops: nat) returns (flash: nat, slippage: nat)
    requires TotalCost(cfg, notional, hops).Some?
    ensures TotalCost(cfg, notional, hops).value == flash + slippage + cfg.priorityFee + cfg.jitoTip
    ensures flash * 10_000 <= notional * cfg.flashLoanFee.points < (flash + 1) * 10_000
    ensures slippage * 10_000 <= notional * cfg.slippagePerHop.points * hops < (slippage + 1) * 10_000
  {
    ProductNonNegative(notional, cfg.flashLoanFee.points);
    ProductNonNegative(notional, cfg.slippagePerHop.points);
    ProductNonNegative(notional * cfg.slippagePerHop.points, hops);
    flash := notional * cfg.flashLoanFee.points / DENOMINATOR;
    slippage := notional * cfg.slippagePerHop.points * hops / DENOMINATOR;
    Division(notional * cfg.flashLoanFee.points, DENOMINATOR);
    Division(notional * cfg.slippagePerHop.points * hops, DENOMINATOR);
  }

  /** The variable part of a cost is the exact fraction notional*(flash + slippage*hops) of
      basis points, short of it by less than two units, one for each floor. */
  lemma CostIsExactToTwoUnits(cfg: CostConfig, notional: u128, hops: nat)
    requires TotalCost(cfg, notional, hops).Some?
    ensures var v := TotalCost(cfg, notional, hops).value - (cfg.priorityFee + cfg.jitoTip);
            var exact := notional * (cfg.flashLoanFee.points + cfg.slippagePerHop.points * hops);
            v * DENOMINATOR <= exact < (v + 2) * DENOMINATOR
  {
    var f, s := notional * cfg.flashLoanFee.points, notional * cfg.slippagePerHop.points * hops;
    ProductNonNegative(notional, cfg.flashLoanFee.points);
    ProductNonNegative(notional, cfg.slippagePerHop.points);
    ProductNonNegative(notional * cfg.slippagePerHop.points, hops);
    Division(f, DENOMINATOR);
    Division(s, DENOMINATOR);
    assert notional * (cfg.flashLoanFee.points + cfg.slippagePerHop.points * hops) == f + s by {
      assert notional * (cfg.slippagePerHop.points * hops) == s;
    }
  }

  /** Costs grow with the size and with the number of hops. */
  lemma CostMonotone(cfg: CostConfig, n: u128, hops: nat, n': u128, hops': nat)
    requires n <= n' && hops <= hops' && TotalCost(cfg, n', hops').Some?
    ensures TotalCost(cfg, n, hops).Some?
    ensures TotalCost(cfg, n, hops).value <= TotalCost(cfg, n', hops').value
  {
    var f, p := cfg.flashLoanFee.points, cfg.slippagePerHop.points;
    ProductBound(n, f, n', f);
    ProductBound(n, p, n', p);
    ProductBound(n * p, hops, n' * p, hops');
    FloorMonotone(n * f, n' * f, DENOMINATOR);
    FloorMonotone(n * p * hops, n' * p * hops', DENOMINATOR);
  }

  /** A candidate trade: a cycle over known pools, priced from a base token. */
  datatype Trade = Trade(pools: PoolMap, edges: seq<Edge>, base: TokenId, costs: CostConfig)

  /** Net profit at an input size, None when the size is infeasible. */
  function NetAt(trade: Trade, input: u128): Option<i128> {
    match Simulated(trade.pools, trade.edges, trade.base, input)
    case None => None
    case Some((_, output)) =>
      match TryIntoI128(output)
      case None => None
      case Some(out) =>
        match TryIntoI128(input)
        case None => None
        case Some(inputSigned) =>
          match TotalCost(trade.costs, input, |trade.edges|)
          case None => None
          case Some(total) =>
            match TryIntoI128(total)
            case None => None
            case Some(cost) =>
              if out - inputSigned - cost < I128_MIN then None else Some(out - inputSigned - cost)
  }

  function NetOf(trade: Trade): Objective {
    (x: u128) => NetAt(trade, x)
  }

  /** What a feasible size says: the simulation succeeded and every amount fits i128. */
  lemma NetAtParts(trade: Trade, input: u128)
    requires NetAt(trade, input).Some?
    ensures var sim := Simulated(trade.pools, trade.edges, trade.base, input);
            var cost := TotalCost(trade.costs, input, |trade.edges|);
            && sim.Some? && sim.value.1 < TWO_TO_THE_127 && input < TWO_TO_THE_127
            && cost.Some? && cost.value < TWO_TO_THE_127
            && NetAt(trade, input).value == sim.value.1 - input - cost.value
  {
  }

  lemma ProductBound(a: nat, b: nat, m: nat, n: nat)
    requires a <= m && b <= n
    ensures 0 <= a * b <= m * n
  {
    ProductNonNegative(a, b);
    MulLe(a, m, b);
    MulLe(b, n, m);
    assert m * b == b * m && m * n == n * m;
  }

  /** 2^116. */
  const REACHABLE_COST: int := 0x10_0000_0000_0000_0000_0000_0000_0000

  /** For u64 sizes and fewer than 2^32 hops the cost model never overflows. */
  lemma CostNeverOverflows(cfg: CostConfig, notional: u128, hops: nat)
    requires notional < TWO_TO_THE_64 && hops < TWO_TO_THE_32
    ensures var cost := TotalCost(cfg, notional, hops);
            cost.Some? && cost.value < REACHABLE_COST
  {
    var f, p := cfg.flashLoanFee.points, cfg.slippagePerHop.points;
    ProductBound(notional, f, TWO_TO_THE_64, TWO_TO_THE_32);
    ProductBound(notional, p, TWO_TO_THE_64, TWO_TO_THE_32);
    StrictBound(notional, p);
    ProductBound(notional * p, hops, TWO_TO_THE_64 * TWO_TO_THE_32, TWO_TO_THE_32 - 1);
    QuotientBound(notional * p * hops);
    QuotientBound(notional * f);
  }

  lemma StrictBound(a: nat, b: nat)
    requires a < TWO_TO_THE_64 && b < TWO_TO_THE_32
    ensures a * b < TWO_TO_THE_64 * TWO_TO_THE_32
  {
    ProductBound(a, b, TWO_TO_THE_64 - 1, TWO_TO_THE_32 - 1);
  }

  lemma QuotientBound(a: nat)
    requires a < TWO_TO_THE_128
    ensures 0 <= a / DENOMINATOR < REACHABLE_COST / 2
  {
  }

  /** On those sizes the net profit is exactly output minus input minus cost, and is
      missing only when the simulation fails or its output leaves i128. */
  lemma NetIsExact(trade: Trade, input: u128)
    requires input < TWO_TO_THE_64 && |trade.edges| < TWO_TO_THE_32
    ensures var sim := Simulated(trade.pools, trade.edges, trade.base, input);
            var cost := TotalCost(trade.costs, input, |trade.edges|);
            && cost.Some?
            && (NetAt(trade, input).None? <==> sim.None? || sim.value.1 >= TWO_TO_THE_127)
            && (NetAt(trade, input).Some? ==> NetAt(trade, input).value == sim.value.1 - input - cost.value)
  {
    CostNeverOverflows(trade.costs, input, |trade.edges|);
  }
}
