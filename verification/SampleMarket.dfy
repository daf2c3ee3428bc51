/** The market of the backtest's own test: three pools, the last one mispriced, probed at a
    million. The figures fix the constants of fees, quotes and costs. */
module SampleMarket {
  import opened Domain
  import opened Amm
  import opened Routes
  import opened Dex
  import opened Costs
  import opened Disjoint
  import opened Repricing
  import opened Report
  import opened Backtest

  const SOL: TokenId := TokenId("SOL")
  const USDC: TokenId := TokenId("USDC")
  const BONK: TokenId := TokenId("BONK")

  const SOL_USDC: CpmmPool :=
    CpmmPool(PoolId("sol_usdc"), SOL, USDC, 1_000_000_000_000, 1_000_000_000_000, Bps(1))
  const USDC_BONK: CpmmPool :=
    CpmmPool(PoolId("usdc_bonk"), USDC, BONK, 1_000_000_000_000, 1_000_000_000_000, Bps(1))
  const BONK_SOL: CpmmPool :=
    CpmmPool(PoolId("bonk_sol"), BONK, SOL, 1_000_000_000_000, 1_050_000_000_000, Bps(1))

  const TRIANGLE: MarketSnapshot := MarketSnapshot(1, [SOL_USDC, USDC_BONK, BONK_SOL])

  lemma KnownSwaps()
    ensures CpmmReserves(1_000_000, 1_000_000, Bps(0)).AmountOut(1000) == Some(999)
    ensures CpmmReserves(1_000_000, 1_000_000, Bps(30)).AmountInForExactOut(999) == Some(1004)
    ensures CpmmReserves(1_000_000, 1_000_000, Bps(10_000)).AmountInForExactOut(1).None?
  {
    SwapFigure(CpmmReserves(1_000_000, 1_000_000, Bps(0)), 1000, 1000, 999);
    CeilAtMost(999_000_000, 999_001, 1000);
    CeilAtMost(999_000_000, 999_001, 999);
    CeilAtMost(10_000_000, 9_970, 1004);
    CeilAtMost(10_000_000, 9_970, 1003);
  }

  lemma KnownQuotes()
    ensures var p := CpmmPool(PoolId("pool1"), SOL, USDC, 1_000_000_000, 1_000_000_000, Bps(30));
            && p.Quote(SOL, 1000) == Some(996)
            && p.Quote(USDC, 1000) == Some(996)
            && p.Quote(BONK, 1000) == None
  {
    SwapFigure(CpmmReserves(1_000_000_000, 1_000_000_000, Bps(30)), 1000, 997, 996);
  }

  lemma KnownCost()
    ensures TotalCost(CostConfig(Bps(9), 5_000, 1_000, Bps(1)), 1_000_000, 2) == Some(7_100)
  {
  }

  lemma TriangleQuotes()
    ensures SOL_USDC.Quote(SOL, 1_000_000) == Some(999_899)
    ensures USDC_BONK.Quote(USDC, 1_000_000) == Some(999_899)
    ensures BONK_SOL.Quote(BONK, 1_000_000) == Some(1_049_893)
  {
    SwapFigure(CpmmReserves(1_000_000_000_000, 1_000_000_000_000, Bps(1)), 1_000_000, 999_900, 999_899);
    SwapFigure(CpmmReserves(1_000_000_000_000, 1_050_000_000_000, Bps(1)), 1_000_000, 999_900, 1_049_893);
  }

  lemma TriangleWalk() returns (walk: seq<Edge>)
    ensures Closed(walk) && PoolWalk(TRIANGLE.pools, 1_000_000, walk) && |walk| == 3
    ensures walk[0].rate == 0.999899 == walk[1].rate && walk[2].rate == 1.049893
  {
    TriangleQuotes();
    walk := [Edge(SOL, USDC, SOL_USDC.id, 0.999899),
             Edge(USDC, BONK, USDC_BONK.id, 0.999899),
             Edge(BONK, SOL, BONK_SOL.id, 1.049893)];
    var pools := TRIANGLE.pools;
    assert PoolEdge(pools[0], 1_000_000, walk[0]);
    assert PoolEdge(pools[1], 1_000_000, walk[1]);
    assert PoolEdge(pools[2], 1_000_000, walk[2]);
  }

  lemma WeightOfThree(walk: seq<Edge>, weight: real -> real)
    requires |walk| == 3
    ensures Weight(walk, weight) == weight(walk[0].rate) + weight(walk[1].rate) + weight(walk[2].rate)
  {
    var rest := walk[1..];
    assert rest[1..][1..] == [];
    assert Weight(rest[1..], weight) == weight(walk[2].rate);
  }

  /** Every run over the triangle has a candidate: probed at a million its quotes gain more
      than four percent. */
  lemma TriangleIsFound(
    base: TokenId, risk: RiskConfig, costs: CostConfig, weight: real -> real, cycles: seq<Cycle>,
    outcomes: Outcomes)
    requires NegLog(weight) && weight(1.04) < -0.000000000003
    requires SnapshotRun(TRIANGLE, base, 1_000_000, risk, costs, weight, cycles, outcomes)
    ensures outcomes != []
  {
    var walk := TriangleWalk();
    WeightOfThree(walk, weight);
    var two := Times(0.999899, 0.999899);
    assert TurnsProductIntoSum(weight, 0.999899, 0.999899) && TurnsProductIntoSum(weight, two, 1.049893);
    LargeProductIsLight(weight, 1.04, Times(two, 1.049893));
    ProfitIsFound(TRIANGLE, base, 1_000_000, risk, costs, weight, cycles, outcomes, walk);
  }

  /** A backtest with the test's notional and position cap probes at the notional and so has a
      candidate in every such snapshot. */
  lemma TriangleBacktest(
    market: Market, s: nat, risk: RiskConfig, costs: CostConfig, weight: real -> real, outcomes: Outcomes)
    requires market.notional == 1_000_000 && risk.maxPosition == 10_000_000_000
    requires s < |market.snapshots| && market.snapshots[s] == TRIANGLE
    requires NegLog(weight) && weight(1.04) < -0.000000000003
    requires SnapshotOk(market, s, risk, costs, weight, outcomes)
    ensures outcomes != []
  {
    var probe: u128, cycles: seq<Cycle> :|
      && probe <= market.notional && probe <= risk.maxPosition
      && (probe == market.notional || probe == risk.maxPosition)
      && SnapshotRun(TRIANGLE, market.base, probe, risk, costs, weight, cycles, outcomes);
    TriangleIsFound(market.base, risk, costs, weight, cycles, outcomes);
  }
}
