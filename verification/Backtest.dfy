/** The backtest: detection, sizing and recording of trades over a sequence of market
    snapshots, and the report it accumulates. */
module Backtest {
  import opened Domain
  import opened Amm
  import opened Moebius
  import opened Routes
  import opened Detector
  import opened Disjoint
  import opened Dex
  import opened Repricing
  import opened Costs
  import opened NetSizing
  import opened Search
  import opened IntervalSearch
  import opened ConcaveSearch
  import opened Report

  const MAX_CYCLES_PER_SNAPSHOT: nat := 8

  datatype MarketSnapshot = MarketSnapshot(ts: u64, pools: seq<CpmmPool>)
  datatype Market = Market(base: TokenId, notional: u64, snapshots: seq<MarketSnapshot>)
  datatype RiskConfig = RiskConfig(maxPosition: u64, minProfit: u64)

  // ---- One snapshot's graph and pools

  /** All edges of a snapshot at the probe size, in pool order. */
  function SnapshotEdges(pools: seq<CpmmPool>, probe: u128): seq<Edge> {
    if pools == [] then []
    else SnapshotEdges(pools[..|pools|-1], probe) + pools[|pools|-1].EdgesAt(probe)
  }

  /** Pools by id; a later pool replaces an earlier one with the same id. */
  function PoolsById(pools: seq<CpmmPool>): PoolMap {
    if pools == [] then map[]
    else PoolsById(pools[..|pools|-1])[pools[|pools|-1].id := pools[|pools|-1]]
  }

  ghost predicate UniqueIds(pools: seq<CpmmPool>) {
    forall i, j :: 0 <= i < j < |pools| ==> pools[i].id != pools[j].id
  }

  /** Each pool contributes all its edges. */
  lemma {:induction false} EdgeOfPool(pools: seq<CpmmPool>, probe: u128, i: nat, e: Edge)
    requires i < |pools| && e in pools[i].EdgesAt(probe)
    ensures e in SnapshotEdges(pools, probe)
  {
    if i == |pools| - 1 {
    } else {
      EdgeOfPool(pools[..|pools|-1], probe, i, e);
    }
  }

  /** The edges come pool by pool, in the order of the pools. */
  lemma {:induction false} SnapshotEdgesConcat(ps: seq<CpmmPool>, qs: seq<CpmmPool>, probe: u128)
    ensures SnapshotEdges(ps + qs, probe) == SnapshotEdges(ps, probe) + SnapshotEdges(qs, probe)
  {
    if qs == [] {
      assert ps + qs == ps;
    } else {
      var init := qs[..|qs|-1];
      assert (ps + qs)[..|ps+qs|-1] == ps + init;
      SnapshotEdgesConcat(ps, init, probe);
      LastPoolEdges(ps + qs, probe);
      LastPoolEdges(qs, probe);
    }
  }

  lemma LastPoolEdges(pools: seq<CpmmPool>, probe: u128)
    requires pools != []
    ensures SnapshotEdges(pools, probe)
            == SnapshotEdges(pools[..|pools|-1], probe) + pools[|pools|-1].EdgesAt(probe)
  {
  }

  lemma OnePoolEdges(p: CpmmPool, probe: u128)
    ensures SnapshotEdges([p], probe) == p.EdgesAt(probe)
  {
    assert [p][..0] == [];
  }

  /** Each edge of the snapshot comes from one of its pools. */
  lemma {:induction false} EdgeHasPool(pools: seq<CpmmPool>, probe: u128, e: Edge) returns (i: nat)
    requires e in SnapshotEdges(pools, probe)
    ensures i < |pools| && FairEdge(pools[i], probe, e) && e.rate > 0.0
    ensures pools[i].ReservesFor(e.from).Some?
  {
    var last := |pools| - 1;
    if e in pools[last].EdgesAt(probe) {
      EdgesAreFair(pools[last], probe, e);
      i := last;
    } else {
      i := EdgeHasPool(pools[..last], probe, e);
    }
  }

  /** A pool that no later one replaces is found under its id. */
  lemma {:induction false} PoolIsFound(pools: seq<CpmmPool>, i: nat)
    requires i < |pools| && forall j :: i < j < |pools| ==> pools[j].id != pools[i].id
    ensures pools[i].id in PoolsById(pools) && PoolsById(pools)[pools[i].id] == pools[i]
  {
    if i == |pools| - 1 {
    } else {
      PoolIsFound(pools[..|pools|-1], i);
    }
  }

  /** What is found under an id is the last pool with that id. */
  lemma {:induction false} FoundIsLastPool(pools: seq<CpmmPool>, id: PoolId) returns (i: nat)
    requires id in PoolsById(pools)
    ensures i < |pools| && pools[i].id == id && PoolsById(pools)[id] == pools[i]
    ensures forall j :: i < j < |pools| ==> pools[j].id != id
  {
    var last := |pools| - 1;
    if pools[last].id == id {
      i := last;
    } else {
      i := FoundIsLastPool(pools[..last], id);
    }
  }

  method BuildSnapshot(snap: MarketSnapshot, probe: u128) returns (graph: ArbitrageGraph, pools: PoolMap)
    ensures fresh(graph) && graph.Valid()
    ensures graph.edges == SnapshotEdges(snap.pools, probe)
    ensures pools == PoolsById(snap.pools)
  {
    graph := new ArbitrageGraph();
    pools := map[];
    for i := 0 to |snap.pools|
      invariant fresh(graph) && graph.Valid()
      invariant graph.edges == SnapshotEdges(snap.pools[..i], probe)
      invariant pools == PoolsById(snap.pools[..i])
    {
      var pool := snap.pools[i];
      assert snap.pools[..i+1][..i] == snap.pools[..i];
      AddPool(graph, pool, probe);
      pools := pools[pool.id := pool];
    }
    assert snap.pools[..|snap.pools|] == snap.pools;
  }

  method AddPool(graph: ArbitrageGraph, pool: CpmmPool, probe: u128)
    requires graph.Valid()
    modifies graph
    ensures graph.Valid() && graph.edges == old(graph.edges) + pool.EdgesAt(probe)
  {
    var edges := pool.Edges(probe);
    forall j | 0 <= j < |edges| ensures edges[j].rate > 0.0 {
      EdgeHasRate(pool, probe, edges[j]);
    }
    AddEdges(graph, edges);
  }

  // ---- No pool is spent twice

  ghost predicate DistinctPools(es: seq<Edge>) {
    forall i, j :: 0 <= i < j < |es| ==> es[i].pool != es[j].pool
  }

  /** The position after `i` around a cycle. */
  ghost function Next(es: seq<Edge>, i: nat): nat {
    if i + 1 < |es| then i + 1 else 0
  }

  lemma NextStartsWhereThisEnds(es: seq<Edge>, i: nat)
    requires Closed(es) && i < |es|
    ensures es[i].to == es[Next(es, i)].from
  {
  }

  lemma SameTokenSameEdge(es: seq<Edge>, i: nat, j: nat)
    requires Simple(es) && i < |es| && j < |es| && es[i].from == es[j].from
    ensures i == j
  {
  }

  /** Two edges of a simple cycle that reverse each other are the whole cycle. */
  lemma ReversePairIsWhole(es: seq<Edge>, i: nat, j: nat)
    requires Closed(es) && Simple(es) && i < j < |es|
    requires es[i].to == es[j].from && es[j].to == es[i].from
    ensures i == 0 && j == 1 && |es| == 2
  {
    NextStartsWhereThisEnds(es, i);
    NextStartsWhereThisEnds(es, j);
    SameTokenSameEdge(es, Next(es, i), j);
    SameTokenSameEdge(es, Next(es, j), i);
  }

  /** A profitable simple cycle of a snapshot with unique ids uses no pool twice. */
  lemma {:induction false} CycleSpendsPoolsOnce(
    pools: seq<CpmmPool>, probe: u128, cycle: Cycle, weight: real -> real, eps: real)
    requires UniqueIds(pools) && NegLog(weight) && eps >= 0.0
    requires Sound(cycle, SnapshotEdges(pools, probe), weight, eps)
    ensures DistinctPools(cycle.edges)
  {
    var es := cycle.edges;
    forall i | 0 <= i < |es| ensures es[i].rate > 0.0 {
      assert es[i] in SnapshotEdges(pools, probe);
      var _ := EdgeHasPool(pools, probe, es[i]);
    }
    NegativeWeightIsProfit(es, weight);
    forall i, j | 0 <= i < j < |es| ensures es[i].pool != es[j].pool {
      if es[i].pool == es[j].pool {
        PoolTwiceCannotProfit(pools, probe, es, i, j);
      }
    }
  }

  lemma PoolTwiceCannotProfit(pools: seq<CpmmPool>, probe: u128, es: seq<Edge>, i: nat, j: nat)
    requires UniqueIds(pools) && Within(es, SnapshotEdges(pools, probe))
    requires Closed(es) && Simple(es) && i < j < |es| && es[i].pool == es[j].pool
    ensures Product(es) <= 1.0
  {
    assert es[i] in SnapshotEdges(pools, probe) && es[j] in SnapshotEdges(pools, probe);
    var p := EdgeHasPool(pools, probe, es[i]);
    var q := EdgeHasPool(pools, probe, es[j]);
    assert p == q;
    PairCannotProfit(pools[p], probe, es, i, j);
  }

  lemma PairCannotProfit(p: CpmmPool, probe: u128, es: seq<Edge>, i: nat, j: nat)
    requires Closed(es) && Simple(es) && i < j < |es|
    requires FairEdge(p, probe, es[i]) && FairEdge(p, probe, es[j])
    ensures Product(es) <= 1.0
  {
    PoolRatesLose(p, probe, es[i], es[j]);
    ReversePairIsWhole(es, i, j);
    ProductOfTwo(es);
  }

  lemma ProductOfTwo(es: seq<Edge>)
    requires |es| == 2 && LossyPair(es[0].rate, es[1].rate)
    ensures Product(es) < 1.0
  {
    var tail := es[1..];
    assert tail[1..] == [];
    assert Product(tail) == es[1].rate;
  }

  // ---- Sizing and recording one cycle

  /** The record of a trade: the optimum the search returned for the net profit, simulated
      again at that size, with the costs of that size and hop count taken off. */
  ghost predicate Recorded(trade: Trade, risk: RiskConfig, ts: u64, record: TradeRecord) {
    var simulated := Simulated(trade.pools, trade.edges, trade.base, record.notional);
    var cost := TotalCost(trade.costs, record.notional, |record.route|);
    && record.ts == ts
    && 1 <= record.notional <= risk.maxPosition
    && Searched(NetOf(trade), risk.maxPosition, Some((record.notional, record.netProfit)))
    && NetAt(trade, record.notional) == Some(record.netProfit)
    && simulated.Some? && cost.Some?
    && record.route == simulated.value.0
    && record.grossProfit == simulated.value.1 - record.notional
    && record.netProfit == record.grossProfit - cost.value
    && (record.submitted <==> record.netProfit >= risk.minProfit)
  }

  /** A cycle yields a record, or none when the search found no feasible size. */
  ghost predicate Handled(trade: Trade, risk: RiskConfig, ts: u64, result: Option<TradeRecord>) {
    match result
    case None => Searched(NetOf(trade), risk.maxPosition, None)
    case Some(record) => Recorded(trade, risk, ts, record)
  }

  method SizeAndRecord(trade: Trade, cycle: Cycle, risk: RiskConfig, ts: u64) returns (result: Option<TradeRecord>)
    requires cycle.edges == trade.edges
    ensures Handled(trade, risk, ts, result)
  {
    var best := MaximizeUnimodal(risk.maxPosition, NetOf(trade));
    if best.None? {
      return None;
    }
    var (notional, _) := best.value;
    assert NetOf(trade)(notional) == NetAt(trade, notional);
    NetAtParts(trade, notional);
    var simulated := SimulateCycle(trade.pools, cycle, trade.base, notional);
    if simulated.None? {
      assert false;
      return None;
    }
    var (route, finalOut) := simulated.value;
    SimulatedLength(trade.pools, trade.edges, trade.base, notional);
    var grossProfit := AsI128(finalOut) - AsI128(notional);
    var cost := AsI128(TotalCost(trade.costs, notional, |route|).value);
    var netProfit := grossProfit - cost;
    var submitted := netProfit >= risk.minProfit;
    result := Some(TradeRecord(ts, route, SaturateU64(notional), grossProfit, netProfit, submitted));
  }

  /** A record of a closed cycle is a base-to-base route that starts with its notional and
      hands each output to the next hop. */
  lemma RecordIsRoundTrip(trade: Trade, risk: RiskConfig, ts: u64, record: TradeRecord)
    requires Closed(trade.edges) && Recorded(trade, risk, ts, record)
    ensures |record.route| == |trade.edges| && record.route != []
    ensures record.route[0].tokenIn == trade.base == record.route[|record.route|-1].tokenOut
    ensures record.route[0].amountIn == record.notional
    ensures forall k :: 0 < k < |record.route| ==>
              && record.route[k-1].amountOut == record.route[k].amountIn
              && record.route[k-1].tokenOut == record.route[k].tokenIn
  {
    SimulationIsRoundTrip(trade.pools, trade.edges, trade.base, record.notional);
    var route := Rotated(trade.edges, FirstFrom(trade.edges, trade.base).value);
    assert Follows(record.route, route) && Closed(route);
  }

  /** A record's gross profit is that of the chained swap over the oriented reserves; a
      record in profit lies below the break-even point of the legs' folded curve. */
  lemma RecordIsChainedSwap(
    trade: Trade, risk: RiskConfig, ts: u64, record: TradeRecord)
    returns (legs: seq<CpmmReserves>)
    requires Closed(trade.edges) && Recorded(trade, risk, ts, record)
    ensures |legs| == |record.route|
    ensures CycleOutput(legs, record.notional) == Some(record.notional + record.grossProfit)
    ensures record.grossProfit > 0 ==> Folded(legs).c * record.notional < Folded(legs).a - Folded(legs).b
  {
    legs := SimulatedLegs(trade.pools, trade.edges, trade.base, record.notional);
    if record.grossProfit > 0 {
      ProfitableSizeBound(legs, record.notional);
    }
  }

  /** When the narrowing keeps the sizes between the smallest and the largest feasible one,
      the cycle is recorded, and no size would have netted more than the record by over (rounds + 1)
      times, and so by over 217 times, the slack of the legs plus two. */
  lemma {:induction false} OutcomeIsNearOptimal(
    trade: Trade, risk: RiskConfig, ts: u64, result: Option<TradeRecord>, first: u64, last: u64, x: u64)
    requires |trade.edges| < TWO_TO_THE_32 && Handled(trade, risk, ts, result)
    requires NetEnds(trade, risk.maxPosition, first, last) && Keeps(first, last, 1, risk.maxPosition)
    requires 1 <= x <= risk.maxPosition && NetAt(trade, x).Some?
    ensures TradeLegs(trade).Some? && PositiveLegs(TradeLegs(trade).value)
    ensures result.Some?
    ensures NearlyBest(NetOf(trade), risk.maxPosition, NetSlack(trade),
                       Some((result.value.notional, result.value.netProfit)), NetAt(trade, x).value)
  {
    var best: Option<(u128, i128)> :=
      if result.Some? then Some((result.value.notional, result.value.netProfit)) else None;
    NetSearchIsNearOptimal(trade, risk.maxPosition, first, last, best, x);
  }

  // ---- Detected cycles resolve

  /** With unique ids every route over a snapshot's edges finds its pools and tokens. */
  lemma {:induction false} RouteResolves(pools: seq<CpmmPool>, probe: u128, route: seq<Edge>)
    requires UniqueIds(pools) && Within(route, SnapshotEdges(pools, probe))
    ensures Legs(PoolsById(pools), route).Some?
  {
    if route == [] {
    } else {
      var e := route[|route|-1];
      RouteResolves(pools, probe, route[..|route|-1]);
      assert e in SnapshotEdges(pools, probe);
      var i := EdgeHasPool(pools, probe, e);
      PoolIsFound(pools, i);
    }
  }

  lemma RotationResolves(pools: seq<CpmmPool>, probe: u128, es: seq<Edge>, start: nat)
    requires UniqueIds(pools) && Within(es, SnapshotEdges(pools, probe)) && start <= |es|
    ensures Legs(PoolsById(pools), Rotated(es, start)).Some?
  {
    var route := Rotated(es, start);
    forall i | 0 <= i < |route| ensures route[i] in SnapshotEdges(pools, probe) {
      RotatedIndex(es, start, i);
    }
    RouteResolves(pools, probe, route);
  }

  /** With unique ids a detected cycle that passes through the base token fails to simulate
      at a size exactly when its chained swap has no price there or yields nothing. */
  lemma {:induction false} DetectedCycleFailsExactly(
    pools: seq<CpmmPool>, probe: u128, cycle: Cycle, base: TokenId, costs: CostConfig, x: u128,
    weight: real -> real, eps: real)
    requires UniqueIds(pools) && Sound(cycle, SnapshotEdges(pools, probe), weight, eps)
    ensures var trade := Trade(PoolsById(pools), cycle.edges, base, costs);
            var legs := TradeLegs(trade);
            && (legs.Some? <==> exists i :: 0 <= i < |cycle.edges| && cycle.edges[i].from == base)
            && (Simulated(trade.pools, trade.edges, base, x).None? <==>
                  || legs.None?
                  || CycleOutput(legs.value, x).None?
                  || CycleOutput(legs.value, x).value == 0)
  {
    SimulationIsChain(Trade(PoolsById(pools), cycle.edges, base, costs), x);
    var start := FirstFrom(cycle.edges, base);
    if start.Some? {
      RotationResolves(pools, probe, cycle.edges, start.value);
      assert cycle.edges[start.value].from == base;
    }
  }

  // ---- One snapshot

  /** The outcome of each cycle, in order: its record, or None when it could not be sized. */
  type Outcomes = seq<Option<TradeRecord>>

  /** The records among the outcomes, in order. */
  ghost function Records(outcomes: Outcomes): seq<TradeRecord> {
    if outcomes == [] then []
    else Records(outcomes[..|outcomes|-1]) + match outcomes[|outcomes|-1] case Some(r) => [r] case None => []
  }

  lemma RecordsGrow(before: seq<TradeRecord>, outcomes: Outcomes, last: Option<TradeRecord>)
    ensures before + Records(outcomes + [last])
            == before + Records(outcomes) + if last.Some? then [last.value] else []
  {
    assert (outcomes + [last])[..|outcomes|] == outcomes;
  }

  ghost predicate HandledAll(
    pools: PoolMap, ts: u64, base: TokenId, risk: RiskConfig, costs: CostConfig, cycles: seq<Cycle>,
    outcomes: Outcomes)
  {
    && |outcomes| <= |cycles|
    && (forall c :: 0 <= c < |outcomes| ==> Handled(Trade(pools, cycles[c].edges, base, costs), risk, ts, outcomes[c]))
  }

  lemma HandledAllGrow(pools: PoolMap, ts: u64, base: TokenId, risk: RiskConfig, costs: CostConfig,
                       cycles: seq<Cycle>, outcomes: Outcomes, last: Option<TradeRecord>)
    requires HandledAll(pools, ts, base, risk, costs, cycles, outcomes) && |outcomes| < |cycles|
    requires Handled(Trade(pools, cycles[|outcomes|].edges, base, costs), risk, ts, last)
    ensures HandledAll(pools, ts, base, risk, costs, cycles, outcomes + [last])
  {
  }

  /** What a snapshot contributes: the outcomes of the cycles of a complete pool-disjoint
      run over its edges. */
  ghost predicate SnapshotRun(
    snap: MarketSnapshot, base: TokenId, probe: u128, risk: RiskConfig, costs: CostConfig, weight: real -> real,
    cycles: seq<Cycle>, outcomes: Outcomes)
  {
    && CompleteRun(WholePools, SnapshotEdges(snap.pools, probe), cycles, MAX_CYCLES_PER_SNAPSHOT, weight, EPSILON)
    && |outcomes| == |cycles|
    && HandledAll(PoolsById(snap.pools), snap.ts, base, risk, costs, cycles, outcomes)
  }

  // ---- Detection in terms of the pools

  /** Every step of the walk is a direction of some pool. */
  ghost predicate PoolWalk(pools: seq<CpmmPool>, probe: u128, walk: seq<Edge>) {
    forall k :: 0 <= k < |walk| ==> exists i :: 0 <= i < |pools| && PoolEdge(pools[i], probe, walk[k])
  }

  /** The edges of a snapshot are exactly the quoted directions of its pools. */
  lemma {:induction false} SnapshotEdgesExactly(pools: seq<CpmmPool>, probe: u128, e: Edge)
    ensures e in SnapshotEdges(pools, probe) <==> exists i :: 0 <= i < |pools| && PoolEdge(pools[i], probe, e)
  {
    if e in SnapshotEdges(pools, probe) {
      var i := EdgeIsPoolEdge(pools, probe, e);
    }
    if i :| 0 <= i < |pools| && PoolEdge(pools[i], probe, e) {
      EdgesExactly(pools[i], probe, e);
      EdgeOfPool(pools, probe, i, e);
    }
  }

  lemma {:induction false} EdgeIsPoolEdge(pools: seq<CpmmPool>, probe: u128, e: Edge) returns (i: nat)
    requires e in SnapshotEdges(pools, probe)
    ensures i < |pools| && PoolEdge(pools[i], probe, e)
  {
    var last := |pools| - 1;
    if e in pools[last].EdgesAt(probe) {
      EdgesExactly(pools[last], probe, e);
      i := last;
    } else {
      i := EdgeIsPoolEdge(pools[..last], probe, e);
    }
  }

  /** Every candidate is a closed walk through quoted directions of the snapshot's pools that
      weighs less than -1e-12, and so multiplies its input. */
  lemma {:induction false} CandidateIsPoolCycle(
    snap: MarketSnapshot, base: TokenId, probe: u128, risk: RiskConfig, costs: CostConfig, weight: real -> real,
    cycles: seq<Cycle>, outcomes: Outcomes, c: nat)
    requires SnapshotRun(snap, base, probe, risk, costs, weight, cycles, outcomes) && c < |outcomes|
    ensures Closed(cycles[c].edges) && PoolWalk(snap.pools, probe, cycles[c].edges)
    ensures Weight(cycles[c].edges, weight) < -0.000000000001
    ensures NegLog(weight) ==> Product(cycles[c].edges) > 1.0
  {
    var es, edges := cycles[c].edges, SnapshotEdges(snap.pools, probe);
    RunIsSoundInGraph(WholePools, edges, cycles, weight, EPSILON, c);
    forall k | 0 <= k < |es|
      ensures es[k].rate > 0.0
      ensures exists i :: 0 <= i < |snap.pools| && PoolEdge(snap.pools[i], probe, es[k])
    {
      assert es[k] in edges;
      SnapshotEdgesExactly(snap.pools, probe, es[k]);
      var _ := EdgeHasPool(snap.pools, probe, es[k]);
    }
    if NegLog(weight) {
      NegativeWeightIsProfit(es, weight);
    }
  }

  /** A snapshot with fewer than eight candidates leaves no closed walk through quoted
      directions of its unused pools that weighs less than -1e-12 per step. */
  lemma {:induction false} SnapshotCertifies(
    snap: MarketSnapshot, base: TokenId, probe: u128, risk: RiskConfig, costs: CostConfig, weight: real -> real,
    cycles: seq<Cycle>, outcomes: Outcomes, walk: seq<Edge>)
    requires SnapshotRun(snap, base, probe, risk, costs, weight, cycles, outcomes) && |outcomes| < 8
    requires Closed(walk) && PoolWalk(snap.pools, probe, walk)
    requires forall k :: 0 <= k < |walk| ==> !UsesPool(cycles, walk[k].pool)
    ensures Weight(walk, weight) >= -(|walk| as real) * 0.000000000001
  {
    var edges := SnapshotEdges(snap.pools, probe);
    ShortRunLeavesNothing(edges, cycles, MAX_CYCLES_PER_SNAPSHOT, weight, EPSILON);
    forall k | 0 <= k < |walk| ensures walk[k] in edges {
      SnapshotEdgesExactly(snap.pools, probe, walk[k]);
    }
    assert Within(walk, edges);
  }

  /** A light closed walk through quoted directions of the pools means a candidate. */
  lemma {:induction false} ProfitIsFound(
    snap: MarketSnapshot, base: TokenId, probe: u128, risk: RiskConfig, costs: CostConfig, weight: real -> real,
    cycles: seq<Cycle>, outcomes: Outcomes, walk: seq<Edge>)
    requires SnapshotRun(snap, base, probe, risk, costs, weight, cycles, outcomes)
    requires Closed(walk) && PoolWalk(snap.pools, probe, walk)
    requires Weight(walk, weight) < -(|walk| as real) * 0.000000000001
    ensures outcomes != []
  {
    if outcomes == [] {
      SnapshotCertifies(snap, base, probe, risk, costs, weight, cycles, outcomes, walk);
    }
  }

  /** Hop `i` of outcome `c`. */
  ghost predicate HasHop(outcomes: Outcomes, c: int, i: int) {
    0 <= c < |outcomes| && outcomes[c].Some? && 0 <= i < |outcomes[c].value.route|
  }

  ghost function HopPool(outcomes: Outcomes, c: int, i: int): PoolId
    requires HasHop(outcomes, c, i)
  {
    outcomes[c].value.route[i].pool
  }

  /** No pool occurs in two hops, of one record or of two. */
  ghost predicate PoolsSpentOnce(outcomes: Outcomes) {
    forall c, i, d, j | HasHop(outcomes, c, i) && HasHop(outcomes, d, j) && (c != d || i != j) ::
      HopPool(outcomes, c, i) != HopPool(outcomes, d, j)
  }

  /** The position in the cycle of hop `i` of its rotation. */
  ghost function SourceOf(es: seq<Edge>, start: nat, i: nat): nat {
    if start + i < |es| then start + i else start + i - |es|
  }

  /** A record's route follows the rotated cycle. */
  lemma RecordFollows(trade: Trade, risk: RiskConfig, ts: u64, record: TradeRecord)
    requires Recorded(trade, risk, ts, record)
    ensures FirstFrom(trade.edges, trade.base).Some?
    ensures Follows(record.route, Rotated(trade.edges, FirstFrom(trade.edges, trade.base).value))
  {
    PricedFollows(trade.pools, Rotated(trade.edges, FirstFrom(trade.edges, trade.base).value), record.notional);
  }

  lemma HopSource(trade: Trade, risk: RiskConfig, ts: u64, record: TradeRecord, i: nat)
    requires Recorded(trade, risk, ts, record) && i < |record.route|
    ensures FirstFrom(trade.edges, trade.base).Some?
    ensures |record.route| == |trade.edges|
    ensures var at := SourceOf(trade.edges, FirstFrom(trade.edges, trade.base).value, i);
            at < |trade.edges| && record.route[i].pool == trade.edges[at].pool
  {
    var start := FirstFrom(trade.edges, trade.base).value;
    RecordFollows(trade, risk, ts, record);
    RotatedIndex(trade.edges, start, i);
  }

  /** Two hops of a snapshot on the same pool are the same hop. */
  lemma HopsDiffer(pools: PoolMap, ts: u64, base: TokenId, risk: RiskConfig, costs: CostConfig,
                   cycles: seq<Cycle>, outcomes: Outcomes, c: nat, i: nat, d: nat, j: nat)
    requires HandledAll(pools, ts, base, risk, costs, cycles, outcomes)
    requires PoolDisjoint(cycles) && forall k :: 0 <= k < |cycles| ==> DistinctPools(cycles[k].edges)
    requires HasHop(outcomes, c, i) && HasHop(outcomes, d, j) && c <= d && (c != d || i != j)
    ensures HopPool(outcomes, c, i) != HopPool(outcomes, d, j)
  {
    var es, fs := cycles[c].edges, cycles[d].edges;
    HopSource(Trade(pools, cycles[c].edges, base, costs), risk, ts, outcomes[c].value, i);
    HopSource(Trade(pools, cycles[d].edges, base, costs), risk, ts, outcomes[d].value, j);
    var x := SourceOf(es, FirstFrom(es, base).value, i);
    var y := SourceOf(fs, FirstFrom(fs, base).value, j);
    if c < d {
      assert cycles[c].edges[x].pool != cycles[d].edges[y].pool;
    } else {
      assert x != y;
      assert es[x].pool != es[y].pool;
    }
  }

  /** No pool is spent twice in a snapshot whose pools have unique ids. */
  lemma {:induction false} SnapshotSpendsPoolsOnce(
    snap: MarketSnapshot, base: TokenId, probe: u128, risk: RiskConfig, costs: CostConfig, weight: real -> real,
    cycles: seq<Cycle>, outcomes: Outcomes)
    requires UniqueIds(snap.pools) && NegLog(weight)
    requires SnapshotRun(snap, base, probe, risk, costs, weight, cycles, outcomes)
    ensures PoolsSpentOnce(outcomes)
  {
    var edges := SnapshotEdges(snap.pools, probe);
    RunIsPoolDisjoint(edges, cycles, weight, EPSILON);
    forall k | 0 <= k < |cycles| ensures DistinctPools(cycles[k].edges) {
      RunIsSoundInGraph(WholePools, edges, cycles, weight, EPSILON, k);
      CycleSpendsPoolsOnce(snap.pools, probe, cycles[k], weight, EPSILON);
    }
    forall c, i, d, j | HasHop(outcomes, c, i) && HasHop(outcomes, d, j) && (c != d || i != j)
      ensures HopPool(outcomes, c, i) != HopPool(outcomes, d, j)
    {
      if c <= d {
        HopsDiffer(PoolsById(snap.pools), snap.ts, base, risk, costs, cycles, outcomes, c, i, d, j);
      } else {
        HopsDiffer(PoolsById(snap.pools), snap.ts, base, risk, costs, cycles, outcomes, d, j, c, i);
      }
    }
  }

  /** Counts one cycle and, when it can be sized, records its trade. */
  method HandleCycle(report: BacktestReport, trade: Trade, cycle: Cycle, risk: RiskConfig, ts: u64)
    returns (after: BacktestReport, ghost result: Option<TradeRecord>)
    requires Consistent(report, risk.minProfit) && cycle.edges == trade.edges
    ensures Consistent(after, risk.minProfit)
    ensures after.records == report.records + if result.Some? then [result.value] else []
    ensures after.candidatesFound == report.candidatesFound + 1
    ensures Handled(trade, risk, ts, result)
  {
    after := report.(candidatesFound := report.candidatesFound + 1);
    var record := SizeAndRecord(trade, cycle, risk, ts);
    result := record;
    if record.Some? {
      after := Record(after, record.value, risk.minProfit);
    }
  }

  /** Sizes and records each of the cycles found in a snapshot. */
  method RecordCycles(
    report: BacktestReport, ts: u64, pools: PoolMap, found: seq<Cycle>, base: TokenId, risk: RiskConfig,
    costs: CostConfig)
    returns (after: BacktestReport, ghost outcomes: Outcomes)
    requires Consistent(report, risk.minProfit)
    ensures Consistent(after, risk.minProfit)
    ensures after.records == report.records + Records(outcomes)
    ensures after.candidatesFound == report.candidatesFound + |found|
    ensures |outcomes| == |found| && HandledAll(pools, ts, base, risk, costs, found, outcomes)
  {
    after, outcomes := report, [];
    for c := 0 to |found|
      invariant Consistent(after, risk.minProfit)
      invariant after.records == report.records + Records(outcomes)
      invariant after.candidatesFound == report.candidatesFound + c
      invariant |outcomes| == c && HandledAll(pools, ts, base, risk, costs, found, outcomes)
    {
      ghost var result;
      after, result := HandleCycle(after, Trade(pools, found[c].edges, base, costs), found[c], risk, ts);
      RecordsGrow(report.records, outcomes, result);
      HandledAllGrow(pools, ts, base, risk, costs, found, outcomes, result);
      outcomes := outcomes + [result];
    }
  }

  method RunSnapshot(
    report: BacktestReport, snap: MarketSnapshot, base: TokenId, probe: u128, risk: RiskConfig, costs: CostConfig,
    weight: real -> real)
    returns (after: BacktestReport, ghost cycles: seq<Cycle>, ghost outcomes: Outcomes)
    requires Consistent(report, risk.minProfit)
    ensures Consistent(after, risk.minProfit)
    ensures after.records == report.records + Records(outcomes)
    ensures after.candidatesFound == report.candidatesFound + |outcomes|
    ensures SnapshotRun(snap, base, probe, risk, costs, weight, cycles, outcomes)
  {
    var graph, pools := BuildSnapshot(snap, probe);
    var found := FindPoolDisjointArbitrage(graph, MAX_CYCLES_PER_SNAPSHOT, weight, EPSILON);
    cycles := found;
    after, outcomes := RecordCycles(report, snap.ts, pools, found, base, risk, costs);
  }

  // ---- The whole run

  ghost function AllRecords(runs: seq<Outcomes>): seq<TradeRecord> {
    if runs == [] then [] else AllRecords(runs[..|runs|-1]) + Records(runs[|runs|-1])
  }

  ghost function AllCandidates(runs: seq<Outcomes>): nat {
    if runs == [] then 0 else AllCandidates(runs[..|runs|-1]) + |runs[|runs|-1]|
  }

  lemma AllGrow(runs: seq<Outcomes>, last: Outcomes)
    ensures AllRecords(runs + [last]) == AllRecords(runs) + Records(last)
    ensures AllCandidates(runs + [last]) == AllCandidates(runs) + |last|
  {
    assert (runs + [last])[..|runs|] == runs;
  }

  function ProbeSize(market: Market, risk: RiskConfig): u128 {
    if market.notional < risk.maxPosition then market.notional else risk.maxPosition
  }

  /** The outcomes of snapshot `s` come from some complete run of the detector over it, probed
      at the smaller of notional and position cap, and, where its pool ids are unique and the
      weight is a negated logarithm, spend no pool twice. */
  ghost predicate SnapshotOk(
    market: Market, s: nat, risk: RiskConfig, costs: CostConfig, weight: real -> real, outcomes: Outcomes)
    requires s < |market.snapshots|
  {
    var snap := market.snapshots[s];
    && |outcomes| <= MAX_CYCLES_PER_SNAPSHOT
    && (exists probe: u128, cycles: seq<Cycle> ::
          && probe <= market.notional && probe <= risk.maxPosition
          && (probe == market.notional || probe == risk.maxPosition)
          && SnapshotRun(snap, market.base, probe, risk, costs, weight, cycles, outcomes))
    && (NegLog(weight) && UniqueIds(snap.pools) ==> PoolsSpentOnce(outcomes))
  }

  lemma RunIsOk(
    market: Market, s: nat, risk: RiskConfig, costs: CostConfig, weight: real -> real, cycles: seq<Cycle>,
    outcomes: Outcomes)
    requires s < |market.snapshots|
    requires SnapshotRun(
               market.snapshots[s], market.base, ProbeSize(market, risk), risk, costs, weight, cycles, outcomes)
    ensures SnapshotOk(market, s, risk, costs, weight, outcomes)
  {
    if NegLog(weight) && UniqueIds(market.snapshots[s].pools) {
      SnapshotSpendsPoolsOnce(
        market.snapshots[s], market.base, ProbeSize(market, risk), risk, costs, weight, cycles, outcomes);
    }
  }

  ghost predicate AllOk(
    market: Market, risk: RiskConfig, costs: CostConfig, weight: real -> real, runs: seq<Outcomes>)
  {
    && |runs| <= |market.snapshots|
    && forall s :: 0 <= s < |runs| ==> SnapshotOk(market, s, risk, costs, weight, runs[s])
  }

  lemma AllOkGrow(
    market: Market, risk: RiskConfig, costs: CostConfig, weight: real -> real, runs: seq<Outcomes>, last: Outcomes)
    requires AllOk(market, risk, costs, weight, runs) && |runs| < |market.snapshots|
    requires SnapshotOk(market, |runs|, risk, costs, weight, last)
    ensures AllOk(market, risk, costs, weight, runs + [last])
  {
  }

  method RunBacktest(market: Market, risk: RiskConfig, costs: CostConfig, weight: real -> real)
    returns (report: BacktestReport, ghost runs: seq<Outcomes>)
    ensures Consistent(report, risk.minProfit)
    ensures |runs| == |market.snapshots|
    ensures AllOk(market, risk, costs, weight, runs)
    ensures report.records == AllRecords(runs) && report.candidatesFound == AllCandidates(runs)
    ensures |report.records| <= report.candidatesFound <= 8 * |market.snapshots|
  {
    var probe := ProbeSize(market, risk);
    report, runs := EMPTY_REPORT, [];
    for s := 0 to |market.snapshots|
      invariant Consistent(report, risk.minProfit)
      invariant |runs| == s
      invariant AllOk(market, risk, costs, weight, runs)
      invariant report.records == AllRecords(runs) && report.candidatesFound == AllCandidates(runs)
      invariant report.candidatesFound <= MAX_CYCLES_PER_SNAPSHOT * s
    {
      ghost var cycles, outcomes;
      report, cycles, outcomes := RunSnapshot(report, market.snapshots[s], market.base, probe, risk, costs, weight);
      RunIsOk(market, s, risk, costs, weight, cycles, outcomes);
      AllOkGrow(market, risk, costs, weight, runs, outcomes);
      AllGrow(runs, outcomes);
      runs := runs + [outcomes];
    }
  }
}
