/** A family of markets on which the search for the best net profit finds no feasible size
    although the detected cycle has very profitable ones. */
module MissedTrade {
  import opened Domain
  import opened Amm
  import opened Routes
  import opened Detector
  import opened Disjoint
  import opened Dex
  import opened Moebius
  import opened Repricing
  import opened Costs
  import opened Search
  import opened IntervalSearch
  import opened NetSizing
  import opened Report
  import opened Backtest

  const BASE: TokenId := TokenId("s")
  const OTHER: TokenId := TokenId("t")

  /** Sells one unit of the other token once the size reaches `r`, never two. */
  function Entry(r: u64): CpmmPool {
    CpmmPool(PoolId("p"), BASE, OTHER, r, 2, Bps(0))
  }

  /** Pays half its reserve for a single unit of the other token. */
  function Exit(b: u128): CpmmPool {
    CpmmPool(PoolId("q"), OTHER, BASE, 1, b, Bps(0))
  }

  function Snapshot(ts: u64, r: u64, b: u128): MarketSnapshot {
    MarketSnapshot(ts, [Entry(r), Exit(b)])
  }

  /** The cap `n` reaches the entry reserve `r`, but neither the size two thirds up to it
      nor the end of the blind search does, and the exit pays well. */
  predicate Hidden(n: u64, r: u64, b: u128) {
    && n >= 1
    && RightProbe(1, n) < r <= n && BlindReach(n) < r
    && 2 * n * (n + 1) <= b && b * n < TWO_TO_THE_128 && b < TWO_TO_THE_127
  }

  lemma HiddenExample()
    ensures Hidden(1_200_000, 1_000_000, 10_000_000_000_000)
  {
  }

  // ---- The quotes

  lemma NoFee(r: CpmmReserves, x: u64)
    requires r.fee == Bps(0)
    ensures AfterFee(r, x) == x && x * r.Kept() < TWO_TO_THE_128
  {
  }

  lemma EntryQuote(r: u64, x: u64)
    requires r > 0
    ensures CpmmReserves(r, 2, Bps(0)).AmountOut(x) == Some(if x < r then 0 else 1)
  {
    var pool := CpmmReserves(r, 2, Bps(0));
    NoFee(pool, x);
    SwapUnpriced(pool, x);
    PricedSwap(pool, x);
    FloorAtLeast(2 * x, r + x, 1);
    FloorAtLeast(2 * x, r + x, 2);
  }

  lemma ExitQuote(b: u128)
    requires 0 < b < TWO_TO_THE_127
    ensures CpmmReserves(1, b, Bps(0)).AmountOut(1) == Some(b / 2)
  {
    var pool := CpmmReserves(1, b, Bps(0));
    NoFee(pool, 1);
    SwapUnpriced(pool, 1);
    PricedSwap(pool, 1);
  }

  lemma ExitProbe(n: u64, b: u128)
    requires 1 <= n && 2 * n * (n + 1) <= b && b * n < TWO_TO_THE_128
    ensures var out := CpmmReserves(1, b, Bps(0)).AmountOut(n);
            out.Some? && out.value >= 2 * n * n
  {
    var pool := CpmmReserves(1, b, Bps(0));
    NoFee(pool, n);
    ProductNonNegative(n, n);
    assert 2 * n * (n + 1) > 0;
    SwapUnpriced(pool, n);
    PricedSwap(pool, n);
    MulLe(2 * n * (n + 1), b, n);
    assert (2 * n * (n + 1)) * n == (2 * n * n) * (n + 1);
    FloorAtLeast(b * n, n + 1, 2 * n * n);
  }

  lemma ExitBackwards(n: u64, b: u128)
    requires n < b < TWO_TO_THE_127
    ensures CpmmReserves(b, 1, Bps(0)).AmountOut(n) == Some(0)
  {
    var pool := CpmmReserves(b, 1, Bps(0));
    NoFee(pool, n);
    SwapUnpriced(pool, n);
    PricedSwap(pool, n);
    FloorAtLeast(n, b + n, 1);
  }

  lemma ExitIsLarge(n: nat, b: nat)
    requires n >= 1 && 2 * n * (n + 1) <= b
    ensures n < b
  {
    MulLe(1, n, n + 1);
  }

  // ---- The graph

  lemma InSnapshotEdges(n: u64, r: u64, b: u128, e: Edge)
    ensures e in SnapshotEdges([Entry(r), Exit(b)], n) <==> e in Entry(r).EdgesAt(n) || e in Exit(b).EdgesAt(n)
  {
    var pools := [Entry(r), Exit(b)];
    assert pools[..1] == [Entry(r)] && [Entry(r)][..0] == [];
    assert SnapshotEdges([], n) == [];
    assert SnapshotEdges([Entry(r)], n) == Entry(r).EdgesAt(n);
  }

  lemma ExitEdge(n: u64, b: u128, e: Edge)
    requires n < b < TWO_TO_THE_127 && e in Exit(b).EdgesAt(n)
    ensures e.pool == Exit(b).id && e.from == OTHER && e.to == BASE
  {
    ExitBackwards(n, b);
    EdgesExactly(Exit(b), n, e);
  }

  /** From the base only through the entry, back to it only through entry or exit. */
  lemma EdgesOfSnapshot(n: u64, r: u64, b: u128, e: Edge)
    requires Hidden(n, r, b) && e in SnapshotEdges([Entry(r), Exit(b)], n)
    ensures e.from == BASE ==> e.pool == Entry(r).id && e.to == OTHER
    ensures e.from != BASE ==> e.from == OTHER && e.to == BASE
    ensures e.pool == Entry(r).id || e.pool == Exit(b).id
  {
    InSnapshotEdges(n, r, b, e);
    if e in Exit(b).EdgesAt(n) {
      ExitIsLarge(n, b);
      ExitEdge(n, b, e);
    } else {
      EdgesExactly(Entry(r), n, e);
    }
  }

  /** The way in and the way out, at the rates of the probe. */
  lemma ThereAndBack(n: u64, r: u64, b: u128) returns (there: Edge, back: Edge)
    requires Hidden(n, r, b)
    ensures there in SnapshotEdges([Entry(r), Exit(b)], n) && back in SnapshotEdges([Entry(r), Exit(b)], n)
    ensures there.from == BASE == back.to && there.to == OTHER == back.from
    ensures there.rate > 0.0 && back.rate > 0.0 && Times(there.rate, back.rate) >= 2.0
  {
    EntryQuote(r, n);
    ExitProbe(n, b);
    var out := CpmmReserves(1, b, Bps(0)).AmountOut(n).value;
    there := Edge(BASE, OTHER, Entry(r).id, 1.0 / n as real);
    back := Edge(OTHER, BASE, Exit(b).id, out as real / n as real);
    ProductOfRates(n, out);
    EdgesExactly(Entry(r), n, there);
    EdgesExactly(Exit(b), n, back);
    InSnapshotEdges(n, r, b, there);
    InSnapshotEdges(n, r, b, back);
  }

  lemma ProductOfRates(n: nat, out: nat)
    requires n >= 1 && out >= 2 * n * n
    ensures out > 0 && 1.0 / n as real > 0.0 && out as real / n as real > 0.0
    ensures Times(1.0 / n as real, out as real / n as real) >= 2.0
  {
    MulLe(1, n, n);
    var k := n as real;
    var p, q := 1.0 / k, out as real / k;
    assert out as real >= 2.0 * (k * k);
    assert q * k == out as real && (2.0 * k) * k == 2.0 * (k * k);
    RealMulCancel(2.0 * k, q, k);
    assert p * k == 1.0 && p > 0.0;
    assert p * (q - 2.0 * k) >= 0.0;
    assert p * (2.0 * k) == 2.0;
  }

  /** The detector has something to find. */
  lemma SnapshotIsProfitable(n: u64, r: u64, b: u128, weight: real -> real)
    requires Hidden(n, r, b) && NegLog(weight) && weight(2.0) < -2.0 * EPSILON
    ensures !NoneProfitable(SnapshotEdges([Entry(r), Exit(b)], n), weight, EPSILON)
  {
    var there, back := ThereAndBack(n, r, b);
    assert TurnsProductIntoSum(weight, there.rate, back.rate);
    LargeProductIsLight(weight, 2.0, Times(there.rate, back.rate));
    PairRefutes(there, back, SnapshotEdges([Entry(r), Exit(b)], n), weight, EPSILON);
  }

  lemma PairRefutes(there: Edge, back: Edge, graph: seq<Edge>, weight: real -> real, eps: real)
    requires there in graph && back in graph && there.to == back.from && back.to == there.from
    requires weight(there.rate) + weight(back.rate) < -2.0 * eps
    ensures !NoneProfitable(graph, weight, eps)
  {
    var walk := [there, back];
    assert walk[1..] == [back] && [back][1..] == [];
    assert Weight([back], weight) == weight(back.rate);
    assert -(|walk| as real) * eps == -2.0 * eps;
    assert Closed(walk) && Within(walk, graph);
  }

  lemma ThreeShareAToken(es: seq<Edge>)
    requires |es| >= 3 && forall i :: 0 <= i < |es| ==> es[i].from == BASE || es[i].from == OTHER
    ensures !Simple(es)
  {
    assert es[0].from == es[1].from || es[0].from == es[2].from || es[1].from == es[2].from;
  }

  /** Whatever the detector finds goes in through the entry and out through the exit. */
  lemma CycleOfSnapshot(n: u64, r: u64, b: u128, cycle: Cycle, weight: real -> real) returns (start: nat)
    requires Hidden(n, r, b) && NegLog(weight)
    requires Sound(cycle, SnapshotEdges([Entry(r), Exit(b)], n), weight, EPSILON)
    ensures |cycle.edges| == 2 && FirstFrom(cycle.edges, BASE) == Some(start)
    ensures var route := Rotated(cycle.edges, start);
            && route[0].from == BASE && route[0].pool == Entry(r).id
            && route[1].from == OTHER && route[1].pool == Exit(b).id
  {
    var es, pools := cycle.edges, [Entry(r), Exit(b)];
    CycleSpendsPoolsOnce(pools, n, cycle, weight, EPSILON);
    forall i | 0 <= i < |es|
      ensures es[i].from == BASE ==> es[i].pool == Entry(r).id && es[i].to == OTHER
      ensures es[i].from != BASE ==> es[i].from == OTHER && es[i].to == BASE
      ensures es[i].pool == Entry(r).id || es[i].pool == Exit(b).id
    {
      assert es[i] in SnapshotEdges(pools, n);
      EdgesOfSnapshot(n, r, b, es[i]);
    }
    if |es| >= 3 {
      ThreeShareAToken(es);
    }
    start := if es[0].from == BASE then 0 else 1;
    RotatedIndex(es, start, 0);
    RotatedIndex(es, start, 1);
    assert es[0].pool != es[1].pool;
  }

  // ---- The search

  /** Net profit along the entry and the exit: infeasible below the entry reserve, and at
      the cap half of the exit's reserve less the cap and the costs. */
  lemma NetOfSnapshot(n: u64, r: u64, b: u128, trade: Trade, start: nat, x: u64)
    requires Hidden(n, r, b) && trade.base == BASE
    requires trade.pools == PoolsById([Entry(r), Exit(b)])
    requires |trade.edges| == 2 && FirstFrom(trade.edges, BASE) == Some(start)
    requires var route := Rotated(trade.edges, start);
             && route[0].from == BASE && route[0].pool == Entry(r).id
             && route[1].from == OTHER && route[1].pool == Exit(b).id
    ensures x < r ==> NetAt(trade, x).None?
    ensures x >= r ==>
              var cost := TotalCost(trade.costs, x, 2);
              cost.Some? && NetAt(trade, x) == Some(b / 2 - x - cost.value)
  {
    var route := Rotated(trade.edges, start);
    var legs := [CpmmReserves(r, 2, Bps(0)), CpmmReserves(1, b, Bps(0))];
    LegsOfSnapshot(r, b, trade.pools, route);
    assert TradeLegs(trade) == Some(legs);
    OutputOfSnapshot(n, r, b, x);
    NetFeasibleExactly(trade, x);
  }

  lemma LegsOfSnapshot(r: u64, b: u128, pools: PoolMap, route: seq<Edge>)
    requires pools == PoolsById([Entry(r), Exit(b)]) && |route| == 2
    requires route[0].from == BASE && route[0].pool == Entry(r).id
    requires route[1].from == OTHER && route[1].pool == Exit(b).id
    ensures Legs(pools, route) == Some([CpmmReserves(r, 2, Bps(0)), CpmmReserves(1, b, Bps(0))])
  {
    var ps := [Entry(r), Exit(b)];
    PoolIsFound(ps, 0);
    PoolIsFound(ps, 1);
    LegsOfTwo(pools, route, Entry(r), Exit(b));
  }

  lemma {:induction false} LegsOfTwo(pools: PoolMap, route: seq<Edge>, p: CpmmPool, q: CpmmPool)
    requires |route| == 2 && p.id in pools && q.id in pools && pools[p.id] == p && pools[q.id] == q
    requires route[0].pool == p.id && route[0].from == p.tokenA
    requires route[1].pool == q.id && route[1].from == q.tokenA
    ensures Legs(pools, route)
            == Some([CpmmReserves(p.reserveA, p.reserveB, p.fee), CpmmReserves(q.reserveA, q.reserveB, q.fee)])
  {
    var entry := CpmmReserves(p.reserveA, p.reserveB, p.fee);
    var exit := CpmmReserves(q.reserveA, q.reserveB, q.fee);
    var first := route[..1];
    assert first[..0] == [] && Legs(pools, []) == Some([]);
    assert Legs(pools, first).value == [] + [entry];
    assert Legs(pools, route).value == [entry] + [exit];
    assert [entry] + [exit] == [entry, exit];
  }

  lemma OutputOfSnapshot(n: u64, r: u64, b: u128, x: u64)
    requires Hidden(n, r, b)
    ensures CycleOutput([CpmmReserves(r, 2, Bps(0)), CpmmReserves(1, b, Bps(0))], x)
            == Some(if x < r then 0 else b / 2)
    ensures b / 2 > 0
  {
    var entry, exit := CpmmReserves(r, 2, Bps(0)), CpmmReserves(1, b, Bps(0));
    ExitIsLarge(n, b);
    EntryQuote(r, x);
    ExitQuote(b);
    assert [entry, exit][..1] == [entry] && [entry][..0] == [];
    assert CycleOutput([], x) == Some(x);
    assert CycleOutput([entry], x) == Some(if x < r then 0 else 1);
  }

  /** What is missed: half the exit's reserve less the cap is at least the cap squared. */
  lemma MissedGross(n: u64, r: u64, b: u128)
    requires Hidden(n, r, b)
    ensures b / 2 - n >= n * n
  {
    assert 2 * n * (n + 1) == 2 * (n * n + n);
  }

  /** Every run over such a snapshot finds a candidate and records no trade, although the
      candidate nets half the exit's reserve less the cap and the costs. */
  lemma ProfitableCycleIsMissed(
    n: u64, r: u64, b: u128, ts: u64, risk: RiskConfig, costs: CostConfig, weight: real -> real,
    cycles: seq<Cycle>, outcomes: Outcomes)
    requires Hidden(n, r, b) && risk.maxPosition == n
    requires NegLog(weight) && weight(2.0) < -2.0 * EPSILON
    requires SnapshotRun(Snapshot(ts, r, b), BASE, n, risk, costs, weight, cycles, outcomes)
    ensures outcomes != []
    ensures forall c :: 0 <= c < |outcomes| ==>
              var trade := Trade(PoolsById(Snapshot(ts, r, b).pools), cycles[c].edges, BASE, costs);
              var cost := TotalCost(costs, n, 2);
              && outcomes[c].None?
              && cost.Some? && NetAt(trade, n) == Some(b / 2 - n - cost.value)
  {
    var pools := [Entry(r), Exit(b)];
    var edges := SnapshotEdges(pools, n);
    if outcomes == [] {
      assert Remaining(WholePools, edges, cycles) == edges;
      SnapshotIsProfitable(n, r, b, weight);
    }
    forall c | 0 <= c < |outcomes|
      ensures var trade := Trade(PoolsById(pools), cycles[c].edges, BASE, costs);
              var cost := TotalCost(costs, n, 2);
              && outcomes[c].None?
              && cost.Some? && NetAt(trade, n) == Some(b / 2 - n - cost.value)
    {
      RunIsSoundInGraph(WholePools, edges, cycles, weight, EPSILON, c);
      SoundCycleIsMissed(n, r, b, ts, risk, costs, weight, cycles[c], outcomes[c]);
    }
  }

  lemma SoundCycleIsMissed(
    n: u64, r: u64, b: u128, ts: u64, risk: RiskConfig, costs: CostConfig, weight: real -> real,
    cycle: Cycle, outcome: Option<TradeRecord>)
    requires Hidden(n, r, b) && risk.maxPosition == n && NegLog(weight)
    requires Sound(cycle, SnapshotEdges([Entry(r), Exit(b)], n), weight, EPSILON)
    requires Handled(Trade(PoolsById([Entry(r), Exit(b)]), cycle.edges, BASE, costs), risk, ts, outcome)
    ensures outcome.None?
    ensures var trade := Trade(PoolsById([Entry(r), Exit(b)]), cycle.edges, BASE, costs);
            var cost := TotalCost(costs, n, 2);
            cost.Some? && NetAt(trade, n) == Some(b / 2 - n - cost.value)
  {
    var trade := Trade(PoolsById([Entry(r), Exit(b)]), cycle.edges, BASE, costs);
    var start := CycleOfSnapshot(n, r, b, cycle, weight);
    NetOfSnapshot(n, r, b, trade, start, n);
    NetOfSnapshot(n, r, b, trade, start, RightProbe(1, n));
    NetOfSnapshot(n, r, b, trade, start, BlindReach(n));
    if outcome.Some? {
      NetNoneExactly(trade, n, Some((outcome.value.notional, outcome.value.netProfit)));
    }
  }

  lemma NoRecords(outcomes: Outcomes)
    requires forall c :: 0 <= c < |outcomes| ==> outcomes[c].None?
    ensures Records(outcomes) == []
  {
    if outcomes == [] {
    } else {
      NoRecords(outcomes[..|outcomes|-1]);
    }
  }

  lemma SnapshotIsMissed(
    market: Market, s: nat, n: u64, r: u64, b: u128, risk: RiskConfig, costs: CostConfig, weight: real -> real,
    outcomes: Outcomes)
    requires Hidden(n, r, b) && risk.maxPosition == n
    requires NegLog(weight) && weight(2.0) < -2.0 * EPSILON
    requires s < |market.snapshots| && market.snapshots[s].pools == [Entry(r), Exit(b)]
    requires market.base == BASE && market.notional >= n
    requires SnapshotOk(market, s, risk, costs, weight, outcomes)
    ensures outcomes != [] && Records(outcomes) == []
  {
    var ts := market.snapshots[s].ts;
    assert market.snapshots[s] == Snapshot(ts, r, b);
    var probe: u128, cycles: seq<Cycle> :|
      && probe <= market.notional && probe <= risk.maxPosition
      && (probe == market.notional || probe == risk.maxPosition)
      && SnapshotRun(market.snapshots[s], market.base, probe, risk, costs, weight, cycles, outcomes);
    ProfitableCycleIsMissed(n, r, b, ts, risk, costs, weight, cycles, outcomes);
    NoRecords(outcomes);
  }

  /** A whole backtest over such snapshots counts a candidate in each and ends without a
      single record. */
  lemma {:induction false} RunMissesEverything(
    market: Market, n: u64, r: u64, b: u128, risk: RiskConfig, costs: CostConfig, weight: real -> real,
    runs: seq<Outcomes>)
    requires Hidden(n, r, b) && risk.maxPosition == n
    requires NegLog(weight) && weight(2.0) < -2.0 * EPSILON
    requires market.base == BASE && market.notional >= n
    requires forall s :: 0 <= s < |market.snapshots| ==> market.snapshots[s].pools == [Entry(r), Exit(b)]
    requires AllOk(market, risk, costs, weight, runs)
    ensures AllRecords(runs) == [] && AllCandidates(runs) >= |runs|
  {
    if runs == [] {
    } else {
      var last := |runs| - 1;
      RunMissesEverything(market, n, r, b, risk, costs, weight, runs[..last]);
      SnapshotIsMissed(market, last, n, r, b, risk, costs, weight, runs[last]);
    }
  }
}
