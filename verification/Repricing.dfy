/** Walking a detected cycle through exact pool math: rotation to the base token, the hops,
    and the correspondence with the chained swap. */
module Repricing {
  import opened Domain
  import opened Amm
  import opened Routes
  import opened Dex

  type PoolMap = map<PoolId, CpmmPool>

  /** One swap of a route; amounts are saturated to u64. */
  datatype Hop = Hop(pool: PoolId, tokenIn: TokenId, tokenOut: TokenId, amountIn: u64, amountOut: u64)

  /** The position of the first edge that leaves `base`. */
  function FirstFrom(es: seq<Edge>, base: TokenId): (at: Option<nat>)
    ensures at.None? <==> forall i :: 0 <= i < |es| ==> es[i].from != base
    ensures at.Some? ==> at.value < |es| && es[at.value].from == base
    ensures at.Some? ==> forall i :: 0 <= i < at.value ==> es[i].from != base
  {
    if es == [] then None
    else if es[0].from == base then Some(0)
    else
      match FirstFrom(es[1..], base)
      case None => None
      case Some(i) => Some(i + 1)
  }

  function Rotated(es: seq<Edge>, start: nat): (r: seq<Edge>)
    requires start <= |es|
    ensures |r| == |es|
  {
    es[start..] + es[..start]
  }

  /** The hops so far with the amount in hand, after swapping through one more edge. None
      when the pool is missing, the quote is missing, or the quote is zero. */
  function PriceHop(pools: PoolMap, e: Edge, sofar: (seq<Hop>, u128)): Option<(seq<Hop>, u128)> {
    if e.pool !in pools then None
    else
      match pools[e.pool].Quote(e.from, sofar.1)
      case None => None
      case Some(out) =>
        if out == 0 then None
        else Some((sofar.0 + [Hop(e.pool, e.from, e.to, SaturateU64(sofar.1), SaturateU64(out))], out))
  }

  /** The route priced hop by hop: its hops and its final output. */
  function Priced(pools: PoolMap, route: seq<Edge>, notional: u128): Option<(seq<Hop>, u128)> {
    if route == [] then Some(([], notional))
    else
      match Priced(pools, route[..|route|-1], notional)
      case None => None
      case Some(sofar) => PriceHop(pools, route[|route|-1], sofar)
  }

  /** The cycle rotated to start at `base`, then priced. */
  function Simulated(pools: PoolMap, es: seq<Edge>, base: TokenId, notional: u128): Option<(seq<Hop>, u128)> {
    match FirstFrom(es, base)
    case None => None
    case Some(start) => Priced(pools, Rotated(es, start), notional)
  }

  method SimulateCycle(pools: PoolMap, cycle: Cycle, base: TokenId, notional: u128)
    returns (result: Option<(seq<Hop>, u128)>)
    ensures result == Simulated(pools, cycle.edges, base, notional)
  {
    var position := FirstFrom(cycle.edges, base);
    if position.None? {
      return None;
    }
    var start := position.value;
    var n := |cycle.edges|;
    ghost var route := Rotated(cycle.edges, start);
    var hops: seq<Hop> := [];
    var amount := notional;
    for k := 0 to n
      invariant Priced(pools, route[..k], notional) == Some((hops, amount))
    {
      var e := cycle.edges[(start + k) % n];
      RotatedAt(cycle.edges, start, k);
      PricedStep(pools, route, k, notional);
      if e.pool !in pools {
        UnpricedStays(pools, route, k + 1, notional);
        return None;
      }
      var quote := pools[e.pool].Quote(e.from, amount);
      if quote.None? || quote.value == 0 {
        UnpricedStays(pools, route, k + 1, notional);
        return None;
      }
      hops := hops + [Hop(e.pool, e.from, e.to, SaturateU64(amount), SaturateU64(quote.value))];
      amount := quote.value;
    }
    assert route[..n] == route;
    return Some((hops, amount));
  }

  lemma PricedStep(pools: PoolMap, route: seq<Edge>, k: nat, x: u128)
    requires k < |route|
    ensures Priced(pools, route[..k+1], x)
            == match Priced(pools, route[..k], x) case None => None case Some(sofar) => PriceHop(pools, route[k], sofar)
  {
    var next := route[..k+1];
    assert next[..|next|-1] == route[..k];
  }

  lemma Wrapped(a: nat, n: nat)
    requires n > 0 && a < 2 * n
    ensures a % n == if a < n then a else a - n
  {
  }

  lemma RotatedAt(es: seq<Edge>, start: nat, k: nat)
    requires start < |es| && k < |es|
    ensures Rotated(es, start)[k] == es[(start + k) % |es|]
  {
    Wrapped(start + k, |es|);
  }

  lemma {:induction false} UnpricedStays(pools: PoolMap, route: seq<Edge>, k: nat, notional: u128)
    requires k <= |route| && Priced(pools, route[..k], notional).None?
    ensures Priced(pools, route, notional).None?
  {
    if k == |route| {
      assert route[..k] == route;
    } else {
      assert route[..|route|-1][..k] == route[..k];
      UnpricedStays(pools, route[..|route|-1], k, notional);
    }
  }

  // ---- Re-pricing refines the chained swap

  /** The oriented reserves along a route, None when a pool or a token is unknown. */
  function Legs(pools: PoolMap, route: seq<Edge>): (legs: Option<seq<CpmmReserves>>)
    ensures legs.Some? ==> |legs.value| == |route|
  {
    if route == [] then Some([])
    else
      match Legs(pools, route[..|route|-1])
      case None => None
      case Some(init) =>
        var e := route[|route|-1];
        if e.pool !in pools then None
        else
          match pools[e.pool].ReservesFor(e.from)
          case None => None
          case Some(r) => Some(init + [r])
  }

  lemma {:induction false} PricedNeedsLegs(pools: PoolMap, route: seq<Edge>, x: u128)
    requires Priced(pools, route, x).Some?
    ensures Legs(pools, route).Some?
  {
    if route == [] {
    } else {
      PricedNeedsLegs(pools, route[..|route|-1], x);
    }
  }

  lemma {:induction false} PricedIsCycleOutput(pools: PoolMap, route: seq<Edge>, x: u128)
    requires Legs(pools, route).Some?
    ensures var out := CycleOutput(Legs(pools, route).value, x);
            var priced := Priced(pools, route, x);
            && (priced.Some? ==> out == Some(priced.value.1))
            && (route != [] ==> (priced.Some? <==> out.Some? && out.value > 0))
  {
    if route == [] {
    } else {
      var init, e := route[..|route|-1], route[|route|-1];
      var legs := Legs(pools, route).value;
      var first := Legs(pools, init).value;
      assert legs == first + [pools[e.pool].ReservesFor(e.from).value];
      assert legs[..|legs|-1] == first;
      PricedIsCycleOutput(pools, init, x);
    }
  }

  /** Re-pricing a non-empty route succeeds exactly when every pool resolves and the chained
      swap over the oriented reserves is priced and positive; the outputs agree. */
  lemma RepricingRefines(pools: PoolMap, route: seq<Edge>, x: u128)
    requires route != []
    ensures Priced(pools, route, x).Some? <==>
              && Legs(pools, route).Some?
              && CycleOutput(Legs(pools, route).value, x).Some?
              && CycleOutput(Legs(pools, route).value, x).value > 0
    ensures Priced(pools, route, x).Some? ==>
              CycleOutput(Legs(pools, route).value, x) == Some(Priced(pools, route, x).value.1)
  {
    if Priced(pools, route, x).Some? {
      PricedNeedsLegs(pools, route, x);
    }
    if Legs(pools, route).Some? {
      PricedIsCycleOutput(pools, route, x);
    }
  }

  /** The legs of a route are, edge by edge, the reserves its pool offers for its token. */
  lemma {:induction false} LegsPointwise(pools: PoolMap, route: seq<Edge>)
    ensures Legs(pools, route).Some? <==>
              forall k :: 0 <= k < |route| ==>
                route[k].pool in pools && pools[route[k].pool].ReservesFor(route[k].from).Some?
    ensures Legs(pools, route).Some? ==>
              forall k :: 0 <= k < |route| ==>
                Some(Legs(pools, route).value[k]) == pools[route[k].pool].ReservesFor(route[k].from)
  {
    if route == [] {
    } else {
      var last := |route| - 1;
      LegsPointwise(pools, route[..last]);
      assert forall k :: 0 <= k < last ==> route[..last][k] == route[k];
    }
  }

  /** Each hop takes in what the chained swap yields before it and hands out what it yields
      after it, saturated to u64. */
  lemma {:induction false} HopAmounts(pools: PoolMap, route: seq<Edge>, x: u128, k: nat)
    requires Priced(pools, route, x).Some? && k < |route|
    ensures |Priced(pools, route, x).value.0| == |route| && Legs(pools, route).Some?
    ensures var hop, legs := Priced(pools, route, x).value.0[k], Legs(pools, route).value;
            && CycleOutput(legs[..k], x).Some? && CycleOutput(legs[..k+1], x).Some?
            && hop.amountIn == SaturateU64(CycleOutput(legs[..k], x).value)
            && hop.amountOut == SaturateU64(CycleOutput(legs[..k+1], x).value)
  {
    var init, last := route[..|route|-1], |route| - 1;
    PricedNeedsLegs(pools, route, x);
    PricedFollows(pools, init, x);
    var legs := Legs(pools, route).value;
    assert legs[..last] == Legs(pools, init).value;
    if k == last {
      PricedIsCycleOutput(pools, init, x);
      PricedIsCycleOutput(pools, route, x);
      assert legs[..k+1] == legs;
    } else {
      HopAmounts(pools, init, x, k);
      assert legs[..last][..k] == legs[..k] && legs[..last][..k+1] == legs[..k+1];
    }
  }

  /** The legs behind a simulated cycle, and their chained output. */
  lemma SimulatedLegs(pools: PoolMap, es: seq<Edge>, base: TokenId, x: u128) returns (legs: seq<CpmmReserves>)
    requires es != [] && Simulated(pools, es, base, x).Some?
    ensures |legs| == |es| == |Simulated(pools, es, base, x).value.0|
    ensures CycleOutput(legs, x) == Some(Simulated(pools, es, base, x).value.1)
  {
    var route := Rotated(es, FirstFrom(es, base).value);
    SimulatedLength(pools, es, base, x);
    RepricingRefines(pools, route, x);
    legs := Legs(pools, route).value;
  }

  // ---- The shape of a priced route

  /** The hops follow the route and hand each output to the next input. */
  ghost predicate Follows(hops: seq<Hop>, route: seq<Edge>) {
    && |hops| == |route|
    && (forall k :: 0 <= k < |hops| ==>
          hops[k].pool == route[k].pool && hops[k].tokenIn == route[k].from && hops[k].tokenOut == route[k].to)
    && (forall k :: 0 < k < |hops| ==> hops[k-1].amountOut == hops[k].amountIn)
  }

  lemma {:induction false} PricedFollows(pools: PoolMap, route: seq<Edge>, x: u128)
    requires Priced(pools, route, x).Some?
    ensures var (hops, out) := Priced(pools, route, x).value;
            && Follows(hops, route)
            && (route != [] ==>
                  && out > 0
                  && hops[0].amountIn == SaturateU64(x)
                  && hops[|hops|-1].amountOut == SaturateU64(out))
  {
    if route == [] {
    } else {
      var init := route[..|route|-1];
      PricedFollows(pools, init, x);
      if init == [] {
        assert Priced(pools, init, x) == Some(([], x));
      }
    }
  }

  lemma RotatedIndex(es: seq<Edge>, start: nat, i: nat)
    requires start <= |es| && i < |es|
    ensures Rotated(es, start)[i] == if start + i < |es| then es[start+i] else es[start+i-|es|]
  {
  }

  lemma RotatedStep(es: seq<Edge>, start: nat, i: nat)
    requires Closed(es) && start < |es| && i < |es| - 1
    ensures Rotated(es, start)[i].to == Rotated(es, start)[i+1].from
  {
    var n := |es|;
    RotatedIndex(es, start, i);
    RotatedIndex(es, start, i + 1);
    if start + i + 1 < n {
      assert es[start+i].to == es[start+i+1].from;
    } else if start + i + 1 > n {
      var j := start + i - n;
      assert es[j].to == es[j+1].from;
    }
  }

  /** A simulated route has one hop per edge. */
  lemma SimulatedLength(pools: PoolMap, es: seq<Edge>, base: TokenId, x: u128)
    requires Simulated(pools, es, base, x).Some?
    ensures |Simulated(pools, es, base, x).value.0| == |es|
  {
    PricedFollows(pools, Rotated(es, FirstFrom(es, base).value), x);
  }

  /** A rotation of a closed walk is a closed walk over the same edges. */
  lemma RotationIsClosed(es: seq<Edge>, start: nat)
    requires Closed(es) && start < |es|
    ensures Closed(Rotated(es, start))
    ensures multiset(Rotated(es, start)) == multiset(es)
  {
    forall i | 0 <= i < |es| - 1 ensures Rotated(es, start)[i].to == Rotated(es, start)[i+1].from {
      RotatedStep(es, start, i);
    }
    RotatedIndex(es, start, |es| - 1);
    RotatedIndex(es, start, 0);
    if start > 0 {
      assert es[start-1].to == es[start].from;
    }
    assert es == es[..start] + es[start..];
  }

  /** A simulated closed cycle is a base-to-base route over a rotation of its edges. */
  lemma SimulationIsRoundTrip(pools: PoolMap, es: seq<Edge>, base: TokenId, x: u128)
    requires Closed(es) && Simulated(pools, es, base, x).Some?
    ensures var (hops, out) := Simulated(pools, es, base, x).value;
            var start := FirstFrom(es, base).value;
            && |hops| == |es| && out > 0
            && Follows(hops, Rotated(es, start)) && Closed(Rotated(es, start))
            && hops[0].tokenIn == base && hops[|hops|-1].tokenOut == base
            && hops[0].amountIn == SaturateU64(x) && hops[|hops|-1].amountOut == SaturateU64(out)
  {
    var start := FirstFrom(es, base).value;
    RotationIsClosed(es, start);
    PricedFollows(pools, Rotated(es, start), x);
  }
}
