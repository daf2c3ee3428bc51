/** Two-sided constant-product pools: orientation of the reserves, quotes, and the edges a
    pool contributes to the detector. Rates are exact quotients. */
module Dex {
  import opened Domain
  import opened Amm
  import opened Routes

  /** Output per unit of input at a given size, None when the swap cannot be priced. */
  function EffectiveRate(r: CpmmReserves, amountIn: u128): Option<real> {
    match r.AmountOut(amountIn)
    case None => None
    case Some(out) => if amountIn == 0 then Some(0.0) else Some(out as real / amountIn as real)
  }

  datatype CpmmPool = CpmmPool(id: PoolId, tokenA: TokenId, tokenB: TokenId, reserveA: u128, reserveB: u128, fee: Bps) {

    /** Reserves oriented for a swap that spends `tokenIn`. */
    function ReservesFor(tokenIn: TokenId): Option<CpmmReserves> {
      if tokenIn == tokenA then Some(CpmmReserves(reserveA, reserveB, fee))
      else if tokenIn == tokenB then Some(CpmmReserves(reserveB, reserveA, fee))
      else None
    }

    function Quote(tokenIn: TokenId, amountIn: u128): Option<u128> {
      match ReservesFor(tokenIn)
      case None => None
      case Some(r) => r.AmountOut(amountIn)
    }

    /** The same pool with its sides named the other way round. */
    function Mirrored(): CpmmPool {
      CpmmPool(id, tokenB, tokenA, reserveB, reserveA, fee)
    }

    /** The edge for spending `tokenIn` at the probe size, if it has a positive rate. */
    function EdgesOneWay(tokenIn: TokenId, tokenOut: TokenId, probe: u128): seq<Edge> {
      match ReservesFor(tokenIn)
      case None => []
      case Some(r) =>
        match EffectiveRate(r, probe)
        case None => []
        case Some(rate) => if rate > 0.0 then [Edge(tokenIn, tokenOut, id, rate)] else []
    }

    /** The edges of both directions, A to B first. */
    function EdgesAt(probe: u128): seq<Edge> {
      EdgesOneWay(tokenA, tokenB, probe) + EdgesOneWay(tokenB, tokenA, probe)
    }

    method Edges(probe: u128) returns (out: seq<Edge>)
      ensures out == EdgesAt(probe)
    {
      out := [];
      var directions := [(tokenA, tokenB), (tokenB, tokenA)];
      for i := 0 to 2
        invariant i == 0 ==> out == []
        invariant i == 1 ==> out == EdgesOneWay(tokenA, tokenB, probe)
        invariant i == 2 ==> out == EdgesAt(probe)
      {
        var (tokenIn, tokenOut) := directions[i];
        var r := ReservesFor(tokenIn);
        if r.Some? {
          var rate := EffectiveRate(r.value, probe);
          if rate.Some? && rate.value > 0.0 {
            out := out + [Edge(tokenIn, tokenOut, id, rate.value)];
          }
        }
      }
    }
  }

  // ---- Orientation

  /** A quote does not depend on which side of the pool is called A. */
  lemma QuoteMirrors(p: CpmmPool, t: TokenId, x: u128)
    requires p.tokenA != p.tokenB
    ensures p.Mirrored().Quote(t, x) == p.Quote(t, x)
  {
  }

  /** Only the two tokens of the pool have quotes. */
  lemma StrangerHasNoQuote(p: CpmmPool, t: TokenId, x: u128)
    ensures t != p.tokenA && t != p.tokenB <==> p.ReservesFor(t).None?
    ensures t != p.tokenA && t != p.tokenB ==> p.Quote(t, x).None?
  {
  }

  /** A quote is the constant product of the pool's own reserves, spent side in and other side
      out, floored once for the fee and once for the product. */
  lemma QuoteIsConstantProduct(p: CpmmPool, t: TokenId, x: u128) returns (a: nat)
    requires p.tokenA != p.tokenB && p.reserveA > 0 && p.reserveB > 0 && p.fee.points <= 10_000
    requires p.Quote(t, x).Some?
    ensures t == p.tokenA || t == p.tokenB
    ensures a * 10_000 <= x * (10_000 - p.fee.points) < (a + 1) * 10_000
    ensures var out := p.Quote(t, x).value;
            var (rin, rout) := if t == p.tokenA then (p.reserveA, p.reserveB) else (p.reserveB, p.reserveA);
            out * (rin + a) <= rout * a < (out + 1) * (rin + a)
  {
    a := SwapIsDoubleFloor(p.ReservesFor(t).value, x);
  }

  /** How many edges a pool emits and in which order: A to B first, each direction once and
      only with a positive quote. */
  lemma EdgesInOrder(p: CpmmPool, probe: u128)
    ensures var es := p.EdgesAt(probe);
            var there := probe > 0 && p.Quote(p.tokenA, probe).Some? && p.Quote(p.tokenA, probe).value > 0;
            var back := probe > 0 && p.Quote(p.tokenB, probe).Some? && p.Quote(p.tokenB, probe).value > 0;
            && |es| == (if there then 1 else 0) + (if back then 1 else 0)
            && (there ==> es[0].from == p.tokenA && es[0].to == p.tokenB)
            && (back ==> es[|es|-1].from == p.tokenB && es[|es|-1].to == p.tokenA)
  {
    OneWayCounts(p, p.tokenA, p.tokenB, probe);
    OneWayCounts(p, p.tokenB, p.tokenA, probe);
  }

  lemma OneWayCounts(p: CpmmPool, tokenIn: TokenId, tokenOut: TokenId, probe: u128)
    ensures var es := p.EdgesOneWay(tokenIn, tokenOut, probe);
            && |es| <= 1
            && (es != [] <==> probe > 0 && p.Quote(tokenIn, probe).Some? && p.Quote(tokenIn, probe).value > 0)
            && (es != [] ==> es[0].from == tokenIn && es[0].to == tokenOut)
  {
    var quote := p.Quote(tokenIn, probe);
    if quote.Some? && probe > 0 {
      PositiveQuotient(quote.value, probe);
    }
  }

  /** `e` is one direction of the pool, with a positive quote, at the rate quoted for the
      probe size. */
  ghost predicate PoolEdge(p: CpmmPool, probe: u128, e: Edge) {
    && e.pool == p.id
    && ((e.from == p.tokenA && e.to == p.tokenB) || (e.from == p.tokenB && e.to == p.tokenA))
    && probe > 0 && p.Quote(e.from, probe).Some? && p.Quote(e.from, probe).value > 0
    && e.rate == p.Quote(e.from, probe).value as real / probe as real
  }

  /** The emitted edges are exactly those. */
  lemma EdgesExactly(p: CpmmPool, probe: u128, e: Edge)
    ensures e in p.EdgesAt(probe) <==> PoolEdge(p, probe, e)
  {
    InEdgesOneWay(p, p.tokenA, p.tokenB, probe, e);
    InEdgesOneWay(p, p.tokenB, p.tokenA, probe, e);
  }

  lemma InEdgesOneWay(p: CpmmPool, tokenIn: TokenId, tokenOut: TokenId, probe: u128, e: Edge)
    ensures e in p.EdgesOneWay(tokenIn, tokenOut, probe) <==>
              && e.pool == p.id && e.from == tokenIn && e.to == tokenOut
              && probe > 0 && p.Quote(tokenIn, probe).Some? && p.Quote(tokenIn, probe).value > 0
              && e.rate == p.Quote(tokenIn, probe).value as real / probe as real
  {
    var quote := p.Quote(tokenIn, probe);
    if quote.Some? && probe > 0 {
      PositiveQuotient(quote.value, probe);
    }
  }

  lemma PositiveQuotient(n: nat, d: nat)
    requires d > 0
    ensures n as real / d as real > 0.0 <==> n > 0
  {
  }

  // ---- No free money through one pool

  /** What is left of `x` after the pool's fee. */
  function FeeLeft(p: CpmmPool, x: u128): nat {
    AfterFee(CpmmReserves(p.reserveA, p.reserveB, p.fee), x)
  }

  /** The rate is that of the constant product at size `x` with `a` left after the fee: the
      output rate*x is the floor of rout*a/(rin + a). */
  ghost predicate FairRate(rin: nat, rout: nat, a: nat, x: nat, rate: real) {
    && rin > 0 && rout > 0 && x > 0 && a <= x && rate > 0.0
    && (rate * x as real) * (rin + a) as real <= rout as real * a as real
    && rout as real * a as real < (rate * x as real + 1.0) * (rin + a) as real
  }

  /** `e` swaps one token of `p` for the other at a fair rate. */
  ghost predicate FairEdge(p: CpmmPool, probe: u128, e: Edge) {
    && e.pool == p.id
    && (|| (e.from == p.tokenA && e.to == p.tokenB
            && FairRate(p.reserveA, p.reserveB, FeeLeft(p, probe), probe, e.rate))
        || (e.from == p.tokenB && e.to == p.tokenA && p.tokenA != p.tokenB
            && FairRate(p.reserveB, p.reserveA, FeeLeft(p, probe), probe, e.rate))
        || (e.from == e.to == p.tokenA && e.from == p.tokenB))
  }

  lemma AfterFeeAtMost(r: CpmmReserves, x: u128)
    ensures AfterFee(r, x) <= x
  {
    ProductNonNegative(x, r.Kept());
    ProductNonNegative(x, DENOMINATOR - r.Kept());
    assert x * (DENOMINATOR - r.Kept()) == x * DENOMINATOR - x * r.Kept();
    FloorAtLeast(x * r.Kept(), DENOMINATOR, x + 1);
  }

  /** A positive quoted rate is fair. */
  lemma QuotedRateIsFair(r: CpmmReserves, x: u128, rate: real)
    requires EffectiveRate(r, x) == Some(rate) && rate > 0.0
    ensures FairRate(r.reserveIn, r.reserveOut, AfterFee(r, x), x, rate)
  {
    var a, out := AfterFee(r, x), r.AmountOut(x).value;
    AfterFeeAtMost(r, x);
    assert x > 0 && r.Positive();
    PricedSwap(r, x);
    ProductNonNegative(r.reserveOut, a);
    Division(r.reserveOut * a, r.reserveIn + a);
    FairInReals(r.reserveIn, r.reserveOut, a, x, out, rate);
  }

  lemma FairInReals(rin: nat, rout: nat, a: nat, x: nat, out: nat, rate: real)
    requires x > 0 && rate == out as real / x as real
    requires out * (rin + a) <= rout * a < (out + 1) * (rin + a)
    ensures (rate * x as real) * (rin + a) as real <= rout as real * a as real
    ensures rout as real * a as real < (rate * x as real + 1.0) * (rin + a) as real
  {
    assert rate * x as real == out as real;
    assert (out * (rin + a)) as real == out as real * (rin + a) as real;
    assert ((out + 1) * (rin + a)) as real == (out as real + 1.0) * (rin + a) as real;
    assert (rout * a) as real == rout as real * a as real;
  }

  lemma EdgeHasRate(p: CpmmPool, probe: u128, e: Edge)
    requires e in p.EdgesAt(probe)
    ensures e.rate > 0.0
  {
  }

  lemma EdgesAreFair(p: CpmmPool, probe: u128, e: Edge)
    requires e in p.EdgesAt(probe)
    ensures FairEdge(p, probe, e) && e.rate > 0.0 && p.ReservesFor(e.from).Some?
  {
    var r := p.ReservesFor(e.from).value;
    QuotedRateIsFair(r, probe, e.rate);
    assert AfterFee(r, probe) == FeeLeft(p, probe);
  }

  /** The rates of a trip there and back multiply to less than 1. */
  ghost predicate LossyPair(r1: real, r2: real) {
    Times(r1, r2) < 1.0
  }

  lemma LossyBothWays(r1: real, r2: real)
    requires LossyPair(r1, r2)
    ensures LossyPair(r2, r1)
  {
  }

  /** Fair rates both ways at one size lose. */
  lemma FairRatesLose(ra: nat, rb: nat, a: nat, x: nat, r1: real, r2: real)
    requires FairRate(ra, rb, a, x, r1) && FairRate(rb, ra, a, x, r2)
    ensures LossyPair(r1, r2)
  {
    FairPairLoses(ra as real, rb as real, a as real, x as real, r1, r2, r1 * x as real, r2 * x as real);
  }

  lemma FairPairLoses(p: real, q: real, a: real, x: real, r1: real, r2: real, o1: real, o2: real)
    requires p > 0.0 && q > 0.0 && x > 0.0 && 0.0 <= a <= x && r1 > 0.0 && r2 > 0.0
    requires o1 == r1 * x && o2 == r2 * x
    requires o1 * (p + a) <= q * a && o2 * (q + a) <= p * a
    ensures r1 * r2 < 1.0
  {
    Positive(r1, x);
    Positive(r2, x);
    CrossLoses(o1, o2, p, q, a, x);
    ProductBelowOne(r1, r2, x, o1, o2);
  }

  lemma ProductBelowOne(r1: real, r2: real, x: real, o1: real, o2: real)
    requires r1 * x == o1 && r2 * x == o2 && x > 0.0 && o1 * o2 < x * x
    ensures r1 * r2 < 1.0
  {
    ScaledProduct(r1, r2, x, o1, o2);
    var p, k := r1 * r2, x * x;
    assert k > 0.0 && p * k == o1 * o2 && p * k < k;
    BelowOne(p, k);
  }

  lemma Positive(s: real, t: real)
    requires s > 0.0 && t > 0.0
    ensures s * t > 0.0
  {
  }

  lemma CrossLoses(o1: real, o2: real, p: real, q: real, a: real, x: real)
    requires o1 > 0.0 && o2 > 0.0 && p > 0.0 && q > 0.0 && 0.0 <= a <= x
    requires o1 * (p + a) <= q * a && o2 * (q + a) <= p * a
    ensures o1 * o2 < x * x
  {
    PositiveShare(o1, p, q, a);
    PositiveShare(o2, q, p, a);
    StrictProduct(o1 * p, q * a, o2 * q, p * a);
    assert (o1 * p) * (o2 * q) == (o1 * o2) * (p * q);
    assert (q * a) * (p * a) == (a * a) * (p * q);
    assert p * q > 0.0;
    CancelLt(o1 * o2, a * a, p * q);
    assert a * a <= x * x;
  }

  lemma PositiveShare(o: real, p: real, q: real, a: real)
    requires o > 0.0 && p > 0.0 && q > 0.0 && a >= 0.0 && o * (p + a) <= q * a
    ensures 0.0 < o * p < q * a
  {
    assert o * (p + a) == o * p + o * a;
    assert o * p > 0.0 && o * a >= 0.0;
    assert a > 0.0;
    assert o * a > 0.0;
  }

  lemma StrictProduct(s: real, t: real, u: real, v: real)
    requires 0.0 < s < t && 0.0 < u < v
    ensures s * u < t * v
  {
    assert s * u < t * u;
    assert t * u < t * v;
  }

  lemma CancelLt(s: real, t: real, k: real)
    requires k > 0.0 && s * k < t * k
    ensures s < t
  {
    assert (s - t) * k < 0.0;
  }

  lemma ScaledProduct(r1: real, r2: real, x: real, p1: real, p2: real)
    requires r1 * x == p1 && r2 * x == p2
    ensures (r1 * r2) * (x * x) == p1 * p2
    ensures x > 0.0 ==> x * x > 0.0
  {
    assert (r1 * r2) * (x * x) == (r1 * x) * (r2 * x);
  }

  lemma BelowOne(p: real, k: real)
    requires k > 0.0 && p * k < k
    ensures p < 1.0
  {
    assert (p - 1.0) * k < 0.0;
  }

  /** Edges of one pool that leave different tokens are each other's reverse, and going
      there and back returns less than was put in. */
  lemma PoolRatesLose(p: CpmmPool, probe: u128, there: Edge, back: Edge)
    requires FairEdge(p, probe, there) && FairEdge(p, probe, back) && there.from != back.from
    ensures there.to == back.from && back.to == there.from
    ensures LossyPair(there.rate, back.rate)
  {
    if there.from == p.tokenA {
      FairRatesLose(p.reserveA, p.reserveB, FeeLeft(p, probe), probe, there.rate, back.rate);
    } else {
      FairRatesLose(p.reserveA, p.reserveB, FeeLeft(p, probe), probe, back.rate, there.rate);
      LossyBothWays(back.rate, there.rate);
    }
  }
}
