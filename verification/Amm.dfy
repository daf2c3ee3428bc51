/** Constant-product swaps in floored integer arithmetic, their exact inverse, and chains
    of swaps. None marks a fee above 100% or a u128 overflow. */
module Amm {
  import opened Domain

  /** The reserves of a pool oriented for one direction of a swap. */
  datatype CpmmReserves = CpmmReserves(reserveIn: u128, reserveOut: u128, fee: Bps) {

    predicate Positive() {
      reserveIn > 0 && reserveOut > 0 && fee.points <= DENOMINATOR
    }

    /** Basis points left after the fee; 0 when the fee is out of range. */
    function Kept(): (f: nat) {
      if fee.points <= DENOMINATOR then DENOMINATOR - fee.points else 0
    }

    function AmountOut(amountIn: u128): (out: Option<u128>)
      ensures out.Some? && reserveOut > 0 ==> out.value < reserveOut
      ensures out.Some? && reserveOut == 0 ==> out.value == 0
    {
      if reserveIn == 0 || reserveOut == 0 || amountIn == 0 then Some(0)
      else
        match fee.FeeComplement()
        case None => None
        case Some(feeNum) =>
          match CheckedMul(amountIn, feeNum)
          case None => None
          case Some(scaled) =>
            var inAfterFee := scaled / DENOMINATOR;
            match CheckedMul(reserveOut, inAfterFee)
            case None => None
            case Some(numerator) =>
              match CheckedAdd(reserveIn, inAfterFee)
              case None => None
              case Some(denominator) =>
                QuotientBelow(reserveOut, reserveIn, inAfterFee);
                Some(numerator / denominator)
    }

    function AmountInForExactOut(amountOut: u128): Option<u128> {
      if amountOut == 0 then Some(0)
      else if reserveIn == 0 || reserveOut == 0 || amountOut >= reserveOut then None
      else
        match fee.FeeComplement()
        case None => None
        case Some(feeNum) =>
          if feeNum == 0 then None
          else
            match CheckedMul(reserveIn, amountOut)
            case None => None
            case Some(needed) =>
              var inAfterFee := DivCeil(needed, reserveOut - amountOut);
              match CheckedMul(inAfterFee, DENOMINATOR)
              case None => None
              case Some(scaled) => Some(DivCeil(scaled, feeNum))
    }
  }

  // ---- Floors and ceilings as Galois connections

  lemma MulLe(x: int, y: int, b: nat)
    requires x <= y
    ensures x * b <= y * b
  {
    ProductNonNegative(y - x, b);
    assert (y - x) * b == y * b - x * b;
  }

  lemma FloorAtLeast(a: nat, b: nat, q: int)
    requires b > 0
    ensures a / b >= q <==> a >= q * b
  {
    var d := a / b;
    Division(a, b);
    if d >= q {
      MulLe(q, d, b);
    } else {
      MulLe(d + 1, q, b);
    }
  }

  lemma Division(a: nat, b: nat)
    requires b > 0
    ensures (a / b) * b <= a < (a / b + 1) * b
    ensures a % b == 0 <==> (a / b) * b == a
  {
    assert a == b * (a / b) + a % b;
    assert (a / b + 1) * b == (a / b) * b + b;
  }

  /** `div_ceil` on unsigned values. */
  function DivCeil(a: nat, b: nat): (q: nat)
    requires b > 0
    ensures q <= a
  {
    CeilFits(a, b);
    if a % b == 0 then a / b else a / b + 1
  }

  lemma CeilFits(a: nat, b: nat)
    requires b > 0
    ensures 0 <= a / b <= a && (a % b != 0 ==> a / b + 1 <= a)
  {
    var q := a / b;
    Division(a, b);
    TimesAtLeast(q, b);
    assert q <= q * b <= a;
    if a % b != 0 {
      assert q * b != a;
    }
  }

  lemma TimesAtLeast(q: nat, b: nat)
    requires b > 0
    ensures q <= q * b
  {
    ProductNonNegative(q, b - 1);
    assert q * (b - 1) == q * b - q;
  }

  lemma CeilAtMost(a: nat, b: nat, q: int)
    requires b > 0
    ensures DivCeil(a, b) <= q <==> a <= q * b
  {
    var d := a / b;
    Division(a, b);
    if d < q {
      MulLe(d + 1, q, b);
    } else {
      MulLe(q, d, b);
    }
  }

  lemma DivisionUnique(a: nat, d: nat, q: nat)
    requires d > 0 && q * d <= a < (q + 1) * d
    ensures a / d == q
  {
    FloorAtLeast(a, d, q);
    FloorAtLeast(a, d, q + 1);
  }

  lemma QuotientBelow(r: nat, i: nat, a: nat)
    requires r > 0 && i > 0
    ensures 0 <= (r * a) / (i + a) < r
  {
    FloorAtLeast(r * a, i + a, r);
    assert r * (i + a) == r * i + r * a;
    assert r * i > 0;
  }

  // ---- The swap in the large

  /** What is left of the input after the fee. */
  function AfterFee(r: CpmmReserves, x: u128): nat {
    ProductNonNegative(x, r.Kept());
    x * r.Kept() / DENOMINATOR
  }

  /** A priced swap of a positive pool is the double floor, zero input included. */
  lemma PricedSwap(r: CpmmReserves, x: u128)
    requires r.Positive() && r.AmountOut(x).Some?
    ensures r.AmountOut(x).value == r.reserveOut * AfterFee(r, x) / (r.reserveIn + AfterFee(r, x))
  {
  }

  /** The output of a priced swap reaches `y` exactly when the input left after the fee
      reaches the ceiling the inverse computes first. */
  lemma OutputReaches(r: CpmmReserves, a: nat, y: u128)
    requires r.Positive() && 0 < y < r.reserveOut && r.reserveIn * y < TWO_TO_THE_128
    ensures (ProductNonNegative(r.reserveIn, y);
             r.reserveOut * a / (r.reserveIn + a) >= y <==> a >= DivCeil(r.reserveIn * y, r.reserveOut - y))
  {
    ProductNonNegative(r.reserveIn, y);
    ProductNonNegative(r.reserveOut, a);
    FloorAtLeast(r.reserveOut * a, r.reserveIn + a, y);
    assert y * (r.reserveIn + a) == y * r.reserveIn + y * a;
    assert a * (r.reserveOut - y) == r.reserveOut * a - y * a;
    CeilAtMost(r.reserveIn * y, r.reserveOut - y, a);
  }

  /** When a swap has no price: never for a degenerate one, otherwise for a fee above 100%
      or an intermediate result outside u128. */
  lemma SwapUnpriced(r: CpmmReserves, x: u128)
    ensures r.AmountOut(x).None? <==>
              && r.reserveIn > 0 && r.reserveOut > 0 && x > 0
              && (|| r.fee.points > DENOMINATOR
                  || x * r.Kept() >= TWO_TO_THE_128
                  || r.reserveOut * AfterFee(r, x) >= TWO_TO_THE_128
                  || r.reserveIn + AfterFee(r, x) >= TWO_TO_THE_128)
  {
  }

  /** The swap in unbounded arithmetic, any input allowed. */
  function CurveOut(r: CpmmReserves, x: nat): (out: nat)
    ensures out > 0 ==> r.Positive() && r.Kept() > 0 && out < r.reserveOut
  {
    ProductNonNegative(x, r.Kept());
    var a: nat := x * r.Kept() / DENOMINATOR;
    if r.reserveIn == 0 || r.reserveOut == 0 then 0
    else
      (QuotientBelow(r.reserveOut, r.reserveIn, a); ProductNonNegative(r.reserveOut, a);
       r.reserveOut * a / (r.reserveIn + a))
  }

  lemma SwapIsCurve(r: CpmmReserves, x: u128)
    requires r.AmountOut(x).Some?
    ensures r.AmountOut(x).value == CurveOut(r, x)
  {
    if r.Positive() {
      PricedSwap(r, x);
    }
  }

  /** A priced swap is the fee's floor followed by the constant product's floor. */
  lemma SwapIsDoubleFloor(r: CpmmReserves, x: u128) returns (a: nat)
    requires r.Positive() && r.AmountOut(x).Some?
    ensures a * 10_000 <= x * (10_000 - r.fee.points) < (a + 1) * 10_000
    ensures var out := r.AmountOut(x).value;
            out * (r.reserveIn + a) <= r.reserveOut * a < (out + 1) * (r.reserveIn + a)
  {
    a := AfterFee(r, x);
    ProductNonNegative(x, r.Kept());
    Division(x * r.Kept(), DENOMINATOR);
    PricedSwap(r, x);
    ProductNonNegative(r.reserveOut, a);
    Division(r.reserveOut * a, r.reserveIn + a);
  }

  /** The price of a swap from the products that bracket its two floors. */
  lemma SwapFigure(r: CpmmReserves, x: u128, a: nat, out: nat)
    requires r.Positive() && x > 0 && x * r.Kept() < TWO_TO_THE_128
    requires r.reserveOut * a < TWO_TO_THE_128 && r.reserveIn + a < TWO_TO_THE_128
    requires a * 10_000 <= x * r.Kept() < (a + 1) * 10_000
    requires out * (r.reserveIn + a) <= r.reserveOut * a < (out + 1) * (r.reserveIn + a)
    ensures r.AmountOut(x) == Some(out)
  {
    DivisionUnique(x * r.Kept(), DENOMINATOR, a);
    DivisionUnique(r.reserveOut * a, r.reserveIn + a, out);
    SwapUnpriced(r, x);
    PricedSwap(r, x);
  }

  /** The input the inverse asks for after the fee. */
  function Needed(r: CpmmReserves, y: u128): nat
    requires r.reserveIn * y < TWO_TO_THE_128 && y < r.reserveOut
  {
    ProductNonNegative(r.reserveIn, y);
    DivCeil(r.reserveIn * y, r.reserveOut - y)
  }

  /** Exact-input and exact-output swaps are adjoint: in unbounded arithmetic an input buys
      at least `y` exactly when it is at least the input quoted for `y`. */
  lemma CurvesAreAdjoint(r: CpmmReserves, x: nat, y: u128)
    requires 0 < y && r.AmountInForExactOut(y).Some?
    ensures CurveOut(r, x) >= y <==> x >= r.AmountInForExactOut(y).value
  {
    var f := r.Kept();
    ProductNonNegative(r.reserveIn, y);
    var a := Needed(r, y);
    ProductNonNegative(x, f);
    OutputReaches(r, x * f / DENOMINATOR, y);
    ProductNonNegative(a, DENOMINATOR);
    FloorAtLeast(x * f, DENOMINATOR, a);
    CeilAtMost(a * DENOMINATOR, f, x);
  }

  /** The same for the swaps themselves, where they are priced. */
  lemma SwapsAreAdjoint(r: CpmmReserves, x: u128, y: u128)
    requires 0 < y && r.AmountOut(x).Some? && r.AmountInForExactOut(y).Some?
    ensures r.AmountOut(x).value >= y <==> x >= r.AmountInForExactOut(y).value
  {
    SwapIsCurve(r, x);
    CurvesAreAdjoint(r, x, y);
  }

  /** Some input, however large, yields `y`. */
  ghost predicate Reachable(r: CpmmReserves, y: u128) {
    exists x: nat :: CurveOut(r, x) >= y
  }

  lemma ReachableExactly(r: CpmmReserves, y: u128)
    requires y > 0
    ensures Reachable(r, y) <==> r.Positive() && r.Kept() > 0 && y < r.reserveOut
  {
    if r.Positive() && r.Kept() > 0 && y < r.reserveOut {
      // enough after the fee is reserveIn * y, and enough before it that times 10000
      var f, a := r.Kept(), r.reserveIn * y;
      ProductNonNegative(r.reserveIn, y);
      ProductNonNegative(a, DENOMINATOR);
      var x: nat := a * DENOMINATOR;
      ProductNonNegative(x, f);
      MulLe(1, f, x);
      assert f * x == x * f && 1 * x == x;
      FloorAtLeast(x * f, DENOMINATOR, a);
      EnoughReaches(r.reserveIn, r.reserveOut, y, x * f / DENOMINATOR);
      assert CurveOut(r, x) >= y;
    }
  }

  lemma EnoughReaches(ri: nat, ro: nat, y: nat, a: nat)
    requires ri > 0 && y < ro && a >= ri * y
    ensures 0 <= ro * a && ro * a / (ri + a) >= y
  {
    ProductNonNegative(ro, a);
    MulLe(y + 1, ro, a);
    assert (y + 1) * a == y * a + a && y * (ri + a) == y * a + ri * y;
    FloorAtLeast(ro * a, ri + a, y);
  }

  /** A positive request is quoted exactly when some input yields it and the two products of
      the inverse fit u128; a request for nothing costs nothing. */
  lemma QuotedExactly(r: CpmmReserves, y: u128)
    ensures r.AmountInForExactOut(0) == Some(0)
    ensures y > 0 ==>
              (r.AmountInForExactOut(y).Some? <==>
                 && Reachable(r, y)
                 && r.reserveIn * y < TWO_TO_THE_128
                 && (ReachableExactly(r, y); Needed(r, y) * 10_000 < TWO_TO_THE_128))
  {
    if y > 0 {
      ReachableExactly(r, y);
      ProductNonNegative(r.reserveIn, y);
    }
  }

  /** Scaling by a share of at most one undoes the ceiling of dividing by it. */
  lemma CeilThenFloor(a: nat, f: nat, x: u128)
    requires 0 < f <= DENOMINATOR && a * DENOMINATOR < TWO_TO_THE_128
    requires (ProductNonNegative(a, DENOMINATOR); x == DivCeil(a * DENOMINATOR, f))
    ensures 0 <= x * f && x * f / DENOMINATOR == a
  {
    ProductNonNegative(a, DENOMINATOR);
    ProductNonNegative(x, f);
    CeilAtMost(a * DENOMINATOR, f, x);
    CeilAtMost(a * DENOMINATOR, f, x - 1);
    assert (x - 1) * f == x * f - f;
    FloorAtLeast(x * f, DENOMINATOR, a);
    FloorAtLeast(x * f, DENOMINATOR, a + 1);
  }

  /** The quoted input leaves after the fee exactly what the inverse asked for. */
  lemma QuoteLeavesNeeded(r: CpmmReserves, y: u128)
    requires r.Positive() && 0 < y < r.reserveOut && r.AmountInForExactOut(y).Some?
    ensures r.reserveIn * y < TWO_TO_THE_128
    ensures AfterFee(r, r.AmountInForExactOut(y).value) == Needed(r, y)
  {
    CeilThenFloor(Needed(r, y), r.Kept(), r.AmountInForExactOut(y).value);
  }

  /** The quoted input is at least 1 and one unit less does not clear the request. The quote
      itself clears it exactly when the swap can be priced there, that is when none of its
      three intermediate results leaves u128; otherwise the swap of the quote has no price. */
  lemma ExactOutRoundTrip(r: CpmmReserves, y: u128)
    requires r.Positive() && 0 < y < r.reserveOut && r.AmountInForExactOut(y).Some?
    ensures r.reserveIn * y < TWO_TO_THE_128
    ensures var x, a := r.AmountInForExactOut(y).value, Needed(r, y);
            && x >= 1
            && (r.AmountOut(x).Some? <==>
                  && x * r.Kept() < TWO_TO_THE_128
                  && r.reserveOut * a < TWO_TO_THE_128
                  && r.reserveIn + a < TWO_TO_THE_128)
            && (r.AmountOut(x).Some? ==> r.AmountOut(x).value >= y)
            && (r.AmountOut(x - 1).Some? ==> r.AmountOut(x - 1).value < y)
  {
    var x := r.AmountInForExactOut(y).value;
    QuoteLeavesNeeded(r, y);
    SwapsAreAdjoint(r, 0, y);
    SwapUnpriced(r, x);
    if r.AmountOut(x).Some? {
      SwapsAreAdjoint(r, x, y);
    }
    if r.AmountOut(x - 1).Some? {
      SwapsAreAdjoint(r, x - 1, y);
    }
  }

  /** A quote that buys nothing: draining all but one unit of a large reserve against a
      single unit is quoted, and the swap of that quote overflows. */
  lemma QuoteCanBeUnpriced(out: u128)
    requires TWO_TO_THE_64 < out && out * DENOMINATOR < TWO_TO_THE_128
    ensures var r := CpmmReserves(1, out, Bps(0));
            r.AmountInForExactOut(out - 1) == Some(out - 1) && r.AmountOut(out - 1).None?
  {
    var r := CpmmReserves(1, out, Bps(0));
    ExactOutOfOne(out - 1);
    MulLe(TWO_TO_THE_64, out - 1, out);
    MulLe(TWO_TO_THE_64, out, TWO_TO_THE_64);
    assert AfterFee(r, out - 1) == out - 1;
    assert (out - 1) * out == out * (out - 1) && TWO_TO_THE_64 * out == out * TWO_TO_THE_64;
    SwapUnpriced(r, out - 1);
  }

  lemma ExactOutOfOne(y: u128)
    requires y * DENOMINATOR < TWO_TO_THE_128
    ensures DivCeil(y, 1) == y && DivCeil(y * DENOMINATOR, DENOMINATOR) == y
  {
    CeilAtMost(y, 1, y - 1);
    CeilAtMost(y * DENOMINATOR, DENOMINATOR, y);
    CeilAtMost(y * DENOMINATOR, DENOMINATOR, y - 1);
  }

  lemma CeilMonotone(a: nat, b: nat, a': nat, b': nat)
    requires 0 < b' <= b && a <= a'
    ensures DivCeil(a, b) <= DivCeil(a', b')
  {
    var q := DivCeil(a', b');
    CeilAtMost(a', b', q);
    MulLe(b', b, q);
    assert q * b' == b' * q && q * b == b * q;
    CeilAtMost(a, b, q);
  }

  /** A request that can be quoted can be quoted for every smaller one, at no more input. */
  lemma ExactOutMonotone(r: CpmmReserves, y: u128, y': u128)
    requires y <= y' && r.AmountInForExactOut(y').Some?
    ensures r.AmountInForExactOut(y).Some?
    ensures r.AmountInForExactOut(y).value <= r.AmountInForExactOut(y').value
  {
    if 0 < y {
      var f := r.Kept();
      MulLe(y, y', r.reserveIn);
      assert y * r.reserveIn == r.reserveIn * y && y' * r.reserveIn == r.reserveIn * y';
      ProductNonNegative(r.reserveIn, y);
      CeilMonotone(r.reserveIn * y, r.reserveOut - y, r.reserveIn * y', r.reserveOut - y');
      var a, a' := Needed(r, y), Needed(r, y');
      ProductNonNegative(a, DENOMINATOR);
      MulLe(a, a', DENOMINATOR);
      CeilMonotone(a * DENOMINATOR, f, a' * DENOMINATOR, f);
    }
  }

  // ---- Order

  lemma FloorMonotone(a: nat, b: nat, d: nat)
    requires d > 0 && a <= b
    ensures a / d <= b / d
  {
    FloorAtLeast(b, d, a / d);
    FloorAtLeast(a, d, a / d);
  }

  /** `r*a/(i+a)` grows with `a`. */
  lemma CurveMonotone(r: nat, i: nat, a: nat, b: nat)
    requires i > 0 && a <= b
    ensures 0 <= r * a && 0 <= r * b
    ensures r * a / (i + a) <= r * b / (i + b)
  {
    ProductNonNegative(r, a);
    ProductNonNegative(r, b);
    var q := r * a / (i + a);
    if r > 0 {
      QuotientBelow(r, i, a);
    }
    FloorAtLeast(r * a, i + a, q);
    CurveStep(r, i, a, b, q);
    FloorAtLeast(r * b, i + b, q);
  }

  lemma CurveStep(r: nat, i: nat, a: nat, b: nat, q: nat)
    requires a <= b && q <= r && r * a >= q * (i + a)
    ensures r * b >= q * (i + b)
  {
    ProductNonNegative(r - q, b - a);
    assert (r - q) * (b - a) == r * b - r * a - (q * (i + b) - q * (i + a));
  }

  /** A swap that can be priced can be priced for every smaller input, for no more output. */
  lemma SwapMonotone(r: CpmmReserves, x: u128, y: u128)
    requires x <= y && r.AmountOut(y).Some?
    ensures r.AmountOut(x).Some? && r.AmountOut(x).value <= r.AmountOut(y).value
  {
    if r.reserveIn > 0 && r.reserveOut > 0 && x > 0 {
      var f := r.Kept();
      ProductNonNegative(x, f);
      assert x * f <= y * f by { ProductNonNegative(y - x, f); assert (y - x) * f == y * f - x * f; }
      FloorMonotone(x * f, y * f, DENOMINATOR);
      var a, b := x * f / DENOMINATOR, y * f / DENOMINATOR;
      assert r.reserveOut * a <= r.reserveOut * b by {
        ProductNonNegative(r.reserveOut, b - a);
        assert r.reserveOut * (b - a) == r.reserveOut * b - r.reserveOut * a;
      }
      CurveMonotone(r.reserveOut, r.reserveIn, a, b);
    }
  }

  // ---- Chains of swaps

  /** Output of the legs in order, each fed the previous leg's output. */
  function CycleOutput(legs: seq<CpmmReserves>, input: u128): Option<u128> {
    if legs == [] then Some(input)
    else
      match CycleOutput(legs[..|legs|-1], input)
      case None => None
      case Some(amount) => legs[|legs|-1].AmountOut(amount)
  }

  lemma OneLegChain(leg: CpmmReserves, x: u128)
    ensures CycleOutput([leg], x) == leg.AmountOut(x)
  {
    assert [leg][..0] == [] && CycleOutput([], x) == Some(x);
  }

  /** Chains compose: the legs of `a` and then those of `b`. */
  lemma {:induction false} CycleComposes(a: seq<CpmmReserves>, b: seq<CpmmReserves>, x: u128)
    ensures CycleOutput([], x) == Some(x)
    ensures CycleOutput(a + b, x)
            == match CycleOutput(a, x) case None => None case Some(amount) => CycleOutput(b, amount)
  {
    if b == [] {
      assert a + b == a;
    } else {
      var init := b[..|b|-1];
      CycleComposes(a, init, x);
      assert (a + b)[..|a+b|-1] == a + init;
    }
  }

  method ComputeCycleOutput(legs: seq<CpmmReserves>, input: u128) returns (output: Option<u128>)
    ensures output == CycleOutput(legs, input)
  {
    var amount := input;
    for i := 0 to |legs|
      invariant CycleOutput(legs[..i], input) == Some(amount)
    {
      assert legs[..i+1][..i] == legs[..i];
      var out := legs[i].AmountOut(amount);
      if out.None? {
        UnpricedStays(legs, i + 1, input);
        return None;
      }
      amount := out.value;
    }
    assert legs[..|legs|] == legs;
    return Some(amount);
  }

  lemma {:induction false} UnpricedStays(legs: seq<CpmmReserves>, i: nat, input: u128)
    requires i <= |legs| && CycleOutput(legs[..i], input).None?
    ensures CycleOutput(legs, input).None?
  {
    if i == |legs| {
      assert legs[..i] == legs;
    } else {
      assert legs[..|legs|-1][..i] == legs[..i];
      UnpricedStays(legs[..|legs|-1], i, input);
    }
  }

  /** Feasibility is downward closed along a whole cycle, and output follows input. */
  lemma {:induction false} CycleMonotone(legs: seq<CpmmReserves>, x: u128, y: u128)
    requires x <= y && CycleOutput(legs, y).Some?
    ensures CycleOutput(legs, x).Some? && CycleOutput(legs, x).value <= CycleOutput(legs, y).value
  {
    if legs == [] {
    } else {
      var init := legs[..|legs|-1];
      CycleMonotone(init, x, y);
      SwapMonotone(legs[|legs|-1], CycleOutput(init, x).value, CycleOutput(init, y).value);
    }
  }
}
