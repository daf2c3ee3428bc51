/** Closed forms for whole cycles: the curve x -> A*x/(B + C*x) that a chain of floored
    swaps never exceeds, and how far below it the floors can push the output. */
module Moebius {
  import opened Domain
  import opened Amm
  import opened Concavity

  /** The map x -> a*x/(b + c*x). */
  datatype Curve = Curve(a: nat, b: nat, c: nat)

  ghost function Composed(m: Curve, leg: CpmmReserves): Curve {
    var f := leg.Kept();
    ProductNonNegative(leg.reserveOut, f);
    ProductNonNegative(leg.reserveOut * f, m.a);
    ProductNonNegative(leg.reserveIn * DENOMINATOR, m.b);
    ProductNonNegative(leg.reserveIn * DENOMINATOR, m.c);
    ProductNonNegative(f, m.a);
    Curve(leg.reserveOut * f * m.a, leg.reserveIn * DENOMINATOR * m.b, leg.reserveIn * DENOMINATOR * m.c + f * m.a)
  }

  /** The legs folded from the identity curve, in execution order. */
  ghost function Folded(legs: seq<CpmmReserves>): Curve {
    if legs == [] then Curve(1, 1, 0)
    else Composed(Folded(legs[..|legs|-1]), legs[|legs|-1])
  }

  /** The coefficients of one more leg, and those of none. */
  lemma FoldStep(legs: seq<CpmmReserves>, leg: CpmmReserves)
    ensures Folded([]) == Curve(1, 1, 0)
    ensures var m, k, f := Folded(legs), Folded(legs + [leg]), leg.Kept();
            && k.a == leg.reserveOut * f * m.a
            && k.b == leg.reserveIn * 10_000 * m.b
            && k.c == leg.reserveIn * 10_000 * m.c + f * m.a
  {
    assert (legs + [leg])[..|legs|] == legs;
  }

  // ---- Upper bound, in integers

  /** One floored swap stays on or below its rational curve. */
  lemma SwapBelowCurve(leg: CpmmReserves, y: u128)
    requires leg.AmountOut(y).Some?
    ensures leg.AmountOut(y).value * (leg.reserveIn * DENOMINATOR + leg.Kept() * y) <= leg.reserveOut * (leg.Kept() * y)
  {
    var ri, ro, f := leg.reserveIn, leg.reserveOut, leg.Kept();
    var out := leg.AmountOut(y).value;
    ProductNonNegative(f, y);
    ProductNonNegative(ro, f * y);
    if ri > 0 && ro > 0 && y > 0 {
      ProductNonNegative(y, f);
      var a := y * f / DENOMINATOR;
      ProductNonNegative(ro, a);
      FloorAtLeast(ro * a, ri + a, out);
      FloorAtLeast(y * f, DENOMINATOR, a);
      FloorsBelowCurve(out, ri, ro, a, y * f);
      assert f * y == y * f;
    }
  }

  lemma FloorsBelowCurve(out: nat, ri: nat, ro: nat, a: nat, t: nat)
    requires out * (ri + a) <= ro * a && out <= ro && a * DENOMINATOR <= t
    ensures out * (ri * DENOMINATOR + t) <= ro * t
  {
    var rem := t - a * DENOMINATOR;
    assert out * rem <= ro * rem by { MulLe(out, ro, rem); }
    assert out * (ri * DENOMINATOR + t) == out * (ri + a) * DENOMINATOR + out * rem;
    assert ro * t == ro * a * DENOMINATOR + ro * rem;
  }

  /** Composing bounds: if y is below A*x/P and `out` below the leg's curve at y, then
      `out` is below the leg's curve at A*x/P. */
  lemma ComposeBounds(out: nat, ro: nat, rd: nat, f: nat, y: nat, p: nat, ax: nat)
    requires y * p <= ax && out <= ro
    requires out * (rd + f * y) <= ro * (f * y)
    ensures out * (rd * p + f * ax) <= ro * f * ax
  {
    var gap := ro - out;
    var fax := f * ax;
    GapBound(out, ro, rd, f * y);
    ProductNonNegative(f, y);
    ProductNonNegative(f, ax);
    ProductNonNegative(gap, f);
    MulLe(out * rd, gap * (f * y), p);
    Regroup(gap, f, y, p);
    MulLe(y * p, ax, gap * f);
    Regroup(gap, f, ax, 1);
    assert ax * (gap * f) == gap * fax && (y * p) * (gap * f) == (gap * f) * (y * p);
    assert (out * rd) * p <= gap * fax;
    assert gap * fax == ro * fax - out * fax;
    assert out * (rd * p + fax) == (out * rd) * p + out * fax;
    assert ro * f * ax == ro * fax;
  }

  lemma GapBound(out: nat, ro: nat, rd: nat, t: int)
    requires out <= ro && out * (rd + t) <= ro * t
    ensures out * rd <= (ro - out) * t
  {
    assert out * (rd + t) == out * rd + out * t;
    assert (ro - out) * t == ro * t - out * t;
  }

  lemma Regroup(a: int, b: int, c: int, d: int)
    ensures (a * (b * c)) * d == (a * b) * (c * d)
  {
  }

  /** Every priced cycle stays on or below its folded curve. */
  lemma {:induction false} CycleBelowCurve(legs: seq<CpmmReserves>, x: u128)
    requires CycleOutput(legs, x).Some?
    ensures var m := Folded(legs); CycleOutput(legs, x).value * (m.b + m.c * x) <= m.a * x
  {
    if legs == [] {
    } else {
      var init, leg := legs[..|legs|-1], legs[|legs|-1];
      CycleBelowCurve(init, x);
      var m, f := Folded(init), leg.Kept();
      var y, out := CycleOutput(init, x).value, CycleOutput(legs, x).value;
      SwapBelowCurve(leg, y);
      ProductNonNegative(m.c, x);
      ProductNonNegative(m.a, x);
      ComposeBounds(out, leg.reserveOut, leg.reserveIn * DENOMINATOR, f, y, m.b + m.c * x, m.a * x);
      ComposedAt(m, leg, x);
    }
  }

  /** The composed curve cleared of denominators at `x`. */
  lemma ComposedAt(m: Curve, leg: CpmmReserves, x: nat)
    ensures var k, rd, f := Composed(m, leg), leg.reserveIn * DENOMINATOR, leg.Kept();
            && rd * (m.b + m.c * x) + f * (m.a * x) == k.b + k.c * x
            && leg.reserveOut * f * (m.a * x) == k.a * x
            && leg.reserveOut * (f * (m.a * x)) == k.a * x
  {
    var rd, f := leg.reserveIn * DENOMINATOR, leg.Kept();
    assert rd * (m.b + m.c * x) == rd * m.b + rd * m.c * x;
    assert f * (m.a * x) == f * m.a * x;
    assert (rd * m.c + f * m.a) * x == rd * m.c * x + f * m.a * x;
  }

  /** A folded curve without a constant term means some leg had an empty input reserve,
      and then nothing comes out. */
  lemma {:induction false} EmptyReserveYieldsNothing(legs: seq<CpmmReserves>, x: u128)
    requires CycleOutput(legs, x).Some? && Folded(legs).b == 0
    ensures CycleOutput(legs, x).value == 0
  {
    if legs == [] {
    } else {
      var init, leg := legs[..|legs|-1], legs[|legs|-1];
      if Folded(init).b == 0 {
        EmptyReserveYieldsNothing(init, x);
      } else {
        NonZeroProduct(leg.reserveIn * DENOMINATOR, Folded(init).b);
      }
    }
  }

  lemma NonZeroProduct(p: nat, q: nat)
    requires q > 0 && p * q == 0
    ensures p == 0
  {
  }

  /** A profitable size lies strictly below the break-even point of the folded curve. */
  lemma ProfitableSizeBound(legs: seq<CpmmReserves>, x: u128)
    requires CycleOutput(legs, x).Some? && CycleOutput(legs, x).value > x
    ensures var m := Folded(legs); m.c * x < m.a - m.b
  {
    var m, out := Folded(legs), CycleOutput(legs, x).value;
    CycleBelowCurve(legs, x);
    if m.b == 0 {
      EmptyReserveYieldsNothing(legs, x);
    }
    ProductNonNegative(m.c, x);
    var p := m.b + m.c * x;
    MulLe(1, out, p);
    assert x > 0;
    MulLe(x + 1, out, p);
    assert (x + 1) * p == x * p + p;
    assert x * p < x * m.a by { assert m.a * x == x * m.a; }
    if p >= m.a {
      MulLe(m.a, p, x);
    }
  }

  // ---- Lower bound, in reals

  ghost predicate PositiveLegs(legs: seq<CpmmReserves>) {
    forall i :: 0 <= i < |legs| ==> legs[i].Positive()
  }

  /** A cycle that yields anything at all has positive legs. */
  lemma {:induction false} YieldNeedsPositiveLegs(legs: seq<CpmmReserves>, x: u128)
    requires CycleOutput(legs, x).Some? && CycleOutput(legs, x).value > 0
    ensures PositiveLegs(legs)
  {
    if legs == [] {
    } else {
      var init, leg := legs[..|legs|-1], legs[|legs|-1];
      assert leg.Positive() && CycleOutput(init, x).value > 0;
      YieldNeedsPositiveLegs(init, x);
      assert legs == init + [leg];
    }
  }

  /** The curve r*t/(i + t). */
  ghost function Psi(r: real, i: real, t: real): real
    requires i > 0.0 && t >= 0.0
  {
    r * t / (i + t)
  }

  /** The fraction of the input a leg keeps after its fee. */
  ghost function Share(leg: CpmmReserves): (g: real)
    ensures g >= 0.0
  {
    leg.Kept() as real / DENOMINATOR as real
  }

  /** A leg's curve at a real input. */
  ghost function LegCurve(leg: CpmmReserves, z: real): real
    requires leg.Positive() && z >= 0.0
  {
    FeeCurve(leg.reserveOut as real, leg.reserveIn as real, Share(leg), z)
  }

  /** The curve applied to the share `g` of the input. */
  ghost function FeeCurve(r: real, i: real, g: real, z: real): real
    requires i > 0.0 && g >= 0.0 && z >= 0.0
  {
    NonNegativeProduct(z, g);
    Psi(r, i, z * g)
  }

  /** How a shortfall `e` of the input grows through a leg: (rout/rin)*(f/D*e + 1) + 1. */
  ghost function LegSlack(leg: CpmmReserves, e: real): real
    requires leg.Positive()
  {
    NextSlack(leg.reserveOut as real, leg.reserveIn as real, Share(leg), e)
  }

  ghost function NextSlack(r: real, i: real, g: real, e: real): real
    requires i > 0.0
  {
    Spread(r, i, g * e + 1.0) + 1.0
  }

  /** The steepest rise of r*t/(i + t) over a distance `d`. */
  ghost function Spread(r: real, i: real, d: real): real
    requires i > 0.0
  {
    r / i * d
  }

  lemma NonNegativeProduct(p: real, q: real)
    requires p >= 0.0 && q >= 0.0
    ensures p * q >= 0.0
  {
  }

  /** How much the floors of the chain can cost. */
  ghost function Slack(legs: seq<CpmmReserves>): (e: real)
    requires PositiveLegs(legs)
  {
    if legs == [] then 0.0
    else LegSlack(legs[|legs|-1], Slack(legs[..|legs|-1]))
  }

  /** The slack of one more leg, and that of none. */
  lemma SlackStep(legs: seq<CpmmReserves>, leg: CpmmReserves)
    requires PositiveLegs(legs) && leg.Positive()
    ensures PositiveLegs(legs + [leg]) && Slack([]) == 0.0
    ensures Slack(legs + [leg])
            == (leg.reserveOut as real / leg.reserveIn as real)
               * ((leg.Kept() as real / 10_000.0) * Slack(legs) + 1.0) + 1.0
  {
    assert (legs + [leg])[..|legs|] == legs;
  }

  /** The folded curve at a real point. */
  ghost function Envelope(m: Curve, x: real): real
    requires m.b > 0 && x >= 0.0
  {
    CurveDenominator(m, x);
    m.a as real * x / (m.b as real + m.c as real * x)
  }

  lemma CurveDenominator(m: Curve, x: real)
    requires m.b > 0 && x >= 0.0
    ensures m.c as real * x >= 0.0 && m.b as real + m.c as real * x > 0.0
  {
  }

  lemma QuotientTimes(x: real, y: real)
    requires y != 0.0
    ensures (x / y) * y == x
  {
  }

  lemma RealMulLe(x: real, y: real, k: real)
    requires x <= y && k >= 0.0
    ensures x * k <= y * k
  {
    assert (y - x) * k >= 0.0;
    assert (y - x) * k == y * k - x * k;
  }

  lemma RealMulCancel(x: real, y: real, k: real)
    requires k > 0.0 && x * k <= y * k
    ensures x <= y
  {
    assert (x - y) * k <= 0.0;
  }

  /** The slope of r*t/(i + t) never exceeds r/i; stated for the cleared values. */
  lemma PsiGap(r: real, i: real, s: real, t: real, p: real, q: real)
    requires i > 0.0 && r >= 0.0 && 0.0 <= s <= t
    requires p * (i + t) == r * t && q * (i + s) == r * s
    ensures i * (p - q) <= r * (t - s)
  {
    RealMulCancel(p, r, i + t) by {
      RealMulLe(0.0, r, i);
      assert r * (i + t) == r * i + r * t;
      assert p * (i + t) <= r * (i + t);
    }
    RealMulCancel(0.0, q, i + s) by {
      RealMulLe(0.0, r, s);
    }
    RealMulCancel(q, p, i + s) by {
      assert p * (i + s) == p * (i + t) - p * (t - s);
      RealMulLe(p, r, t - s);
      assert r * t == r * s + r * (t - s);
    }
    RealMulLe(q, p, s);
    RealMulLe(s, t, p);
    assert p * (i + t) - q * (i + s) == i * (p - q) + (t * p - q * s);
  }

  lemma PsiLipschitz(r: real, i: real, s: real, t: real)
    requires i > 0.0 && r >= 0.0 && 0.0 <= s <= t
    ensures Psi(r, i, t) - Psi(r, i, s) <= r / i * (t - s)
  {
    var p, q := Psi(r, i, t), Psi(r, i, s);
    QuotientTimes(r * t, i + t);
    QuotientTimes(r * s, i + s);
    PsiGap(r, i, s, t, p, q);
    QuotientTimes(r, i);
    var k := r / i * (t - s);
    assert k * i == (r / i) * i * (t - s);
    RealMulCancel(p - q, k, i);
  }

  lemma FloorAbove(n: nat, d: nat)
    requires d > 0
    ensures n as real / d as real - 1.0 < (n / d) as real
  {
    Division(n, d);
    var q := n as real / d as real;
    QuotientTimes(n as real, d as real);
    var up := (n / d) as real + 1.0;
    assert ((n / d + 1) * d) as real == up * d as real;
    if up <= q {
      RealMulLe(up, q, d as real);
    }
  }

  /** The after-fee amount is at most, and within one unit of, the exact fraction. */
  lemma AfterFeeNear(leg: CpmmReserves, y: u128)
    ensures y as real * Share(leg) - 1.0 < AfterFee(leg, y) as real <= y as real * Share(leg)
  {
    var n := y * leg.Kept();
    ProductNonNegative(y, leg.Kept());
    FloorAbove(n, DENOMINATOR);
    Division(n, DENOMINATOR);
    assert n as real == y as real * leg.Kept() as real;
    assert n as real / DENOMINATOR as real == y as real * (leg.Kept() as real / DENOMINATOR as real);
  }

  /** One floored swap: an input at most `e` below `z` comes out at most the next slack
      below the curve at `z`. */
  lemma SwapNearCurve(leg: CpmmReserves, y: u128, z: real, e: real)
    requires leg.Positive() && leg.AmountOut(y).Some?
    requires e >= 0.0 && z - e <= y as real <= z
    ensures leg.AmountOut(y).value as real >= LegCurve(leg, z) - LegSlack(leg, e)
  {
    PricedSwap(leg, y);
    AfterFeeNear(leg, y);
    NearCurve(leg.AmountOut(y).value, leg.reserveOut, leg.reserveIn, AfterFee(leg, y), Share(leg), y as real, z, e);
  }

  lemma NearCurve(out: int, ro: nat, ri: nat, a: nat, g: real, y: real, z: real, e: real)
    requires ri > 0 && out == ro * a / (ri + a)
    requires g >= 0.0 && e >= 0.0 && 0.0 <= y && z - e <= y <= z
    requires y * g - 1.0 < a as real <= y * g
    ensures out as real >= FeeCurve(ro as real, ri as real, g, z) - NextSlack(ro as real, ri as real, g, e)
  {
    AfterFeeSpread(y, z, e, g, a as real);
    FloorNearPsi(out, ro, ri, a);
    PsiSpread(ro as real, ri as real, a as real, z * g, g * e + 1.0);
    AddSlack(out as real, Psi(ro as real, ri as real, a as real), ro as real, ri as real, g, z, e);
  }

  lemma AddSlack(out: real, near: real, r: real, i: real, g: real, z: real, e: real)
    requires i > 0.0 && g >= 0.0 && z >= 0.0 && z * g >= 0.0
    requires out > near - 1.0 && near >= Psi(r, i, z * g) - Spread(r, i, g * e + 1.0)
    ensures out >= FeeCurve(r, i, g, z) - NextSlack(r, i, g, e)
  {
  }

  lemma AfterFeeSpread(y: real, z: real, e: real, g: real, a: real)
    requires g >= 0.0 && 0.0 <= y && z - e <= y <= z && y * g - 1.0 < a <= y * g
    ensures a <= z * g && z * g - a <= g * e + 1.0
  {
    RealMulLe(y, z, g);
    RealMulLe(z - e, y, g);
    assert (z - e) * g == z * g - g * e;
  }

  lemma FloorNearPsi(out: int, ro: nat, ri: nat, a: nat)
    requires ri > 0 && out == ro * a / (ri + a)
    ensures out as real > Psi(ro as real, ri as real, a as real) - 1.0
  {
    ProductNonNegative(ro, a);
    FloorAbove(ro * a, ri + a);
    RealOfProduct(ro, a);
  }

  lemma PsiSpread(r: real, i: real, s: real, t: real, spread: real)
    requires i > 0.0 && r >= 0.0 && 0.0 <= s <= t && t - s <= spread
    ensures Psi(r, i, s) >= Psi(r, i, t) - Spread(r, i, spread)
  {
    PsiLipschitz(r, i, s, t);
    assert r / i >= 0.0;
    RealMulLe(t - s, spread, r / i);
    assert (t - s) * (r / i) == r / i * (t - s);
    assert spread * (r / i) == r / i * spread;
  }

  /** r*t/(i + t) at t = z*(f/d) with z*p = ax, cleared of the inner fractions. */
  lemma NestedFractions(r: real, i: real, f: real, d: real, z: real, p: real, ax: real, t: real, v: real)
    requires i > 0.0 && d > 0.0 && p > 0.0 && r >= 0.0 && f >= 0.0 && z >= 0.0
    requires z * p == ax && t * d == z * f && t >= 0.0 && v * (i + t) == r * t
    ensures v * (i * d * p + f * ax) == r * (f * ax)
    ensures i * d * p + f * ax > 0.0
  {
    var pd, fax := p * d, f * ax;
    assert t * pd == fax by {
      assert t * pd == (t * d) * p;
      assert (z * f) * p == f * (z * p);
    }
    NonNegativeProduct(z, p);
    NonNegativeProduct(f, ax);
    assert pd > 0.0;
    assert i * pd > 0.0;
    assert i * d * p == i * pd;
    assert v * (i * pd + t * pd) == (v * (i + t)) * pd;
    assert (r * t) * pd == r * (t * pd);
  }

  /** Numerator and denominator of a leg's curve at ax/p. */
  ghost predicate LegFraction(leg: CpmmReserves, p: real, ax: real, num: real, den: real) {
    && den == leg.reserveIn as real * DENOMINATOR as real * p + leg.Kept() as real * ax
    && num == leg.reserveOut as real * (leg.Kept() as real * ax)
  }

  /** A leg's curve at z, cleared of its denominator, when z*p = ax. */
  lemma LegCurveCleared(leg: CpmmReserves, z: real, p: real, ax: real) returns (num: real, den: real)
    requires leg.Positive() && z >= 0.0 && p > 0.0 && z * p == ax
    ensures LegFraction(leg, p, ax, num, den) && den > 0.0
    ensures LegCurve(leg, z) * den == num
  {
    var r, i := leg.reserveOut as real, leg.reserveIn as real;
    var f, d := leg.Kept() as real, DENOMINATOR as real;
    var t := z * Share(leg);
    NonNegativeProduct(z, Share(leg));
    QuotientTimes(f, d);
    assert t * d == z * f by {
      assert t * d == z * (Share(leg) * d);
    }
    var v := LegCurve(leg, z);
    QuotientTimes(r * t, i + t);
    NestedFractions(r, i, f, d, z, p, ax, t, v);
    num, den := r * (f * ax), i * d * p + f * ax;
  }

  /** The coefficients `k` are those of the leg after `m`, read at `x`. */
  ghost predicate ComposesAt(k: Curve, m: Curve, leg: CpmmReserves, x: real) {
    var f, d := leg.Kept() as real, DENOMINATOR as real;
    && leg.reserveIn as real * d * (m.b as real + m.c as real * x) + f * (m.a as real * x)
       == k.b as real + k.c as real * x
    && leg.reserveOut as real * (f * (m.a as real * x)) == k.a as real * x
  }

  lemma EnvelopesAgree(k: Curve, m: Curve, leg: CpmmReserves, x: real)
    requires m.b > 0 && k.b > 0 && leg.Positive() && x >= 0.0 && ComposesAt(k, m, leg, x)
    ensures Envelope(m, x) >= 0.0 && LegCurve(leg, Envelope(m, x)) == Envelope(k, x)
  {
    EnvelopeNonNegative(m, x);
    var p, z := EnvelopeCleared(m, x);
    var num, den := LegCurveCleared(leg, z, p, m.a as real * x);
    var dk, pk := EnvelopeCleared(k, x);
    ComposedFraction(k, m, leg, x, p, num, den);
    EqualQuotients(LegCurve(leg, z), pk, num, den, dk);
  }

  lemma ComposedFraction(k: Curve, m: Curve, leg: CpmmReserves, x: real, p: real, num: real, den: real)
    requires ComposesAt(k, m, leg, x) && p == m.b as real + m.c as real * x
    requires LegFraction(leg, p, m.a as real * x, num, den)
    ensures den == k.b as real + k.c as real * x && num == k.a as real * x
  {
  }

  /** Feeding the folded curve into the next leg's curve is the composed curve. */
  lemma EnvelopeComposes(m: Curve, leg: CpmmReserves, x: nat)
    requires m.b > 0 && leg.Positive()
    ensures Composed(m, leg).b > 0
    ensures Envelope(m, x as real) >= 0.0
    ensures LegCurve(leg, Envelope(m, x as real)) == Envelope(Composed(m, leg), x as real)
  {
    ComposedKeepsConstant(m, leg);
    ComposedAtReal(m, leg, x);
    EnvelopesAgree(Composed(m, leg), m, leg, x as real);
  }

  lemma EnvelopeNonNegative(m: Curve, x: real)
    requires m.b > 0 && x >= 0.0
    ensures Envelope(m, x) >= 0.0
  {
    CurveDenominator(m, x);
    NonNegativeProduct(m.a as real, x);
  }

  lemma EqualQuotients(v: real, w: real, num: real, den: real, den': real)
    requires den > 0.0 && den == den' && v * den == num && w * den' == num
    ensures v == w
  {
    assert (v - w) * den == 0.0;
  }

  lemma ComposedKeepsConstant(m: Curve, leg: CpmmReserves)
    requires m.b > 0 && leg.reserveIn > 0
    ensures Composed(m, leg).b > 0
  {
    if Composed(m, leg).b == 0 {
      NonZeroProduct(leg.reserveIn * DENOMINATOR, m.b);
    }
  }

  lemma ComposedAtReal(m: Curve, leg: CpmmReserves, x: nat)
    ensures ComposesAt(Composed(m, leg), m, leg, x as real)
  {
    var k, f, rd := Composed(m, leg), leg.Kept(), leg.reserveIn * DENOMINATOR;
    ComposedAt(m, leg, x);
    RealOfProduct(m.c, x);
    RealOfProduct(m.a, x);
    RealOfProduct(k.c, x);
    RealOfProduct(k.a, x);
    RealOfProduct(leg.reserveIn, DENOMINATOR);
    RealOfProduct(rd, m.b + m.c * x);
    RealOfProduct(f, m.a * x);
    RealOfProduct(leg.reserveOut, f * (m.a * x));
  }

  lemma RealOfProduct(p: int, q: int)
    ensures (p * q) as real == p as real * q as real
  {
  }

  /** Positive legs keep the folded curve's constant term. */
  lemma {:induction false} PositiveLegsKeepConstant(legs: seq<CpmmReserves>)
    requires PositiveLegs(legs)
    ensures Folded(legs).b > 0 && Slack(legs) >= 0.0
  {
    if legs == [] {
    } else {
      var init, leg := legs[..|legs|-1], legs[|legs|-1];
      PositiveLegsKeepConstant(init);
      ComposedKeepsConstant(Folded(init), leg);
      SlackNonNegative(leg.reserveOut as real, leg.reserveIn as real, Share(leg), Slack(init));
    }
  }

  lemma SlackNonNegative(r: real, i: real, g: real, e: real)
    requires r >= 0.0 && i > 0.0 && g >= 0.0 && e >= 0.0
    ensures NextSlack(r, i, g, e) >= 0.0
  {
    NonNegativeProduct(g, e);
    assert r / i >= 0.0;
    NonNegativeProduct(r / i, g * e + 1.0);
  }

  /** The integer upper bound read as a real one. */
  lemma CycleBelowEnvelope(legs: seq<CpmmReserves>, x: u128)
    requires PositiveLegs(legs) && CycleOutput(legs, x).Some?
    ensures Folded(legs).b > 0
    ensures CycleOutput(legs, x).value as real <= Envelope(Folded(legs), x as real)
  {
    PositiveLegsKeepConstant(legs);
    CycleBelowCurve(legs, x);
    ClearedBound(Folded(legs), x, CycleOutput(legs, x).value);
  }

  lemma ClearedBound(m: Curve, x: nat, out: nat)
    requires m.b > 0 && out * (m.b + m.c * x) <= m.a * x
    ensures out as real <= Envelope(m, x as real)
  {
    var den := m.b as real + m.c as real * x as real;
    RealOfProduct(m.c, x);
    RealOfProduct(m.a, x);
    RealOfProduct(out, m.b + m.c * x);
    CurveDenominator(m, x as real);
    QuotientTimes(m.a as real * x as real, den);
    RealMulCancel(out as real, Envelope(m, x as real), den);
  }

  /** Every priced cycle of positive legs comes within its slack of the folded curve. */
  lemma {:induction false} CycleNearEnvelope(legs: seq<CpmmReserves>, x: u128)
    requires PositiveLegs(legs) && CycleOutput(legs, x).Some?
    ensures Folded(legs).b > 0
    ensures CycleOutput(legs, x).value as real >= Envelope(Folded(legs), x as real) - Slack(legs)
  {
    PositiveLegsKeepConstant(legs);
    if legs == [] {
      assert Envelope(Curve(1, 1, 0), x as real) == x as real;
    } else {
      var init, leg := legs[..|legs|-1], legs[|legs|-1];
      PositiveLegsKeepConstant(init);
      CycleNearEnvelope(init, x);
      CycleBelowEnvelope(init, x);
      EnvelopeComposes(Folded(init), leg, x);
      SwapNearCurve(leg, CycleOutput(init, x).value, Envelope(Folded(init), x as real), Slack(init));
    }
  }

  // ---- Concavity

  /** The envelope's gross profit, the curve minus the input. */
  ghost function GrossEnvelope(m: Curve, x: int): real
    requires m.b > 0 && x >= 0
  {
    Envelope(m, x as real) - x as real
  }

  /** Slopes of the gross profit's envelope fall: three points in order. */
  lemma EnvelopeConcave(m: Curve, x: int, y: int, z: int)
    requires m.b > 0 && 0 <= x < y < z
    ensures FallingSlopes(GrossEnvelope(m, x), GrossEnvelope(m, y), GrossEnvelope(m, z),
                          x as real, y as real, z as real)
  {
    var xr, yr, zr := x as real, y as real, z as real;
    EnvelopeSlopesFall(m, xr, yr, zr);
    MinusLine(Envelope(m, xr), Envelope(m, yr), Envelope(m, zr), xr, yr, zr, 1.0, 0.0);
  }

  lemma EnvelopeSlopesFall(m: Curve, x: real, y: real, z: real)
    requires m.b > 0 && 0.0 <= x < y < z
    ensures FallingSlopes(Envelope(m, x), Envelope(m, y), Envelope(m, z), x, y, z)
  {
    var a, b, c := m.a as real, m.b as real, m.c as real;
    var dx, p := EnvelopeCleared(m, x);
    var dy, q := EnvelopeCleared(m, y);
    var dz, s := EnvelopeCleared(m, z);
    CurveConcave(a, b, c, x, y, z, dx, dy, dz, p, q, s);
  }

  /** A point of the curve with its denominator, free of divisions. */
  ghost predicate OnCurve(a: real, b: real, c: real, x: real, d: real, p: real) {
    d == b + c * x && d > 0.0 && p * d == a * x
  }

  lemma EnvelopeCleared(m: Curve, x: real) returns (d: real, p: real)
    requires m.b > 0 && x >= 0.0
    ensures OnCurve(m.a as real, m.b as real, m.c as real, x, d, p)
    ensures p == Envelope(m, x)
  {
    CurveDenominator(m, x);
    d := m.b as real + m.c as real * x;
    p := Envelope(m, x);
    QuotientTimes(m.a as real * x, d);
  }

  /** A rise `u` over a width `w` between denominators dx and dy of the curve. */
  ghost predicate ChordCleared(u: real, dx: real, dy: real, ab: real, w: real) {
    u * (dx * dy) == ab * w
  }

  /** Each chord of a*x/(b + c*x), cleared of denominators. */
  lemma Chord(a: real, b: real, c: real, x: real, y: real, dx: real, dy: real, p: real, q: real)
    requires OnCurve(a, b, c, x, dx, p) && OnCurve(a, b, c, y, dy, q)
    ensures ChordCleared(q - p, dx, dy, a * b, y - x)
  {
    assert q * (dx * dy) == (q * dy) * dx && p * (dx * dy) == (p * dx) * dy;
    assert a * y * dx - a * x * dy == a * b * (y - x);
  }

  lemma CurveConcave(
    a: real, b: real, c: real, x: real, y: real, z: real, dx: real, dy: real, dz: real, p: real, q: real, s: real)
    requires a >= 0.0 && b > 0.0 && c >= 0.0 && 0.0 <= x < y < z
    requires OnCurve(a, b, c, x, dx, p) && OnCurve(a, b, c, y, dy, q) && OnCurve(a, b, c, z, dz, s)
    ensures FallingSlopes(p, q, s, x, y, z)
  {
    Chord(a, b, c, x, y, dx, dy, p, q);
    Chord(a, b, c, y, z, dy, dz, q, s);
    RealMulLe(x, z, c);
    NonNegativeProduct(a, b);
    ScaleChords(q - p, s - q, dx, dy, dz, a * b, y - x, z - y);
  }

  lemma ScaleChords(u: real, v: real, dx: real, dy: real, dz: real, ab: real, w1: real, w2: real)
    requires 0.0 < dx <= dz && dy > 0.0 && w1 > 0.0 && w2 > 0.0 && ab >= 0.0
    requires ChordCleared(u, dx, dy, ab, w1) && ChordCleared(v, dy, dz, ab, w2)
    ensures u * w2 >= v * w1
  {
    // both sides times dx*dy*dz: ab*w1*w2*dz against ab*w1*w2*dx
    var k := ab * w1 * w2;
    var d := dx * dy * dz;
    assert d > 0.0 && k >= 0.0;
    assert (u * w2) * d == (u * (dx * dy)) * (w2 * dz);
    assert (v * w1) * d == (v * (dy * dz)) * (w1 * dx);
    assert (u * w2) * d == dz * k && (v * w1) * d == dx * k;
    RealMulLe(dx, dz, k);
    RealMulCancel(v * w1, u * w2, d);
  }
}
