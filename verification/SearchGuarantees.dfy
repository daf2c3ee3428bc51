/** What the unimodal search promises on every objective, on prefix-feasible objectives and
    on flat-topped objectives, and how many rounds it takes. */
module SearchGuarantees {
  import opened Domain
  import opened Search

  // ---- Every objective

  /** `x` lies within 1024 of the final bracket. */
  ghost predicate NearBracket(objective: Objective, max: u128, x: u128)
    requires max >= 1
  {
    var (lo, hi) := Narrowed(objective, 1, max);
    1 <= x <= max && lo - 1024 <= x <= hi + 1024
  }

  /** No input within 1024 of the final bracket beats the answer. */
  lemma CoversNeighbourhood(objective: Objective, max: u128, best: Option<(u128, i128)>, x: u128)
    requires max >= 1 && Searched(objective, max, best)
    requires NearBracket(objective, max, x) && objective(x).Some?
    ensures best.Some? && objective(x).value <= best.value.1
  {
    var a: u128, b: u128 :| Visits(objective, max, a, b) && FirstBest(objective, max, a, b, best);
    assert a <= x <= b;
  }

  /** On ranges up to 1025 the answer is the exact maximum of any objective. */
  lemma ExactOnShortRange(objective: Objective, max: u128, best: Option<(u128, i128)>)
    requires 1 <= max <= 1025 && Searched(objective, max, best)
    ensures BestOn(objective, 1, max, best)
  {
    forall x: u128 | 1 <= x <= max && objective(x).Some?
      ensures best.Some? && objective(x).value <= best.value.1
    {
      CoversNeighbourhood(objective, max, best, x);
    }
  }

  /** The answer is None exactly when nothing near the final bracket is feasible. */
  lemma NoneExactly(objective: Objective, max: u128, best: Option<(u128, i128)>)
    requires Searched(objective, max, best)
    ensures best.None? <==> max == 0 || forall x: u128 :: NearBracket(objective, max, x) ==> objective(x).None?
  {
    if max >= 1 && best.None? {
      forall x: u128 | NearBracket(objective, max, x) ensures objective(x).None? {
        if objective(x).Some? {
          CoversNeighbourhood(objective, max, best, x);
        }
      }
    }
    if max >= 1 && forall x: u128 :: NearBracket(objective, max, x) ==> objective(x).None? {
      NothingNearbyFindsNothing(objective, max, best);
    }
  }

  lemma InfeasibleStallsLeft(objective: Objective, a: u128, hi: u128)
    requires a + PATIENCE <= hi && forall y: u128 :: a <= y < a + PATIENCE ==> objective(y).None?
    ensures StalledLeft(objective, a, hi)
  {
  }

  lemma InfeasibleStallsRight(objective: Objective, a: u128, b: u128)
    requires b >= PATIENCE && forall y: u128 :: b - PATIENCE < y <= b ==> objective(y).None?
    ensures StalledRight(objective, a, b)
  {
  }

  lemma NothingNearbyFindsNothing(objective: Objective, max: u128, best: Option<(u128, i128)>)
    requires max >= 1 && Searched(objective, max, best)
    requires forall x: u128 :: NearBracket(objective, max, x) ==> objective(x).None?
    ensures best.None?
  {
    var (lo, hi) := Narrowed(objective, 1, max);
    var a: u128, b: u128 :| Visits(objective, max, a, b) && FirstBest(objective, max, a, b, best);
    if lo > PATIENCE {
      forall y: u128 | lo - PATIENCE <= y < lo ensures objective(y).None? {
        assert NearBracket(objective, max, y);
      }
      InfeasibleStallsLeft(objective, lo - PATIENCE, hi);
    }
    if hi + PATIENCE <= max {
      forall y: u128 | hi < y <= hi + PATIENCE ensures objective(y).None? {
        assert NearBracket(objective, max, y);
      }
      InfeasibleStallsRight(objective, a, hi + PATIENCE);
    }
    forall y: u128 | a <= y <= b ensures objective(y).None? {
      assert NearBracket(objective, max, y);
    }
  }

  /** Where the bracket ends when the left part is kept in every round. */
  function LeftMost(lo: u128, hi: u128): (end: u128)
    requires 1 <= lo <= hi
    ensures lo <= end <= hi && end - lo <= WINDOW
    decreases hi
  {
    if hi - lo <= WINDOW then hi else LeftMost(lo, RightProbe(lo, hi))
  }

  /** With nothing feasible up to the first right probe, every round keeps the left part. */
  lemma {:induction false} NarrowsToTheLeft(objective: Objective, lo: u128, hi: u128)
    requires 1 <= lo <= hi
    requires hi - lo > WINDOW ==> forall x: u128 :: lo <= x <= RightProbe(lo, hi) ==> objective(x).None?
    ensures Narrowed(objective, lo, hi) == (lo, LeftMost(lo, hi))
    decreases hi
  {
    if hi - lo <= WINDOW {
    } else {
      assert lo <= LeftProbe(lo, hi) <= RightProbe(lo, hi);
      NarrowsToTheLeft(objective, lo, RightProbe(lo, hi));
    }
  }

  /** A range of up to 65 inputs is scanned as it is. */
  lemma SmallRangeIsScanned(objective: Objective, max: u128)
    requires 1 <= max <= 65
    ensures Narrowed(objective, 1, max) == (1, max)
  {
  }

  /** "None only if no input is feasible" fails: an objective feasible at the far end alone
      is searched in vain as soon as the range outgrows one bracket and one walk. */
  lemma FarEndIsMissed(objective: Objective, max: u128, best: Option<(u128, i128)>)
    requires max > 1089
    requires forall x: u128 :: 1 <= x <= max ==> (objective(x).Some? <==> x == max)
    requires Searched(objective, max, best)
    ensures best.None? && objective(max).Some?
  {
    NarrowsToTheLeft(objective, 1, max);
    NoneExactly(objective, max, best);
  }

  // ---- Prefix-feasible objectives

  /** Whatever is below a feasible input is feasible. */
  ghost predicate PrefixFeasible(objective: Objective, max: u128) {
    forall x: u128, y: u128 :: 1 <= x <= y <= max && objective(y).Some? ==> objective(x).Some?
  }

  lemma KeptStaysFeasible(objective: Objective, max: u128, lo: u128, hi: u128)
    requires 1 <= lo <= hi <= max && hi - lo > WINDOW
    requires PrefixFeasible(objective, max) && objective(lo).Some?
    ensures objective(NextBracket(objective, lo, hi).0).Some?
  {
    var m1: u128, m2: u128 := lo + (hi - lo) / 3, hi - (hi - lo) / 3;
    if DropsLeft(objective, lo, hi) {
      assert objective(m2).Some?;
      assert objective(m1).Some?;
    }
  }

  lemma {:induction false} BracketStaysFeasible(objective: Objective, max: u128, lo: u128, hi: u128)
    requires 1 <= lo <= hi <= max && PrefixFeasible(objective, max) && objective(lo).Some?
    ensures objective(Narrowed(objective, lo, hi).0).Some?
    decreases hi - lo
  {
    if hi - lo <= WINDOW {
    } else {
      KeptStaysFeasible(objective, max, lo, hi);
      var (l', h') := NextBracket(objective, lo, hi);
      BracketStaysFeasible(objective, max, l', h');
    }
  }

  /** With feasibility a prefix, None means that no input at all is feasible. */
  lemma PrefixNone(objective: Objective, max: u128, best: Option<(u128, i128)>)
    requires PrefixFeasible(objective, max) && Searched(objective, max, best)
    ensures best.None? <==> max == 0 || forall x: u128 :: 1 <= x <= max ==> objective(x).None?
  {
    NoneExactly(objective, max, best);
    if max >= 1 && objective(1).Some? {
      BracketStaysFeasible(objective, max, 1, max);
      assert NearBracket(objective, max, Narrowed(objective, 1, max).0);
    }
  }

  // ---- Flat-topped objectives

  /** Both inputs are feasible and `y` is strictly better. */
  ghost predicate Better(objective: Objective, x: u128, y: u128) {
    objective(x).Some? && objective(y).Some? && objective(x).value < objective(y).value
  }

  /** Feasible exactly on 1..=b; strictly rising up to p, constant on p..=q, then strictly
      falling. */
  ghost predicate FlatTopped(objective: Objective, max: u128, p: u128, q: u128, b: u128) {
    && 1 <= p <= q <= b <= max
    && (forall x: u128 :: 1 <= x <= max ==> (objective(x).Some? <==> x <= b))
    && (forall x: u128, y: u128 {:trigger Better(objective, x, y)} :: 1 <= x < y <= p ==> Better(objective, x, y))
    && (forall x: u128 :: p <= x <= q ==> objective(x) == objective(p))
    && (forall x: u128, y: u128 {:trigger Better(objective, y, x)} :: q <= x < y <= b ==> Better(objective, y, x))
  }

  /** A bracket that meets the plateau keeps meeting it. */
  lemma DropKeepsPlateau(objective: Objective, max: u128, p: u128, q: u128, b: u128, lo: u128, hi: u128)
    requires FlatTopped(objective, max, p, q, b)
    requires 1 <= lo <= hi <= max && lo <= q && p <= hi && hi - lo > WINDOW
    ensures var (l, h) := NextBracket(objective, lo, hi); l <= q && p <= h
  {
    var m1: u128, m2: u128 := lo + (hi - lo) / 3, hi - (hi - lo) / 3;
    if q < m1 && m2 <= b {
      assert Better(objective, m2, m1);
    }
    if m2 < p {
      assert Better(objective, m1, m2);
    }
  }

  lemma {:induction false} BracketMeetsPlateau(
    objective: Objective, max: u128, p: u128, q: u128, b: u128, lo: u128, hi: u128)
    requires FlatTopped(objective, max, p, q, b)
    requires 1 <= lo <= hi <= max && lo <= q && p <= hi
    ensures var (l, h) := Narrowed(objective, lo, hi); l <= q && p <= h
    decreases hi - lo
  {
    if hi - lo <= WINDOW {
    } else {
      DropKeepsPlateau(objective, max, p, q, b, lo, hi);
      var (l', h') := NextBracket(objective, lo, hi);
      BracketMeetsPlateau(objective, max, p, q, b, l', h');
    }
  }

  /** The plateau of a flat-topped objective is its set of maximisers. */
  lemma PlateauIsMaximal(objective: Objective, max: u128, p: u128, q: u128, b: u128, x: u128)
    requires FlatTopped(objective, max, p, q, b)
    requires 1 <= x <= max && objective(x).Some?
    ensures objective(x).value <= objective(p).value
    ensures objective(x).value == objective(p).value ==> p <= x <= q
  {
    if x < p {
      assert Better(objective, x, p);
    } else if q < x {
      assert Better(objective, x, q);
      assert objective(q) == objective(p);
    } else {
      assert objective(x) == objective(p);
    }
  }

  /** On a flat-topped objective the search returns a point of the plateau. */
  lemma ExactOnFlatTop(objective: Objective, max: u128, p: u128, q: u128, b: u128, best: Option<(u128, i128)>)
    requires FlatTopped(objective, max, p, q, b) && Searched(objective, max, best)
    ensures BestOn(objective, 1, max, best)
    ensures best.Some? && p <= best.value.0 <= q
  {
    BracketMeetsPlateau(objective, max, p, q, b, 1, max);
    var (lo, hi) := Narrowed(objective, 1, max);
    var top: u128 := if lo <= p then p else lo;
    assert objective(top) == objective(p);
    CoversNeighbourhood(objective, max, best, top);
    AnswerInRange(objective, max, best);
    PlateauIsMaximal(objective, max, p, q, b, best.value.0);
    forall x: u128 | 1 <= x <= max && objective(x).Some? ensures objective(x).value <= best.value.1 {
      PlateauIsMaximal(objective, max, p, q, b, x);
    }
  }

  lemma AnswerInRange(objective: Objective, max: u128, best: Option<(u128, i128)>)
    requires Searched(objective, max, best) && best.Some?
    ensures 1 <= best.value.0 <= max && objective(best.value.0) == Some(best.value.1)
  {
    var a: u128, b: u128 :| Visits(objective, max, a, b) && FirstBest(objective, max, a, b, best);
  }

  // ---- How many rounds

  ghost function Pow(b: nat, e: nat): (p: nat)
    ensures b > 0 ==> p > 0
  {
    if e == 0 then 1 else (PowStep(b, Pow(b, e - 1)); b * Pow(b, e - 1))
  }

  lemma PowStep(b: nat, p: nat)
    ensures b * p >= 0 && (b > 0 && p > 0 ==> b * p > 0)
  {
  }

  lemma ScaleStep(p3: nat, p2: nat, w': int, w: int, u: int)
    requires p3 * u <= p2 * w' && 3 * w' <= 2 * w
    ensures (3 * p3) * u <= (2 * p2) * w
  {
    assert (3 * p3) * u == 3 * (p3 * u);
    assert p2 * (2 * w - 3 * w') >= 0;
    assert p2 * (2 * w - 3 * w') == (2 * p2) * w - 3 * (p2 * w');
  }

  lemma PowScaleStep(k: nat, w': int, w: int, u: int)
    requires Pow(3, k) * u <= Pow(2, k) * w' && 3 * w' <= 2 * w
    ensures Pow(3, k + 1) * u <= Pow(2, k + 1) * w
  {
    ScaleStep(Pow(3, k), Pow(2, k), w', w, u);
  }

  /** After k rounds the bracket's width obeys 3^k * (w' - 2) <= 2^k * (w - 2). */
  lemma {:induction false} WidthShrinks(objective: Objective, lo: u128, hi: u128)
    requires 1 <= lo <= hi
    ensures var k := Rounds(objective, lo, hi);
            var (l, r) := Narrowed(objective, lo, hi);
            Pow(3, k) * (r - l - 2) <= Pow(2, k) * (hi - lo - 2)
    decreases hi - lo
  {
    if hi - lo <= WINDOW {
    } else {
      var (l', h') := NextBracket(objective, lo, hi);
      var k := Rounds(objective, l', h');
      var (l, r) := Narrowed(objective, lo, hi);
      WidthShrinks(objective, l', h');
      PowScaleStep(k, h' - l' - 2, hi - lo - 2, r - l - 2);
    }
  }

  /** A search of k rounds, k positive, started from a width of at least
      2 + 63 * (3/2)^(k-1). */
  lemma {:induction false} RoundsAreLogarithmic(objective: Objective, lo: u128, hi: u128)
    requires 1 <= lo <= hi && Rounds(objective, lo, hi) > 0
    ensures var k := Rounds(objective, lo, hi);
            Pow(3, k - 1) * (WINDOW - 1) <= Pow(2, k - 1) * (hi - lo - 2)
    decreases hi - lo
  {
    var (l', h') := NextBracket(objective, lo, hi);
    var k := Rounds(objective, l', h');
    if k == 0 {
    } else {
      RoundsAreLogarithmic(objective, l', h');
      PowScaleStep(k - 1, h' - l' - 2, hi - lo - 2, WINDOW - 1);
    }
  }

  lemma {:induction false} PowSum(b: nat, m: nat, n: nat)
    ensures Pow(b, m + n) == Pow(b, m) * Pow(b, n)
  {
    if m == 0 {
    } else {
      PowSum(b, m - 1, n);
      Regrouped(b, Pow(b, m - 1), Pow(b, n));
    }
  }

  /** 3^12 exceeds 2^19, block by block. */
  lemma {:induction false} ThreesOutgrowTwos(j: nat)
    ensures Pow(3, 12 * j) >= Pow(2, 19 * j)
  {
    if j == 0 {
    } else {
      ThreesOutgrowTwos(j - 1);
      PowSum(3, 12, 12 * (j - 1));
      PowSum(2, 19, 19 * (j - 1));
      SmallPowers();
      ProductsOrdered(Pow(2, 19), Pow(3, 12), Pow(2, 19 * (j - 1)), Pow(3, 12 * (j - 1)));
    }
  }

  lemma SmallPowers()
    ensures Pow(3, 12) == 531441 && Pow(2, 19) == 524288
  {
    assert Pow(3, 6) == 729 && Pow(2, 10) == 1024 && Pow(2, 9) == 512;
    PowSum(3, 6, 6);
    PowSum(2, 10, 9);
  }

  lemma Regrouped(p: int, q: int, r: int)
    ensures p * (q * r) == (p * q) * r
  {
  }

  lemma Squared(m: nat, v: nat)
    requires Pow(2, m) == v
    ensures Pow(2, 2 * m) == v * v
  {
    PowSum(2, m, m);
  }

  lemma TwoToThe128()
    ensures Pow(2, 128) == TWO_TO_THE_128
  {
    assert Pow(2, 8) == 256;
    Squared(8, 256);
    Squared(16, 0x1_0000);
    Squared(32, 0x1_0000_0000);
    Squared(64, 0x1_0000_0000_0000_0000);
  }

  lemma ProductsOrdered(a: nat, b: nat, c: nat, d: nat)
    requires a <= b && c <= d
    ensures a * c <= b * d
  {
    assert (b - a) * c >= 0 && b * (d - c) >= 0;
    assert (b - a) * c == b * c - a * c && b * (d - c) == b * d - b * c;
  }

  lemma RatioAtBlock(j: nat, m: nat, e: nat)
    requires m == 12 * j && m + e == 19 * j && e + 2 == 128
    ensures Pow(3, m) * 4 >= Pow(2, m) * TWO_TO_THE_128
  {
    ThreesOutgrowTwos(j);
    PowSum(2, m, e);
    PowSum(2, e, 2);
    TwoToThe128();
    assert Pow(2, 2) == 4;
    assert Pow(2, m) * Pow(2, e) * 4 == Pow(2, m) * (Pow(2, e) * 4);
  }

  /** From exponent 216 on, 3^m outgrows 2^m by more than a quarter of the u128 range. */
  lemma {:induction false} RatioExceedsU128(m: nat)
    requires m >= 216
    ensures Pow(3, m) * 4 >= Pow(2, m) * TWO_TO_THE_128
  {
    if m == 216 {
      RatioAtBlock(18, m, 126);
    } else {
      RatioExceedsU128(m - 1);
      DoublesSlower(Pow(3, m - 1), Pow(2, m - 1));
    }
  }

  lemma DoublesSlower(p3: nat, p2: nat)
    requires p3 * 4 >= p2 * TWO_TO_THE_128
    ensures (3 * p3) * 4 >= (2 * p2) * TWO_TO_THE_128
  {
  }

  /** No search over u128 inputs takes more than 216 narrowing rounds. */
  lemma RoundsAtMost216(objective: Objective, max: u128)
    requires max >= 1
    ensures Rounds(objective, 1, max) <= 216
  {
    var k := Rounds(objective, 1, max);
    if k > 216 {
      RoundsAreLogarithmic(objective, 1, max);
      RatioExceedsU128(k - 1);
      TooWide(Pow(3, k - 1), Pow(2, k - 1), max - 3);
    }
  }

  lemma TooWide(p3: nat, p2: nat, w: int)
    requires p3 > 0 && w < TWO_TO_THE_128 && p3 * (WINDOW - 1) <= p2 * w
    ensures p3 * 4 < p2 * TWO_TO_THE_128
  {
    ProductsOrdered(0, TWO_TO_THE_128 - w, 0, p2);
    assert p2 * (TWO_TO_THE_128 - w) >= 0;
    assert p2 * (TWO_TO_THE_128 - w) == p2 * TWO_TO_THE_128 - p2 * w;
  }
}
