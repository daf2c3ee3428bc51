/** Maximising an integer objective over 1..=max: ternary narrowing to a small window, a
    scan of the window, and a patient walk outward from both of its edges. */
module Search {
  import opened Domain

  /** The value of a candidate input, None when it is infeasible. */
  type Objective = u128 -> Option<i128>

  const WINDOW: u128 := 64
  const PATIENCE: u128 := 1024

  /** While narrowing, an infeasible input counts as the lowest value. */
  function Probe(objective: Objective, x: u128): i128 {
    match objective(x)
    case Some(v) => v
    case None => I128_MIN
  }

  /** A third into the bracket. */
  function LeftProbe(lo: u128, hi: u128): u128
    requires lo <= hi
  {
    lo + (hi - lo) / 3
  }

  /** A third short of the end of the bracket. */
  function RightProbe(lo: u128, hi: u128): u128
    requires lo <= hi
  {
    hi - (hi - lo) / 3
  }

  /** Which third is dropped: the left one when the right probe is strictly better. */
  predicate DropsLeft(objective: Objective, lo: u128, hi: u128)
    requires 1 <= lo <= hi
  {
    Probe(objective, LeftProbe(lo, hi)) < Probe(objective, RightProbe(lo, hi))
  }

  /** The bracket kept by one round. */
  ghost function NextBracket(objective: Objective, lo: u128, hi: u128): (r: (u128, u128))
    requires 1 <= lo <= hi && hi - lo > WINDOW
    ensures lo <= r.0 <= r.1 <= hi && r.1 - r.0 < hi - lo
    ensures 3 * (r.1 - r.0 - 2) <= 2 * (hi - lo - 2)
  {
    if DropsLeft(objective, lo, hi) then (LeftProbe(lo, hi), hi) else (lo, RightProbe(lo, hi))
  }

  /** The bracket the narrowing ends with. */
  ghost function Narrowed(objective: Objective, lo: u128, hi: u128): (r: (u128, u128))
    requires 1 <= lo <= hi
    ensures lo <= r.0 <= r.1 <= hi && r.1 - r.0 <= WINDOW
    decreases hi - lo
  {
    if hi - lo <= WINDOW then (lo, hi)
    else
      var kept := NextBracket(objective, lo, hi);
      Narrowed(objective, kept.0, kept.1)
  }

  /** How many rounds that takes. */
  ghost function Rounds(objective: Objective, lo: u128, hi: u128): nat
    requires 1 <= lo <= hi
    decreases hi - lo
  {
    if hi - lo <= WINDOW then 0
    else
      var kept := NextBracket(objective, lo, hi);
      1 + Rounds(objective, kept.0, kept.1)
  }

  // ---- What a scan establishes

  /** `best` is the best feasible input of a..=b with its value, None when there is none. */
  ghost predicate BestOn(objective: Objective, a: u128, b: u128, best: Option<(u128, i128)>) {
    && (best.None? ==> forall x: u128 :: a <= x <= b ==> objective(x).None?)
    && (best.Some? ==>
          && a <= best.value.0 <= b
          && objective(best.value.0) == Some(best.value.1)
          && forall x: u128 :: a <= x <= b && objective(x).Some? ==> objective(x).value <= best.value.1)
  }

  /** In the order of the visit `x` comes strictly before `y`: first the bracket lo..=hi
      upward, then the inputs below it downward, then the inputs above it upward. */
  ghost predicate MetBefore(lo: u128, hi: u128, x: u128, y: u128) {
    if lo <= y <= hi then lo <= x < y
    else if y < lo then y < x <= hi
    else x < y
  }

  /** Of the inputs of a..=b that reach the best value, `best` names the one met first. */
  ghost predicate FirstMet(
    objective: Objective, lo: u128, hi: u128, a: u128, b: u128, best: Option<(u128, i128)>)
  {
    best.Some? ==>
      forall y: u128 :: a <= y <= b && objective(y) == Some(best.value.1) ==>
        !MetBefore(lo, hi, y, best.value.0)
  }

  /** Input `y` is infeasible or no better than some input of a..=b. */
  ghost predicate Beaten(objective: Objective, y: u128, a: u128, b: u128) {
    objective(y).Some? ==>
      exists z: u128 :: a <= z <= b && objective(z).Some? && objective(z).value >= objective(y).value
  }

  ghost predicate NoneBetter(objective: Objective, from: int, to: int, a: u128, b: u128) {
    forall y: u128 :: from <= y <= to ==> Beaten(objective, y, a, b)
  }

  /** The PATIENCE inputs from `a` upward improve on nothing in the rest of a..=hi. */
  ghost predicate StalledLeft(objective: Objective, a: u128, hi: u128)
    requires a + PATIENCE <= hi
  {
    NoneBetter(objective, a, a + PATIENCE - 1, a + PATIENCE, hi)
  }

  /** The PATIENCE inputs from `b` downward improve on nothing in the rest of a..=b. */
  ghost predicate StalledRight(objective: Objective, a: u128, b: u128)
    requires b >= PATIENCE
  {
    NoneBetter(objective, b - PATIENCE + 1, b, a, b - PATIENCE)
  }

  /** The walk down from `lo` ends at `a`: at input 1, or at the first stall. */
  ghost predicate LeftEnd(objective: Objective, a: u128, lo: u128, hi: u128)
    requires 1 <= lo <= hi
  {
    && 1 <= a <= lo
    && (a == 1 || (a + PATIENCE <= lo && StalledLeft(objective, a, hi)))
    && (forall x: u128 :: a < x && x + PATIENCE <= lo ==> !StalledLeft(objective, x, hi))
  }

  /** The walk up from `hi` ends at `b`: at the maximum, or at the first stall. */
  ghost predicate RightEnd(objective: Objective, a: u128, hi: u128, b: u128, max: u128)
    requires hi <= max
  {
    && hi <= b <= max
    && (b == max || (hi + PATIENCE <= b && StalledRight(objective, a, b)))
    && (forall x: u128 :: hi + PATIENCE <= x < b ==> !StalledRight(objective, a, x))
  }

  /** The inputs visited are a..=b. */
  ghost predicate Visits(objective: Objective, max: u128, a: u128, b: u128)
    requires max >= 1
  {
    var (lo, hi) := Narrowed(objective, 1, max);
    LeftEnd(objective, a, lo, hi) && RightEnd(objective, a, hi, b, max)
  }

  /** Among the best inputs of a..=b, the one the visit from the final bracket meets first. */
  ghost predicate FirstBest(objective: Objective, max: u128, a: u128, b: u128, best: Option<(u128, i128)>)
    requires max >= 1
  {
    var (lo, hi) := Narrowed(objective, 1, max);
    BestOn(objective, a, b, best) && FirstMet(objective, lo, hi, a, b, best)
  }

  /** The answer is the best input of the visited interval, the first one met of several. */
  ghost predicate Searched(objective: Objective, max: u128, best: Option<(u128, i128)>) {
    if max == 0 then best.None?
    else exists a: u128, b: u128 :: Visits(objective, max, a, b) && FirstBest(objective, max, a, b, best)
  }

  // ---- The search

  /** Records `x` when it is feasible and strictly better than what is known. */
  method Consider(objective: Objective, x: u128, best: Option<(u128, i128)>)
    returns (best': Option<(u128, i128)>, improved: bool)
    ensures improved <==> objective(x).Some? && (best.None? || objective(x).value > best.value.1)
    ensures best' == if improved then Some((x, objective(x).value)) else best
  {
    var v := objective(x);
    if v.Some? {
      var better := match best case Some(pair) => v.value > pair.1 case None => true;
      if better {
        return Some((x, v.value)), true;
      }
    }
    return best, false;
  }

  method MaximizeUnimodal(max: u128, objective: Objective) returns (best: Option<(u128, i128)>)
    ensures Searched(objective, max, best)
    ensures best.Some? ==> 1 <= best.value.0 <= max && objective(best.value.0) == Some(best.value.1)
  {
    if max == 0 {
      return None;
    }
    var lo, hi := Narrow(max, objective);
    best := ScanWindow(objective, lo, hi);
    var a;
    a, best := WalkLeft(objective, lo, hi, best);
    var b;
    b, best := WalkRight(objective, a, lo, hi, max, best);
    assert Visits(objective, max, a, b) && FirstBest(objective, max, a, b, best);
  }

  method Narrow(max: u128, objective: Objective) returns (lo: u128, hi: u128)
    requires max >= 1
    ensures (lo, hi) == Narrowed(objective, 1, max)
  {
    lo, hi := 1, max;
    ghost var bracket := Narrowed(objective, 1, max);
    while hi - lo > WINDOW
      invariant 1 <= lo <= hi <= max
      invariant Narrowed(objective, lo, hi) == bracket
    {
      ghost var (l, h) := NextBracket(objective, lo, hi);
      var third := (hi - lo) / 3;
      var m1 := lo + third;
      var m2 := hi - third;
      if Probe(objective, m1) < Probe(objective, m2) {
        lo := m1;
      } else {
        hi := m2;
      }
      assert lo == l && hi == h;
    }
  }

  method ScanWindow(objective: Objective, lo: u128, hi: u128) returns (best: Option<(u128, i128)>)
    requires 1 <= lo <= hi
    ensures BestOn(objective, lo, hi, best) && FirstMet(objective, lo, hi, lo, hi, best)
  {
    var x := lo;
    var improved;
    best, improved := Consider(objective, x, None);
    while x != hi
      invariant lo <= x <= hi
      invariant BestOn(objective, lo, x, best) && FirstMet(objective, lo, hi, lo, x, best)
      decreases hi - x
    {
      x := x + 1;
      best, improved := Consider(objective, x, best);
    }
  }

  /** The state of the walk down: everything from `x` is known, and the last `miss`
      inputs improved on nothing. */
  ghost predicate WalkingLeft(
    objective: Objective, x: u128, miss: u128, lo: u128, hi: u128, best: Option<(u128, i128)>)
  {
    && 1 <= x && 0 <= miss <= PATIENCE && x + miss <= lo <= hi
    && BestOn(objective, x, hi, best) && BestOn(objective, x + miss, hi, best)
    && (x + miss < lo ==> !Beaten(objective, x + miss, x + miss + 1, hi))
    && (forall y: u128 :: x < y && y + PATIENCE <= lo ==> !StalledLeft(objective, y, hi))
  }

  lemma StepLeft(objective: Objective, x: u128, miss: u128, lo: u128, hi: u128, best: Option<(u128, i128)>)
    requires WalkingLeft(objective, x, miss, lo, hi, best) && x > 1 && miss < PATIENCE
    ensures var y, v := x - 1, objective(x - 1);
            if v.Some? && (best.None? || v.value > best.value.1)
            then WalkingLeft(objective, y, 0, lo, hi, Some((y, v.value)))
            else WalkingLeft(objective, y, miss + 1, lo, hi, best)
  {
    if x + PATIENCE <= lo {
      ImprovementBreaksStallLeft(objective, x, x + miss, hi);
    }
    BestDecidesBeaten(objective, x - 1, x, hi, best);
  }

  method WalkLeft(objective: Objective, lo: u128, hi: u128, start: Option<(u128, i128)>)
    returns (x: u128, best: Option<(u128, i128)>)
    requires 1 <= lo <= hi && BestOn(objective, lo, hi, start) && FirstMet(objective, lo, hi, lo, hi, start)
    ensures LeftEnd(objective, x, lo, hi)
    ensures BestOn(objective, x, hi, best) && FirstMet(objective, lo, hi, x, hi, best)
  {
    x, best := lo, start;
    var miss: u128 := 0;
    while x > 1 && miss < PATIENCE
      invariant WalkingLeft(objective, x, miss, lo, hi, best)
      invariant FirstMet(objective, lo, hi, x, hi, best)
      decreases x
    {
      StepLeft(objective, x, miss, lo, hi, best);
      x := x - 1;
      var improved;
      best, improved := Consider(objective, x, best);
      if improved {
        miss := 0;
      } else {
        miss := miss + 1;
      }
    }
    if x != 1 {
      BestStallsLeft(objective, x, hi, best);
    }
  }

  /** The state of the walk up. */
  ghost predicate WalkingRight(
    objective: Objective, x: u128, miss: u128, a: u128, hi: u128, max: u128, best: Option<(u128, i128)>)
  {
    && x <= max && 0 <= miss <= PATIENCE && 1 <= a <= hi <= x - miss
    && BestOn(objective, a, x, best) && BestOn(objective, a, x - miss, best)
    && (hi < x - miss ==> !Beaten(objective, x - miss, a, x - miss - 1))
    && (forall y: u128 :: hi + PATIENCE <= y < x ==> !StalledRight(objective, a, y))
  }

  lemma StepRight(objective: Objective, x: u128, miss: u128, a: u128, hi: u128, max: u128, best: Option<(u128, i128)>)
    requires WalkingRight(objective, x, miss, a, hi, max, best) && x < max && miss < PATIENCE
    ensures var y, v := x + 1, objective(x + 1);
            if v.Some? && (best.None? || v.value > best.value.1)
            then WalkingRight(objective, y, 0, a, hi, max, Some((y, v.value)))
            else WalkingRight(objective, y, miss + 1, a, hi, max, best)
  {
    if hi + PATIENCE <= x {
      ImprovementBreaksStallRight(objective, a, x - miss, x);
    }
    BestDecidesBeaten(objective, x + 1, a, x, best);
  }

  method WalkRight(
    objective: Objective, a: u128, ghost lo: u128, hi: u128, max: u128, start: Option<(u128, i128)>)
    returns (x: u128, best: Option<(u128, i128)>)
    requires 1 <= a <= lo <= hi <= max
    requires BestOn(objective, a, hi, start) && FirstMet(objective, lo, hi, a, hi, start)
    ensures RightEnd(objective, a, hi, x, max)
    ensures BestOn(objective, a, x, best) && FirstMet(objective, lo, hi, a, x, best)
  {
    x, best := hi, start;
    var miss: u128 := 0;
    while x < max && miss < PATIENCE
      invariant WalkingRight(objective, x, miss, a, hi, max, best)
      invariant FirstMet(objective, lo, hi, a, x, best)
      decreases max - x
    {
      StepRight(objective, x, miss, a, hi, max, best);
      x := x + 1;
      var improved;
      best, improved := Consider(objective, x, best);
      if improved {
        miss := 0;
      } else {
        miss := miss + 1;
      }
    }
    if x != max {
      BestStallsRight(objective, a, x, best);
    }
  }

  lemma BestDecidesBeaten(objective: Objective, y: u128, a: u128, b: u128, best: Option<(u128, i128)>)
    requires BestOn(objective, a, b, best)
    ensures Beaten(objective, y, a, b) <==>
              objective(y).None? || (best.Some? && objective(y).value <= best.value.1)
  {
    if best.Some? && objective(y).Some? && objective(y).value <= best.value.1 {
      assert objective(best.value.0).value >= objective(y).value;
    }
  }

  lemma ImprovementBreaksStallLeft(objective: Objective, x: u128, p: u128, hi: u128)
    requires x <= p < x + PATIENCE <= hi
    requires !Beaten(objective, p, p + 1, hi)
    ensures !StalledLeft(objective, x, hi)
  {
    assert !Beaten(objective, p, x + PATIENCE, hi);
  }

  lemma ImprovementBreaksStallRight(objective: Objective, a: u128, p: u128, x: u128)
    requires PATIENCE <= x && x - PATIENCE < p <= x
    requires !Beaten(objective, p, a, p - 1)
    ensures !StalledRight(objective, a, x)
  {
    assert !Beaten(objective, p, a, x - PATIENCE);
  }

  lemma BestStallsLeft(objective: Objective, x: u128, hi: u128, best: Option<(u128, i128)>)
    requires x + PATIENCE <= hi
    requires BestOn(objective, x, hi, best) && BestOn(objective, x + PATIENCE, hi, best)
    ensures StalledLeft(objective, x, hi)
  {
    var from := x + PATIENCE;
    forall y: u128 | x <= y < from ensures Beaten(objective, y, from, hi) {
      BestDecidesBeaten(objective, y, from, hi, best);
    }
  }

  lemma BestStallsRight(objective: Objective, a: u128, x: u128, best: Option<(u128, i128)>)
    requires PATIENCE <= x
    requires BestOn(objective, a, x, best) && BestOn(objective, a, x - PATIENCE, best)
    requires a <= x - PATIENCE
    ensures StalledRight(objective, a, x)
  {
    var to := x - PATIENCE;
    forall y: u128 | to < y <= x ensures Beaten(objective, y, a, to) {
      BestDecidesBeaten(objective, y, a, to, best);
    }
  }

  // ---- One outcome

  lemma LeftEndUnique(objective: Objective, a: u128, a': u128, lo: u128, hi: u128)
    requires 1 <= lo <= hi && LeftEnd(objective, a, lo, hi) && LeftEnd(objective, a', lo, hi)
    ensures a == a'
  {
  }

  lemma RightEndUnique(objective: Objective, a: u128, hi: u128, b: u128, b': u128, max: u128)
    requires hi <= max && RightEnd(objective, a, hi, b, max) && RightEnd(objective, a, hi, b', max)
    ensures b == b'
  {
  }

  lemma FirstBestUnique(
    objective: Objective, max: u128, a: u128, b: u128, best: Option<(u128, i128)>, best': Option<(u128, i128)>)
    requires max >= 1
    requires FirstBest(objective, max, a, b, best) && FirstBest(objective, max, a, b, best')
    ensures best == best'
  {
    if best.Some? && best'.Some? {
      assert objective(best.value.0).value == objective(best'.value.0).value;
    }
  }

  /** The contract of the search leaves no choice: every objective and range has one outcome. */
  lemma SearchHasOneOutcome(
    objective: Objective, max: u128, best: Option<(u128, i128)>, best': Option<(u128, i128)>)
    requires Searched(objective, max, best) && Searched(objective, max, best')
    ensures best == best'
  {
    if max > 0 {
      var a: u128, b: u128 :| Visits(objective, max, a, b) && FirstBest(objective, max, a, b, best);
      var a': u128, b': u128 :| Visits(objective, max, a', b') && FirstBest(objective, max, a', b', best');
      var (lo, hi) := Narrowed(objective, 1, max);
      LeftEndUnique(objective, a, a', lo, hi);
      RightEndUnique(objective, a, hi, b, b', max);
      FirstBestUnique(objective, max, a, b, best, best');
    }
  }
}
