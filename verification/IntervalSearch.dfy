/** Searching an objective that is feasible on one interval of its range: exactly when the
    narrowing loses the interval. */
module IntervalSearch {
  import opened Domain
  import opened Search
  import opened SearchGuarantees

  /** Feasible exactly on first..=last, with values above the one that stands for an
      infeasible probe. */
  ghost predicate FeasibleOn(objective: Objective, max: u128, first: u128, last: u128) {
    && 1 <= first <= last <= max
    && forall x: u128 :: 1 <= x <= max ==>
         && (objective(x).Some? <==> first <= x <= last)
         && (objective(x).Some? ==> objective(x).value > I128_MIN)
  }

  lemma RightProbeMonotone(lo: u128, hi: u128, lo': u128, hi': u128)
    requires lo <= lo' <= hi' && lo <= hi <= hi'
    ensures RightProbe(lo, hi) <= RightProbe(lo', hi')
  {
  }

  /** Two rounds' probes: what was the left probe lies below the next right probe. */
  lemma LeftProbeIsPassed(lo: u128, hi: u128)
    requires lo <= hi && hi - lo > WINDOW
    ensures LeftProbe(lo, hi) <= RightProbe(lo, RightProbe(lo, hi))
  {
  }

  /** Whether the narrowing of lo..=hi loses first..=last, from the ends alone: a right probe
      short of the interval loses it, unless the walk up from what is left still gets there;
      one beyond it keeps the left part; one inside it keeps the right part when the left
      probe is short, and settles the matter when both are inside. */
  predicate Loses(first: u128, last: u128, lo: u128, hi: u128)
    requires 1 <= lo <= hi
    decreases hi - lo
  {
    if hi - lo <= WINDOW then false
    else
      var m1, m2 := LeftProbe(lo, hi), RightProbe(lo, hi);
      if m2 < first then LeftMost(lo, m2) + 1024 < first
      else if m2 > last then Loses(first, last, lo, m2)
      else if m1 < first then Loses(first, last, m1, hi)
      else false
  }

  /** Whether no round of that narrowing has its right probe short of the interval. */
  predicate Keeps(first: u128, last: u128, lo: u128, hi: u128)
    requires 1 <= lo <= hi
    decreases hi - lo
  {
    if hi - lo <= WINDOW then true
    else
      var m1, m2 := LeftProbe(lo, hi), RightProbe(lo, hi);
      if m2 < first then false
      else if m2 > last then Keeps(first, last, lo, m2)
      else if m1 < first then Keeps(first, last, m1, hi)
      else true
  }

  lemma {:induction false} KeptIsNotLost(first: u128, last: u128, lo: u128, hi: u128)
    requires 1 <= lo <= hi && Keeps(first, last, lo, hi)
    ensures !Loses(first, last, lo, hi)
    decreases hi - lo
  {
    if hi - lo <= WINDOW {
    } else {
      var m1, m2 := LeftProbe(lo, hi), RightProbe(lo, hi);
      if m2 > last {
        KeptIsNotLost(first, last, lo, m2);
      } else if m1 < first {
        KeptIsNotLost(first, last, m1, hi);
      }
    }
  }

  /** An interval that contains the point two thirds up to its end is kept. */
  lemma {:induction false} TwoThirdsKeep(first: u128, last: u128, lo: u128, hi: u128)
    requires 1 <= first <= last <= hi && 1 <= lo <= hi && first <= RightProbe(1, last)
    ensures Keeps(first, last, lo, hi)
    decreases hi - lo
  {
    if hi - lo <= WINDOW {
    } else {
      var m1, m2 := LeftProbe(lo, hi), RightProbe(lo, hi);
      RightProbeMonotone(1, last, lo, hi);
      if m2 > last {
        TwoThirdsKeep(first, last, lo, m2);
      } else if m1 < first {
        TwoThirdsKeep(first, last, m1, hi);
      }
    }
  }

  /** The bracket meets the interval and no later round can lose it. */
  ghost predicate Secured(first: u128, last: u128, lo: u128, hi: u128)
    requires 1 <= lo <= hi
  {
    && lo <= last && first <= hi
    && (first <= lo || (hi <= last && first <= RightProbe(lo, hi)))
  }

  lemma SecuredStays(objective: Objective, max: u128, first: u128, last: u128, lo: u128, hi: u128)
    requires FeasibleOn(objective, max, first, last)
    requires 1 <= lo <= hi <= max && hi - lo > WINDOW && Secured(first, last, lo, hi)
    ensures var (l, r) := NextBracket(objective, lo, hi); Secured(first, last, l, r)
  {
    var m1, m2 := LeftProbe(lo, hi), RightProbe(lo, hi);
    assert objective(m2).Some? <==> first <= m2 <= last;
    if DropsLeft(objective, lo, hi) {
      RightProbeMonotone(lo, hi, m1, hi);
    } else {
      LeftProbeIsPassed(lo, hi);
    }
  }

  lemma {:induction false} SecuredIsKept(
    objective: Objective, max: u128, first: u128, last: u128, lo: u128, hi: u128)
    requires FeasibleOn(objective, max, first, last)
    requires 1 <= lo <= hi <= max && Secured(first, last, lo, hi)
    ensures var (a, b) := Narrowed(objective, lo, hi); a <= last && first <= b
    decreases hi - lo
  {
    if hi - lo <= WINDOW {
    } else {
      SecuredStays(objective, max, first, last, lo, hi);
      var (l, r) := NextBracket(objective, lo, hi);
      SecuredIsKept(objective, max, first, last, l, r);
    }
  }

  /** Both probes inside the interval settle the matter. */
  lemma BothInsideSecure(objective: Objective, first: u128, last: u128, lo: u128, hi: u128)
    requires 1 <= lo <= hi && hi - lo > WINDOW
    requires first <= LeftProbe(lo, hi) && RightProbe(lo, hi) <= last
    ensures var (l, r) := NextBracket(objective, lo, hi); Secured(first, last, l, r)
  {
    LeftProbeIsPassed(lo, hi);
  }

  /** The narrowing never ends above the interval; it ends too far below it exactly when it
      loses it, and meets it exactly when it keeps it. */
  lemma {:induction false} LosesExactly(
    objective: Objective, max: u128, first: u128, last: u128, lo: u128, hi: u128)
    requires FeasibleOn(objective, max, first, last)
    requires 1 <= lo <= hi <= max && lo <= last && first <= hi
    ensures var (a, b) := Narrowed(objective, lo, hi);
            && a <= last
            && (Loses(first, last, lo, hi) <==> b + 1024 < first)
            && (Keeps(first, last, lo, hi) <==> first <= b)
    decreases hi - lo
  {
    if hi - lo <= WINDOW {
    } else {
      var m1, m2 := LeftProbe(lo, hi), RightProbe(lo, hi);
      assert objective(m1).Some? <==> first <= m1 <= last;
      assert objective(m2).Some? <==> first <= m2 <= last;
      if m2 < first {
        NarrowsToTheLeft(objective, lo, hi);
      } else if m2 > last {
        LosesExactly(objective, max, first, last, lo, m2);
      } else if m1 < first {
        LosesExactly(objective, max, first, last, m1, hi);
      } else {
        BothInsideSecure(objective, first, last, lo, hi);
        var (l, r) := NextBracket(objective, lo, hi);
        SecuredIsKept(objective, max, first, last, l, r);
      }
    }
  }

  /** The search of an objective feasible exactly on first..=last is None exactly when the
      narrowing loses the interval, whatever its values. */
  lemma IntervalNoneExactly(objective: Objective, max: u128, first: u128, last: u128, best: Option<(u128, i128)>)
    requires FeasibleOn(objective, max, first, last) && Searched(objective, max, best)
    ensures best.None? <==> Loses(first, last, 1, max)
  {
    LosesExactly(objective, max, first, last, 1, max);
    NoneExactly(objective, max, best);
    var (a, b) := Narrowed(objective, 1, max);
    var near := if a <= first then first else a;
    if !Loses(first, last, 1, max) {
      assert NearBracket(objective, max, near) && objective(near).Some?;
    }
  }

  /** A kept interval is found. */
  lemma KeptIsFound(objective: Objective, max: u128, first: u128, last: u128, best: Option<(u128, i128)>)
    requires FeasibleOn(objective, max, first, last) && Keeps(first, last, 1, max)
    requires Searched(objective, max, best)
    ensures best.Some?
  {
    KeptIsNotLost(first, last, 1, max);
    IntervalNoneExactly(objective, max, first, last, best);
  }

  /** The last size the walk up visits when every round kept the left part. */
  function BlindReach(max: u128): u128
    requires 1 <= max
  {
    if LeftMost(1, max) + 1024 <= max then LeftMost(1, max) + 1024 else max
  }

  /** When the interval runs to the end of the range the ends need not be known: it is
      missed exactly when two sizes are infeasible, the one two thirds up the range and the
      end of the blind search. */
  lemma UpwardNoneExactly(objective: Objective, max: u128, first: u128, best: Option<(u128, i128)>)
    requires FeasibleOn(objective, max, first, max) && Searched(objective, max, best)
    ensures best.None? <==> objective(RightProbe(1, max)).None? && objective(BlindReach(max)).None?
  {
    IntervalNoneExactly(objective, max, first, max, best);
    assert objective(RightProbe(1, max)).Some? <==> first <= RightProbe(1, max);
    if first <= RightProbe(1, max) {
      TwoThirdsKeep(first, max, 1, max);
      KeptIsNotLost(first, max, 1, max);
    }
  }

  // ---- Intervals from convexity

  /** The feasible inputs have no gap, and values above the one that stands for an infeasible
      probe. */
  ghost predicate FeasibleSpan(objective: Objective, max: u128) {
    && (forall x: u128, y: u128, z: u128 ::
          1 <= x <= y <= z <= max && objective(x).Some? && objective(z).Some? ==> objective(y).Some?)
    && (forall x: u128 :: 1 <= x <= max && objective(x).Some? ==> objective(x).value > I128_MIN)
  }

  lemma {:induction false} LastFeasible(objective: Objective, max: u128, x: u128, bound: u128) returns (last: u128)
    requires 1 <= x <= bound <= max && objective(x).Some?
    requires forall y: u128 :: bound < y <= max ==> objective(y).None?
    ensures x <= last <= max && objective(last).Some?
    ensures forall y: u128 :: last < y <= max ==> objective(y).None?
    decreases bound
  {
    if objective(bound).Some? {
      last := bound;
    } else {
      last := LastFeasible(objective, max, x, bound - 1);
    }
  }

  lemma {:induction false} FirstFeasible(objective: Objective, x: u128, bound: u128) returns (first: u128)
    requires 1 <= bound <= x && objective(x).Some?
    requires forall y: u128 :: 1 <= y < bound ==> objective(y).None?
    ensures 1 <= first <= x && objective(first).Some?
    ensures forall y: u128 :: 1 <= y < first ==> objective(y).None?
    decreases x - bound
  {
    if objective(bound).Some? {
      first := bound;
    } else {
      first := FirstFeasible(objective, x, bound + 1);
    }
  }

  /** Feasible inputs without a gap are an interval. */
  lemma SpanHasEnds(objective: Objective, max: u128, x: u128) returns (first: u128, last: u128)
    requires FeasibleSpan(objective, max) && 1 <= x <= max && objective(x).Some?
    ensures FeasibleOn(objective, max, first, last) && first <= x <= last
  {
    last := LastFeasible(objective, max, x, max);
    first := FirstFeasible(objective, x, 1);
    forall y: u128 | 1 <= y <= max ensures objective(y).Some? <==> first <= y <= last {
    }
  }
}
