/** Bellman-Ford on numbered vertices: the sweep over the arc list, the labels it
    keeps, and what those labels say about cycles. Distances start at zero
    everywhere and an arc is relaxed only when it gains more than `eps`. */
module Relaxation {
  import opened Domain

  datatype Arc = Arc(src: nat, dst: nat, w: real)

  /** The value of a predecessor slot that was never assigned. */
  const NO_ARC: int := -1

  ghost predicate ArcsWithin(arcs: seq<Arc>, n: nat) {
    forall e :: 0 <= e < |arcs| ==> arcs[e].src < n && arcs[e].dst < n
  }

  // ---- The relaxation sweep as a function of the distances alone

  predicate Relaxable(arc: Arc, eps: real, dist: seq<real>)
    requires arc.src < |dist| && arc.dst < |dist|
  {
    dist[arc.src] + arc.w < dist[arc.dst] - eps
  }

  function Relax(arc: Arc, eps: real, dist: seq<real>): seq<real>
    requires arc.src < |dist| && arc.dst < |dist|
  {
    if Relaxable(arc, eps, dist) then dist[arc.dst := dist[arc.src] + arc.w] else dist
  }

  /** Distances after offering the first `k` arcs, in order and in place. */
  ghost function Sweep(arcs: seq<Arc>, eps: real, dist: seq<real>, k: nat): (after: seq<real>)
    requires ArcsWithin(arcs, |dist|) && k <= |arcs|
    ensures |after| == |dist|
  {
    if k == 0 then dist else Relax(arcs[k-1], eps, Sweep(arcs, eps, dist, k - 1))
  }

  /** Distances after one full sweep. */
  ghost function Swept(arcs: seq<Arc>, eps: real, dist: seq<real>): (after: seq<real>)
    requires ArcsWithin(arcs, |dist|)
    ensures |after| == |dist|
  {
    Sweep(arcs, eps, dist, |arcs|)
  }

  /** Distances after `rounds` full sweeps from zero. */
  ghost function DistancesAfter(arcs: seq<Arc>, n: nat, eps: real, rounds: nat): (after: seq<real>)
    requires ArcsWithin(arcs, n)
    ensures |after| == n
  {
    if rounds == 0 then seq(n, _ => 0.0)
    else Swept(arcs, eps, DistancesAfter(arcs, n, eps, rounds - 1))
  }

  /** Some sweep among the first `n` changes nothing. */
  ghost predicate SettlesWithin(arcs: seq<Arc>, n: nat, eps: real)
    requires ArcsWithin(arcs, n)
  {
    exists r: nat :: r < n && DistancesAfter(arcs, n, eps, r + 1) == DistancesAfter(arcs, n, eps, r)
  }

  /** Each of the first `rounds` sweeps changes something. */
  ghost predicate Restless(arcs: seq<Arc>, n: nat, eps: real, rounds: nat)
    requires ArcsWithin(arcs, n)
  {
    rounds > 0 ==>
      && Restless(arcs, n, eps, rounds - 1)
      && DistancesAfter(arcs, n, eps, rounds) != DistancesAfter(arcs, n, eps, rounds - 1)
  }

  lemma {:induction false} RestlessNeverSettles(arcs: seq<Arc>, n: nat, eps: real, rounds: nat)
    requires ArcsWithin(arcs, n) && Restless(arcs, n, eps, rounds)
    ensures forall r: nat :: r < rounds ==> DistancesAfter(arcs, n, eps, r + 1) != DistancesAfter(arcs, n, eps, r)
  {
    if rounds == 0 {
    } else {
      RestlessNeverSettles(arcs, n, eps, rounds - 1);
    }
  }

  // ---- Predecessor loops

  ghost function Total(arcs: seq<Arc>, loop: seq<nat>): real
    requires forall i :: 0 <= i < |loop| ==> loop[i] < |arcs|
  {
    if loop == [] then 0.0 else arcs[loop[0]].w + Total(arcs, loop[1..])
  }

  /** `loop` lists arcs against their direction: each starts where the next one ends. */
  ghost predicate Backwards(arcs: seq<Arc>, loop: seq<nat>) {
    && (forall i :: 0 <= i < |loop| ==> loop[i] < |arcs|)
    && (forall i :: 0 <= i < |loop| - 1 ==> arcs[loop[i]].src == arcs[loop[i+1]].dst)
  }

  /** A closed walk made of recorded predecessor arcs only. */
  ghost predicate PredLoop(arcs: seq<Arc>, pred: seq<int>, loop: seq<nat>) {
    && loop != []
    && Backwards(arcs, loop)
    && arcs[loop[|loop|-1]].src == arcs[loop[0]].dst
    && (forall i :: 0 <= i < |loop| ==> arcs[loop[i]].dst < |pred| && pred[arcs[loop[i]].dst] == loop[i])
  }

  ghost predicate LoopsNegative(arcs: seq<Arc>, eps: real, pred: seq<int>) {
    forall loop: seq<nat> :: PredLoop(arcs, pred, loop) ==> Total(arcs, loop) < -eps
  }

  // ---- The labels kept during the search

  /** The predecessor of `x` is an arc into `x`, no longer than the recorded drop, and
      its source was last updated at most one round before `x`. */
  ghost predicate PredOk(arcs: seq<Arc>, dist: seq<real>, pred: seq<int>, rnd: seq<nat>, x: nat)
    requires ArcsWithin(arcs, |dist|) && |pred| == |dist| == |rnd| && x < |dist|
  {
    && (pred[x] == NO_ARC <==> rnd[x] == 0)
    && (pred[x] != NO_ARC ==>
          && 0 <= pred[x] < |arcs|
          && arcs[pred[x]].dst == x
          && dist[x] >= dist[arcs[pred[x]].src] + arcs[pred[x]].w
          && rnd[arcs[pred[x]].src] >= rnd[x] - 1)
  }

  /** An arc that could be relaxed again had its source updated since it was last offered:
      in round `r` for the first `k` arcs, in the round before for the others. */
  ghost predicate Offered(arcs: seq<Arc>, eps: real, dist: seq<real>, rnd: seq<nat>, r: nat, k: nat, e: nat)
    requires ArcsWithin(arcs, |dist|) && |dist| == |rnd| && e < |arcs|
  {
    Relaxable(arcs[e], eps, dist) ==> rnd[arcs[e].src] >= if e < k then r else r - 1
  }

  /** The state in round `r` (counted from 1) after offering the first `k` arcs. */
  ghost predicate Labels(arcs: seq<Arc>, eps: real, dist: seq<real>, pred: seq<int>, rnd: seq<nat>, r: nat, k: nat) {
    && ArcsWithin(arcs, |dist|) && |pred| == |dist| == |rnd|
    && (forall x {:trigger PredOk(arcs, dist, pred, rnd, x)} :: 0 <= x < |dist| ==>
          rnd[x] <= r && PredOk(arcs, dist, pred, rnd, x))
    && (forall e {:trigger Offered(arcs, eps, dist, rnd, r, k, e)} :: 0 <= e < |arcs| ==>
          Offered(arcs, eps, dist, rnd, r, k, e))
    && LoopsNegative(arcs, eps, pred)
  }

  lemma LabelsAtStart(arcs: seq<Arc>, eps: real, n: nat)
    requires ArcsWithin(arcs, n)
    ensures Labels(arcs, eps, seq(n, _ => 0.0), seq(n, _ => NO_ARC), seq(n, _ => 0), 1, 0)
  {
  }

  lemma LabelsNextRound(arcs: seq<Arc>, eps: real, dist: seq<real>, pred: seq<int>, rnd: seq<nat>, r: nat)
    requires Labels(arcs, eps, dist, pred, rnd, r, |arcs|)
    ensures Labels(arcs, eps, dist, pred, rnd, r + 1, 0)
  {
    forall x | 0 <= x < |dist| ensures rnd[x] <= r + 1 && PredOk(arcs, dist, pred, rnd, x) {
      assert PredOk(arcs, dist, pred, rnd, x);
    }
    var r' := r + 1;
    forall e | 0 <= e < |arcs| ensures Offered(arcs, eps, dist, rnd, r', 0, e) {
      assert Offered(arcs, eps, dist, rnd, r, |arcs|, e);
    }
  }

  lemma LabelsSkip(arcs: seq<Arc>, eps: real, dist: seq<real>, pred: seq<int>, rnd: seq<nat>, r: nat, k: nat)
    requires k < |arcs| && Labels(arcs, eps, dist, pred, rnd, r, k)
    requires !Relaxable(arcs[k], eps, dist)
    ensures Labels(arcs, eps, dist, pred, rnd, r, k + 1)
  {
    var k' := k + 1;
    forall x | 0 <= x < |dist| ensures rnd[x] <= r && PredOk(arcs, dist, pred, rnd, x) {
      assert PredOk(arcs, dist, pred, rnd, x);
    }
    forall e | 0 <= e < |arcs| ensures Offered(arcs, eps, dist, rnd, r, k', e) {
      assert Offered(arcs, eps, dist, rnd, r, k, e);
    }
  }

  /** Walking against a chain of arcs that are each no longer than the drop they span
      costs at most the total drop, and `eps` less when the chain uses the arc `k`
      that undercuts its drop by more than `eps`. */
  lemma {:induction false} Telescope(arcs: seq<Arc>, eps: real, dist: seq<real>, loop: seq<nat>, k: nat)
    requires eps >= 0.0 && ArcsWithin(arcs, |dist|)
    requires loop != [] && Backwards(arcs, loop)
    requires forall i :: 0 <= i < |loop| ==>
               dist[arcs[loop[i]].dst] >= dist[arcs[loop[i]].src] + arcs[loop[i]].w
    requires k < |arcs| && Relaxable(arcs[k], eps, dist)
    ensures Total(arcs, loop) <= dist[arcs[loop[0]].dst] - dist[arcs[loop[|loop|-1]].src]
    ensures k in loop ==> Total(arcs, loop) < dist[arcs[loop[0]].dst] - dist[arcs[loop[|loop|-1]].src] - eps
  {
    if |loop| == 1 {
      assert loop[1..] == [];
    } else {
      var rest := loop[1..];
      assert arcs[loop[0]].src == arcs[rest[0]].dst;
      assert rest[|rest|-1] == loop[|loop|-1];
      Telescope(arcs, eps, dist, rest, k);
      assert k in loop ==> k == loop[0] || k in rest;
    }
  }

  /** Relaxing an arc keeps every predecessor loop below -eps: a loop through the new arc
      telescopes to less than -eps, any other loop was there before. */
  lemma RelaxKeepsLoopsNegative(
    arcs: seq<Arc>, eps: real, dist: seq<real>, pred: seq<int>, rnd: seq<nat>, r: nat, k: nat)
    requires eps >= 0.0 && k < |arcs| && Labels(arcs, eps, dist, pred, rnd, r, k)
    requires Relaxable(arcs[k], eps, dist)
    ensures LoopsNegative(arcs, eps, pred[arcs[k].dst := k])
  {
    var v := arcs[k].dst;
    var pred' := pred[v := k];
    forall loop: seq<nat> | PredLoop(arcs, pred', loop)
      ensures Total(arcs, loop) < -eps
    {
      forall i | 0 <= i < |loop|
        ensures dist[arcs[loop[i]].dst] >= dist[arcs[loop[i]].src] + arcs[loop[i]].w
      {
        assert arcs[loop[i]].dst == v ==> loop[i] == k;
        assert PredOk(arcs, dist, pred, rnd, arcs[loop[i]].dst);
      }
      if k in loop {
        Telescope(arcs, eps, dist, loop, k);
      } else {
        forall i | 0 <= i < |loop| ensures pred[arcs[loop[i]].dst] == loop[i] {
          assert loop[i] in loop;
        }
        assert PredLoop(arcs, pred, loop);
        assert LoopsNegative(arcs, eps, pred);
      }
    }
  }

  /** One in-place relaxation keeps the labels. */
  lemma LabelsRelax(arcs: seq<Arc>, eps: real, dist: seq<real>, pred: seq<int>, rnd: seq<nat>, r: nat, k: nat)
    requires eps >= 0.0 && r >= 1 && k < |arcs| && Labels(arcs, eps, dist, pred, rnd, r, k)
    requires Relaxable(arcs[k], eps, dist)
    ensures var v := arcs[k].dst;
            Labels(arcs, eps, dist[v := dist[arcs[k].src] + arcs[k].w], pred[v := k], rnd[v := r], r, k + 1)
  {
    var u, v := arcs[k].src, arcs[k].dst;
    var dist', pred', rnd' := dist[v := dist[u] + arcs[k].w], pred[v := k], rnd[v := r];
    RelaxKeepsLoopsNegative(arcs, eps, dist, pred, rnd, r, k);
    assert Offered(arcs, eps, dist, rnd, r, k, k);
    forall x | 0 <= x < |dist| ensures rnd'[x] <= r && PredOk(arcs, dist', pred', rnd', x) {
      assert PredOk(arcs, dist, pred, rnd, x);
    }
    var k' := k + 1;
    forall e | 0 <= e < |arcs| ensures Offered(arcs, eps, dist', rnd', r, k', e) {
      assert Offered(arcs, eps, dist, rnd, r, k, e);
    }
  }

  /** The state of round `r` after offering `k` arcs, `before` being the distances it
      started from and `last` the vertex it updated last. */
  ghost predicate Sweeping(
    arcs: seq<Arc>, eps: real, before: seq<real>, dist: seq<real>, pred: seq<int>, rnd: seq<nat>, r: nat, k: nat,
    last: Option<nat>)
  {
    && k <= |arcs| && |before| == |dist|
    && Labels(arcs, eps, dist, pred, rnd, r, k)
    && dist == Sweep(arcs, eps, before, k)
    && (forall x :: 0 <= x < |dist| ==> dist[x] <= before[x])
    && (last.None? ==> dist == before && forall e :: 0 <= e < k ==> !Relaxable(arcs[e], eps, before))
    && (last.Some? ==> last.value < |dist| && rnd[last.value] == r && dist[last.value] < before[last.value])
  }

  lemma SweepingRelax(
    arcs: seq<Arc>, eps: real, before: seq<real>, dist: seq<real>, pred: seq<int>, rnd: seq<nat>, r: nat, k: nat,
    last: Option<nat>)
    requires eps >= 0.0 && r >= 1 && k < |arcs|
    requires Sweeping(arcs, eps, before, dist, pred, rnd, r, k, last) && Relaxable(arcs[k], eps, dist)
    ensures var v := arcs[k].dst;
            Sweeping(arcs, eps, before, dist[v := dist[arcs[k].src] + arcs[k].w], pred[v := k], rnd[v := r],
                     r, k + 1, Some(v))
  {
    LabelsRelax(arcs, eps, dist, pred, rnd, r, k);
  }

  lemma SweepingSkip(
    arcs: seq<Arc>, eps: real, before: seq<real>, dist: seq<real>, pred: seq<int>, rnd: seq<nat>, r: nat, k: nat,
    last: Option<nat>)
    requires k < |arcs|
    requires Sweeping(arcs, eps, before, dist, pred, rnd, r, k, last) && !Relaxable(arcs[k], eps, dist)
    ensures Sweeping(arcs, eps, before, dist, pred, rnd, r, k + 1, last)
  {
    LabelsSkip(arcs, eps, dist, pred, rnd, r, k);
  }

  // ---- Following predecessors

  /** One step back along the predecessor arc; a vertex without one stays put. */
  ghost function Back(arcs: seq<Arc>, pred: seq<int>, x: nat): nat
    requires x < |pred|
  {
    if 0 <= pred[x] < |arcs| then arcs[pred[x]].src else x
  }

  ghost function BackTo(arcs: seq<Arc>, pred: seq<int>, x: nat, steps: nat): (y: nat)
    requires ArcsWithin(arcs, |pred|) && x < |pred|
    ensures y < |pred|
  {
    if steps == 0 then x else Back(arcs, pred, BackTo(arcs, pred, x, steps - 1))
  }

  lemma {:induction false} BackToSum(arcs: seq<Arc>, pred: seq<int>, x: nat, a: nat, b: nat)
    requires ArcsWithin(arcs, |pred|) && x < |pred|
    ensures BackTo(arcs, pred, x, a + b) == BackTo(arcs, pred, BackTo(arcs, pred, x, a), b)
  {
    if b == 0 {
    } else {
      BackToSum(arcs, pred, x, a, b - 1);
    }
  }

  /** A vertex updated in round `r` has at least `r` predecessors in a row. */
  lemma {:induction false} BackFromRound(
    arcs: seq<Arc>, eps: real, dist: seq<real>, pred: seq<int>, rnd: seq<nat>, r: nat, k: nat, x: nat, steps: nat)
    requires Labels(arcs, eps, dist, pred, rnd, r, k)
    requires x < |pred| && steps <= rnd[x]
    ensures rnd[BackTo(arcs, pred, x, steps)] >= rnd[x] - steps
  {
    if steps == 0 {
    } else {
      BackFromRound(arcs, eps, dist, pred, rnd, r, k, x, steps - 1);
      assert PredOk(arcs, dist, pred, rnd, BackTo(arcs, pred, x, steps - 1));
    }
  }

  lemma {:induction false} Pigeonhole(s: seq<nat>, n: nat)
    requires |s| > n && forall i :: 0 <= i < |s| ==> s[i] < n
    ensures exists i, j :: 0 <= i < j < |s| && s[i] == s[j]
  {
    if exists i, j :: 0 <= i < j < |s| && s[i] == s[j] {
    } else {
      if n - 1 in s {
        var at :| 0 <= at < |s| && s[at] == n - 1;
        Pigeonhole(s[..at] + s[at+1..], n - 1);
      } else {
        assert n > 0 by { assert s[0] < n; }
        Pigeonhole(s[1..], n - 1);
      }
    }
  }

  /** From `start` the walk back closes after `period` steps, and every vertex it meets
      has a recorded predecessor arc. */
  ghost predicate OnLoop(arcs: seq<Arc>, pred: seq<int>, start: nat, period: nat)
    requires ArcsWithin(arcs, |pred|) && start < |pred|
  {
    && 1 <= period <= |pred|
    && BackTo(arcs, pred, start, period) == start
    && forall m: nat :: 0 <= pred[BackTo(arcs, pred, start, m)] < |arcs|
  }

  /** A walk back that meets one vertex at steps `i` and `j` repeats from there on. */
  lemma BackRepeats(arcs: seq<Arc>, pred: seq<int>, x: nat, i: nat, j: nat, n: nat)
    requires ArcsWithin(arcs, |pred|) && x < |pred|
    requires i < j <= n && BackTo(arcs, pred, x, i) == BackTo(arcs, pred, x, j)
    ensures BackTo(arcs, pred, BackTo(arcs, pred, x, n), j - i) == BackTo(arcs, pred, x, n)
  {
    BackToSum(arcs, pred, x, j, n - i);
    BackToSum(arcs, pred, x, i, n - i);
    BackToSum(arcs, pred, x, n, j - i);
  }

  /** The walk of `n` steps back from a vertex updated in round `n` ends on a loop of
      length at most `n`. */
  lemma WalkEndsOnLoop(
    arcs: seq<Arc>, eps: real, dist: seq<real>, pred: seq<int>, rnd: seq<nat>, r: nat, k: nat, x: nat)
    returns (period: nat)
    requires Labels(arcs, eps, dist, pred, rnd, r, k)
    requires x < |pred| && rnd[x] == |pred|
    ensures OnLoop(arcs, pred, BackTo(arcs, pred, x, |pred|), period)
  {
    var n := |pred|;
    var walk := seq(n + 1, i requires 0 <= i => BackTo(arcs, pred, x, i));
    Pigeonhole(walk, n);
    var i, j :| 0 <= i < j < |walk| && walk[i] == walk[j];
    period := j - i;
    BackRepeats(arcs, pred, x, i, j, n);
    forall m: nat ensures 0 <= pred[BackTo(arcs, pred, BackTo(arcs, pred, x, n), m)] < |arcs| {
      BackToSum(arcs, pred, x, n, m);
      AlwaysLabelled(arcs, eps, dist, pred, rnd, r, k, x, i, j, n + m);
    }
  }

  lemma {:induction false} AlwaysLabelled(
    arcs: seq<Arc>, eps: real, dist: seq<real>, pred: seq<int>, rnd: seq<nat>, r: nat, k: nat, x: nat, i: nat,
    j: nat, t: nat)
    requires Labels(arcs, eps, dist, pred, rnd, r, k)
    requires x < |pred| && rnd[x] == |pred|
    requires i < j <= |pred| && BackTo(arcs, pred, x, i) == BackTo(arcs, pred, x, j)
    ensures 0 <= pred[BackTo(arcs, pred, x, t)] < |arcs|
    decreases t
  {
    if t < |pred| {
      BackFromRound(arcs, eps, dist, pred, rnd, r, k, x, t);
      assert PredOk(arcs, dist, pred, rnd, BackTo(arcs, pred, x, t));
    } else {
      BackToSum(arcs, pred, x, j, t - j);
      BackToSum(arcs, pred, x, i, t - j);
      AlwaysLabelled(arcs, eps, dist, pred, rnd, r, k, x, i, j, t - (j - i));
    }
  }

  /** The arc numbers met on the first `k` steps back from `start`. */
  ghost function Trail(arcs: seq<Arc>, pred: seq<int>, start: nat, k: nat): (trail: seq<int>)
    requires ArcsWithin(arcs, |pred|) && start < |pred|
    ensures |trail| == k && forall i :: 0 <= i < k ==> trail[i] == pred[BackTo(arcs, pred, start, i)]
  {
    seq(k, i requires 0 <= i => pred[BackTo(arcs, pred, start, i)])
  }

  lemma TrailGrows(arcs: seq<Arc>, pred: seq<int>, start: nat, k: nat)
    requires ArcsWithin(arcs, |pred|) && start < |pred|
    ensures Trail(arcs, pred, start, k + 1) == Trail(arcs, pred, start, k) + [pred[BackTo(arcs, pred, start, k)]]
  {
  }

  /** `k` is the length of the first return to `start`. */
  ghost predicate FirstReturn(arcs: seq<Arc>, pred: seq<int>, start: nat, k: nat)
    requires ArcsWithin(arcs, |pred|) && start < |pred|
  {
    && k >= 1 && BackTo(arcs, pred, start, k) == start
    && forall m: nat :: 0 < m < k ==> BackTo(arcs, pred, start, m) != start
  }

  /** Up to its first return to `start`, the walk back meets no vertex twice. */
  lemma FirstReturnDistinct(arcs: seq<Arc>, pred: seq<int>, start: nat, k: nat, i: nat, j: nat)
    requires ArcsWithin(arcs, |pred|) && start < |pred|
    requires FirstReturn(arcs, pred, start, k)
    requires 1 <= i < j <= k
    ensures BackTo(arcs, pred, start, i) != BackTo(arcs, pred, start, j)
  {
    BackToSum(arcs, pred, start, i, k - j);
    BackToSum(arcs, pred, start, j, k - j);
    assert BackTo(arcs, pred, start, i + (k - j)) != start;
  }

  /** The trail of a first return is a predecessor loop with distinct tails. */
  lemma TrailIsLoop(
    arcs: seq<Arc>, eps: real, dist: seq<real>, pred: seq<int>, rnd: seq<nat>, r: nat, start: nat, period: nat,
    k: nat)
    requires Labels(arcs, eps, dist, pred, rnd, r, 0)
    requires start < |pred| && OnLoop(arcs, pred, start, period) && FirstReturn(arcs, pred, start, k)
    ensures PredLoop(arcs, pred, Trail(arcs, pred, start, k))
    ensures var trail := Trail(arcs, pred, start, k);
            forall i, j :: 0 <= i < j < k ==> arcs[trail[i]].src != arcs[trail[j]].src
  {
    var trail := Trail(arcs, pred, start, k);
    forall i | 0 <= i < k
      ensures arcs[trail[i]].dst == BackTo(arcs, pred, start, i)
      ensures arcs[trail[i]].src == BackTo(arcs, pred, start, i + 1)
    {
      assert PredOk(arcs, dist, pred, rnd, BackTo(arcs, pred, start, i));
    }
    forall i, j | 0 <= i < j < k ensures arcs[trail[i]].src != arcs[trail[j]].src {
      FirstReturnDistinct(arcs, pred, start, k, i + 1, j + 1);
    }
  }
}
