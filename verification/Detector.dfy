/** The arbitrage graph and its negative-cycle search. */
module Detector {
  import opened Domain
  import opened Routes
  import opened Relaxation

  /** The detector's relaxation guard, 1e-12. */
  const EPSILON: real := 0.000000000001

  ghost predicate Indexed(edges: seq<Edge>, index: map<TokenId, nat>) {
    forall e :: e in edges ==> e.from in index && e.to in index
  }

  /** The edges seen as arcs between token numbers. */
  ghost function ArcsOf(edges: seq<Edge>, index: map<TokenId, nat>, weight: real -> real): (arcs: seq<Arc>)
    requires Indexed(edges, index)
    ensures |arcs| == |edges|
    ensures forall i :: 0 <= i < |arcs| ==>
              arcs[i] == Arc(index[edges[i].from], index[edges[i].to], weight(edges[i].rate))
  {
    seq(|edges|, i requires 0 <= i < |edges| =>
      Arc(index[edges[i].from], index[edges[i].to], weight(edges[i].rate)))
  }

  function WeightsOf(edges: seq<Edge>, weight: real -> real): (ws: seq<real>)
    ensures |ws| == |edges| && forall i :: 0 <= i < |ws| ==> ws[i] == weight(edges[i].rate)
  {
    seq(|edges|, i requires 0 <= i < |edges| => weight(edges[i].rate))
  }

  /** The edges a backwards list of arc numbers stands for. */
  ghost function Picked(edges: seq<Edge>, loop: seq<nat>): (es: seq<Edge>)
    requires forall i :: 0 <= i < |loop| ==> loop[i] < |edges|
    ensures |es| == |loop| && forall i :: 0 <= i < |es| ==> es[i] == edges[loop[i]]
  {
    seq(|loop|, i requires 0 <= i < |loop| => edges[loop[i]])
  }

  lemma PickedAppend(edges: seq<Edge>, loop: seq<nat>, ei: nat)
    requires forall i :: 0 <= i < |loop| ==> loop[i] < |edges|
    requires ei < |edges|
    ensures Picked(edges, loop + [ei]) == Picked(edges, loop) + [edges[ei]]
  {
  }

  lemma {:induction false} PickedWeight(
    edges: seq<Edge>, index: map<TokenId, nat>, weight: real -> real, loop: seq<nat>)
    requires Indexed(edges, index)
    requires forall i :: 0 <= i < |loop| ==> loop[i] < |edges|
    ensures Weight(Picked(edges, loop), weight) == Total(ArcsOf(edges, index, weight), loop)
  {
    if loop == [] {
    } else {
      assert Picked(edges, loop)[1..] == Picked(edges, loop[1..]);
      PickedWeight(edges, index, weight, loop[1..]);
    }
  }

  /** `index` numbers exactly the tokens of `tokens`, each by its position. */
  ghost predicate Inverse(index: map<TokenId, nat>, tokens: seq<TokenId>) {
    && (forall t :: t in index ==> index[t] < |tokens| && tokens[index[t]] == t)
    && (forall i :: 0 <= i < |tokens| ==> tokens[i] in index && index[tokens[i]] == i)
  }

  /** Read forwards, a backwards list of arcs is a connected run of edges. */
  lemma ForwardEdges(
    edges: seq<Edge>, index: map<TokenId, nat>, tokens: seq<TokenId>, weight: real -> real, loop: seq<nat>)
    requires Inverse(index, tokens)
    requires Indexed(edges, index)
    requires var arcs := ArcsOf(edges, index, weight);
             && loop != [] && Backwards(arcs, loop)
             && arcs[loop[|loop|-1]].src == arcs[loop[0]].dst
             && forall i, j :: 0 <= i < j < |loop| ==> arcs[loop[i]].src != arcs[loop[j]].src
    ensures var es := Reverse(Picked(edges, loop));
            Closed(es) && Within(es, edges) && Simple(es)
  {
    var arcs := ArcsOf(edges, index, weight);
    var picked := Picked(edges, loop);
    var es := Reverse(picked);
    var last := |loop| - 1;
    forall i | 0 <= i < |es|
      ensures es[i] in edges
      ensures arcs[loop[last-i]].src == index[es[i].from] && arcs[loop[last-i]].dst == index[es[i].to]
    {
      assert es[i] == edges[loop[last-i]];
    }
    forall i | 0 <= i < |es| - 1 ensures es[i].to == es[i+1].from {
      var j := last - 1 - i;
      assert arcs[loop[j]].src == arcs[loop[j+1]].dst;
    }
  }

  /** A predecessor loop without repeated vertices, read forwards, is a sound cycle. */
  lemma LoopIsSound(
    edges: seq<Edge>, index: map<TokenId, nat>, tokens: seq<TokenId>, weight: real -> real, eps: real,
    pred: seq<int>, loop: seq<nat>)
    requires Inverse(index, tokens)
    requires Indexed(edges, index)
    requires var arcs := ArcsOf(edges, index, weight);
             && LoopsNegative(arcs, eps, pred)
             && PredLoop(arcs, pred, loop)
             && forall i, j :: 0 <= i < j < |loop| ==> arcs[loop[i]].src != arcs[loop[j]].src
    ensures var es := Reverse(Picked(edges, loop));
            Sound(Cycle(es, Product(es)), edges, weight, eps)
  {
    ForwardEdges(edges, index, tokens, weight, loop);
    PickedWeight(edges, index, weight, loop);
    WeightOfReverse(Picked(edges, loop), weight);
  }

  /** The edges met on the way from a loop vertex back to itself form a sound cycle. */
  lemma TrailIsSound(
    edges: seq<Edge>, index: map<TokenId, nat>, tokens: seq<TokenId>, weight: real -> real, eps: real,
    dist: seq<real>, pred: seq<int>, rnd: seq<nat>, r: nat, start: nat, period: nat, k: nat)
    requires Inverse(index, tokens) && Indexed(edges, index)
    requires Labels(ArcsOf(edges, index, weight), eps, dist, pred, rnd, r, 0)
    requires start < |pred| && OnLoop(ArcsOf(edges, index, weight), pred, start, period)
    requires FirstReturn(ArcsOf(edges, index, weight), pred, start, k)
    ensures var es := Reverse(Picked(edges, Trail(ArcsOf(edges, index, weight), pred, start, k)));
            Sound(Cycle(es, Product(es)), edges, weight, eps)
  {
    var arcs := ArcsOf(edges, index, weight);
    TrailIsLoop(arcs, eps, dist, pred, rnd, r, start, period, k);
    LoopIsSound(edges, index, tokens, weight, eps, pred, Trail(arcs, pred, start, k));
  }

  /** The token list after interning `t`. */
  function WithToken(tokens: seq<TokenId>, t: TokenId): seq<TokenId> {
    if t in tokens then tokens else tokens + [t]
  }

  class ArbitrageGraph {
    var edges: seq<Edge>
    var index: map<TokenId, nat>
    var tokens: seq<TokenId>

    ghost predicate Valid()
      reads this
    {
      && Inverse(index, tokens)
      && Indexed(edges, index)
      && (edges != [] ==> tokens != [])
      && PositiveRates(edges)
    }

    constructor ()
      ensures Valid() && edges == [] && tokens == []
    {
      edges, index, tokens := [], map[], [];
    }

    method Intern(t: TokenId) returns (i: nat)
      requires Valid()
      modifies `index, `tokens
      ensures Valid() && t in index && index[t] == i
      ensures tokens == WithToken(old(tokens), t)
      ensures forall s :: s in old(index) ==> s in index && index[s] == old(index)[s]
    {
      assert t in index <==> t in tokens;
      if t in index {
        return index[t];
      }
      i := |tokens|;
      tokens := tokens + [t];
      index := index[t := i];
    }

    method AddEdge(edge: Edge)
      requires Valid()
      modifies this
      ensures Valid()
      ensures edge.rate <= 0.0 ==> edges == old(edges) && tokens == old(tokens) && index == old(index)
      ensures edge.rate > 0.0 ==>
                && edges == old(edges) + [edge]
                && tokens == WithToken(WithToken(old(tokens), edge.from), edge.to)
      ensures forall s :: s in old(index) ==> s in index && index[s] == old(index)[s]
    {
      if edge.rate <= 0.0 {
        return;
      }
      var _ := Intern(edge.from);
      var _ := Intern(edge.to);
      edges := edges + [edge];
    }

    method FindArbitrage(weight: real -> real, eps: real) returns (found: Option<Cycle>)
      requires Valid() && eps >= 0.0
      ensures found.Some? ==> Sound(found.value, edges, weight, eps)
      ensures found.None? ==> NoneProfitable(edges, weight, eps)
      ensures NegLog(weight) && found.Some? ==> found.value.product > 1.0
      ensures found.None? <==> edges == [] || SettlesWithin(ArcsOf(edges, index, weight), |tokens|, eps)
    {
      var n := |tokens|;
      if n == 0 || edges == [] {
        return None;
      }
      var lastUpdated, pred, dist, rnd := RelaxRounds(weight, eps);
      if lastUpdated.None? {
        return None;
      }
      var cycle := ExtractCycle(lastUpdated.value, pred, weight, eps, dist, rnd);
      if NegLog(weight) {
        SoundIsProfitable(cycle, edges, weight, eps);
      }
      found := Some(cycle);
    }

    /** Walks back from a token updated in the last round and reads off the cycle met. */
    method ExtractCycle(
      last: nat, pred: array<int>, ghost weight: real -> real, ghost eps: real, ghost dist: seq<real>,
      ghost rnd: seq<nat>)
      returns (cycle: Cycle)
      requires Valid()
      requires Labels(ArcsOf(edges, index, weight), eps, dist, pred[..], rnd, pred.Length + 1, 0)
      requires last < pred.Length && rnd[last] == pred.Length
      ensures Sound(cycle, edges, weight, eps)
    {
      ghost var arcs, n := ArcsOf(edges, index, weight), pred.Length;
      var v := StepIntoCycle(last, pred, eps, arcs, dist, rnd);
      ghost var period := WalkEndsOnLoop(arcs, eps, dist, pred[..], rnd, n + 1, 0, last);
      var cycleEdges := Reconstruct(v, pred, arcs, period);
      TrailIsSound(edges, index, tokens, weight, eps, dist, pred[..], rnd, n + 1, v, period, |cycleEdges|);
      cycle := Cycle(cycleEdges, Product(cycleEdges));
    }

    /** As many rounds as there are tokens, unless one of them relaxes nothing. Returns the
        token last updated in the final round and the predecessor slots. */
    method RelaxRounds(weight: real -> real, eps: real)
      returns (lastUpdated: Option<nat>, pred: array<int>, ghost labels: seq<real>, ghost rnd: seq<nat>)
      requires Valid() && eps >= 0.0 && |tokens| > 0
      ensures fresh(pred) && pred.Length == |tokens|
      ensures lastUpdated.None? <==> SettlesWithin(ArcsOf(edges, index, weight), |tokens|, eps)
      ensures lastUpdated.None? ==> NoneProfitable(edges, weight, eps)
      ensures lastUpdated.Some? ==>
                && Labels(ArcsOf(edges, index, weight), eps, labels, pred[..], rnd, |tokens| + 1, 0)
                && lastUpdated.value < |tokens| && rnd[lastUpdated.value] == |tokens|
    {
      var n := |tokens|;
      var weights := WeightsOf(edges, weight);
      var dist := new real[n](_ => 0.0);
      pred := new int[n](_ => NO_ARC);
      ghost var arcs := ArcsOf(edges, index, weight);
      rnd := seq(n, _ => 0);
      lastUpdated := None;
      assert dist[..] == DistancesAfter(arcs, n, eps, 0) && pred[..] == seq(n, _ => NO_ARC);
      LabelsAtStart(arcs, eps, n);

      for r := 0 to n
        invariant Labels(arcs, eps, dist[..], pred[..], rnd, r + 1, 0)
        invariant dist[..] == DistancesAfter(arcs, n, eps, r)
        invariant r > 0 ==> lastUpdated.Some? && lastUpdated.value < n && rnd[lastUpdated.value] == r
        invariant Restless(arcs, n, eps, r)
      {
        lastUpdated, rnd := RelaxAll(weights, dist, pred, eps, arcs, rnd, r + 1);
        assert dist[..] == DistancesAfter(arcs, n, eps, r + 1);
        if lastUpdated.None? {
          CertifyFromLabels(edges, index, weight, eps, dist[..]);
          labels := dist[..];
          return;
        }
      }
      RestlessNeverSettles(arcs, n, eps, n);
      labels := dist[..];
    }

    /** One round: offers every edge once, in order and in place. */
    method RelaxAll(
      weights: seq<real>, dist: array<real>, pred: array<int>, eps: real, ghost arcs: seq<Arc>,
      ghost rnd: seq<nat>, ghost r: nat)
      returns (lastUpdated: Option<nat>, ghost rnd': seq<nat>)
      requires Valid() && eps >= 0.0 && r >= 1
      requires |weights| == |edges| == |arcs|
      requires forall i :: 0 <= i < |edges| ==> arcs[i] == Arc(index[edges[i].from], index[edges[i].to], weights[i])
      requires Labels(arcs, eps, dist[..], pred[..], rnd, r, 0)
      modifies dist, pred
      ensures Labels(arcs, eps, dist[..], pred[..], rnd', r + 1, 0)
      ensures dist[..] == Swept(arcs, eps, old(dist[..]))
      ensures lastUpdated.None? ==> dist[..] == old(dist[..])
      ensures lastUpdated.None? ==> forall e :: 0 <= e < |arcs| ==> !Relaxable(arcs[e], eps, dist[..])
      ensures lastUpdated.Some? ==>
                var v := lastUpdated.value; v < dist.Length && rnd'[v] == r && dist[v] < old(dist[v])
    {
      ghost var before := dist[..];
      lastUpdated, rnd' := None, rnd;
      for ei := 0 to |edges|
        invariant Sweeping(arcs, eps, before, dist[..], pred[..], rnd', r, ei, lastUpdated)
      {
        var e := edges[ei];
        assert e in edges;
        var u := index[e.from];
        var v := index[e.to];
        ghost var d, p := dist[..], pred[..];
        assert arcs[ei] == Arc(u, v, weights[ei]);
        if dist[u] + weights[ei] < dist[v] - eps {
          SweepingRelax(arcs, eps, before, d, p, rnd', r, ei, lastUpdated);
          dist[v] := dist[u] + weights[ei];
          pred[v] := ei;
          lastUpdated := Some(v);
          rnd' := rnd'[v := r];
          assert dist[..] == d[v := d[u] + weights[ei]] && pred[..] == p[v := ei];
        } else {
          SweepingSkip(arcs, eps, before, d, p, rnd', r, ei, lastUpdated);
        }
      }
      LabelsNextRound(arcs, eps, dist[..], pred[..], rnd', r);
    }

    /** Walks as many predecessors back as there are tokens. */
    method StepIntoCycle(
      last: nat, pred: array<int>, ghost eps: real, ghost arcs: seq<Arc>, ghost dist: seq<real>,
      ghost rnd: seq<nat>)
      returns (v: nat)
      requires Valid()
      requires |edges| == |arcs|
      requires forall i :: 0 <= i < |edges| ==> arcs[i].src == index[edges[i].from]
      requires Labels(arcs, eps, dist, pred[..], rnd, pred.Length + 1, 0)
      requires last < pred.Length && rnd[last] == pred.Length
      ensures v == BackTo(arcs, pred[..], last, pred.Length)
    {
      v := last;
      for i := 0 to pred.Length
        invariant v == BackTo(arcs, pred[..], last, i)
      {
        var ei := pred[v];
        BackFromRound(arcs, eps, dist, pred[..], rnd, pred.Length + 1, 0, last, i);
        assert PredOk(arcs, dist, pred[..], rnd, v);
        if ei == NO_ARC {
          assert false;
          return;
        }
        v := index[edges[ei].from];
      }
    }

    /** Follows predecessors from `start` until they return to it. */
    method Reconstruct(start: nat, pred: array<int>, ghost arcs: seq<Arc>, ghost period: nat)
      returns (cycleEdges: seq<Edge>)
      requires Indexed(edges, index)
      requires |edges| == |arcs| && ArcsWithin(arcs, pred.Length)
      requires forall i :: 0 <= i < |edges| ==> arcs[i].src == index[edges[i].from]
      requires start < pred.Length && OnLoop(arcs, pred[..], start, period)
      ensures FirstReturn(arcs, pred[..], start, |cycleEdges|)
      ensures cycleEdges == Reverse(Picked(edges, Trail(arcs, pred[..], start, |cycleEdges|)))
    {
      cycleEdges := [];
      var cur := start;
      while true
        invariant |cycleEdges| < period
        invariant cur == BackTo(arcs, pred[..], start, |cycleEdges|)
        invariant forall i: nat :: 0 < i <= |cycleEdges| ==> BackTo(arcs, pred[..], start, i) != start
        invariant cycleEdges == Picked(edges, Trail(arcs, pred[..], start, |cycleEdges|))
        decreases period - |cycleEdges|
      {
        var ei := pred[cur];
        if ei == NO_ARC {
          assert false;
          return;
        }
        TrailGrows(arcs, pred[..], start, |cycleEdges|);
        PickedAppend(edges, Trail(arcs, pred[..], start, |cycleEdges|), ei);
        cycleEdges := cycleEdges + [edges[ei]];
        cur := index[edges[ei].from];
        if cur == start {
          break;
        }
        if |cycleEdges| > pred.Length + 1 {
          assert false;
          return;
        }
      }
      cycleEdges := Reverse(cycleEdges);
    }
  }

  /** Distances no arc can improve by more than eps certify the whole graph. */
  lemma CertifyFromLabels(edges: seq<Edge>, index: map<TokenId, nat>, weight: real -> real, eps: real, dist: seq<real>)
    requires Indexed(edges, index)
    requires ArcsWithin(ArcsOf(edges, index, weight), |dist|)
    requires forall i :: 0 <= i < |edges| ==> !Relaxable(ArcsOf(edges, index, weight)[i], eps, dist)
    ensures NoneProfitable(edges, weight, eps)
  {
    var arcs := ArcsOf(edges, index, weight);
    var pot := map t | t in index && index[t] < |dist| :: dist[index[t]];
    forall e | e in edges
      ensures e.from in pot && e.to in pot && pot[e.from] + weight(e.rate) >= pot[e.to] - eps
    {
      var i :| 0 <= i < |edges| && edges[i] == e;
      assert !Relaxable(arcs[i], eps, dist);
    }
    PotentialCertifies(edges, weight, eps, pot);
  }
}
