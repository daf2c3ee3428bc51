/** When the edge-disjoint search returns cycles that share an edge value: exactly when the
    edge list holds two sound cycles that do, copies included. */
module EdgeSharing {
  import opened Routes
  import opened Disjoint

  ghost predicate Shares(a: Cycle, b: Cycle) {
    exists e :: e in a.edges && e in b.edges
  }

  /** Two cycles of the run share an edge value. */
  ghost predicate RunShares(cycles: seq<Cycle>) {
    exists i, j :: 0 <= i < j < |cycles| && Shares(cycles[i], cycles[j])
  }

  /** Two sound cycles that share an edge value and fit into the edge list together. */
  ghost predicate Overlap(edges: seq<Edge>, weight: real -> real, eps: real, a: Cycle, b: Cycle) {
    && Sound(a, edges, weight, eps) && Sound(b, edges, weight, eps)
    && Shares(a, b)
    && multiset(a.edges) + multiset(b.edges) <= multiset(edges)
  }

  // ---- A run that shares has an overlapping pair

  lemma {:induction false} UsedContains(cycles: seq<Cycle>, i: nat)
    requires i < |cycles|
    ensures multiset(cycles[i].edges) <= UsedEdges(cycles)
  {
    if i == |cycles| - 1 {
    } else {
      UsedContains(cycles[..|cycles|-1], i);
    }
  }

  lemma {:induction false} UsedContainsBoth(cycles: seq<Cycle>, i: nat, j: nat)
    requires i < j < |cycles|
    ensures multiset(cycles[i].edges) + multiset(cycles[j].edges) <= UsedEdges(cycles)
  {
    var init := cycles[..|cycles|-1];
    if j == |cycles| - 1 {
      UsedContains(init, i);
    } else {
      UsedContainsBoth(init, i, j);
    }
  }

  /** Two returned cycles that share an edge value overlap. */
  lemma SharedCyclesOverlap(
    edges: seq<Edge>, cycles: seq<Cycle>, weight: real -> real, eps: real, i: nat, j: nat)
    requires SoundRun(OwnEdges, edges, cycles, weight, eps)
    requires i < j < |cycles| && Shares(cycles[i], cycles[j])
    ensures Overlap(edges, weight, eps, cycles[i], cycles[j])
  {
    RunIsSoundInGraph(OwnEdges, edges, cycles, weight, eps, i);
    RunIsSoundInGraph(OwnEdges, edges, cycles, weight, eps, j);
    EdgesConserved(edges, cycles, weight, eps);
    UsedContainsBoth(cycles, i, j);
  }

  /** An edge value shared by two returned cycles occurs at least twice in the graph. */
  lemma SharedEdgeIsDuplicated(
    edges: seq<Edge>, cycles: seq<Cycle>, weight: real -> real, eps: real, i: nat, j: nat, e: Edge)
    requires SoundRun(OwnEdges, edges, cycles, weight, eps)
    requires i < j < |cycles| && e in cycles[i].edges && e in cycles[j].edges
    ensures multiset(edges)[e] >= 2
  {
    SharedCyclesOverlap(edges, cycles, weight, eps, i, j);
    assert e in multiset(cycles[i].edges) && e in multiset(cycles[j].edges);
  }

  // ---- An overlapping pair starts a run that shares

  /** An overlapping pair is itself a run. */
  lemma OverlapIsRun(edges: seq<Edge>, weight: real -> real, eps: real, a: Cycle, b: Cycle)
    requires Overlap(edges, weight, eps, a, b)
    ensures SoundRun(OwnEdges, edges, [a, b], weight, eps)
  {
    SoundRunExtend(OwnEdges, edges, [], a, weight, eps);
    assert [] + [a] == [a] && [a] + [b] == [a, b];
    var rest := Remaining(OwnEdges, edges, [a]);
    assert rest == RemoveEach(edges, a.edges);
    RemoveEachCounts(edges, a.edges);
    forall i | 0 <= i < |b.edges| ensures b.edges[i] in rest {
      assert b.edges[i] in multiset(b.edges);
      assert b.edges[i] in multiset(rest);
    }
    SoundRunExtend(OwnEdges, edges, [a], b, weight, eps);
  }

  lemma {:induction false} WeightSplits(walk: seq<Edge>, i: nat, j: nat, weight: real -> real)
    requires i <= j <= |walk|
    ensures Weight(walk, weight) == Weight(walk[i..j], weight) + Weight(walk[..i] + walk[j..], weight)
  {
    assert walk == walk[..i] + (walk[i..j] + walk[j..]);
    WeightOfConcat(walk[..i], walk[i..j] + walk[j..], weight);
    WeightOfConcat(walk[i..j], walk[j..], weight);
    WeightOfConcat(walk[..i], walk[j..], weight);
  }

  /** Cutting a closed walk where it leaves one token twice gives two shorter closed walks. */
  lemma CutIsClosed(walk: seq<Edge>, graph: seq<Edge>, i: nat, j: nat)
    requires Closed(walk) && Within(walk, graph) && i < j < |walk| && walk[i].from == walk[j].from
    ensures Closed(walk[i..j]) && Within(walk[i..j], graph)
    ensures Closed(walk[..i] + walk[j..]) && Within(walk[..i] + walk[j..], graph)
  {
    var inner, outer := walk[i..j], walk[..i] + walk[j..];
    assert walk[j-1].to == walk[j].from;
    forall k | 0 <= k < |inner| - 1 ensures inner[k].to == inner[k+1].from {
      assert walk[i+k].to == walk[i+k+1].from;
    }
    forall k | 0 <= k < |outer| - 1 ensures outer[k].to == outer[k+1].from {
      if k < i {
        assert walk[k].to == walk[k+1].from;
      } else {
        var m := k - i + j;
        assert walk[m].to == walk[m+1].from;
      }
    }
  }

  /** The walk weighs less than -eps per edge. */
  ghost predicate Light(walk: seq<Edge>, weight: real -> real, eps: real) {
    BelowPer(Weight(walk, weight), |walk|, eps)
  }

  ghost predicate BelowPer(w: real, n: nat, eps: real) {
    w < -(n as real) * eps
  }

  lemma BelowPerPart(w: real, u: real, v: real, k: nat, m: nat, n: nat, eps: real)
    requires w == u + v && k == m + n && BelowPer(w, k, eps)
    ensures BelowPer(u, m, eps) || BelowPer(v, n, eps)
  {
    assert (k as real) * eps == (m as real) * eps + (n as real) * eps;
  }

  lemma LightIsBelowEps(w: real, n: nat, eps: real)
    requires n >= 1 && eps >= 0.0 && w < -(n as real) * eps
    ensures w < -eps
  {
    assert (n as real - 1.0) * eps >= 0.0;
  }

  lemma LightCut(walk: seq<Edge>, i: nat, j: nat, weight: real -> real, eps: real)
    requires i <= j <= |walk| && Light(walk, weight, eps)
    ensures Light(walk[i..j], weight, eps) || Light(walk[..i] + walk[j..], weight, eps)
  {
    var inner, outer := walk[i..j], walk[..i] + walk[j..];
    WeightSplits(walk, i, j, weight);
    BelowPerPart(Weight(walk, weight), Weight(inner, weight), Weight(outer, weight),
                 |walk|, |inner|, |outer|, eps);
  }

  lemma LightSimpleIsSound(walk: seq<Edge>, graph: seq<Edge>, weight: real -> real, eps: real)
    requires Closed(walk) && Within(walk, graph) && Simple(walk) && eps >= 0.0 && Light(walk, weight, eps)
    ensures Sound(Cycle(walk, Product(walk)), graph, weight, eps)
  {
    LightIsBelowEps(Weight(walk, weight), |walk|, eps);
  }

  /** A closed walk lighter than -eps per edge holds a sound cycle. */
  lemma {:induction false} LightWalkHasSoundCycle(
    walk: seq<Edge>, graph: seq<Edge>, weight: real -> real, eps: real) returns (cycle: Cycle)
    requires Closed(walk) && Within(walk, graph) && eps >= 0.0 && Light(walk, weight, eps)
    ensures Sound(cycle, graph, weight, eps)
    decreases |walk|
  {
    if Simple(walk) {
      LightSimpleIsSound(walk, graph, weight, eps);
      cycle := Cycle(walk, Product(walk));
    } else {
      var i, j :| 0 <= i < j < |walk| && walk[i].from == walk[j].from;
      CutIsClosed(walk, graph, i, j);
      LightCut(walk, i, j, weight, eps);
      if Light(walk[i..j], weight, eps) {
        cycle := LightWalkHasSoundCycle(walk[i..j], graph, weight, eps);
      } else {
        cycle := LightWalkHasSoundCycle(walk[..i] + walk[j..], graph, weight, eps);
      }
    }
  }

  /** Every run can be continued to a complete one. */
  lemma {:induction false} RunCompletes(
    edges: seq<Edge>, cycles: seq<Cycle>, maxCycles: nat, weight: real -> real, eps: real)
    returns (longer: seq<Cycle>)
    requires eps >= 0.0 && |cycles| <= maxCycles && SoundRun(OwnEdges, edges, cycles, weight, eps)
    ensures CompleteRun(OwnEdges, edges, longer, maxCycles, weight, eps) && cycles <= longer
    decreases maxCycles - |cycles|
  {
    var rest := Remaining(OwnEdges, edges, cycles);
    if |cycles| == maxCycles || NoneProfitable(rest, weight, eps) {
      longer := cycles;
    } else {
      var walk: seq<Edge> :| Closed(walk) && Within(walk, rest) && Light(walk, weight, eps);
      var cycle := LightWalkHasSoundCycle(walk, rest, weight, eps);
      SoundRunExtend(OwnEdges, edges, cycles, cycle, weight, eps);
      longer := RunCompletes(edges, cycles + [cycle], maxCycles, weight, eps);
    }
  }

  /** The exact condition: under a cap of at least 2 some run of the search shares an edge
      value exactly when the edge list holds an overlapping pair. */
  lemma SharingExactly(edges: seq<Edge>, maxCycles: nat, weight: real -> real, eps: real)
    requires eps >= 0.0
    ensures (exists cycles: seq<Cycle> ::
               CompleteRun(OwnEdges, edges, cycles, maxCycles, weight, eps) && RunShares(cycles))
            <==> maxCycles >= 2 && exists a: Cycle, b: Cycle :: Overlap(edges, weight, eps, a, b)
  {
    if cycles: seq<Cycle> :|
      CompleteRun(OwnEdges, edges, cycles, maxCycles, weight, eps) && RunShares(cycles)
    {
      var i, j :| 0 <= i < j < |cycles| && Shares(cycles[i], cycles[j]);
      SharedCyclesOverlap(edges, cycles, weight, eps, i, j);
    }
    if maxCycles >= 2 && exists a: Cycle, b: Cycle :: Overlap(edges, weight, eps, a, b) {
      var a: Cycle, b: Cycle :| Overlap(edges, weight, eps, a, b);
      OverlapIsRun(edges, weight, eps, a, b);
      var longer := RunCompletes(edges, [a, b], maxCycles, weight, eps);
      assert longer[0] == [a, b][0] && longer[1] == [a, b][1];
      assert RunShares(longer);
    }
  }

  // ---- Sharing that no run avoids

  /** An edge used twice by simple cycles is used by two of them. */
  lemma {:induction false} UsedTwiceIsShared(cycles: seq<Cycle>, e: Edge) returns (i: nat, j: nat)
    requires forall k :: 0 <= k < |cycles| ==> Simple(cycles[k].edges)
    requires UsedEdges(cycles)[e] >= 2
    ensures i < j < |cycles| && e in cycles[i].edges && e in cycles[j].edges
  {
    var init, last := cycles[..|cycles|-1], |cycles| - 1;
    SimpleCounts(cycles[last].edges, e);
    if UsedEdges(init)[e] >= 2 {
      i, j := UsedTwiceIsShared(init, e);
    } else {
      i := UsedOnceIsIn(init, e);
      j := last;
      assert e in multiset(cycles[last].edges);
    }
  }

  lemma {:induction false} UsedOnceIsIn(cycles: seq<Cycle>, e: Edge) returns (i: nat)
    requires UsedEdges(cycles)[e] >= 1
    ensures i < |cycles| && e in cycles[i].edges
  {
    var last := |cycles| - 1;
    if e in cycles[last].edges {
      i := last;
    } else {
      assert multiset(cycles[last].edges)[e] == 0;
      i := UsedOnceIsIn(cycles[..last], e);
    }
  }

  /** A closed walk lighter than -eps per edge whose edges all occur twice is shared by every
      run short of its cap: two of the returned cycles have one of its edges in common. */
  lemma DoubledWalkIsShared(
    edges: seq<Edge>, cycles: seq<Cycle>, maxCycles: nat, weight: real -> real, eps: real, walk: seq<Edge>)
    returns (i: nat, j: nat, e: Edge)
    requires CompleteRun(OwnEdges, edges, cycles, maxCycles, weight, eps) && |cycles| < maxCycles
    requires Closed(walk) && Light(walk, weight, eps)
    requires forall k :: 0 <= k < |walk| ==> multiset(edges)[walk[k]] >= 2
    ensures e in walk && i < j < |cycles| && e in cycles[i].edges && e in cycles[j].edges
  {
    var rest := Remaining(OwnEdges, edges, cycles);
    assert !Within(walk, rest);
    var k :| 0 <= k < |walk| && walk[k] !in rest;
    e := walk[k];
    EdgesConserved(edges, cycles, weight, eps);
    assert multiset(rest)[e] == 0;
    forall m | 0 <= m < |cycles| ensures Simple(cycles[m].edges) {
      RunIsSoundInGraph(OwnEdges, edges, cycles, weight, eps, m);
    }
    i, j := UsedTwiceIsShared(cycles, e);
  }
}
