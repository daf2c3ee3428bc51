/** The greedy search for several cycles that do not share edges, or do not share pools. */
module Disjoint {
  import opened Domain
  import opened Routes
  import opened Detector

  /** What is removed from the working edges once a cycle is accepted. */
  datatype Pruning = OwnEdges | WholePools

  function PoolsOf(es: seq<Edge>): seq<PoolId> {
    if es == [] then [] else [es[0].pool] + PoolsOf(es[1..])
  }

  lemma {:induction false} InPoolsOf(es: seq<Edge>, p: PoolId)
    ensures p in PoolsOf(es) <==> exists e :: e in es && e.pool == p
  {
    if es == [] {
    } else {
      InPoolsOf(es[1..], p);
      assert es == [es[0]] + es[1..];
    }
  }

  /** The list without the first occurrence of `e`. */
  function RemoveFirst(es: seq<Edge>, e: Edge): (rest: seq<Edge>)
    ensures |rest| <= |es|
  {
    if es == [] then []
    else if es[0] == e then es[1..]
    else [es[0]] + RemoveFirst(es[1..], e)
  }

  lemma {:induction false} RemoveFirstCounts(es: seq<Edge>, e: Edge)
    ensures multiset(RemoveFirst(es, e)) == multiset(es) - multiset{e}
    ensures e in es ==> |RemoveFirst(es, e)| == |es| - 1
  {
    if es == [] {
    } else {
      assert es == [es[0]] + es[1..];
      if es[0] != e {
        RemoveFirstCounts(es[1..], e);
      }
    }
  }

  lemma {:induction false} RemoveFirstAbsent(es: seq<Edge>, e: Edge)
    requires e !in es
    ensures RemoveFirst(es, e) == es
  {
    if es == [] {
    } else {
      assert es[0] in es;
      RemoveFirstAbsent(es[1..], e);
    }
  }

  function RemoveEach(es: seq<Edge>, gone: seq<Edge>): (rest: seq<Edge>)
    ensures |rest| <= |es|
  {
    if gone == [] then es else RemoveFirst(RemoveEach(es, gone[..|gone|-1]), gone[|gone|-1])
  }

  function KeepOff(es: seq<Edge>, pools: seq<PoolId>): (rest: seq<Edge>)
    ensures |rest| <= |es|
  {
    if es == [] then []
    else if es[0].pool in pools then KeepOff(es[1..], pools)
    else [es[0]] + KeepOff(es[1..], pools)
  }

  function Pruned(mode: Pruning, working: seq<Edge>, cycle: Cycle): (rest: seq<Edge>)
    ensures |rest| <= |working|
  {
    match mode
    case OwnEdges => RemoveEach(working, cycle.edges)
    case WholePools => KeepOff(working, PoolsOf(cycle.edges))
  }

  /** The working edges left after the given cycles were accepted in order. */
  function Remaining(mode: Pruning, edges: seq<Edge>, cycles: seq<Cycle>): seq<Edge> {
    if cycles == [] then edges
    else Pruned(mode, Remaining(mode, edges, cycles[..|cycles|-1]), cycles[|cycles|-1])
  }

  /** Each cycle is sound in the edges the earlier ones left. */
  ghost predicate SoundRun(mode: Pruning, edges: seq<Edge>, cycles: seq<Cycle>, weight: real -> real, eps: real) {
    forall i {:trigger cycles[i]} :: 0 <= i < |cycles| ==>
      Sound(cycles[i], Remaining(mode, edges, cycles[..i]), weight, eps)
  }

  /** A run is complete when it reached the cap or certified what is left. */
  ghost predicate CompleteRun(
    mode: Pruning, edges: seq<Edge>, cycles: seq<Cycle>, maxCycles: nat, weight: real -> real, eps: real)
  {
    && SoundRun(mode, edges, cycles, weight, eps)
    && |cycles| <= maxCycles
    && (|cycles| < maxCycles ==> NoneProfitable(Remaining(mode, edges, cycles), weight, eps))
  }

  // ---- Removal, edge by edge

  lemma {:induction false} RemoveEachCounts(es: seq<Edge>, gone: seq<Edge>)
    requires multiset(gone) <= multiset(es)
    ensures multiset(RemoveEach(es, gone)) == multiset(es) - multiset(gone)
    ensures |RemoveEach(es, gone)| == |es| - |gone|
  {
    if gone == [] {
    } else {
      var init, last := gone[..|gone|-1], gone[|gone|-1];
      assert gone == init + [last];
      RemoveEachCounts(es, init);
      RemoveFirstCounts(RemoveEach(es, init), last);
      assert multiset(RemoveEach(es, init))[last] > 0;
    }
  }

  lemma {:induction false} KeepOffMembers(es: seq<Edge>, pools: seq<PoolId>, e: Edge)
    ensures e in KeepOff(es, pools) <==> e in es && e.pool !in pools
  {
    if es == [] {
    } else {
      KeepOffMembers(es[1..], pools, e);
      assert es == [es[0]] + es[1..];
    }
  }

  lemma KeepOffOne(e: Edge, pools: seq<PoolId>)
    ensures KeepOff([e], pools) == if e.pool in pools then [] else [e]
  {
    assert [e][1..] == [];
  }

  /** Keeping off pools goes edge by edge, in order and with every copy. */
  lemma {:induction false} KeepOffConcat(a: seq<Edge>, b: seq<Edge>, pools: seq<PoolId>)
    ensures KeepOff(a + b, pools) == KeepOff(a, pools) + KeepOff(b, pools)
  {
    if a == [] {
      assert a + b == b;
    } else {
      assert (a + b)[1..] == a[1..] + b;
      KeepOffConcat(a[1..], b, pools);
    }
  }

  /** Edges are removed one by one, in order, each in its first copy. */
  lemma RemoveEachStep(es: seq<Edge>, gone: seq<Edge>, e: Edge)
    ensures RemoveEach(es, []) == es
    ensures RemoveEach(es, gone + [e]) == RemoveFirst(RemoveEach(es, gone), e)
  {
    assert (gone + [e])[..|gone|] == gone;
  }

  lemma {:induction false} KeepOffShrinks(es: seq<Edge>, pools: seq<PoolId>, e: Edge)
    requires e in es && e.pool in pools
    ensures |KeepOff(es, pools)| < |es|
  {
    if es[0].pool in pools {
    } else {
      KeepOffShrinks(es[1..], pools, e);
    }
  }

  /** Accepting a cycle always removes something: the no-progress exit is dead. */
  lemma PruningShrinks(mode: Pruning, working: seq<Edge>, cycle: Cycle, weight: real -> real, eps: real)
    requires Sound(cycle, working, weight, eps)
    ensures |Pruned(mode, working, cycle)| < |working|
  {
    match mode
    case OwnEdges =>
      SimpleIsSubmultiset(cycle.edges, working);
      RemoveEachCounts(working, cycle.edges);
    case WholePools =>
      assert cycle.edges[0] in working;
      InPoolsOf(cycle.edges, cycle.edges[0].pool);
      KeepOffShrinks(working, PoolsOf(cycle.edges), cycle.edges[0]);
  }

  lemma PruningKeepsMembers(mode: Pruning, working: seq<Edge>, cycle: Cycle, e: Edge)
    requires e in Pruned(mode, working, cycle)
    ensures e in working
  {
    match mode
    case OwnEdges => RemoveEachMembers(working, cycle.edges, e);
    case WholePools => KeepOffMembers(working, PoolsOf(cycle.edges), e);
  }

  lemma {:induction false} RemoveEachMembers(es: seq<Edge>, gone: seq<Edge>, e: Edge)
    requires e in RemoveEach(es, gone)
    ensures e in es
  {
    if gone == [] {
    } else {
      var inner := RemoveEach(es, gone[..|gone|-1]);
      RemoveFirstCounts(inner, gone[|gone|-1]);
      assert e in multiset(RemoveEach(es, gone)) && e in multiset(inner);
      RemoveEachMembers(es, gone[..|gone|-1], e);
    }
  }

  lemma {:induction false} RemainingWithin(mode: Pruning, edges: seq<Edge>, cycles: seq<Cycle>, e: Edge)
    requires e in Remaining(mode, edges, cycles)
    ensures e in edges
  {
    if cycles == [] {
    } else {
      var init := cycles[..|cycles|-1];
      PruningKeepsMembers(mode, Remaining(mode, edges, init), cycles[|cycles|-1], e);
      RemainingWithin(mode, edges, init, e);
    }
  }

  /** Cutting the last cycle off a sound run leaves a sound run. */
  lemma SoundRunInit(mode: Pruning, edges: seq<Edge>, cycles: seq<Cycle>, weight: real -> real, eps: real)
    requires cycles != [] && SoundRun(mode, edges, cycles, weight, eps)
    ensures SoundRun(mode, edges, cycles[..|cycles|-1], weight, eps)
    ensures Sound(cycles[|cycles|-1], Remaining(mode, edges, cycles[..|cycles|-1]), weight, eps)
  {
    var init := cycles[..|cycles|-1];
    forall i | 0 <= i < |init| ensures Sound(init[i], Remaining(mode, edges, init[..i]), weight, eps) {
      assert init[..i] == cycles[..i];
      assert Sound(cycles[i], Remaining(mode, edges, cycles[..i]), weight, eps);
    }
    assert Sound(cycles[|cycles|-1], Remaining(mode, edges, cycles[..|cycles|-1]), weight, eps);
  }

  /** Every accepted cycle is sound in the full graph. */
  lemma RunIsSoundInGraph(mode: Pruning, edges: seq<Edge>, cycles: seq<Cycle>, weight: real -> real, eps: real, i: nat)
    requires SoundRun(mode, edges, cycles, weight, eps) && i < |cycles|
    ensures Sound(cycles[i], edges, weight, eps)
  {
    var es := cycles[i].edges;
    assert Sound(cycles[i], Remaining(mode, edges, cycles[..i]), weight, eps);
    forall j | 0 <= j < |es| ensures es[j] in edges {
      RemainingWithin(mode, edges, cycles[..i], es[j]);
    }
  }

  /** The number of cycles never exceeds the number of edges. */
  lemma {:induction false} RunIsShort(
    mode: Pruning, edges: seq<Edge>, cycles: seq<Cycle>, weight: real -> real, eps: real)
    requires SoundRun(mode, edges, cycles, weight, eps)
    ensures |cycles| + |Remaining(mode, edges, cycles)| <= |edges|
  {
    if cycles == [] {
    } else {
      var init := cycles[..|cycles|-1];
      SoundRunInit(mode, edges, cycles, weight, eps);
      RunIsShort(mode, edges, init, weight, eps);
      PruningShrinks(mode, Remaining(mode, edges, init), cycles[|cycles|-1], weight, eps);
    }
  }

  // ---- Edge-disjoint search: conservation

  ghost function UsedEdges(cycles: seq<Cycle>): multiset<Edge> {
    if cycles == [] then multiset{}
    else UsedEdges(cycles[..|cycles|-1]) + multiset(cycles[|cycles|-1].edges)
  }

  /** No copy of an edge is lost or used twice: the edges of all returned cycles together
      with the working edges are exactly the edges of the graph. */
  lemma {:induction false} EdgesConserved(edges: seq<Edge>, cycles: seq<Cycle>, weight: real -> real, eps: real)
    requires SoundRun(OwnEdges, edges, cycles, weight, eps)
    ensures UsedEdges(cycles) + multiset(Remaining(OwnEdges, edges, cycles)) == multiset(edges)
  {
    if cycles == [] {
    } else {
      var init, last := cycles[..|cycles|-1], cycles[|cycles|-1];
      SoundRunInit(OwnEdges, edges, cycles, weight, eps);
      EdgesConserved(edges, init, weight, eps);
      SimpleIsSubmultiset(last.edges, Remaining(OwnEdges, edges, init));
      RemoveEachCounts(Remaining(OwnEdges, edges, init), last.edges);
    }
  }

  // ---- Pool-disjoint search

  ghost predicate UsesPool(cycles: seq<Cycle>, p: PoolId) {
    exists i, j :: 0 <= i < |cycles| && 0 <= j < |cycles[i].edges| && cycles[i].edges[j].pool == p
  }

  /** What remains is exactly the edges on pools no accepted cycle touches. */
  lemma {:induction false} RemainingAvoidsUsedPools(edges: seq<Edge>, cycles: seq<Cycle>, e: Edge)
    ensures e in Remaining(WholePools, edges, cycles) <==> e in edges && !UsesPool(cycles, e.pool)
  {
    if cycles == [] {
    } else {
      var init, last := cycles[..|cycles|-1], cycles[|cycles|-1];
      RemainingAvoidsUsedPools(edges, init, e);
      KeepOffMembers(Remaining(WholePools, edges, init), PoolsOf(last.edges), e);
      InPoolsOf(last.edges, e.pool);
      assert UsesPool(cycles, e.pool) <==> UsesPool(init, e.pool) || e.pool in PoolsOf(last.edges) by {
        if e.pool in PoolsOf(last.edges) {
          var x :| x in last.edges && x.pool == e.pool;
          var j :| 0 <= j < |last.edges| && last.edges[j] == x;
          assert cycles[|cycles|-1].edges[j].pool == e.pool;
        }
        if UsesPool(init, e.pool) {
          var i, j :| 0 <= i < |init| && 0 <= j < |init[i].edges| && init[i].edges[j].pool == e.pool;
          assert cycles[i].edges[j].pool == e.pool;
        }
        if UsesPool(cycles, e.pool) {
          var i, j :| 0 <= i < |cycles| && 0 <= j < |cycles[i].edges| && cycles[i].edges[j].pool == e.pool;
          if i < |init| {
            assert init[i].edges[j].pool == e.pool;
          } else {
            assert last.edges[j] in last.edges;
          }
        }
      }
    }
  }

  ghost predicate PoolDisjoint(cycles: seq<Cycle>) {
    forall i, j, a, b :: 0 <= i < j < |cycles| && 0 <= a < |cycles[i].edges| && 0 <= b < |cycles[j].edges| ==>
      cycles[i].edges[a].pool != cycles[j].edges[b].pool
  }

  lemma RunIsPoolDisjoint(edges: seq<Edge>, cycles: seq<Cycle>, weight: real -> real, eps: real)
    requires SoundRun(WholePools, edges, cycles, weight, eps)
    ensures PoolDisjoint(cycles)
  {
    forall i, j, a, b | 0 <= i < j < |cycles| && 0 <= a < |cycles[i].edges| && 0 <= b < |cycles[j].edges|
      ensures cycles[i].edges[a].pool != cycles[j].edges[b].pool
    {
      var e, earlier := cycles[j].edges[b], cycles[..j];
      assert Sound(cycles[j], Remaining(WholePools, edges, earlier), weight, eps);
      RemainingAvoidsUsedPools(edges, earlier, e);
      assert earlier[i].edges[a].pool == e.pool ==> UsesPool(earlier, e.pool);
    }
  }

  /** No closed walk over unused pools beats `eps` per edge. */
  ghost predicate NothingLeft(edges: seq<Edge>, cycles: seq<Cycle>, weight: real -> real, eps: real) {
    forall walk: seq<Edge> ::
      Closed(walk) && Within(walk, edges) && (forall i :: 0 <= i < |walk| ==> !UsesPool(cycles, walk[i].pool)) ==>
        Weight(walk, weight) >= -(|walk| as real) * eps
  }

  /** A pool-disjoint run that stops short of its cap leaves nothing on unused pools. */
  lemma ShortRunLeavesNothing(edges: seq<Edge>, cycles: seq<Cycle>, maxCycles: nat, weight: real -> real, eps: real)
    requires CompleteRun(WholePools, edges, cycles, maxCycles, weight, eps) && |cycles| < maxCycles
    ensures NothingLeft(edges, cycles, weight, eps)
  {
    var rest := Remaining(WholePools, edges, cycles);
    forall walk: seq<Edge>
      | Closed(walk) && Within(walk, edges) && (forall i :: 0 <= i < |walk| ==> !UsesPool(cycles, walk[i].pool))
      ensures Weight(walk, weight) >= -(|walk| as real) * eps
    {
      forall i | 0 <= i < |walk| ensures walk[i] in rest {
        RemainingAvoidsUsedPools(edges, cycles, walk[i]);
      }
      assert Within(walk, rest);
    }
  }

  // ---- The search itself

  /** The position of the first occurrence. */
  method Position(es: seq<Edge>, e: Edge) returns (pos: Option<nat>)
    ensures pos.None? <==> e !in es
    ensures pos.None? ==> RemoveFirst(es, e) == es
    ensures pos.Some? ==> pos.value < |es| && es[pos.value] == e
    ensures pos.Some? ==> RemoveFirst(es, e) == es[..pos.value] + es[pos.value+1..]
  {
    for i := 0 to |es|
      invariant e !in es[..i]
    {
      if es[i] == e {
        RemoveFirstAt(es, e, i);
        return Some(i);
      }
    }
    RemoveFirstAbsent(es, e);
    return None;
  }

  lemma {:induction false} RemoveFirstAt(es: seq<Edge>, e: Edge, i: nat)
    requires i < |es| && es[i] == e && forall j :: 0 <= j < i ==> es[j] != e
    ensures RemoveFirst(es, e) == es[..i] + es[i+1..]
  {
    if i == 0 {
    } else {
      var tail := es[1..];
      RemoveFirstAt(tail, e, i - 1);
      assert RemoveFirst(es, e) == [es[0]] + (tail[..i-1] + tail[i..]);
      assert es[..i] == [es[0]] + tail[..i-1] && es[i+1..] == tail[i..];
      Prepended(es[0], tail[..i-1], tail[i..]);
    }
  }

  lemma Prepended(e: Edge, a: seq<Edge>, b: seq<Edge>)
    ensures [e] + (a + b) == ([e] + a) + b
  {
  }

  /** Drops the first copy of each edge of the cycle and counts the drops. */
  method PruneOwnEdges(working: seq<Edge>, cycle: Cycle) returns (rest: seq<Edge>, removed: nat)
    ensures rest == RemoveEach(working, cycle.edges)
    ensures removed == |working| - |rest|
  {
    rest, removed := working, 0;
    for i := 0 to |cycle.edges|
      invariant rest == RemoveEach(working, cycle.edges[..i])
      invariant removed == |working| - |rest|
    {
      var ce := cycle.edges[i];
      assert cycle.edges[..i+1][..i] == cycle.edges[..i];
      var pos := Position(rest, ce);
      if pos.Some? {
        rest := rest[..pos.value] + rest[pos.value+1..];
        removed := removed + 1;
      }
    }
    assert cycle.edges[..|cycle.edges|] == cycle.edges;
  }

  /** Keeps only the edges off the cycle's pools and counts the others. */
  method PruneWholePools(working: seq<Edge>, cycle: Cycle) returns (rest: seq<Edge>, removed: nat)
    ensures rest == KeepOff(working, PoolsOf(cycle.edges))
    ensures removed == |working| - |rest|
  {
    var pools := PoolsOf(cycle.edges);
    rest := [];
    for i := 0 to |working|
      invariant rest + KeepOff(working[i..], pools) == KeepOff(working, pools)
      invariant |rest| <= i
    {
      if working[i].pool !in pools {
        rest := rest + [working[i]];
      }
    }
    removed := |working| - |rest|;
  }

  method Prune(mode: Pruning, working: seq<Edge>, cycle: Cycle) returns (rest: seq<Edge>, removed: nat)
    ensures rest == Pruned(mode, working, cycle)
    ensures removed == |working| - |rest|
  {
    match mode {
      case OwnEdges => rest, removed := PruneOwnEdges(working, cycle);
      case WholePools => rest, removed := PruneWholePools(working, cycle);
    }
  }

  method AddEdges(graph: ArbitrageGraph, es: seq<Edge>)
    requires graph.Valid() && PositiveRates(es)
    modifies graph
    ensures graph.Valid() && graph.edges == old(graph.edges) + es
  {
    ghost var before := graph.edges;
    for i := 0 to |es|
      invariant graph.Valid() && graph.edges == before + es[..i]
    {
      PrefixGrows(before, es, i);
      graph.AddEdge(es[i]);
    }
    assert es[..|es|] == es;
  }

  lemma PrefixGrows(before: seq<Edge>, es: seq<Edge>, i: nat)
    requires i < |es|
    ensures before + es[..i+1] == before + es[..i] + [es[i]]
  {
  }

  /** A graph over exactly the given edges. */
  method GraphOf(working: seq<Edge>) returns (graph: ArbitrageGraph)
    requires PositiveRates(working)
    ensures fresh(graph) && graph.Valid() && graph.edges == working
  {
    graph := new ArbitrageGraph();
    AddEdges(graph, working);
  }

  method AccumulateDisjoint(graph: ArbitrageGraph, mode: Pruning, maxCycles: nat, weight: real -> real, eps: real)
    returns (cycles: seq<Cycle>)
    requires graph.Valid() && eps >= 0.0
    ensures CompleteRun(mode, graph.edges, cycles, maxCycles, weight, eps)
    ensures |cycles| <= |graph.edges|
  {
    cycles := [];
    if maxCycles == 0 {
      return;
    }
    var working := graph.edges;
    while |cycles| < maxCycles
      invariant working == Remaining(mode, graph.edges, cycles)
      invariant SoundRun(mode, graph.edges, cycles, weight, eps)
      invariant |cycles| <= maxCycles
      decreases |working|
    {
      forall i | 0 <= i < |working| ensures working[i].rate > 0.0 {
        RemainingWithin(mode, graph.edges, cycles, working[i]);
      }
      var rebuilt := GraphOf(working);
      var found := rebuilt.FindArbitrage(weight, eps);
      if found.None? {
        break;
      }
      var cycle := found.value;
      PruningShrinks(mode, working, cycle, weight, eps);
      var removed;
      working, removed := Prune(mode, working, cycle);
      if removed == 0 {
        assert false;
        break;
      }
      SoundRunExtend(mode, graph.edges, cycles, cycle, weight, eps);
      cycles := cycles + [cycle];
    }
    RunIsShort(mode, graph.edges, cycles, weight, eps);
  }

  lemma SoundRunExtend(
    mode: Pruning, edges: seq<Edge>, cycles: seq<Cycle>, cycle: Cycle, weight: real -> real, eps: real)
    requires SoundRun(mode, edges, cycles, weight, eps)
    requires Sound(cycle, Remaining(mode, edges, cycles), weight, eps)
    ensures SoundRun(mode, edges, cycles + [cycle], weight, eps)
    ensures Remaining(mode, edges, cycles + [cycle]) == Pruned(mode, Remaining(mode, edges, cycles), cycle)
  {
    var longer := cycles + [cycle];
    assert longer[..|cycles|] == cycles;
    forall i | 0 <= i < |longer| ensures Sound(longer[i], Remaining(mode, edges, longer[..i]), weight, eps) {
      if i < |cycles| {
        assert longer[..i] == cycles[..i];
        assert Sound(cycles[i], Remaining(mode, edges, cycles[..i]), weight, eps);
      }
    }
  }

  method FindDisjointArbitrage(graph: ArbitrageGraph, maxCycles: nat, weight: real -> real, eps: real)
    returns (cycles: seq<Cycle>)
    requires graph.Valid() && eps >= 0.0
    ensures CompleteRun(OwnEdges, graph.edges, cycles, maxCycles, weight, eps)
    ensures |cycles| <= maxCycles && |cycles| <= |graph.edges|
    ensures forall i :: 0 <= i < |cycles| ==> Sound(cycles[i], graph.edges, weight, eps)
    ensures UsedEdges(cycles) <= multiset(graph.edges)
  {
    cycles := AccumulateDisjoint(graph, OwnEdges, maxCycles, weight, eps);
    forall i | 0 <= i < |cycles| ensures Sound(cycles[i], graph.edges, weight, eps) {
      RunIsSoundInGraph(OwnEdges, graph.edges, cycles, weight, eps, i);
    }
    EdgesConserved(graph.edges, cycles, weight, eps);
  }

  method FindPoolDisjointArbitrage(graph: ArbitrageGraph, maxCycles: nat, weight: real -> real, eps: real)
    returns (cycles: seq<Cycle>)
    requires graph.Valid() && eps >= 0.0
    ensures CompleteRun(WholePools, graph.edges, cycles, maxCycles, weight, eps)
    ensures |cycles| <= maxCycles && |cycles| <= |graph.edges|
    ensures forall i :: 0 <= i < |cycles| ==> Sound(cycles[i], graph.edges, weight, eps)
    ensures PoolDisjoint(cycles)
    ensures |cycles| < maxCycles ==> NothingLeft(graph.edges, cycles, weight, eps)
  {
    cycles := AccumulateDisjoint(graph, WholePools, maxCycles, weight, eps);
    forall i | 0 <= i < |cycles| ensures Sound(cycles[i], graph.edges, weight, eps) {
      RunIsSoundInGraph(WholePools, graph.edges, cycles, weight, eps, i);
    }
    RunIsPoolDisjoint(graph.edges, cycles, weight, eps);
    if |cycles| < maxCycles {
      ShortRunLeavesNothing(graph.edges, cycles, maxCycles, weight, eps);
    }
  }
}
