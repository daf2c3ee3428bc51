/** Swap edges, closed walks over them, and what their weights and rate products mean. */
module Routes {
  import opened Domain

  /** A directed swap with its effective rate, output per unit of input. */
  datatype Edge = Edge(from: TokenId, to: TokenId, pool: PoolId, rate: real)

  /** A detected cycle: its edges in traversal order and the product of their rates. */
  datatype Cycle = Cycle(edges: seq<Edge>, product: real)

  /** Chained rates multiply. */
  function Times(a: real, b: real): real {
    a * b
  }

  function Product(es: seq<Edge>): real {
    if es == [] then 1.0 else Times(es[0].rate, Product(es[1..]))
  }

  /** Summed edge weights; the program's `weight` is the negated natural logarithm. */
  ghost function Weight(es: seq<Edge>, weight: real -> real): real {
    if es == [] then 0.0 else weight(es[0].rate) + Weight(es[1..], weight)
  }

  /** The two facts about the negated logarithm that detection relies on. */
  ghost predicate NegLog(weight: real -> real) {
    && (forall a: real, b: real :: a > 0.0 && b > 0.0 ==> TurnsProductIntoSum(weight, a, b))
    && (forall a: real :: a > 0.0 ==> (weight(a) < 0.0 <==> a > 1.0))
  }

  ghost predicate TurnsProductIntoSum(weight: real -> real, a: real, b: real) {
    weight(Times(a, b)) == weight(a) + weight(b)
  }

  ghost predicate PositiveRates(es: seq<Edge>) {
    forall i :: 0 <= i < |es| ==> es[i].rate > 0.0
  }

  ghost predicate Connected(es: seq<Edge>) {
    forall i :: 0 <= i < |es| - 1 ==> es[i].to == es[i+1].from
  }

  ghost predicate Closed(es: seq<Edge>) {
    es != [] && Connected(es) && es[|es|-1].to == es[0].from
  }

  ghost predicate Within(es: seq<Edge>, graph: seq<Edge>) {
    forall i :: 0 <= i < |es| ==> es[i] in graph
  }

  /** No token is left twice. */
  ghost predicate Simple(es: seq<Edge>) {
    forall i, j :: 0 <= i < j < |es| ==> es[i].from != es[j].from
  }

  /** What every returned cycle satisfies with respect to the edges it was searched in. */
  ghost predicate Sound(cycle: Cycle, graph: seq<Edge>, weight: real -> real, eps: real) {
    && Closed(cycle.edges)
    && Within(cycle.edges, graph)
    && Simple(cycle.edges)
    && Weight(cycle.edges, weight) < -eps
    && cycle.product == Product(cycle.edges)
  }

  /** The certificate behind a negative answer: no closed walk beats `eps` per edge. */
  ghost predicate NoneProfitable(graph: seq<Edge>, weight: real -> real, eps: real) {
    forall walk: seq<Edge> :: Closed(walk) && Within(walk, graph) ==>
      Weight(walk, weight) >= -(|walk| as real) * eps
  }

  lemma {:induction false} ProductWeight(es: seq<Edge>, weight: real -> real)
    requires NegLog(weight) && PositiveRates(es)
    ensures Product(es) > 0.0
    ensures weight(Product(es)) == Weight(es, weight)
  {
    if es == [] {
      assert TurnsProductIntoSum(weight, 1.0, 1.0);
    } else {
      ProductWeight(es[1..], weight);
      assert TurnsProductIntoSum(weight, es[0].rate, Product(es[1..]));
    }
  }

  /** The additive test is the multiplicative one: negative weight means product above 1. */
  lemma NegativeWeightIsProfit(es: seq<Edge>, weight: real -> real)
    requires NegLog(weight) && PositiveRates(es)
    ensures Weight(es, weight) < 0.0 <==> Product(es) > 1.0
  {
    ProductWeight(es, weight);
  }

  /** A negated logarithm weighs a product of at least `bound` at most as much as `bound`. */
  lemma LargeProductIsLight(weight: real -> real, bound: real, product: real)
    requires NegLog(weight) && 0.0 < bound <= product
    ensures weight(product) <= weight(bound)
  {
    var rest := product / bound;
    assert rest * bound == product && rest >= 1.0;
    assert TurnsProductIntoSum(weight, bound, rest);
    assert TurnsProductIntoSum(weight, 1.0, 1.0);
    assert Times(bound, rest) == product && Times(1.0, 1.0) == 1.0;
  }

  // ---- Certificates from potentials

  /** Every edge respects the potential up to `eps`. */
  ghost predicate Potential(graph: seq<Edge>, weight: real -> real, eps: real, pot: map<TokenId, real>) {
    forall e :: e in graph ==>
      e.from in pot && e.to in pot && pot[e.from] + weight(e.rate) >= pot[e.to] - eps
  }

  lemma {:induction false} WalkAgainstPotential(
    walk: seq<Edge>, graph: seq<Edge>, weight: real -> real, eps: real, pot: map<TokenId, real>)
    requires Potential(graph, weight, eps, pot)
    requires walk != [] && Connected(walk) && Within(walk, graph)
    ensures walk[0].from in pot && walk[|walk|-1].to in pot
    ensures Weight(walk, weight) >= pot[walk[|walk|-1].to] - pot[walk[0].from] - (|walk| as real) * eps
  {
    assert walk[0] in graph;
    if |walk| == 1 {
      assert walk[1..] == [];
    } else {
      var rest := walk[1..];
      assert walk[0].to == rest[0].from;
      assert rest[|rest|-1] == walk[|walk|-1];
      WalkAgainstPotential(rest, graph, weight, eps, pot);
      assert (|walk| as real) * eps == eps + (|rest| as real) * eps;
    }
  }

  lemma PotentialCertifies(graph: seq<Edge>, weight: real -> real, eps: real, pot: map<TokenId, real>)
    requires Potential(graph, weight, eps, pot)
    ensures NoneProfitable(graph, weight, eps)
  {
    forall walk: seq<Edge> | Closed(walk) && Within(walk, graph)
      ensures Weight(walk, weight) >= -(|walk| as real) * eps
    {
      WalkAgainstPotential(walk, graph, weight, eps, pot);
    }
  }

  /** A returned cycle multiplies its input: the product of its rates exceeds 1. */
  lemma SoundIsProfitable(cycle: Cycle, graph: seq<Edge>, weight: real -> real, eps: real)
    requires NegLog(weight) && eps >= 0.0 && PositiveRates(graph)
    requires Sound(cycle, graph, weight, eps)
    ensures cycle.product > 1.0
  {
    WithinKeepsRates(cycle.edges, graph);
    NegativeWeightIsProfit(cycle.edges, weight);
  }

  lemma WithinKeepsRates(es: seq<Edge>, graph: seq<Edge>)
    requires PositiveRates(graph) && Within(es, graph)
    ensures PositiveRates(es)
  {
    forall i | 0 <= i < |es| ensures es[i].rate > 0.0 {
      assert es[i] in graph;
    }
  }

  ghost predicate ProfitableWalk(walk: seq<Edge>, graph: seq<Edge>) {
    Closed(walk) && Within(walk, graph) && Product(walk) > 1.0
  }

  /** Without slack the search decides profitability: an answer that is sound when it is
      some and certified when it is none is some exactly when a profitable closed walk
      exists. */
  lemma ExactWithoutSlack(found: Option<Cycle>, graph: seq<Edge>, weight: real -> real)
    requires NegLog(weight) && PositiveRates(graph)
    requires found.Some? ==> Sound(found.value, graph, weight, 0.0)
    requires found.None? ==> NoneProfitable(graph, weight, 0.0)
    ensures found.Some? <==> exists walk: seq<Edge> :: ProfitableWalk(walk, graph)
  {
    if found.Some? {
      SoundIsProfitable(found.value, graph, weight, 0.0);
      assert ProfitableWalk(found.value.edges, graph);
    } else {
      forall walk: seq<Edge> ensures !ProfitableWalk(walk, graph) {
        if Closed(walk) && Within(walk, graph) {
          WithinKeepsRates(walk, graph);
          NegativeWeightIsProfit(walk, weight);
          assert Weight(walk, weight) >= -(|walk| as real) * 0.0;
        }
      }
    }
  }

  // ---- Reversal

  function Reverse(es: seq<Edge>): (r: seq<Edge>)
    ensures |r| == |es| && forall i :: 0 <= i < |r| ==> r[i] == es[|es|-1-i]
  {
    if es == [] then [] else Reverse(es[1..]) + [es[0]]
  }

  lemma {:induction false} WeightOfConcat(a: seq<Edge>, b: seq<Edge>, weight: real -> real)
    ensures Weight(a + b, weight) == Weight(a, weight) + Weight(b, weight)
  {
    if a == [] {
      assert a + b == b;
    } else {
      assert (a + b)[1..] == a[1..] + b;
      WeightOfConcat(a[1..], b, weight);
    }
  }

  lemma {:induction false} WeightOfReverse(es: seq<Edge>, weight: real -> real)
    ensures Weight(Reverse(es), weight) == Weight(es, weight)
  {
    if es == [] {
    } else {
      WeightOfReverse(es[1..], weight);
      WeightOfConcat(Reverse(es[1..]), [es[0]], weight);
      assert [es[0]][1..] == [];
    }
  }

  // ---- Cycles as multisets of edges

  lemma {:induction false} SimpleCounts(es: seq<Edge>, e: Edge)
    requires Simple(es)
    ensures multiset(es)[e] <= 1
  {
    if es == [] {
    } else {
      SimpleCounts(es[1..], e);
      assert es == [es[0]] + es[1..];
      if e == es[0] {
        assert e !in es[1..];
        assert multiset(es[1..])[e] == 0;
      }
    }
  }

  /** A simple walk takes each edge of the graph at most once. */
  lemma SimpleIsSubmultiset(es: seq<Edge>, graph: seq<Edge>)
    requires Simple(es) && Within(es, graph)
    ensures multiset(es) <= multiset(graph)
  {
    forall e: Edge ensures multiset(es)[e] <= multiset(graph)[e] {
      SimpleCounts(es, e);
      if e in es {
        assert e in graph;
      }
    }
  }
}
