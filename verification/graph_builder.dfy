/**
 * `CurrencyPairGraphBuilder.build`
 * (src/main/java/com/estar/customcode/algo/CurrencyPairGraphBuilder.java):
 * the adjacency map plus a vertex list and an edge list read off it in the
 * map's key order. The key order of a `HashMap` is not specified, so it is
 * a parameter that must list every key once.
 */
module GraphBuilder {
  import opened Wrappers
  import opened Currencies
  import opened Graphs
  import opened AdjacencyBuilder

  /** The graph of the instrument data, with `order` as the adjacency map's key order. */
  function Build(data: seq<Entry>, order: seq<Currency>, negLog: NegLog): (r: Result<Graph, BuildError>)
    requires Enumerates(order, CurrenciesOf(data))
    ensures r.Success? <==> ValidRates(data)
    ensures r.Success? ==> WellFormed(r.value)
    ensures r.Success? ==> r.value.vertices == order && r.value.adjacency == BuildAdjacency(data, negLog)
    ensures r.Success? ==> multiset(r.value.edges) == multiset(Generated(data, negLog))
    ensures r.Success? ==> |r.value.edges| == 2 * |data| && |r.value.vertices| <= 2 * |data|
    ensures r.Success? ==> |r.value.vertices| <= 4
  {
    match AdjacencyBuilder.Build(data, negLog)
    case Failure(e) => Failure(e)
    case Success(adjacency) =>
      var g := Graph(adjacency, order, Concat(adjacency, order));
      var es := Generated(data, negLog);
      BuildAdjacencyMatchesGenerated(data, negLog);
      GeneratedEndpoints(data, negLog);
      BuiltGraphIsWellFormed(adjacency, order, es);
      BuiltEdgesAreGenerated(adjacency, order, es);
      GeneratedShape(data, negLog);
      EnumerationLength(order, CurrenciesOf(data));
      AtMostFourCurrencies(CurrenciesOf(data));
      Success(g)
  }

  /** The edges of `es` whose start is listed in `vs`, in order. */
  function Among(es: seq<Edge>, vs: seq<Currency>): seq<Edge>
  {
    if es == [] then []
    else (if es[0].startVertex in vs then [es[0]] else []) + Among(es[1..], vs)
  }

  lemma {:induction false} OutgoingMembers(es: seq<Edge>, v: Currency, e: Edge)
    requires e in Outgoing(es, v)
    ensures e in es && e.startVertex == v
  {
    if es != [] && e !in (if es[0].startVertex == v then [es[0]] else []) {
      OutgoingMembers(es[1..], v, e);
    }
  }

  /** Selecting one more start vertex adds exactly its outgoing edges. */
  lemma {:induction false} AmongSplit(es: seq<Edge>, vs: seq<Currency>)
    requires vs != [] && vs[0] !in vs[1..]
    ensures multiset(Among(es, vs)) == multiset(Outgoing(es, vs[0])) + multiset(Among(es, vs[1..]))
  {
    if es != [] {
      assert es[0].startVertex in vs <==> es[0].startVertex == vs[0] || es[0].startVertex in vs[1..];
      AmongSplit(es[1..], vs);
    }
  }

  lemma {:induction false} AmongNothing(es: seq<Edge>)
    ensures Among(es, []) == []
  {
    if es != [] {
      AmongNothing(es[1..]);
    }
  }

  lemma {:induction false} AmongEverything(es: seq<Edge>, vs: seq<Currency>)
    requires forall e :: e in es ==> e.startVertex in vs
    ensures Among(es, vs) == es
  {
    if es != [] {
      AmongEverything(es[1..], vs);
    }
  }

  /**
   * Concatenating the outgoing lists of distinct vertices yields, up to
   * order, the edges that start at one of them.
   */
  lemma {:induction false} ConcatOfOutgoing(adjacency: map<Currency, seq<Edge>>, order: seq<Currency>, es: seq<Edge>)
    requires forall i, j :: 0 <= i < j < |order| ==> order[i] != order[j]
    requires forall v :: v in order ==> v in adjacency && adjacency[v] == Outgoing(es, v)
    ensures multiset(Concat(adjacency, order)) == multiset(Among(es, order))
  {
    if order != [] {
      var rest := order[1..];
      assert order[0] !in rest;
      ConcatOfOutgoing(adjacency, rest, es);
      AmongSplit(es, order);
      assert Concat(adjacency, order) == Outgoing(es, order[0]) + Concat(adjacency, rest);
    } else {
      AmongNothing(es);
    }
  }

  /**
   * The edge list holds every created edge once: it is a rearrangement of
   * them, whatever the key order.
   */
  lemma BuiltEdgesAreGenerated(adjacency: map<Currency, seq<Edge>>, order: seq<Currency>, es: seq<Edge>)
    requires Enumerates(order, adjacency.Keys)
    requires forall v :: v in adjacency ==> adjacency[v] == Outgoing(es, v)
    requires forall e :: e in es ==> e.startVertex in adjacency
    ensures multiset(Concat(adjacency, order)) == multiset(es)
  {
    ConcatOfOutgoing(adjacency, order, es);
    AmongEverything(es, order);
  }

  /** A map whose lists are the outgoing edges of edges between its keys is well formed. */
  lemma BuiltGraphIsWellFormed(adjacency: map<Currency, seq<Edge>>, order: seq<Currency>, es: seq<Edge>)
    requires Enumerates(order, adjacency.Keys)
    requires forall v :: v in adjacency ==> adjacency[v] == Outgoing(es, v)
    requires forall e :: e in es ==> e.endVertex in adjacency && e.startVertex != e.endVertex
    ensures WellFormed(Graph(adjacency, order, Concat(adjacency, order)))
  {
    forall v: Currency, e: Edge | v in adjacency && e in adjacency[v]
      ensures e.startVertex == v && e.endVertex in adjacency && e.endVertex != v
    {
      OutgoingMembers(es, v, e);
    }
  }
}
