/**
 * The adjacency map of the currency graph
 * (src/main/java/com/estar/customcode/algo/AdjacentVertexMapBuilder.java):
 * each instrument entry becomes two directed edges, base -> quote weighted
 * from `value[0]` and quote -> base weighted from `value[1]`, grouped by
 * start vertex in insertion order.
 */
module AdjacencyBuilder {
  import opened Wrappers
  import opened Currencies
  import opened Graphs
  import Decimals

  /**
   * One entry of the instrument map, in the map's iteration order: `buy`
   * is `value[0]` and `sell` is `value[1]`.
   */
  datatype Entry = Entry(pair: CurrencyPair, buy: real, sell: real)

  /** `setScale(4, RoundingMode.HALF_UP)` on a rate, as a count of 10^-4. */
  function Rate(x: real): int
  {
    Decimals.RoundHalfUp(x, RateScale)
  }

  /** The currencies named by the entries. */
  function CurrenciesOf(data: seq<Entry>): (s: set<Currency>)
    ensures |s| <= 2 * |data|
  {
    if data == [] then {}
    else CurrenciesOf(data[..|data| - 1]) + data[|data| - 1].pair.Members()
  }

  /** The two edges an entry contributes, in the order they are added. */
  function EntryEdges(en: Entry, negLog: NegLog): seq<Edge>
  {
    [ Edge(en.pair.Base(), en.pair.Quote(), negLog(Rate(en.buy))),
      Edge(en.pair.Quote(), en.pair.Base(), negLog(Rate(en.sell))) ]
  }

  /** Every edge the build creates, in creation order: the reference for the map. */
  function Generated(data: seq<Entry>, negLog: NegLog): seq<Edge>
  {
    if data == [] then []
    else Generated(data[..|data| - 1], negLog) + EntryEdges(data[|data| - 1], negLog)
  }

  /** The edges of `es` that start at `v`, in order. */
  function Outgoing(es: seq<Edge>, v: Currency): seq<Edge>
  {
    if es == [] then []
    else (if es[0].startVertex == v then [es[0]] else []) + Outgoing(es[1..], v)
  }

  /** `addEdge`: append the edge to its start's list, creating the list when absent. */
  function AddEdge(adjacency: map<Currency, seq<Edge>>, e: Edge): (r: map<Currency, seq<Edge>>)
    ensures r.Keys == adjacency.Keys + {e.startVertex}
    ensures r[e.startVertex] == (if e.startVertex in adjacency then adjacency[e.startVertex] else []) + [e]
    ensures forall v :: v in adjacency && v != e.startVertex ==> r[v] == adjacency[v]
  {
    var list := if e.startVertex in adjacency then adjacency[e.startVertex] else [];
    adjacency[e.startVertex := list + [e]]
  }

  /** Add the edges one after another, as the loop of `build` does. */
  function AddEdges(adjacency: map<Currency, seq<Edge>>, es: seq<Edge>): map<Currency, seq<Edge>>
    decreases |es|
  {
    if es == [] then adjacency else AddEdges(AddEdge(adjacency, es[0]), es[1..])
  }

  /** The loop of `build`: every entry's two edges, entry by entry in iteration order. */
  function BuildAdjacency(data: seq<Entry>, negLog: NegLog): (r: map<Currency, seq<Edge>>)
    ensures r.Keys == CurrenciesOf(data)
  {
    AddEdgesKeys(map[], Generated(data, negLog));
    GeneratedStarts(data, negLog);
    AddEdges(map[], Generated(data, negLog))
  }

  /**
   * Every rate rounds to a positive four-decimal value. Otherwise
   * `Math.log` yields -Infinity or NaN and `new BigDecimal` throws.
   */
  predicate ValidRates(data: seq<Entry>)
  {
    forall i :: 0 <= i < |data| ==> Rate(data[i].buy) > 0 && Rate(data[i].sell) > 0
  }

  datatype BuildError = NonPositiveRate

  /** `AdjacentVertexMapBuilder.build`. */
  function Build(data: seq<Entry>, negLog: NegLog): (r: Result<map<Currency, seq<Edge>>, BuildError>)
    ensures r.Success? <==> ValidRates(data)
    ensures r.Success? ==> r.value.Keys == CurrenciesOf(data)
    ensures r.Success? ==> forall v :: v in r.value ==> r.value[v] == Outgoing(Generated(data, negLog), v)
  {
    if ValidRates(data) then
      BuildAdjacencyMatchesGenerated(data, negLog);
      Success(BuildAdjacency(data, negLog))
    else Failure(NonPositiveRate)
  }

  lemma {:induction false} OutgoingAppend(a: seq<Edge>, b: seq<Edge>, v: Currency)
    ensures Outgoing(a + b, v) == Outgoing(a, v) + Outgoing(b, v)
  {
    if a != [] {
      assert (a + b)[0] == a[0];
      assert (a + b)[1..] == a[1..] + b;
      OutgoingAppend(a[1..], b, v);
    } else {
      assert a + b == b;
    }
  }

  /** Each entry adds exactly two edges, in entry order. */
  lemma {:induction false} GeneratedShape(data: seq<Entry>, negLog: NegLog)
    ensures |Generated(data, negLog)| == 2 * |data|
    ensures forall i :: 0 <= i < |data| ==>
      && Generated(data, negLog)[2 * i] == Edge(data[i].pair.Base(), data[i].pair.Quote(), negLog(Rate(data[i].buy)))
      && Generated(data, negLog)[2 * i + 1] == Edge(data[i].pair.Quote(), data[i].pair.Base(), negLog(Rate(data[i].sell)))
  {
    if data != [] {
      var init := data[..|data| - 1];
      GeneratedShape(init, negLog);
      forall i | 0 <= i < |init|
        ensures init[i] == data[i]
      {
      }
    }
  }

  /** Every created edge joins two different currencies that the entries name. */
  lemma {:induction false} GeneratedEndpoints(data: seq<Entry>, negLog: NegLog)
    ensures forall e :: e in Generated(data, negLog) ==>
      e.startVertex in CurrenciesOf(data) && e.endVertex in CurrenciesOf(data) && e.startVertex != e.endVertex
  {
    if data != [] {
      GeneratedEndpoints(data[..|data| - 1], negLog);
      BaseIsNotQuote(data[|data| - 1].pair);
    }
  }

  /** A currency no entry names has no outgoing edge. */
  lemma NoOutgoingOutside(data: seq<Entry>, negLog: NegLog, v: Currency)
    requires v !in CurrenciesOf(data)
    ensures Outgoing(Generated(data, negLog), v) == []
  {
    GeneratedEndpoints(data, negLog);
    NoOutgoingWithoutStart(Generated(data, negLog), v);
  }

  lemma {:induction false} NoOutgoingWithoutStart(es: seq<Edge>, v: Currency)
    requires forall e :: e in es ==> e.startVertex != v
    ensures Outgoing(es, v) == []
  {
    if es != [] {
      NoOutgoingWithoutStart(es[1..], v);
    }
  }

  /** The start vertices of a sequence of edges. */
  ghost function Starts(es: seq<Edge>): set<Currency>
  {
    set e | e in es :: e.startVertex
  }

  lemma StartsCons(es: seq<Edge>)
    requires es != []
    ensures Starts(es) == {es[0].startVertex} + Starts(es[1..])
  {
    assert es == [es[0]] + es[1..];
  }

  /** Adding edges creates exactly the lists of their start vertices. */
  lemma {:induction false} AddEdgesKeys(adjacency: map<Currency, seq<Edge>>, es: seq<Edge>)
    decreases |es|
    ensures AddEdges(adjacency, es).Keys == adjacency.Keys + Starts(es)
  {
    if es != [] {
      AddEdgesKeys(AddEdge(adjacency, es[0]), es[1..]);
      StartsCons(es);
    }
  }

  /**
   * Adding edges one at a time appends, under each start vertex, exactly
   * the added edges that start there, in order.
   */
  lemma {:induction false} AddEdgesAppends(adjacency: map<Currency, seq<Edge>>, es: seq<Edge>, v: Currency)
    decreases |es|
    requires v in AddEdges(adjacency, es)
    ensures AddEdges(adjacency, es)[v] == (if v in adjacency then adjacency[v] else []) + Outgoing(es, v)
  {
    if es != [] {
      var next := AddEdge(adjacency, es[0]);
      assert AddEdges(adjacency, es) == AddEdges(next, es[1..]);
      AddEdgesAppends(next, es[1..], v);
      var before := if v in adjacency then adjacency[v] else [];
      var rest := Outgoing(es[1..], v);
      if es[0].startVertex == v {
        assert next[v] == before + [es[0]];
        assert Outgoing(es, v) == [es[0]] + rest;
        assert (before + [es[0]]) + rest == before + ([es[0]] + rest);
      } else {
        assert (if v in next then next[v] else []) == before;
        assert Outgoing(es, v) == rest;
      }
    }
  }

  /** The start vertices of the created edges are exactly the named currencies. */
  lemma {:induction false} GeneratedStarts(data: seq<Entry>, negLog: NegLog)
    ensures Starts(Generated(data, negLog)) == CurrenciesOf(data)
  {
    if data != [] {
      var init := data[..|data| - 1];
      var es := EntryEdges(data[|data| - 1], negLog);
      GeneratedStarts(init, negLog);
      assert Starts(Generated(init, negLog) + es) == Starts(Generated(init, negLog)) + Starts(es);
      assert Starts(es) == data[|data| - 1].pair.Members();
    }
  }

  /**
   * The adjacency map's keys are the named currencies, and the list under
   * `v` is exactly the created edges that start at `v`, in creation order.
   */
  lemma BuildAdjacencyMatchesGenerated(data: seq<Entry>, negLog: NegLog)
    ensures BuildAdjacency(data, negLog).Keys == CurrenciesOf(data)
    ensures forall v :: v in BuildAdjacency(data, negLog) ==>
      BuildAdjacency(data, negLog)[v] == Outgoing(Generated(data, negLog), v)
  {
    AddEdgesKeys(map[], Generated(data, negLog));
    GeneratedStarts(data, negLog);
    forall v | v in BuildAdjacency(data, negLog)
      ensures BuildAdjacency(data, negLog)[v] == Outgoing(Generated(data, negLog), v)
    {
      AddEdgesAppends(map[], Generated(data, negLog), v);
    }
  }

  /** Rates that round to at most 1.0000 give edges of non-negative weight. */
  lemma {:induction false} GeneratedWeightsAtParity(data: seq<Entry>, negLog: NegLog)
    requires IsNegLog(negLog)
    requires forall i :: 0 <= i < |data| ==>
      0 < Rate(data[i].buy) <= One && 0 < Rate(data[i].sell) <= One
    ensures forall e :: e in Generated(data, negLog) ==> e.weight >= 0
  {
    if data != [] {
      var init := data[..|data| - 1];
      assert forall i :: 0 <= i < |init| ==> init[i] == data[i];
      GeneratedWeightsAtParity(init, negLog);
    }
  }
}
