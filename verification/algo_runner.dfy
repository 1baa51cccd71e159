/**
 * `AlgoRunner.runAlgorithm`
 * (src/main/java/com/estar/customcode/algo/AlgoRunner.java): build the
 * graph of the instrument data, then find its cycles. The input is a value
 * and is never changed.
 */
module AlgoRunner {
  import opened Wrappers
  import opened Currencies
  import opened Graphs
  import opened AdjacencyBuilder
  import GraphBuilder
  import PathFinder

  /** `findCycles(build(data))`, failing where the build fails. */
  function RunAlgorithm(data: seq<Entry>, order: seq<Currency>, negLog: NegLog, unlog: Unlog)
    : (r: Result<map<CurrencyPair, int>, BuildError>)
    requires Enumerates(order, CurrenciesOf(data))
    ensures r.Success? <==> ValidRates(data)
    ensures r.Success? ==> forall p :: p in r.value ==> r.value[p] > 0
    ensures data == [] ==> r == Success(map[])
    ensures r.Success? ==> PathFinder.KeepsRunRecords(GraphBuilder.Build(data, order, negLog).value, unlog, r.value)
    ensures r.Success? ==> PathFinder.OnlyRunRecords(GraphBuilder.Build(data, order, negLog).value, unlog, r.value)
  {
    var built := GraphBuilder.Build(data, order, negLog);
    if built.Failure? then Failure(built.error)
    else
      PathFinder.WellFormedIsRunnable(built.value);
      Success(PathFinder.FindCycles(built.value, unlog))
  }

  /**
   * When every rate rounds to a value in (0, 1], no edge has a negative
   * weight, so no walk can have a positive factor: nothing is reported.
   */
  lemma {:induction false} NoArbitrageAtOrBelowParity(data: seq<Entry>, order: seq<Currency>, negLog: NegLog, unlog: Unlog)
    requires Enumerates(order, CurrenciesOf(data))
    requires IsNegLog(negLog) && IsUnlog(unlog)
    requires forall i :: 0 <= i < |data| ==> 0 < Rate(data[i].buy) <= One && 0 < Rate(data[i].sell) <= One
    ensures RunAlgorithm(data, order, negLog, unlog) == Success(map[])
  {
    var g := GraphBuilder.Build(data, order, negLog).value;
    var es := Generated(data, negLog);
    GeneratedWeightsAtParity(data, negLog);
    BuildAdjacencyMatchesGenerated(data, negLog);
    forall v, e | v in g.adjacency && e in g.adjacency[v]
      ensures e.weight >= 0
    {
      GraphBuilder.OutgoingMembers(es, v, e);
    }
    PathFinder.WellFormedIsRunnable(g);
    PathFinder.NoArbitrageWithoutNegativeWeights(g, unlog);
  }
}
