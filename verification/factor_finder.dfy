/**
 * `ArbitrageFactorFinder.findFactor`
 * (src/main/java/com/estar/customcode/algo/ArbitrageFactorFinder.java):
 * the weights along consecutive vertices of a walk, summed exactly, then
 * mapped back through `2^(-t) - 1`.
 */
module FactorFinder {
  import opened Wrappers
  import opened Currencies
  import opened Graphs

  /** A listed edge `u -> v` in `list`. */
  predicate Joins(e: Edge, u: Currency, v: Currency)
  {
    e.startVertex == u && e.endVertex == v
  }

  /** The weight of the first edge `u -> v` in `list`: the inner loop and its `break`. */
  function FirstWeight(list: seq<Edge>, u: Currency, v: Currency): (r: Option<int>)
    ensures r.None? <==> forall i :: 0 <= i < |list| ==> !Joins(list[i], u, v)
    ensures r.Some? ==> exists i :: 0 <= i < |list| && list[i] == Edge(u, v, r.value)
                           && forall j :: 0 <= j < i ==> !Joins(list[j], u, v)
  {
    if list == [] then None
    else if Joins(list[0], u, v) then Some(list[0].weight)
    else
      var rest := FirstWeight(list[1..], u, v);
      if rest.Some? then
        ghost var i :| 0 <= i < |list[1..]| && list[1..][i] == Edge(u, v, rest.value)
                       && forall j :: 0 <= j < i ==> !Joins(list[1..][j], u, v);
        assert list[i + 1] == Edge(u, v, rest.value);
        rest
      else rest
  }

  /** What the step `u -> v` adds to the total: its first edge's weight, or nothing. */
  function StepWeight(adjacency: map<Currency, seq<Edge>>, u: Currency, v: Currency): int
    requires u in adjacency
  {
    match FirstWeight(adjacency[u], u, v)
    case Some(w) => w
    case None => 0
  }

  /** `cycle[j]` has an adjacency list for every `j` that starts a step. */
  predicate StepsResolve(adjacency: map<Currency, seq<Edge>>, cycle: seq<Currency>)
  {
    forall j :: 0 <= j < |cycle| - 1 ==> cycle[j] in adjacency
  }

  /**
   * `totalArbitrage`: the step weights for `j = 1 .. |cycle| - 1`. No edge
   * closes the walk from its last vertex back to its first.
   */
  function PathWeight(adjacency: map<Currency, seq<Edge>>, cycle: seq<Currency>): int
    requires StepsResolve(adjacency, cycle)
  {
    if |cycle| <= 1 then 0
    else
      assert StepsResolve(adjacency, cycle[..|cycle| - 1]);
      PathWeight(adjacency, cycle[..|cycle| - 1]) + StepWeight(adjacency, cycle[|cycle| - 2], cycle[|cycle| - 1])
  }

  /** `transformArbitrageValue` applied to the total. */
  function Factor(adjacency: map<Currency, seq<Edge>>, cycle: seq<Currency>, unlog: Unlog): (f: int)
    requires StepsResolve(adjacency, cycle)
    ensures IsUnlog(unlog) ==> (f > 0 <==> PathWeight(adjacency, cycle) < 0)
    ensures IsUnlog(unlog) && |cycle| <= 1 ==> f == 0
  {
    unlog(PathWeight(adjacency, cycle))
  }

  /** `findFactor`, with its two loops. */
  method FindFactor(g: Graph, cycle: seq<Currency>, unlog: Unlog) returns (factor: int)
    requires StepsResolve(g.adjacency, cycle)
    ensures factor == Factor(g.adjacency, cycle, unlog)
  {
    var total := 0;
    var j := 1;
    while j < |cycle|
      invariant 1 <= j <= |cycle| || (j == 1 && |cycle| <= 1)
      invariant total == PathWeight(g.adjacency, cycle[..if |cycle| == 0 then 0 else j])
    {
      var u := cycle[j - 1];
      var v := cycle[j];
      var list := g.adjacency[u];
      var k := 0;
      var step := 0;
      while k < |list|
        invariant 0 <= k <= |list|
        invariant FirstWeight(list, u, v) == FirstWeight(list[k..], u, v)
        invariant step == 0
      {
        if Joins(list[k], u, v) {
          step := list[k].weight;
          break;
        }
        assert list[k..][1..] == list[k + 1..];
        k := k + 1;
      }
      assert step == StepWeight(g.adjacency, u, v) by {
        if k < |list| {
          assert list[k..][0] == list[k];
        }
      }
      assert cycle[..j + 1][..j] == cycle[..j];
      total := total + step;
      j := j + 1;
    }
    if |cycle| > 0 {
      assert cycle[..j] == cycle;
    }
    factor := unlog(total);
  }

  /** A walk through two vertices weighs just the one step between them. */
  lemma TwoVertexWalk(adjacency: map<Currency, seq<Edge>>, u: Currency, v: Currency)
    requires u in adjacency
    ensures PathWeight(adjacency, [u, v]) == StepWeight(adjacency, u, v)
  {
    assert [u, v][..1] == [u];
  }

  /** With no negative weight on any list, no walk weighs below zero, so no factor is positive. */
  lemma {:induction false} NonNegativeWeights(adjacency: map<Currency, seq<Edge>>, cycle: seq<Currency>, unlog: Unlog)
    requires StepsResolve(adjacency, cycle)
    requires IsUnlog(unlog)
    requires forall v, e :: v in adjacency && e in adjacency[v] ==> e.weight >= 0
    ensures PathWeight(adjacency, cycle) >= 0
    ensures Factor(adjacency, cycle, unlog) <= 0
  {
    if |cycle| > 1 {
      assert StepsResolve(adjacency, cycle[..|cycle| - 1]);
      NonNegativeWeights(adjacency, cycle[..|cycle| - 1], unlog);
      var u := cycle[|cycle| - 2];
      var w := FirstWeight(adjacency[u], u, cycle[|cycle| - 1]);
      if w.Some? {
        var i :| 0 <= i < |adjacency[u]| && adjacency[u][i] == Edge(u, cycle[|cycle| - 1], w.value);
        assert adjacency[u][i] in adjacency[u];
      }
    }
  }
}
