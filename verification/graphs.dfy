/**
 * The currency graph (src/main/java/com/estar/customcode/model/Graph.java,
 * Edge.java) and the two real-valued maps the pipeline uses, `-ln` on rates
 * and `2^(-t) - 1` on summed weights, of which only the signs are modelled.
 */
module Graphs {
  import opened Currencies

  /** Rates and weights are counts of 10^-4 (`setScale(4, HALF_UP)`); `One` is 1.0000. */
  const RateScale: nat := 4
  const One: int := 10000

  /** Factors are counts of 10^-3 (`setScale(3, CEILING)`). */
  const FactorScale: nat := 3

  /** A directed conversion `startVertex -> endVertex` weighted by `-ln(rate)`. */
  datatype Edge = Edge(startVertex: Currency, endVertex: Currency, weight: int)

  /** Adjacency map, vertex list and edge list, as `Graph.builder()` assembles them. */
  datatype Graph = Graph(adjacency: map<Currency, seq<Edge>>, vertices: seq<Currency>, edges: seq<Edge>)

  /**
   * `-ln(rate)` rounded HALF_UP to four decimals, for a positive rate given
   * in units of 10^-4; `2^(-t) - 1` rounded CEILING to three decimals, for a
   * weight total `t` in units of 10^-4, as a count of 10^-3. Both are
   * parameters of the model, of which only the signs are known.
   */
  type NegLog = int -> int
  type Unlog = int -> int

  /** The sign of `-ln`: negative exactly above 1, zero exactly at 1, positive below 1. */
  ghost predicate IsNegLog(f: NegLog)
  {
    forall r :: r > 0 ==> (f(r) < 0 <==> r > One) && (f(r) == 0 <==> r == One)
  }

  /** The sign of `2^(-t) - 1`: positive exactly when `t < 0`, and zero at `t == 0`. */
  ghost predicate IsUnlog(f: Unlog)
  {
    f(0) == 0 && forall t :: f(t) > 0 <==> t < 0
  }

  /** `order` lists each member of `s` exactly once (a key-set iteration order). */
  predicate Enumerates(order: seq<Currency>, s: set<Currency>)
  {
    && (forall i, j :: 0 <= i < j < |order| ==> order[i] != order[j])
    && (forall v :: v in order <==> v in s)
  }

  /** An enumeration is as long as the set it lists. */
  lemma {:induction false} EnumerationLength(order: seq<Currency>, s: set<Currency>)
    requires Enumerates(order, s)
    ensures |order| == |s|
  {
    if order != [] {
      var rest := order[1..];
      assert Enumerates(rest, s - {order[0]}) by {
        forall v
          ensures v in rest <==> v in s - {order[0]}
        {
          if v in rest {
            var j :| 0 <= j < |rest| && rest[j] == v;
            assert order[j + 1] == v;
          }
          if v in s - {order[0]} {
            var j :| 0 <= j < |order| && order[j] == v;
            assert j != 0;
            assert rest[j - 1] == v;
          }
        }
      }
      EnumerationLength(rest, s - {order[0]});
    } else {
      assert forall v :: v !in s;
      assert s == {};
    }
  }

  /** The lists of the keys in `order`, concatenated (`createEdgeList`). */
  function Concat(adjacency: map<Currency, seq<Edge>>, order: seq<Currency>): seq<Edge>
    requires forall v :: v in order ==> v in adjacency
  {
    if order == [] then [] else adjacency[order[0]] + Concat(adjacency, order[1..])
  }

  /** An edge is in the concatenation exactly when it is in the list of a listed key. */
  lemma {:induction false} InConcat(adjacency: map<Currency, seq<Edge>>, order: seq<Currency>, e: Edge)
    requires forall v :: v in order ==> v in adjacency
    ensures e in Concat(adjacency, order) <==> exists v :: v in order && e in adjacency[v]
  {
    if order != [] {
      InConcat(adjacency, order[1..], e);
      if e in Concat(adjacency, order[1..]) {
        var v :| v in order[1..] && e in adjacency[v];
        assert v in order;
      }
      if exists v :: v in order && e in adjacency[v] {
        var v :| v in order && e in adjacency[v];
        if v != order[0] {
          assert v in order[1..];
        }
      }
    }
  }

  /**
   * What the cycle finder relies on: the vertex list enumerates the
   * adjacency keys, the edge list concatenates the adjacency lists in that
   * order, and every edge is stored under its start, joins two different
   * currencies, and ends at a vertex.
   */
  ghost predicate WellFormed(g: Graph)
  {
    && Enumerates(g.vertices, g.adjacency.Keys)
    && g.edges == Concat(g.adjacency, g.vertices)
    && (forall v, e :: v in g.adjacency && e in g.adjacency[v] ==>
          e.startVertex == v && e.endVertex in g.adjacency && e.endVertex != v)
  }

  /** In a well-formed graph every listed edge has both endpoints among the vertices. */
  lemma EdgesOfWellFormed(g: Graph, e: Edge)
    requires WellFormed(g) && e in g.edges
    ensures e.startVertex in g.adjacency && e.endVertex in g.adjacency
    ensures e.startVertex != e.endVertex
    ensures e in g.adjacency[e.startVertex]
  {
    InConcat(g.adjacency, g.vertices, e);
  }
}
