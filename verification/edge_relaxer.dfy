/**
 * `EdgeRelaxer.relaxEdges`
 * (src/main/java/com/estar/customcode/algo/EdgeRelaxer.java): the
 * Bellman-Ford passes over the edge list. Distances are `Double`s that
 * start at +Infinity; here they are `Inf` or an exact count of 10^-4.
 */
module EdgeRelaxer {
  import opened Currencies
  import opened Graphs

  /** A distance: +Infinity, or a finite sum of weights. */
  datatype Dist = Inf | Fin(value: int)

  /** `d + w` on doubles: infinity absorbs the weight. */
  function Plus(d: Dist, w: int): (r: Dist)
    ensures r.Inf? <==> d.Inf?
    ensures r.Fin? ==> r.value - d.value == w
  {
    if d.Inf? then Inf else Fin(d.value + w)
  }

  /** `a > b` on doubles, where +Infinity exceeds every finite value but not itself. */
  predicate Exceeds(a: Dist, b: Dist)
  {
    match (a, b)
    case (Inf, Fin(_)) => true
    case (Fin(x), Fin(y)) => x > y
    case _ => false
  }

  /** Distance and predecessor maps, one per run. */
  datatype Labels = Labels(dist: map<Currency, Dist>, pred: map<Currency, Currency>)

  /**
   * Both maps have the same keys and every edge joins two of them: what
   * `distances.get` and `predecessor.put` need.
   */
  predicate Covers(l: Labels, edges: seq<Edge>)
  {
    && l.dist.Keys == l.pred.Keys
    && forall e :: e in edges ==> e.startVertex in l.dist && e.endVertex in l.dist
  }

  /** The relaxation test of line 23, also the witness test of the cycle finder. */
  predicate Relaxable(l: Labels, e: Edge)
    requires e.startVertex in l.dist && e.endVertex in l.dist
  {
    Exceeds(l.dist[e.endVertex], Plus(l.dist[e.startVertex], e.weight))
  }

  /** One edge: when the test holds, lower the end's distance and make the start its predecessor. */
  function RelaxEdge(l: Labels, e: Edge): (r: Labels)
    requires Covers(l, [e])
    ensures r.dist.Keys == l.dist.Keys && r.pred.Keys == l.pred.Keys
    ensures Relaxable(l, e) ==> Exceeds(l.dist[e.endVertex], r.dist[e.endVertex]) && r.pred[e.endVertex] == e.startVertex
    ensures Relaxable(l, e) ==> r.dist[e.endVertex] == Plus(l.dist[e.startVertex], e.weight)
    ensures !Relaxable(l, e) ==> r == l
    ensures forall v :: v in r.dist && v != e.endVertex ==> r.dist[v] == l.dist[v] && r.pred[v] == l.pred[v]
  {
    if Relaxable(l, e) then
      Labels(l.dist[e.endVertex := Plus(l.dist[e.startVertex], e.weight)], l.pred[e.endVertex := e.startVertex])
    else l
  }

  lemma CoversPrefix(l: Labels, edges: seq<Edge>, k: nat)
    requires Covers(l, edges) && k <= |edges|
    ensures Covers(l, edges[..k])
    ensures k < |edges| ==> Covers(l, [edges[k]])
  {
    assert forall e :: e in edges[..k] ==> e in edges;
  }

  lemma CoversSameKeys(l: Labels, l': Labels, edges: seq<Edge>)
    requires Covers(l, edges) && l'.dist.Keys == l.dist.Keys && l'.pred.Keys == l.pred.Keys
    ensures Covers(l', edges)
  {
  }

  /** One pass: relax every edge in list order (the inner loop). */
  function RelaxPass(l: Labels, edges: seq<Edge>): (r: Labels)
    requires Covers(l, edges)
    ensures r.dist.Keys == l.dist.Keys && r.pred.Keys == l.pred.Keys
  {
    if edges == [] then l
    else
      CoversPrefix(l, edges, |edges| - 1);
      var before := RelaxPass(l, edges[..|edges| - 1]);
      CoversSameKeys(l, before, [edges[|edges| - 1]]);
      RelaxEdge(before, edges[|edges| - 1])
  }

  /** `n` passes (the outer loop). */
  function RelaxPasses(l: Labels, edges: seq<Edge>, n: nat): (r: Labels)
    requires Covers(l, edges)
    ensures r.dist.Keys == l.dist.Keys && r.pred.Keys == l.pred.Keys
  {
    if n == 0 then l
    else
      var before := RelaxPasses(l, edges, n - 1);
      CoversSameKeys(l, before, edges);
      RelaxPass(before, edges)
  }

  /** The number of passes `relaxEdges` makes: one less than the number of distances. */
  function PassCount(l: Labels): nat
  {
    if |l.dist| == 0 then 0 else |l.dist| - 1
  }

  /** `relaxEdges`, with the loops of the source: `PassCount(l)` passes over `edges` in order. */
  method RelaxEdges(edges: seq<Edge>, l: Labels) returns (r: Labels)
    requires Covers(l, edges)
    ensures r == RelaxPasses(l, edges, PassCount(l))
  {
    r := l;
    var i := 0;
    while i < |l.dist| - 1
      invariant 0 <= i <= PassCount(l)
      invariant r == RelaxPasses(l, edges, i)
    {
      CoversSameKeys(l, r, edges);
      r := RelaxOnePass(edges, r);
      i := i + 1;
    }
  }

  /** The inner loop of `relaxEdges`: one pass over the edge list. */
  method RelaxOnePass(edges: seq<Edge>, l: Labels) returns (r: Labels)
    requires Covers(l, edges)
    ensures r == RelaxPass(l, edges)
  {
    r := l;
    var j := 0;
    while j < |edges|
      invariant 0 <= j <= |edges|
      invariant r.dist.Keys == l.dist.Keys && r.pred.Keys == l.pred.Keys
      invariant r == RelaxPass(l, edges[..j])
    {
      assert edges[..j + 1][..j] == edges[..j];
      CoversPrefix(l, edges, j);
      CoversSameKeys(l, r, [edges[j]]);
      r := RelaxEdge(r, edges[j]);
      j := j + 1;
    }
    assert edges[..j] == edges;
  }

  /**
   * What relaxing edges from `edges` does to `l`, ending in `r`: the keys
   * stay, no distance grows, a predecessor changes only with a strict drop
   * of the distance, and a changed distance has as predecessor the start of
   * an edge into it.
   */
  ghost predicate Lowered(l: Labels, r: Labels, edges: seq<Edge>)
  {
    && r.dist.Keys == l.dist.Keys && r.pred.Keys == l.pred.Keys
    && (forall v :: v in r.dist ==> !Exceeds(r.dist[v], l.dist[v]))
    && (forall v :: v in r.dist && v in r.pred && r.pred[v] != l.pred[v] ==> Exceeds(l.dist[v], r.dist[v]))
    && (forall v :: v in r.dist && v in r.pred && r.dist[v] != l.dist[v] ==>
          exists e :: e in edges && e.endVertex == v && e.startVertex == r.pred[v])
  }

  lemma LoweredTransitive(l: Labels, m: Labels, r: Labels, edges: seq<Edge>)
    requires Lowered(l, m, edges) && Lowered(m, r, edges)
    ensures Lowered(l, r, edges)
  {
    forall v | v in r.dist && v in r.pred && r.dist[v] != l.dist[v]
      ensures exists e :: e in edges && e.endVertex == v && e.startVertex == r.pred[v]
    {
      if r.dist[v] == m.dist[v] {
        assert r.pred[v] == m.pred[v];
      }
    }
  }

  /** Relaxing one listed edge lowers the labels. */
  lemma RelaxEdgeLowers(l: Labels, e: Edge, edges: seq<Edge>)
    requires Covers(l, [e]) && e in edges
    ensures Lowered(l, RelaxEdge(l, e), edges)
  {
  }

  /** A pass over a prefix of the edge list lowers the labels. */
  lemma {:induction false} RelaxPassLowers(l: Labels, edges: seq<Edge>, all: seq<Edge>)
    requires Covers(l, edges)
    requires forall e :: e in edges ==> e in all
    ensures Lowered(l, RelaxPass(l, edges), all)
  {
    if edges != [] {
      var init := edges[..|edges| - 1];
      var last := edges[|edges| - 1];
      CoversPrefix(l, edges, |edges| - 1);
      RelaxPassLowers(l, init, all);
      var before := RelaxPass(l, init);
      CoversSameKeys(l, before, [last]);
      RelaxEdgeLowers(before, last, all);
      LoweredTransitive(l, before, RelaxEdge(before, last), all);
    }
  }

  /**
   * Any number of passes lowers the labels: no distance ever increases, and
   * a predecessor only moves to the start of an edge that strictly lowered
   * its vertex's distance.
   */
  lemma {:induction false} RelaxPassesLower(l: Labels, edges: seq<Edge>, n: nat)
    requires Covers(l, edges)
    ensures Lowered(l, RelaxPasses(l, edges, n), edges)
  {
    if n > 0 {
      RelaxPassesLower(l, edges, n - 1);
      var before := RelaxPasses(l, edges, n - 1);
      CoversSameKeys(l, before, edges);
      RelaxPassLowers(before, edges, edges);
      LoweredTransitive(l, before, RelaxPass(before, edges), edges);
    }
  }

  /** An edge whose start is still at +Infinity relaxes nothing. */
  lemma UnreachedStartRelaxesNothing(l: Labels, e: Edge)
    requires Covers(l, [e]) && l.dist[e.startVertex].Inf?
    ensures !Relaxable(l, e) && RelaxEdge(l, e) == l
  {
  }

  /** A vertex reached (finite) before the passes stays reached: the unreached set only shrinks. */
  lemma ReachedStaysReached(l: Labels, edges: seq<Edge>, n: nat, v: Currency)
    requires Covers(l, edges) && v in l.dist && l.dist[v].Fin?
    ensures RelaxPasses(l, edges, n).dist[v].Fin?
  {
    RelaxPassesLower(l, edges, n);
  }

  /**
   * The Bellman-Ford bound: every vertex whose predecessor is another
   * vertex has a finite distance no smaller than its predecessor's plus the
   * weight of some listed edge between them.
   */
  ghost predicate Supported(l: Labels, edges: seq<Edge>)
  {
    forall v :: SupportedAt(l, edges, v)
  }

  /** The bound at one vertex. */
  ghost predicate SupportedAt(l: Labels, edges: seq<Edge>, v: Currency)
  {
    v in l.pred && l.pred[v] != v ==>
      && v in l.dist && l.pred[v] in l.dist
      && l.dist[v].Fin? && l.dist[l.pred[v]].Fin?
      && BoundedBy(edges, l.pred[v], v, l.dist[l.pred[v]].value, l.dist[v].value)
  }

  /** Some listed edge `u -> v` has a weight of at most `dv - du`. */
  ghost predicate BoundedBy(edges: seq<Edge>, u: Currency, v: Currency, du: int, dv: int)
  {
    exists e :: e in edges && e.startVertex == u && e.endVertex == v && dv >= du + e.weight
  }

  /** Relaxing a listed edge without a self-loop keeps the bound. */
  lemma RelaxEdgeSupported(l: Labels, e: Edge, edges: seq<Edge>)
    requires Covers(l, [e]) && e in edges && e.startVertex != e.endVertex
    requires Supported(l, edges)
    ensures Supported(RelaxEdge(l, e), edges)
  {
    var r := RelaxEdge(l, e);
    if Relaxable(l, e) {
      forall v
        ensures SupportedAt(r, edges, v)
      {
        if v == e.endVertex {
          assert e in edges && e.startVertex == r.pred[v] && e.endVertex == v;
        } else if v in r.pred && r.pred[v] != v {
          assert SupportedAt(l, edges, v);
          var e' :| e' in edges && e'.startVertex == l.pred[v] && e'.endVertex == v
                    && l.dist[v].value >= l.dist[l.pred[v]].value + e'.weight;
          assert e' in edges && e'.startVertex == r.pred[v] && e'.endVertex == v;
        }
      }
    }
  }

  /** A pass over listed edges without self-loops keeps the bound. */
  lemma {:induction false} RelaxPassSupported(l: Labels, edges: seq<Edge>, all: seq<Edge>)
    requires Covers(l, edges)
    requires forall e :: e in edges ==> e in all && e.startVertex != e.endVertex
    requires Supported(l, all)
    ensures Supported(RelaxPass(l, edges), all)
  {
    if edges != [] {
      var init := edges[..|edges| - 1];
      var last := edges[|edges| - 1];
      CoversPrefix(l, edges, |edges| - 1);
      RelaxPassSupported(l, init, all);
      var before := RelaxPass(l, init);
      CoversSameKeys(l, before, [last]);
      RelaxEdgeSupported(before, last, all);
    }
  }

  /** The bound holds after any number of passes over an edge list without self-loops. */
  lemma {:induction false} RelaxPassesSupported(l: Labels, edges: seq<Edge>, n: nat)
    requires Covers(l, edges)
    requires forall e :: e in edges ==> e.startVertex != e.endVertex
    requires Supported(l, edges)
    ensures Supported(RelaxPasses(l, edges, n), edges)
  {
    if n > 0 {
      var before := RelaxPasses(l, edges, n - 1);
      CoversSameKeys(l, before, edges);
      RelaxPassesSupported(l, edges, n - 1);
      RelaxPassSupported(before, edges, edges);
    }
  }
}
