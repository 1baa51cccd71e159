/**
 * `ArbitragePathFinder`
 * (src/main/java/com/estar/customcode/algo/ArbitragePathFinder.java): one
 * Bellman-Ford run per source vertex, a scan of the edge list for edges
 * that can still be relaxed, a predecessor walk from each such edge, and a
 * per-pair maximum of the positive factors over all runs. Each run gets
 * its own distance and predecessor maps.
 */
module PathFinder {
  import opened Wrappers
  import opened Currencies
  import opened Graphs
  import opened PairLookup
  import opened EdgeRelaxer
  import opened FactorFinder

  /** Every vertex of `vertices` at +Infinity and its own predecessor (the loop of lines 62-65). */
  function InitOver(vertices: seq<Currency>): (l: Labels)
    ensures l.dist.Keys == (set v | v in vertices) && l.pred.Keys == l.dist.Keys
    ensures forall v :: v in l.dist ==> l.dist[v] == Inf && l.pred[v] == v
  {
    if vertices == [] then Labels(map[], map[])
    else
      var l := InitOver(vertices[..|vertices| - 1]);
      var v := vertices[|vertices| - 1];
      assert vertices == vertices[..|vertices| - 1] + [v];
      Labels(l.dist[v := Inf], l.pred[v := v])
  }

  /** The labels a run starts from: the source at 0, all other vertices at +Infinity. */
  function InitLabels(vertices: seq<Currency>, source: Currency): (l: Labels)
    requires source in vertices
    ensures l.dist.Keys == (set v | v in vertices) && l.pred.Keys == l.dist.Keys
    ensures forall v :: v in l.pred ==> l.pred[v] == v
    ensures l.dist[source] == Fin(0)
    ensures forall v :: v in l.dist && v != source ==> l.dist[v] == Inf
  {
    var l := InitOver(vertices);
    Labels(l.dist[source := Fin(0)], l.pred)
  }

  /** Every predecessor is itself a key, so the walk can always take another step. */
  predicate Closed(pred: map<Currency, Currency>)
  {
    forall v {:trigger pred[v]} :: v in pred ==> pred[v] in pred
  }

  /** Marking an unseen key seen lowers the number of unseen keys. */
  lemma UnseenShrinks(keys: set<Currency>, seen: set<Currency>, v: Currency)
    requires v in keys && v !in seen
    ensures |keys - (seen + {v})| < |keys - seen|
  {
    assert keys - (seen + {v}) == (keys - seen) - {v};
  }

  /**
   * The walk after its first vertex: follow predecessors until one equals
   * the start or has been seen. The number of unseen keys bounds it.
   */
  function WalkRest(pred: map<Currency, Currency>, start: Currency, v: Currency, seen: set<Currency>): (r: seq<Currency>)
    requires Closed(pred) && v in pred && start in seen
    decreases |pred.Keys - seen|
    ensures r == [] <==> v in seen
    ensures r != [] ==> r[0] == v
    ensures forall i :: 0 <= i < |r| ==> r[i] in pred && r[i] !in seen
    ensures forall i, j :: 0 <= i < j < |r| ==> r[i] != r[j]
    ensures forall i :: 0 <= i < |r| - 1 ==> r[i + 1] == pred[r[i]]
    ensures r != [] ==> pred[r[|r| - 1]] in seen || pred[r[|r| - 1]] in r
  {
    if v == start || v in seen then []
    else
      UnseenShrinks(pred.Keys, seen, v);
      var rest := WalkRest(pred, start, pred[v], seen + {v});
      StepBack(pred, seen, v, rest);
      [v] + rest
  }

  /** One more step in front of a walk that avoids `seen + {v}` keeps the walk's shape. */
  lemma StepBack(pred: map<Currency, Currency>, seen: set<Currency>, v: Currency, rest: seq<Currency>)
    requires v in pred && v !in seen
    requires rest == [] <==> pred[v] in seen + {v}
    requires rest != [] ==> rest[0] == pred[v]
    requires forall i :: 0 <= i < |rest| ==> rest[i] in pred && rest[i] !in seen + {v}
    requires forall i, j :: 0 <= i < j < |rest| ==> rest[i] != rest[j]
    requires forall i :: 0 <= i < |rest| - 1 ==> rest[i + 1] == pred[rest[i]]
    requires rest != [] ==> pred[rest[|rest| - 1]] in seen + {v} || pred[rest[|rest| - 1]] in rest
    ensures forall i :: 0 <= i < |[v] + rest| ==> ([v] + rest)[i] in pred && ([v] + rest)[i] !in seen
    ensures forall i, j :: 0 <= i < j < |[v] + rest| ==> ([v] + rest)[i] != ([v] + rest)[j]
    ensures forall i :: 0 <= i < |[v] + rest| - 1 ==> ([v] + rest)[i + 1] == pred[([v] + rest)[i]]
    ensures pred[([v] + rest)[|[v] + rest| - 1]] in seen || pred[([v] + rest)[|[v] + rest| - 1]] in [v] + rest
  {
    var r := [v] + rest;
    assert forall i :: 0 < i < |r| ==> r[i] == rest[i - 1];
    if rest != [] {
      assert r[|r| - 1] == rest[|rest| - 1];
      var w := pred[rest[|rest| - 1]];
      assert w in rest ==> w in r;
    }
  }

  /**
   * The do-while of lines 92-97: the start, then its predecessors until one
   * is the start or seen. Since the start is marked seen first, the
   * value-equality test on `seen` already stops the walk whenever the
   * reference test `vertex != start` would.
   */
  function Walk(pred: map<Currency, Currency>, start: Currency, seen: set<Currency>): (r: seq<Currency>)
    requires Closed(pred) && start in pred
    ensures |r| >= 1 && r[0] == start
    ensures forall i :: 0 <= i < |r| ==> r[i] in pred
    ensures forall i :: 1 <= i < |r| ==> r[i] !in seen && r[i] != start
    ensures forall i, j :: 0 <= i < j < |r| ==> r[i] != r[j]
    ensures forall i :: 0 <= i < |r| - 1 ==> r[i + 1] == pred[r[i]]
    ensures pred[r[|r| - 1]] in seen || pred[r[|r| - 1]] in r
  {
    var rest := WalkRest(pred, start, pred[start], seen + {start});
    assert forall i :: 0 < i < |[start] + rest| ==> ([start] + rest)[i] == rest[i - 1];
    [start] + rest
  }

  /** `currencyCodeCurrencyPair.get(start + "_" + end)`. */
  function Resolve(a: Currency, b: Currency): (r: Option<CurrencyPair>)
    ensures r.Some? <==> a != b
    ensures r.Some? ==> r.value.Members() == {a, b}
  {
    LookupResolves(a, b);
    if PairKey(a, b) in GetCurrencyPair() then Some(GetCurrencyPair()[PairKey(a, b)]) else None
  }

  /** What the scan of one run has recorded so far. */
  datatype Scan = Scan(found: map<CurrencyPair, int>, seen: set<Currency>)

  /** What one run needs of its labels: keys are the graph's vertices and predecessors are keys. */
  predicate RunReady(g: Graph, l: Labels)
  {
    && l.dist.Keys == g.adjacency.Keys && l.pred.Keys == g.adjacency.Keys
    && Closed(l.pred)
  }

  /** An edge between two different vertices, as every edge of a well-formed graph is. */
  predicate Joinable(g: Graph, e: Edge)
  {
    e.startVertex in g.adjacency && e.endVertex in g.adjacency && e.startVertex != e.endVertex
  }

  /** Every edge of the list is joinable. */
  predicate AllJoinable(g: Graph, edges: seq<Edge>)
  {
    forall e :: e in edges ==> Joinable(g, e)
  }

  /** Some listed edge for the pair can still be relaxed. */
  ghost predicate Witnessed(l: Labels, edges: seq<Edge>, p: CurrencyPair)
  {
    exists e :: e in edges && e.startVertex in l.dist && e.endVertex in l.dist
      && Relaxable(l, e) && p.Members() == {e.startVertex, e.endVertex}
  }

  /**
   * One edge of the scan (lines 86-101): skip it if its end was seen;
   * otherwise, if it can still be relaxed, walk from its start and record
   * the walk's factor for its pair when positive, replacing any earlier
   * factor of this run.
   */
  function ScanEdge(g: Graph, l: Labels, st: Scan, e: Edge, unlog: Unlog): (r: Scan)
    requires RunReady(g, l) && Joinable(g, e)
    ensures st.seen <= r.seen
    ensures e.endVertex in st.seen ==> r == st
    ensures forall p :: p in r.found && (p !in st.found || r.found[p] != st.found[p]) ==>
      Relaxable(l, e) && p.Members() == {e.startVertex, e.endVertex} && r.found[p] > 0
    ensures forall p :: p in st.found ==> p in r.found
  {
    if e.endVertex in st.seen then st
    else if Relaxable(l, e) then
      var cycle := Walk(l.pred, e.startVertex, st.seen);
      assert StepsResolve(g.adjacency, cycle);
      var seen := st.seen + (set v | v in cycle);
      var factor := Factor(g.adjacency, cycle, unlog);
      var p := Resolve(e.startVertex, e.endVertex).value;
      if factor > 0 then Scan(st.found[p := factor], seen) else Scan(st.found, seen)
    else st
  }

  /** The scan over a prefix of the edge list, in order. */
  function ScanEdges(g: Graph, l: Labels, edges: seq<Edge>, unlog: Unlog): (r: Scan)
    requires RunReady(g, l) && AllJoinable(g, edges)
    ensures forall p :: p in r.found ==> r.found[p] > 0 && Witnessed(l, edges, p)
  {
    if edges == [] then Scan(map[], {})
    else
      var init := edges[..|edges| - 1];
      var e := edges[|edges| - 1];
      var before := ScanEdges(g, l, init, unlog);
      var r := ScanEdge(g, l, before, e, unlog);
      assert forall p :: Witnessed(l, init, p) ==> Witnessed(l, edges, p) by {
        forall p | Witnessed(l, init, p)
          ensures Witnessed(l, edges, p)
        {
          var e' :| e' in init && e'.startVertex in l.dist && e'.endVertex in l.dist
            && Relaxable(l, e') && p.Members() == {e'.startVertex, e'.endVertex};
          assert e' in edges;
        }
      }
      assert e in edges;
      r
  }

  /**
   * The recording half of one scan step: an edge that cannot be relaxed
   * changes nothing; a relaxable edge whose end is unseen marks its walk
   * seen and, when the walk's factor is positive, records that factor for
   * the edge's pair, replacing any earlier one.
   */
  lemma ScanEdgeRecords(g: Graph, l: Labels, st: Scan, e: Edge, unlog: Unlog)
    requires RunReady(g, l) && Joinable(g, e)
    ensures !Relaxable(l, e) ==> ScanEdge(g, l, st, e, unlog) == st
    ensures e.endVertex !in st.seen && Relaxable(l, e) ==>
      var cycle := Walk(l.pred, e.startVertex, st.seen);
      var f := Factor(g.adjacency, cycle, unlog);
      var r := ScanEdge(g, l, st, e, unlog);
      && r.seen == st.seen + (set v | v in cycle)
      && (f > 0 ==> r.found == st.found[Resolve(e.startVertex, e.endVertex).value := f])
      && (f <= 0 ==> r.found == st.found)
  {
  }

  /** The edges of a prefix are edges of the list. */
  lemma PrefixJoinable(g: Graph, edges: seq<Edge>, k: int)
    requires AllJoinable(g, edges) && 0 <= k <= |edges|
    ensures AllJoinable(g, edges[..k])
  {
    assert forall e :: e in edges[..k] ==> e in edges;
  }

  /**
   * Edge `i` of the list records factor `f` for pair `p`: when the scan
   * reaches it, its end is unseen, it can be relaxed, it joins the two
   * currencies of `p`, and the walk from its start has factor `f > 0`.
   */
  ghost predicate RecordsAt(g: Graph, l: Labels, edges: seq<Edge>, unlog: Unlog, i: int, p: CurrencyPair, f: int)
    requires RunReady(g, l) && AllJoinable(g, edges)
  {
    && 0 <= i < |edges|
    && var e := edges[i];
    && Joinable(g, e)
    && (PrefixJoinable(g, edges, i);
        var st := ScanEdges(g, l, edges[..i], unlog);
        && e.endVertex !in st.seen && Relaxable(l, e)
        && Resolve(e.startVertex, e.endVertex) == Some(p)
        && f > 0 && Factor(g.adjacency, Walk(l.pred, e.startVertex, st.seen), unlog) == f)
  }

  /** No factor is recorded for pair `p` at edge `j`. */
  ghost predicate NoRecordAt(g: Graph, l: Labels, edges: seq<Edge>, unlog: Unlog, j: int, p: CurrencyPair)
    requires RunReady(g, l) && AllJoinable(g, edges)
  {
    forall f :: !RecordsAt(g, l, edges, unlog, j, p, f)
  }

  /** No edge after `i` records pair `p`. */
  ghost predicate LastRecordOf(g: Graph, l: Labels, edges: seq<Edge>, unlog: Unlog, i: int, p: CurrencyPair)
    requires RunReady(g, l) && AllJoinable(g, edges)
  {
    forall j :: i < j < |edges| ==> NoRecordAt(g, l, edges, unlog, j, p)
  }

  /** Edge `i` records `f` for pair `p`, and it is the last edge of the list to record `p`. */
  ghost predicate RecordsLast(g: Graph, l: Labels, edges: seq<Edge>, unlog: Unlog, i: int, p: CurrencyPair, f: int)
  {
    && RunReady(g, l) && AllJoinable(g, edges)
    && RecordsAt(g, l, edges, unlog, i, p, f) && LastRecordOf(g, l, edges, unlog, i, p)
  }

  /** Recording at `i` in a prefix is recording at `i` in the whole list. */
  lemma RecordsAtPrefix(g: Graph, l: Labels, edges: seq<Edge>, unlog: Unlog, k: int, i: int, p: CurrencyPair, f: int)
    requires RunReady(g, l) && AllJoinable(g, edges) && 0 <= i < k <= |edges|
    ensures AllJoinable(g, edges[..k])
    ensures RecordsAt(g, l, edges[..k], unlog, i, p, f) <==> RecordsAt(g, l, edges, unlog, i, p, f)
  {
    PrefixJoinable(g, edges, k);
    assert edges[..k][..i] == edges[..i];
    assert edges[..k][i] == edges[i];
  }

  lemma NoRecordAtPrefix(g: Graph, l: Labels, edges: seq<Edge>, unlog: Unlog, k: int, j: int, p: CurrencyPair)
    requires RunReady(g, l) && AllJoinable(g, edges) && 0 <= j < k <= |edges|
    ensures AllJoinable(g, edges[..k])
    ensures NoRecordAt(g, l, edges[..k], unlog, j, p) <==> NoRecordAt(g, l, edges, unlog, j, p)
  {
    forall f
      ensures RecordsAt(g, l, edges[..k], unlog, j, p, f) <==> RecordsAt(g, l, edges, unlog, j, p, f)
    {
      RecordsAtPrefix(g, l, edges, unlog, k, j, p, f);
    }
  }

  /** If the final edge `n` records a factor for pair `p`, the scan ends with `p` at that factor. */
  lemma LastEdgeRecords(g: Graph, l: Labels, edges: seq<Edge>, unlog: Unlog, n: int, p: CurrencyPair)
    requires RunReady(g, l) && AllJoinable(g, edges) && edges != [] && n == |edges| - 1
    ensures forall f :: RecordsAt(g, l, edges, unlog, n, p, f) ==>
      p in ScanEdges(g, l, edges, unlog).found && ScanEdges(g, l, edges, unlog).found[p] == f
  {
    var e := edges[n];
    PrefixJoinable(g, edges, n);
    assert e in edges;
    ScanEdgeRecords(g, l, ScanEdges(g, l, edges[..n], unlog), e, unlog);
  }

  /** If the final edge `n` records no factor for pair `p`, `p` is flagged after it exactly as before it. */
  lemma LastEdgeSkips(g: Graph, l: Labels, edges: seq<Edge>, unlog: Unlog, n: int, p: CurrencyPair)
    requires RunReady(g, l) && AllJoinable(g, edges) && edges != [] && n == |edges| - 1
    ensures AllJoinable(g, edges[..n])
    ensures NoRecordAt(g, l, edges, unlog, n, p) ==>
      var before, after := ScanEdges(g, l, edges[..n], unlog).found, ScanEdges(g, l, edges, unlog).found;
      (p in after <==> p in before) && (p in before ==> after[p] == before[p])
  {
    var e := edges[n];
    PrefixJoinable(g, edges, n);
    assert e in edges;
    var st := ScanEdges(g, l, edges[..n], unlog);
    var r := ScanEdge(g, l, st, e, unlog);
    assert ScanEdges(g, l, edges, unlog) == r;
    ScanEdgeRecords(g, l, st, e, unlog);
    if NoRecordAt(g, l, edges, unlog, n, p) {
      if e.endVertex !in st.seen && Relaxable(l, e) {
        var f := Factor(g.adjacency, Walk(l.pred, e.startVertex, st.seen), unlog);
        if f > 0 {
          var q := Resolve(e.startVertex, e.endVertex).value;
          assert !RecordsAt(g, l, edges, unlog, n, p, f);
          assert q != p;
          assert r.found == st.found[q := f];
        } else {
          assert r.found == st.found;
        }
      } else {
        assert r.found == st.found;
      }
    }
  }

  /**
   * The scan keeps, for each pair, the factor of the last edge that
   * recorded it: if edge `i` records `f` for `p` and no later edge records
   * `p`, the scan ends with `p` at `f`.
   */
  lemma {:induction false} ScanEdgesKeepsLastRecord(g: Graph, l: Labels, edges: seq<Edge>, unlog: Unlog, i: int, p: CurrencyPair, f: int)
    requires RecordsLast(g, l, edges, unlog, i, p, f)
    ensures p in ScanEdges(g, l, edges, unlog).found && ScanEdges(g, l, edges, unlog).found[p] == f
    decreases |edges|
  {
    var n := |edges| - 1;
    var after := ScanEdges(g, l, edges, unlog).found;
    if i == n {
      LastEdgeRecords(g, l, edges, unlog, n, p);
      assert RecordsAt(g, l, edges, unlog, n, p, f);
      assert p in after && after[p] == f;
    } else {
      var init := edges[..n];
      RecordsAtPrefix(g, l, edges, unlog, n, i, p, f);
      forall j | i < j < |init|
        ensures NoRecordAt(g, l, init, unlog, j, p)
      {
        NoRecordAtPrefix(g, l, edges, unlog, n, j, p);
      }
      ScanEdgesKeepsLastRecord(g, l, init, unlog, i, p, f);
      LastEdgeSkips(g, l, edges, unlog, n, p);
      var before := ScanEdges(g, l, init, unlog).found;
      assert p in before && before[p] == f;
      assert NoRecordAt(g, l, edges, unlog, n, p);
      assert p in after && after[p] == f;
    }
  }

  /** The scan keeps the factor of the last record of every pair. */
  lemma ScanKeepsLastRecords(g: Graph, l: Labels, edges: seq<Edge>, unlog: Unlog)
    requires RunReady(g, l) && AllJoinable(g, edges)
    ensures forall i, p, f :: RecordsLast(g, l, edges, unlog, i, p, f) ==>
      p in ScanEdges(g, l, edges, unlog).found && ScanEdges(g, l, edges, unlog).found[p] == f
  {
    forall i, p, f | RecordsLast(g, l, edges, unlog, i, p, f)
      ensures p in ScanEdges(g, l, edges, unlog).found && ScanEdges(g, l, edges, unlog).found[p] == f
    {
      ScanEdgesKeepsLastRecord(g, l, edges, unlog, i, p, f);
    }
  }

  /**
   * Conversely, every pair the scan flags got its final factor from some
   * edge that recorded exactly that factor for it.
   */
  lemma {:induction false} ScanEdgesFlagsOnlyRecorded(g: Graph, l: Labels, edges: seq<Edge>, unlog: Unlog, p: CurrencyPair)
    requires RunReady(g, l) && AllJoinable(g, edges)
    requires p in ScanEdges(g, l, edges, unlog).found
    ensures exists i :: RecordsAt(g, l, edges, unlog, i, p, ScanEdges(g, l, edges, unlog).found[p])
    decreases |edges|
  {
    var n := |edges| - 1;
    var fp := ScanEdges(g, l, edges, unlog).found[p];
    LastEdgeRecords(g, l, edges, unlog, n, p);
    LastEdgeSkips(g, l, edges, unlog, n, p);
    if !RecordsAt(g, l, edges, unlog, n, p, fp) {
      assert NoRecordAt(g, l, edges, unlog, n, p);
      var init := edges[..n];
      var before := ScanEdges(g, l, init, unlog).found;
      assert p in before && before[p] == fp;
      ScanEdgesFlagsOnlyRecorded(g, l, init, unlog, p);
      var i :| RecordsAt(g, l, init, unlog, i, p, fp);
      RecordsAtPrefix(g, l, edges, unlog, n, i, p, fp);
    }
  }

  /** Every flagged pair got its final factor from an edge that recorded it. */
  lemma ScanFlagsOnlyRecords(g: Graph, l: Labels, edges: seq<Edge>, unlog: Unlog)
    requires RunReady(g, l) && AllJoinable(g, edges)
    ensures forall p :: p in ScanEdges(g, l, edges, unlog).found ==>
      exists i :: RecordsAt(g, l, edges, unlog, i, p, ScanEdges(g, l, edges, unlog).found[p])
  {
    forall p | p in ScanEdges(g, l, edges, unlog).found
      ensures exists i :: RecordsAt(g, l, edges, unlog, i, p, ScanEdges(g, l, edges, unlog).found[p])
    {
      ScanEdgesFlagsOnlyRecorded(g, l, edges, unlog, p);
    }
  }

  /**
   * What the runs need of a graph: the vertex list holds exactly the
   * adjacency keys, and every listed edge joins two different vertices.
   */
  predicate Runnable(g: Graph)
  {
    && (set v | v in g.vertices) == g.adjacency.Keys
    && AllJoinable(g, g.edges)
  }

  /** Every graph the builder produces can be run. */
  lemma WellFormedIsRunnable(g: Graph)
    requires WellFormed(g)
    ensures Runnable(g)
  {
    forall e | e in g.edges
      ensures Joinable(g, e)
    {
      EdgesOfWellFormed(g, e);
    }
  }

  /**
   * After relaxation every predecessor is still a key: a predecessor that
   * moved is the start of a listed edge.
   */
  lemma PredecessorsStayKeys(l0: Labels, l: Labels, edges: seq<Edge>)
    requires Covers(l0, edges) && Lowered(l0, l, edges)
    requires forall v :: v in l0.pred ==> l0.pred[v] == v
    ensures Closed(l.pred)
  {
    forall v | v in l.pred
      ensures l.pred[v] in l.pred
    {
      if l.pred[v] != l0.pred[v] {
        assert l.dist[v] != l0.dist[v];
        var e :| e in edges && e.endVertex == v && e.startVertex == l.pred[v];
      }
    }
  }

  /** The labels of the run from `source` after its `|V| - 1` passes (lines 62-67). */
  function Relaxed(g: Graph, source: Currency): (l: Labels)
    requires Runnable(g) && source in g.vertices
    ensures RunReady(g, l)
  {
    var l0 := InitLabels(g.vertices, source);
    assert Covers(l0, g.edges);
    var l := RelaxPasses(l0, g.edges, PassCount(l0));
    RelaxPassesLower(l0, g.edges, PassCount(l0));
    PredecessorsStayKeys(l0, l, g.edges);
    l
  }

  /** Every pair whose last record in the scan of `g.edges` under `l` has factor `f` is in `m` with value `f`. */
  ghost predicate KeepsLastRecords(g: Graph, l: Labels, unlog: Unlog, m: map<CurrencyPair, int>)
  {
    forall i, p, f :: RecordsLast(g, l, g.edges, unlog, i, p, f) ==> p in m && m[p] == f
  }

  /** Every pair in `m` was recorded, with its value in `m`, by some edge of the scan of `g.edges` under `l`. */
  ghost predicate HoldsOnlyRecords(g: Graph, l: Labels, unlog: Unlog, m: map<CurrencyPair, int>)
  {
    && RunReady(g, l) && AllJoinable(g, g.edges)
    && forall p :: p in m ==> exists i :: RecordsAt(g, l, g.edges, unlog, i, p, m[p])
  }

  /**
   * `getArbitrageCurrencyWithFactor`: the scan of the graph's edge list
   * under the labels `l`. A pair is reported with the factor of the last
   * edge that recorded it, and every reported factor is positive and was
   * recorded by some edge of the pair.
   */
  function ArbitrageCurrencyWithFactor(g: Graph, l: Labels, unlog: Unlog): (r: map<CurrencyPair, int>)
    requires RunReady(g, l) && AllJoinable(g, g.edges)
    ensures forall p :: p in r ==> r[p] > 0 && Witnessed(l, g.edges, p)
    ensures KeepsLastRecords(g, l, unlog, r)
    ensures HoldsOnlyRecords(g, l, unlog, r)
  {
    ScanKeepsLastRecords(g, l, g.edges, unlog);
    ScanFlagsOnlyRecords(g, l, g.edges, unlog);
    ScanEdges(g, l, g.edges, unlog).found
  }

  /**
   * `findArbitrageCurrency`: relax from `source`, then scan. Each pair is
   * flagged with the factor of the last edge of the scan that recorded it,
   * and only recorded pairs are flagged, each with a positive factor.
   */
  function FindArbitrageCurrency(g: Graph, source: Currency, unlog: Unlog): (r: map<CurrencyPair, int>)
    requires Runnable(g) && source in g.vertices
    ensures forall p :: p in r ==> r[p] > 0
    ensures KeepsLastRecords(g, Relaxed(g, source), unlog, r)
    ensures HoldsOnlyRecords(g, Relaxed(g, source), unlog, r)
  {
    ArbitrageCurrencyWithFactor(g, Relaxed(g, source), unlog)
  }

  /** Every pair a run flags has an edge that the run's relaxed labels can still relax. */
  lemma FlaggedPairsAreWitnessed(g: Graph, source: Currency, unlog: Unlog, p: CurrencyPair)
    requires Runnable(g) && source in g.vertices
    requires p in FindArbitrageCurrency(g, source, unlog)
    ensures Witnessed(Relaxed(g, source), g.edges, p)
  {
  }

  /** The merge of lines 38-46: per pair, the larger factor. */
  function MergeMax(acc: map<CurrencyPair, int>, run: map<CurrencyPair, int>): (r: map<CurrencyPair, int>)
    ensures r.Keys == acc.Keys + run.Keys
    ensures forall p :: p in r ==>
      && (p in acc ==> acc[p] <= r[p]) && (p in run ==> run[p] <= r[p])
      && ((p in acc && r[p] == acc[p]) || (p in run && r[p] == run[p]))
  {
    map p | p in acc.Keys + run.Keys :: if p in run && (p !in acc || run[p] > acc[p]) then run[p] else acc[p]
  }

  /** `m` flags what the scan of the run from vertex `k` records. */
  ghost predicate RunFrom(g: Graph, unlog: Unlog, k: int, m: map<CurrencyPair, int>)
    requires Runnable(g) && 0 <= k < |g.vertices|
  {
    KeepsLastRecords(g, Relaxed(g, g.vertices[k]), unlog, m) && HoldsOnlyRecords(g, Relaxed(g, g.vertices[k]), unlog, m)
  }

  /** The result of the run from each vertex, in vertex-list order. */
  function Runs(g: Graph, unlog: Unlog): (runs: seq<map<CurrencyPair, int>>)
    requires Runnable(g)
    ensures |runs| == |g.vertices|
    ensures forall i, p :: 0 <= i < |runs| && p in runs[i] ==> runs[i][p] > 0
  {
    seq(|g.vertices|, i requires 0 <= i < |g.vertices| => FindArbitrageCurrency(g, g.vertices[i], unlog))
  }

  /** Entry `k` of the runs flags what the scan of the run from vertex `k` records. */
  lemma RunAtVertex(g: Graph, unlog: Unlog, k: int)
    requires Runnable(g) && 0 <= k < |g.vertices|
    ensures RunFrom(g, unlog, k, Runs(g, unlog)[k])
  {
    var run := FindArbitrageCurrency(g, g.vertices[k], unlog);
    assert KeepsLastRecords(g, Relaxed(g, g.vertices[k]), unlog, run);
  }

  /** The loop of `findCycles`: merge the runs one after another, from an empty map. */
  function MergeAll(runs: seq<map<CurrencyPair, int>>): (r: map<CurrencyPair, int>)
    ensures forall i :: 0 <= i < |runs| ==> runs[i].Keys <= r.Keys
  {
    if runs == [] then map[]
    else
      var init := runs[..|runs| - 1];
      assert forall i :: 0 <= i < |init| ==> init[i] == runs[i];
      MergeMax(MergeAll(init), runs[|runs| - 1])
  }

  /** Run `i` flagged `p` with factor `f`. */
  ghost predicate Gives(runs: seq<map<CurrencyPair, int>>, i: int, p: CurrencyPair, f: int)
  {
    0 <= i < |runs| && p in runs[i] && runs[i][p] == f
  }

  /**
   * A pair is in the merge exactly when some run flagged it, and its factor
   * is the largest any run gave it.
   */
  lemma MergeAllIsMaxOverRuns(runs: seq<map<CurrencyPair, int>>, p: CurrencyPair)
    ensures p in MergeAll(runs) <==> exists i, f :: Gives(runs, i, p, f)
    ensures forall i, f :: Gives(runs, i, p, f) ==> f <= MergeAll(runs)[p]
    ensures p in MergeAll(runs) ==> exists i :: Gives(runs, i, p, MergeAll(runs)[p])
  {
    forall i, f | Gives(runs, i, p, f)
      ensures p in MergeAll(runs) && f <= MergeAll(runs)[p]
    {
      GivenIsMerged(runs, i, p, f);
    }
    if p in MergeAll(runs) {
      MergeAllAttained(runs, p);
    }
  }

  /** What one run flags is in the merge, with at least that factor. */
  lemma {:induction false} GivenIsMerged(runs: seq<map<CurrencyPair, int>>, i: int, p: CurrencyPair, f: int)
    requires Gives(runs, i, p, f)
    ensures p in MergeAll(runs) && f <= MergeAll(runs)[p]
  {
    var last := |runs| - 1;
    var init := runs[..last];
    var r := MergeMax(MergeAll(init), runs[last]);
    if i < last {
      assert init[i] == runs[i];
      GivenIsMerged(init, i, p, f);
      assert p in r && MergeAll(init)[p] <= r[p];
    } else {
      assert p in r && runs[last][p] <= r[p];
    }
  }

  /** Every factor in the merge is one some run gave that pair. */
  lemma {:induction false} MergeAllAttained(runs: seq<map<CurrencyPair, int>>, p: CurrencyPair)
    requires p in MergeAll(runs)
    ensures exists i :: Gives(runs, i, p, MergeAll(runs)[p])
  {
    var last := |runs| - 1;
    var init := runs[..last];
    var r := MergeAll(runs);
    if p in runs[last] && r[p] == runs[last][p] {
      assert Gives(runs, last, p, r[p]);
    } else {
      MergeAllAttained(init, p);
      var i :| Gives(init, i, p, MergeAll(init)[p]);
      assert Gives(runs, i, p, r[p]);
    }
  }

  /** Every pair `run` flags is in `m` with at least the factor `run` gives it. */
  ghost predicate Covered(run: map<CurrencyPair, int>, m: map<CurrencyPair, int>)
  {
    forall p :: p in run ==> p in m && run[p] <= m[p]
  }

  /** `m` covers every run. */
  ghost predicate KeepsRuns(runs: seq<map<CurrencyPair, int>>, m: map<CurrencyPair, int>)
  {
    forall k {:trigger Covered(runs[k], m)} :: 0 <= k < |runs| ==> Covered(runs[k], m)
  }

  /** A map that covers every run covers run `k`. */
  lemma CoversRun(runs: seq<map<CurrencyPair, int>>, m: map<CurrencyPair, int>, k: int)
    requires KeepsRuns(runs, m) && 0 <= k < |runs|
    ensures Covered(runs[k], m)
  {
  }

  /** The merge keeps every run's flags. */
  lemma MergeAllKeepsRuns(runs: seq<map<CurrencyPair, int>>)
    ensures KeepsRuns(runs, MergeAll(runs))
  {
    forall k | 0 <= k < |runs|
      ensures Covered(runs[k], MergeAll(runs))
    {
      forall p | p in runs[k]
        ensures p in MergeAll(runs) && runs[k][p] <= MergeAll(runs)[p]
      {
        GivenIsMerged(runs, k, p, runs[k][p]);
      }
    }
  }

  /** Every pair in `m` has, as its value, the factor some run flagged it with. */
  ghost predicate OnlyFromRuns(runs: seq<map<CurrencyPair, int>>, m: map<CurrencyPair, int>)
  {
    forall p :: p in m ==> exists k :: Gives(runs, k, p, m[p])
  }

  /** The merge holds nothing no run flagged. */
  lemma MergeAllOnlyFromRuns(runs: seq<map<CurrencyPair, int>>)
    ensures OnlyFromRuns(runs, MergeAll(runs))
  {
    forall p | p in MergeAll(runs)
      ensures exists k :: Gives(runs, k, p, MergeAll(runs)[p])
    {
      MergeAllIsMaxOverRuns(runs, p);
    }
  }

  /** A merge of runs with positive factors has positive factors. */
  lemma MergeAllPositive(runs: seq<map<CurrencyPair, int>>)
    requires forall i, p :: 0 <= i < |runs| && p in runs[i] ==> runs[i][p] > 0
    ensures forall p :: p in MergeAll(runs) ==> MergeAll(runs)[p] > 0
  {
    forall p | p in MergeAll(runs)
      ensures MergeAll(runs)[p] > 0
    {
      MergeAllIsMaxOverRuns(runs, p);
    }
  }

  /** `findCycles`: every vertex in turn as the source, the per-pair maximum kept. */
  function FindCycles(g: Graph, unlog: Unlog): (r: map<CurrencyPair, int>)
    requires Runnable(g)
    ensures forall p :: p in r ==> r[p] > 0
    ensures g.vertices == [] ==> r == map[]
    ensures KeepsRuns(Runs(g, unlog), r)
    ensures OnlyFromRuns(Runs(g, unlog), r)
    ensures KeepsRunRecords(g, unlog, r)
    ensures OnlyRunRecords(g, unlog, r)
  {
    var runs := Runs(g, unlog);
    MergeAllPositive(runs);
    MergeAllKeepsRuns(runs);
    MergeAllOnlyFromRuns(runs);
    RunsKeepRecords(g, unlog, MergeAll(runs));
    RunsHoldOnlyRecords(g, unlog, MergeAll(runs));
    MergeAll(runs)
  }

  /** Every pair that some edge records last under `l`, with factor `f`, is in `m` with at least that factor. */
  ghost predicate KeepsAtLeast(g: Graph, l: Labels, unlog: Unlog, m: map<CurrencyPair, int>)
  {
    forall i, p, f :: RecordsLast(g, l, g.edges, unlog, i, p, f) ==> p in m && f <= m[p]
  }

  /** Every pair that the run from some vertex records last is in `m` with at least that factor. */
  ghost predicate KeepsRunRecords(g: Graph, unlog: Unlog, m: map<CurrencyPair, int>)
  {
    && Runnable(g)
    && forall k {:trigger KeepsAtLeast(g, Relaxed(g, g.vertices[k]), unlog, m)} ::
         0 <= k < |g.vertices| ==> KeepsAtLeast(g, Relaxed(g, g.vertices[k]), unlog, m)
  }

  /** Every pair in `m` was recorded, with its value in `m`, in the run from some vertex. */
  ghost predicate OnlyRunRecords(g: Graph, unlog: Unlog, m: map<CurrencyPair, int>)
  {
    && Runnable(g)
    && forall p :: p in m ==>
         exists k, i :: 0 <= k < |g.vertices| && RecordsAt(g, Relaxed(g, g.vertices[k]), g.edges, unlog, i, p, m[p])
  }

  /** A map covering a run that keeps its last records keeps those records too. */
  lemma CoveredKeepsRecords(g: Graph, l: Labels, unlog: Unlog, run: map<CurrencyPair, int>, m: map<CurrencyPair, int>)
    requires KeepsLastRecords(g, l, unlog, run) && Covered(run, m)
    ensures KeepsAtLeast(g, l, unlog, m)
  {
    forall i, p, f | RecordsLast(g, l, g.edges, unlog, i, p, f)
      ensures p in m && f <= m[p]
    {
      assert p in run && run[p] == f;
    }
  }

  /** A map that keeps every run's flags keeps every run's last records. */
  lemma RunsKeepRecords(g: Graph, unlog: Unlog, m: map<CurrencyPair, int>)
    requires Runnable(g) && KeepsRuns(Runs(g, unlog), m)
    ensures KeepsRunRecords(g, unlog, m)
  {
    forall k | 0 <= k < |g.vertices|
      ensures KeepsAtLeast(g, Relaxed(g, g.vertices[k]), unlog, m)
    {
      CoversRun(Runs(g, unlog), m, k);
      RunKeepsRecords(g, unlog, m, k);
    }
  }

  /** The same, for the run from one vertex. */
  lemma RunKeepsRecords(g: Graph, unlog: Unlog, m: map<CurrencyPair, int>, k: int)
    requires Runnable(g) && 0 <= k < |g.vertices| && Covered(Runs(g, unlog)[k], m)
    ensures KeepsAtLeast(g, Relaxed(g, g.vertices[k]), unlog, m)
  {
    RunAtVertex(g, unlog, k);
    CoveredKeepsRecords(g, Relaxed(g, g.vertices[k]), unlog, Runs(g, unlog)[k], m);
  }

  /**
   * A pair that the run from some vertex records last is reported with at
   * least that factor, so `findCycles` reports something.
   */
  lemma FindCyclesReportsRecord(g: Graph, unlog: Unlog, k: int, i: int, p: CurrencyPair, f: int)
    requires Runnable(g) && 0 <= k < |g.vertices|
    requires RecordsLast(g, Relaxed(g, g.vertices[k]), g.edges, unlog, i, p, f)
    ensures p in FindCycles(g, unlog) && f <= FindCycles(g, unlog)[p]
    ensures |FindCycles(g, unlog)| > 0
  {
    ghost var kept := KeepsAtLeast(g, Relaxed(g, g.vertices[k]), unlog, FindCycles(g, unlog));
  }

  /** A map holding only what runs flagged holds only what runs recorded. */
  lemma RunsHoldOnlyRecords(g: Graph, unlog: Unlog, m: map<CurrencyPair, int>)
    requires Runnable(g) && OnlyFromRuns(Runs(g, unlog), m)
    ensures OnlyRunRecords(g, unlog, m)
  {
    var runs := Runs(g, unlog);
    forall p | p in m
      ensures exists k, i :: 0 <= k < |g.vertices| && RecordsAt(g, Relaxed(g, g.vertices[k]), g.edges, unlog, i, p, m[p])
    {
      var k :| Gives(runs, k, p, m[p]);
      RunAtVertex(g, unlog, k);
    }
  }

  /** No edge of the graph has a negative weight: no rate above 1 anywhere. */
  ghost predicate NoNegativeWeight(g: Graph)
  {
    forall v, e :: v in g.adjacency && e in g.adjacency[v] ==> e.weight >= 0
  }

  /** Without negative weights no walk has a positive factor, so a scan records nothing. */
  lemma {:induction false} ScanWithoutNegativeWeights(g: Graph, l: Labels, edges: seq<Edge>, unlog: Unlog)
    requires RunReady(g, l) && AllJoinable(g, edges)
    requires NoNegativeWeight(g) && IsUnlog(unlog)
    ensures ScanEdges(g, l, edges, unlog).found == map[]
  {
    if edges != [] {
      var init := edges[..|edges| - 1];
      var e := edges[|edges| - 1];
      assert e in edges;
      assert forall e' :: e' in init ==> e' in edges;
      ScanWithoutNegativeWeights(g, l, init, unlog);
      var st := ScanEdges(g, l, init, unlog);
      if e.endVertex !in st.seen && Relaxable(l, e) {
        var cycle := Walk(l.pred, e.startVertex, st.seen);
        NonNegativeWeights(g.adjacency, cycle, unlog);
      }
    }
  }

  /** Without negative weights a run flags nothing. */
  lemma RunWithoutNegativeWeights(g: Graph, source: Currency, unlog: Unlog)
    requires Runnable(g) && NoNegativeWeight(g) && IsUnlog(unlog) && source in g.vertices
    ensures FindArbitrageCurrency(g, source, unlog) == map[]
  {
    ScanWithoutNegativeWeights(g, Relaxed(g, source), g.edges, unlog);
  }

  /** Merging runs that flagged nothing gives nothing. */
  lemma MergeOfEmptyRuns(runs: seq<map<CurrencyPair, int>>)
    requires forall i :: 0 <= i < |runs| ==> runs[i] == map[]
    ensures MergeAll(runs) == map[]
  {
    forall p | p in MergeAll(runs)
      ensures false
    {
      MergeAllIsMaxOverRuns(runs, p);
    }
  }

  /** Without negative weights `findCycles` reports nothing, whatever the graph's shape. */
  lemma NoArbitrageWithoutNegativeWeights(g: Graph, unlog: Unlog)
    requires Runnable(g) && NoNegativeWeight(g) && IsUnlog(unlog)
    ensures FindCycles(g, unlog) == map[]
  {
    var runs := Runs(g, unlog);
    forall i | 0 <= i < |runs|
      ensures runs[i] == map[]
    {
      RunWithoutNegativeWeights(g, g.vertices[i], unlog);
    }
    MergeOfEmptyRuns(runs);
  }
}
