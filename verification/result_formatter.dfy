/**
 * `ResultFormatter.processArbitrageRecord`
 * (src/main/java/com/estar/arbitrage/ResultFormatter.java) and the record
 * it builds (src/main/java/com/estar/arbitrage/ArbitrageRecord.java): the
 * flagged pairs are grouped by factor into records of order-book
 * snapshots, and the record touched last is handed to the reporter.
 *
 * The order books are abstract: a map from pair to book and the book's two
 * best-price queries. The reporter is the function's result: the record it
 * would receive, `None` standing for `null`.
 */
module ResultFormatter {
  import opened Wrappers
  import opened Currencies

  /** `ArbitrageRecord.Element`: a pair and a snapshot of both sides of its book. */
  datatype Element<Q> = Element(pair: CurrencyPair, bestBidPrice: Q, bestAskPrice: Q)

  /** `ArbitrageRecord`: a factor (in units of 10^-3) and the elements sharing it. */
  datatype ArbitrageRecord<Q> = ArbitrageRecord(factor: int, elements: seq<Element<Q>>)

  /** The order books as the formatter sees them: `orderBooks`, `getBestBuy`, `getBestSell`. */
  datatype BookView<!B, Q> = BookView(books: map<CurrencyPair, B>, bestBuy: B -> Q, bestSell: B -> Q)

  /** A flagged pair without an order book: `orderBook.getBestBuy()` on `null` throws. */
  datatype FormatError = MissingOrderBook(pair: CurrencyPair)

  /** The loop's state: `factorArbitrageMap` and the factor of `arbitrageRecord`, if any. */
  datatype Grouping<Q> = Grouping(groups: map<int, ArbitrageRecord<Q>>, touched: Option<int>)

  /** An entry of the factor map: a flagged pair and its factor. */
  type FactorEntry = (CurrencyPair, int)

  /** The entries come from a map: no pair occurs twice. */
  predicate DistinctPairs(entries: seq<FactorEntry>)
  {
    forall i, j :: 0 <= i < j < |entries| ==> entries[i].0 != entries[j].0
  }

  /** Every pair of the entries has an order book. */
  predicate Booked<B, Q>(entries: seq<FactorEntry>, view: BookView<B, Q>)
  {
    forall i :: 0 <= i < |entries| ==> entries[i].0 in view.books
  }

  /**
   * The element of a pair. `getBestBuy()` goes into the `bestBidPrice`
   * slot and `getBestSell()` into the `bestAskPrice` slot, as the
   * constructor call orders its arguments.
   */
  function Snapshot<B, Q>(view: BookView<B, Q>, p: CurrencyPair): (el: Element<Q>)
    requires p in view.books
    ensures el.pair == p
    ensures el.bestBidPrice == view.bestBuy(view.books[p]) && el.bestAskPrice == view.bestSell(view.books[p])
  {
    Element(p, view.bestBuy(view.books[p]), view.bestSell(view.books[p]))
  }

  /**
   * The reference grouping: the snapshots of the entries whose factor is
   * `k`, in iteration order.
   */
  function Select<B, Q>(entries: seq<FactorEntry>, view: BookView<B, Q>, k: int): seq<Element<Q>>
    requires Booked(entries, view)
  {
    if entries == [] then []
    else
      var e := entries[|entries| - 1];
      Select(entries[..|entries| - 1], view, k) + (if e.1 == k then [Snapshot(view, e.0)] else [])
  }

  /** One loop iteration: append the element to its factor's record, or open a record for it. */
  function AddElement<Q>(g: Grouping<Q>, k: int, el: Element<Q>): Grouping<Q>
  {
    if k in g.groups then
      var rec := g.groups[k];
      Grouping(g.groups[k := ArbitrageRecord(rec.factor, rec.elements + [el])], Some(k))
    else
      Grouping(g.groups[k := ArbitrageRecord(k, [el])], Some(k))
  }

  /**
   * What the loop has built after walking `entries`: a group exists for
   * exactly the factors met, each record carries its key as factor and
   * lists the snapshots of exactly the pairs with that factor, in
   * iteration order, and the record touched last is the last entry's.
   */
  ghost predicate GroupedBy<B, Q>(entries: seq<FactorEntry>, view: BookView<B, Q>, g: Grouping<Q>)
    requires Booked(entries, view)
  {
    && (forall k :: k in g.groups <==> Select(entries, view, k) != [])
    && (forall k :: k in g.groups ==> g.groups[k] == ArbitrageRecord(k, Select(entries, view, k)))
    && g.touched == if entries == [] then None else Some(entries[|entries| - 1].1)
  }

  /** The loop over the entries; it fails at the first pair without a book. */
  function Group<B, Q>(entries: seq<FactorEntry>, view: BookView<B, Q>): (r: Result<Grouping<Q>, FormatError>)
    ensures r.Success? <==> Booked(entries, view)
    ensures r.Success? ==> GroupedBy(entries, view, r.value)
  {
    if entries == [] then Success(Grouping(map[], None))
    else
      var init := entries[..|entries| - 1];
      var e := entries[|entries| - 1];
      match Group(init, view)
      case Failure(err) => Failure(err)
      case Success(g) =>
        if e.0 !in view.books then Failure(MissingOrderBook(e.0))
        else
          AddElementStep(entries, view, g);
          Success(AddElement(g, e.1, Snapshot(view, e.0)))
  }

  /** One more iteration extends what was built over the earlier entries. */
  lemma AddElementStep<B, Q>(entries: seq<FactorEntry>, view: BookView<B, Q>, g: Grouping<Q>)
    requires entries != [] && Booked(entries, view)
    requires Booked(entries[..|entries| - 1], view) && GroupedBy(entries[..|entries| - 1], view, g)
    ensures var e := entries[|entries| - 1];
      GroupedBy(entries, view, AddElement(g, e.1, Snapshot(view, e.0)))
  {
    var init := entries[..|entries| - 1];
    var e := entries[|entries| - 1];
    var r := AddElement(g, e.1, Snapshot(view, e.0));
    forall k
      ensures Select(entries, view, k) == Select(init, view, k) + (if e.1 == k then [Snapshot(view, e.0)] else [])
    {
    }
  }

  /** A pair among the entries is selected exactly under its own factor. */
  lemma {:induction false} SelectMembers<B, Q>(entries: seq<FactorEntry>, view: BookView<B, Q>, k: int, p: CurrencyPair)
    requires Booked(entries, view) && p in view.books
    ensures Snapshot(view, p) in Select(entries, view, k) <==> (p, k) in entries
  {
    if entries != [] {
      var init := entries[..|entries| - 1];
      var e := entries[|entries| - 1];
      SelectMembers(init, view, k, p);
      assert entries == init + [e];
    }
  }

  /**
   * `processArbitrageRecord`: the record handed to the reporter. It is the
   * whole group of the LAST entry's factor; every other group is built and
   * dropped. No entries report `null`.
   */
  function ProcessArbitrageRecord<B, Q>(entries: seq<FactorEntry>, view: BookView<B, Q>)
    : (r: Result<Option<ArbitrageRecord<Q>>, FormatError>)
    ensures r.Success? <==> Booked(entries, view)
    ensures r == Success(None) <==> entries == []
    ensures r.Success? && entries != [] ==>
      var k := entries[|entries| - 1].1;
      r.value == Some(ArbitrageRecord(k, Select(entries, view, k)))
  {
    match Group(entries, view)
    case Failure(err) => Failure(err)
    case Success(g) =>
      if entries == [] then Success(None)
      else Success(Some(g.groups[g.touched.value]))
  }

  /**
   * Every flagged pair has its element in exactly one record, the one of its
   * own factor: pairs with equal factors share a record and pairs with
   * different factors never do.
   */
  lemma EachPairInOneGroup<B, Q>(entries: seq<FactorEntry>, view: BookView<B, Q>, p: CurrencyPair, f: int, k: int)
    requires DistinctPairs(entries) && Group(entries, view).Success?
    requires (p, f) in entries && k in Group(entries, view).value.groups
    ensures f in Group(entries, view).value.groups
    ensures Snapshot(view, p) in Group(entries, view).value.groups[k].elements <==> f == k
  {
    var i :| 0 <= i < |entries| && entries[i] == (p, f);
    SelectMembers(entries, view, k, p);
    SelectMembers(entries, view, f, p);
    if (p, k) in entries {
      var j :| 0 <= j < |entries| && entries[j] == (p, k);
      assert entries[i].0 == entries[j].0;
    }
  }

  /**
   * Two flagged pairs with different factors make two groups, yet only the
   * one of the last entry is reported, with its single element.
   */
  lemma OnlyLastGroupReported<B, Q>(view: BookView<B, Q>, p: CurrencyPair, q: CurrencyPair, f: int, k: int)
    requires p in view.books && q in view.books && p != q && f != k
    ensures var entries := [(p, f), (q, k)];
      && Group(entries, view).value.groups.Keys == {f, k}
      && ProcessArbitrageRecord(entries, view) == Success(Some(ArbitrageRecord(k, [Snapshot(view, q)])))
  {
    var entries := [(p, f), (q, k)];
    var first := entries[..1];
    assert first == [(p, f)] && first[..0] == [];
    var g := Group(entries, view).value;
    forall j
      ensures j in g.groups <==> j == f || j == k
    {
      assert Select(first, view, j) == (if j == f then [Snapshot(view, p)] else []);
      assert Select(entries, view, j) == Select(first, view, j) + (if j == k then [Snapshot(view, q)] else []);
    }
  }
}
