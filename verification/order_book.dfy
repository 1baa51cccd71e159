/**
 * One instrument's order book
 * (src/main/java/com/estar/customcode/processors/CurrencyOrderBook.java):
 * two id-keyed maps of resting price levels and, per side, the head of a
 * priority queue rebuilt in full after every update of that side.
 */
module OrderBooks {
  import opened Wrappers
  import opened Currencies
  import Decimals

  /** `OrderbookListener.Action`. */
  datatype Action = Insert | Modify | Delete

  /** A price level (`Price` record); `ask` selects the side it rests on. */
  datatype Price = Price(id: int, instrument: CurrencyPair, ask: bool, quantity: int, price: real)

  /**
   * A side's best-value queue. `Uncomputed` is the null field of a side that
   * has never been updated; `Computed(top)` holds the queue's `peek()`, which
   * is `None` once the side has been emptied.
   */
  datatype BestCache = Uncomputed | Computed(top: Option<Price>)

  /**
   * The book's state: asks rest in `buyLevels` (`buyOrderBook`), bids in
   * `sellLevels` (`sellOrderBook`).
   */
  datatype Book = Book(
    instrument: CurrencyPair,
    buyLevels: map<int, Price>,
    sellLevels: map<int, Price>,
    bestBuy: BestCache,
    bestSell: BestCache)

  /** A freshly constructed book: both maps empty, neither queue built. */
  function NewBook(pair: CurrencyPair): (b: Book)
    ensures b.buyLevels == map[] && b.sellLevels == map[]
    ensures b.bestBuy.Uncomputed? && b.bestSell.Uncomputed?
  {
    Book(pair, map[], map[], Uncomputed, Uncomputed)
  }

  /** The new side map, and whether the MODIFY warning was printed. */
  datatype LevelUpdate = LevelUpdate(levels: map<int, Price>, missingModify: bool)

  /**
   * `updateOrderBook`: the switch on the action followed by the trailing
   * unconditional put for INSERT and MODIFY.
   */
  function UpdateOrderBook(action: Action, levels: map<int, Price>, price: Price): (r: LevelUpdate)
    ensures action != Delete ==> price.id in r.levels && r.levels[price.id] == price
    ensures action == Delete ==> price.id !in r.levels
    ensures forall id :: id != price.id ==> (id in r.levels <==> id in levels)
    ensures forall id :: id != price.id && id in levels ==> r.levels[id] == levels[id]
    ensures r.missingModify <==> action == Modify && price.id !in levels
  {
    var switched :=
      match action
      case Insert => levels[price.id := price]
      case Delete => levels - {price.id}
      case Modify => if price.id in levels then levels[price.id := price] else levels;
    var missing := action == Modify && price.id !in levels;
    var after := if action == Insert || action == Modify then switched[price.id := price] else switched;
    LevelUpdate(after, missing)
  }

  /** MODIFY of an id that is not resting warns, yet inserts the level like INSERT. */
  lemma ModifyOfAbsentIdInserts(levels: map<int, Price>, price: Price)
    requires price.id !in levels
    ensures UpdateOrderBook(Modify, levels, price).missingModify
    ensures UpdateOrderBook(Modify, levels, price).levels == UpdateOrderBook(Insert, levels, price).levels
    ensures UpdateOrderBook(Modify, levels, price).levels == levels[price.id := price]
  {
  }

  /** DELETE of an id that is not resting changes nothing. */
  lemma DeleteOfAbsentIdIsNoOp(levels: map<int, Price>, price: Price)
    requires price.id !in levels
    ensures UpdateOrderBook(Delete, levels, price).levels == levels
    ensures !UpdateOrderBook(Delete, levels, price).missingModify
  {
  }

  /** Whether `a` should sit ahead of `b` in the queue: lower first for asks, higher first for bids. */
  predicate Ahead(a: real, b: real, ascending: bool)
  {
    if ascending then a <= b else a >= b
  }

  /** The least id of a non-empty set of ids. */
  function MinId(ids: set<int>): (k: int)
    requires ids != {}
    ensures k in ids && forall j :: j in ids ==> k <= j
  {
    MinIdExists(ids);
    var k :| k in ids && forall j :: j in ids ==> k <= j;
    k
  }

  lemma NonEmptyHasMember(ids: set<int>)
    requires ids != {}
    ensures exists x :: x in ids
  {
    if forall x :: x !in ids {
      assert false;
    }
  }

  lemma {:induction false} MinIdExists(ids: set<int>)
    requires ids != {}
    ensures exists k :: k in ids && forall j :: j in ids ==> k <= j
  {
    NonEmptyHasMember(ids);
    var x :| x in ids;
    if ids != {x} {
      var rest := ids - {x};
      MinIdExists(rest);
      var k :| k in rest && forall j :: j in rest ==> k <= j;
      var m := if x < k then x else k;
      forall j | j in ids
        ensures m <= j
      {
        if j != x {
          assert j in rest;
        }
      }
      assert m in ids;
    }
  }

  /**
   * The head of a priority queue holding the levels whose ids are in `ids`:
   * a level no other level is ahead of. Among equal prices the model takes
   * the level with the least id.
   */
  function QueueHead(levels: map<int, Price>, ids: set<int>, ascending: bool): (r: Option<Price>)
    requires ids <= levels.Keys
    ensures r.None? <==> ids == {}
    ensures r.Some? ==> exists id :: id in ids && levels[id] == r.value
    ensures r.Some? ==> forall id :: id in ids ==> Ahead(r.value.price, levels[id].price, ascending)
    decreases ids
  {
    if ids == {} then None
    else
      var k := MinId(ids);
      match QueueHead(levels, ids - {k}, ascending)
      case None => assert ids == {k}; Some(levels[k])
      case Some(h) => if Ahead(levels[k].price, h.price, ascending) then Some(levels[k]) else Some(h)
  }

  /**
   * `top` is what `peek()` may return for a queue holding `levels`: null for
   * an empty queue, otherwise a resting level no other level is ahead of.
   */
  ghost predicate IsHeadOf(top: Option<Price>, levels: map<int, Price>, ascending: bool)
  {
    && (top.None? <==> levels == map[])
    && (top.Some? ==> top.value in levels.Values)
    && (top.Some? ==> forall id :: id in levels ==> Ahead(top.value.price, levels[id].price, ascending))
  }

  /**
   * `updateBestValues`: the side's queue is rebuilt from its current map
   * only, ascending by price for asks and descending for bids.
   */
  function UpdateBestValues(b: Book, isBuy: bool): (r: Book)
    ensures r.instrument == b.instrument && r.buyLevels == b.buyLevels && r.sellLevels == b.sellLevels
    ensures isBuy ==> r.bestSell == b.bestSell && r.bestBuy.Computed? && IsHeadOf(r.bestBuy.top, b.buyLevels, true)
    ensures !isBuy ==> r.bestBuy == b.bestBuy && r.bestSell.Computed? && IsHeadOf(r.bestSell.top, b.sellLevels, false)
  {
    if isBuy then b.(bestBuy := Computed(QueueHead(b.buyLevels, b.buyLevels.Keys, true)))
    else b.(bestSell := Computed(QueueHead(b.sellLevels, b.sellLevels.Keys, false)))
  }

  /**
   * `manageOrder`: the level goes to the side `price.ask` selects, and that
   * side's best value is rebuilt; the other side is untouched.
   */
  function ManageOrder(b: Book, action: Action, price: Price): (r: Book)
    ensures r.instrument == b.instrument
    ensures price.ask ==> r.sellLevels == b.sellLevels && r.bestSell == b.bestSell
    ensures !price.ask ==> r.buyLevels == b.buyLevels && r.bestBuy == b.bestBuy
    ensures price.ask ==> r.buyLevels == UpdateOrderBook(action, b.buyLevels, price).levels
    ensures !price.ask ==> r.sellLevels == UpdateOrderBook(action, b.sellLevels, price).levels
    ensures price.ask ==> r.bestBuy.Computed?
    ensures !price.ask ==> r.bestSell.Computed?
  {
    if price.ask then
      UpdateBestValues(b.(buyLevels := UpdateOrderBook(action, b.buyLevels, price).levels), true)
    else
      UpdateBestValues(b.(sellLevels := UpdateOrderBook(action, b.sellLevels, price).levels), false)
  }

  /** Applying the same update twice leaves the book as applying it once. */
  lemma ManageOrderIdempotent(b: Book, action: Action, price: Price)
    ensures ManageOrder(ManageOrder(b, action, price), action, price) == ManageOrder(b, action, price)
  {
    var once := ManageOrder(b, action, price);
    if price.ask {
      assert UpdateOrderBook(action, once.buyLevels, price).levels == once.buyLevels;
    } else {
      assert UpdateOrderBook(action, once.sellLevels, price).levels == once.sellLevels;
    }
  }

  /** What a getter hands back: a level, null, or the division-by-zero exception. */
  datatype Quote = NoPrice | Priced(level: Price) | DivisionByZero

  function FromTop(top: Option<Price>): Quote
  {
    match top
    case None => NoPrice
    case Some(p) => Priced(p)
  }

  /**
   * The synthetic counter-price of `getDefaultBestBuy`/`getDefaultBestSell`:
   * same id, instrument and quantity, the side flag flipped, and the price
   * `1 / p` rounded HALF_UP to three decimals, so within half a unit of
   * 10^-3 of `1 / p` when `p` is positive.
   */
  function Reciprocal(q: Quote): (r: Quote)
    ensures q.NoPrice? ==> r.NoPrice?
    ensures q.Priced? && q.level.price == 0.0 ==> r.DivisionByZero?
    ensures q.Priced? && q.level.price != 0.0 ==>
      && r.Priced?
      && r.level.id == q.level.id && r.level.instrument == q.level.instrument
      && r.level.quantity == q.level.quantity && r.level.ask == !q.level.ask
      && r.level.price == Decimals.ValueOf(Decimals.RoundHalfUp(1.0 / q.level.price, 3), 3)
    ensures q.Priced? && q.level.price > 0.0 ==> -0.0005 < r.level.price - 1.0 / q.level.price <= 0.0005
  {
    match q
    case Priced(p) =>
      if p.price == 0.0 then DivisionByZero
      else
        Decimals.RoundHalfUpIsNearest(1.0 / p.price, 3);
        Priced(Price(p.id, p.instrument, !p.ask, p.quantity, Decimals.ValueOf(Decimals.RoundHalfUp(1.0 / p.price, 3), 3)))
    case _ => q
  }

  /** At least one queue has been built; otherwise the two getters call each other forever. */
  predicate SomeSideComputed(b: Book)
  {
    b.bestBuy.Computed? || b.bestSell.Computed?
  }

  /** `getBestBuy`: the ask queue's head, or the synthetic price when that queue was never built. */
  function GetBestBuy(b: Book): (r: Quote)
    requires SomeSideComputed(b)
    ensures b.bestBuy.Computed? ==> r == FromTop(b.bestBuy.top)
    ensures b.bestBuy.Uncomputed? ==> r == Reciprocal(FromTop(b.bestSell.top))
    decreases if b.bestBuy.Computed? then 0 else 2
  {
    match b.bestBuy
    case Computed(top) => FromTop(top)
    case Uncomputed => DefaultBestBuy(b)
  }

  /** `getBestSell`: the bid queue's head, or the synthetic price when that queue was never built. */
  function GetBestSell(b: Book): (r: Quote)
    requires SomeSideComputed(b)
    ensures b.bestSell.Computed? ==> r == FromTop(b.bestSell.top)
    ensures b.bestSell.Uncomputed? ==> r == Reciprocal(FromTop(b.bestBuy.top))
    decreases if b.bestSell.Computed? then 0 else 2
  {
    match b.bestSell
    case Computed(top) => FromTop(top)
    case Uncomputed => DefaultBestSell(b)
  }

  /** `getDefaultBestBuy`: the reciprocal of whatever `getBestSell` returns. */
  function DefaultBestBuy(b: Book): (r: Quote)
    requires SomeSideComputed(b)
    ensures b.bestSell.Computed? ==> r == Reciprocal(FromTop(b.bestSell.top))
    ensures b.bestSell.Uncomputed? ==> r == Reciprocal(Reciprocal(FromTop(b.bestBuy.top)))
    decreases if b.bestSell.Computed? then 1 else 3
  {
    Reciprocal(GetBestSell(b))
  }

  /** `getDefaultBestSell`: the reciprocal of whatever `getBestBuy` returns. */
  function DefaultBestSell(b: Book): (r: Quote)
    requires SomeSideComputed(b)
    ensures b.bestBuy.Computed? ==> r == Reciprocal(FromTop(b.bestBuy.top))
    ensures b.bestBuy.Uncomputed? ==> r == Reciprocal(Reciprocal(FromTop(b.bestSell.top)))
    decreases if b.bestBuy.Computed? then 1 else 3
  {
    Reciprocal(GetBestBuy(b))
  }

  /**
   * After an ask-side update the best buy is the lowest resting ask, taken
   * from the current ask map only; it is null exactly when no ask rests.
   */
  lemma BestBuyAfterAskUpdate(b: Book, action: Action, price: Price)
    requires price.ask
    ensures var r := ManageOrder(b, action, price);
      && (GetBestBuy(r).NoPrice? <==> r.buyLevels == map[])
      && (GetBestBuy(r).Priced? <==> r.buyLevels != map[])
      && (GetBestBuy(r).Priced? ==>
            && GetBestBuy(r).level in r.buyLevels.Values
            && forall id :: id in r.buyLevels ==> GetBestBuy(r).level.price <= r.buyLevels[id].price)
  {
  }

  /**
   * After a bid-side update the best sell is the highest resting bid, taken
   * from the current bid map only; it is null exactly when no bid rests.
   */
  lemma BestSellAfterBidUpdate(b: Book, action: Action, price: Price)
    requires !price.ask
    ensures var r := ManageOrder(b, action, price);
      && (GetBestSell(r).NoPrice? <==> r.sellLevels == map[])
      && (GetBestSell(r).Priced? <==> r.sellLevels != map[])
      && (GetBestSell(r).Priced? ==>
            && GetBestSell(r).level in r.sellLevels.Values
            && forall id :: id in r.sellLevels ==> GetBestSell(r).level.price >= r.sellLevels[id].price)
  {
  }

  /**
   * A side never built falls back to the reciprocal of the other side's
   * head: same id, instrument and quantity, flipped flag, `1/p` rounded
   * HALF_UP to three decimals, so within half a unit of 10^-3 of `1/p`.
   */
  lemma FallbackBestBuy(b: Book)
    requires b.bestBuy.Uncomputed? && b.bestSell.Computed?
    ensures b.bestSell.top.None? ==> GetBestBuy(b) == NoPrice
    ensures b.bestSell.top.Some? && b.bestSell.top.value.price == 0.0 ==> GetBestBuy(b) == DivisionByZero
    ensures b.bestSell.top.Some? && b.bestSell.top.value.price > 0.0 ==>
      var p := b.bestSell.top.value;
      && GetBestBuy(b).Priced?
      && GetBestBuy(b).level == Price(p.id, p.instrument, !p.ask, p.quantity, GetBestBuy(b).level.price)
      && -0.0005 < GetBestBuy(b).level.price - 1.0 / p.price <= 0.0005
  {
    assert GetBestBuy(b) == DefaultBestBuy(b) == Reciprocal(GetBestSell(b));
    assert GetBestSell(b) == FromTop(b.bestSell.top);
    if b.bestSell.top.Some? && b.bestSell.top.value.price > 0.0 {
      var p := b.bestSell.top.value;
      var n := Decimals.RoundHalfUp(1.0 / p.price, 3);
      assert 1.0 / p.price > 0.0;
      Decimals.RoundHalfUpIsNearest(1.0 / p.price, 3);
      assert -0.5 < (n as real) - (1.0 / p.price) * 1000.0 <= 0.5;
    }
  }

  /** The mirror image of `FallbackBestBuy` for a bid side never built. */
  lemma FallbackBestSell(b: Book)
    requires b.bestSell.Uncomputed? && b.bestBuy.Computed?
    ensures b.bestBuy.top.None? ==> GetBestSell(b) == NoPrice
    ensures b.bestBuy.top.Some? && b.bestBuy.top.value.price == 0.0 ==> GetBestSell(b) == DivisionByZero
    ensures b.bestBuy.top.Some? && b.bestBuy.top.value.price > 0.0 ==>
      var p := b.bestBuy.top.value;
      && GetBestSell(b).Priced?
      && GetBestSell(b).level == Price(p.id, p.instrument, !p.ask, p.quantity, GetBestSell(b).level.price)
      && -0.0005 < GetBestSell(b).level.price - 1.0 / p.price <= 0.0005
  {
    assert GetBestSell(b) == DefaultBestSell(b) == Reciprocal(GetBestBuy(b));
    assert GetBestBuy(b) == FromTop(b.bestBuy.top);
    if b.bestBuy.top.Some? && b.bestBuy.top.value.price > 0.0 {
      var p := b.bestBuy.top.value;
      var n := Decimals.RoundHalfUp(1.0 / p.price, 3);
      assert 1.0 / p.price > 0.0;
      Decimals.RoundHalfUpIsNearest(1.0 / p.price, 3);
      assert -0.5 < (n as real) - (1.0 / p.price) * 1000.0 <= 0.5;
    }
  }

  /**
   * Once the ask side has been built and then emptied, `getBestBuy` returns
   * null (the empty queue's peek), never the synthetic reciprocal, whatever
   * the bid side holds.
   */
  lemma EmptiedSideHasNoPrice(b: Book, price: Price)
    requires price.ask && b.buyLevels.Keys == {price.id}
    ensures GetBestBuy(ManageOrder(b, Delete, price)) == NoPrice
    ensures ManageOrder(b, Delete, price).sellLevels == b.sellLevels
  {
    assert ManageOrder(b, Delete, price).buyLevels == map[];
  }
}
