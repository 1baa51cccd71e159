/**
 * The currency domain: the four currencies and the six instruments over them
 * (src/main/java/com/estar/orderbook/model/CurrencyPair.java).
 */
module Currencies {
  import opened Wrappers

  /** A currency code; a graph vertex is a currency compared by value. */
  datatype Currency = EUR | USD | GBP | CHF

  /** The code of a currency as `Enum.name()` prints it. */
  function Name(c: Currency): (s: string)
    ensures |s| == 3
  {
    match c
    case EUR => "EUR"
    case USD => "USD"
    case GBP => "GBP"
    case CHF => "CHF"
  }

  /** Distinct currencies have distinct codes. */
  lemma NameInjective(a: Currency, b: Currency)
    requires Name(a) == Name(b)
    ensures a == b
  {
  }

  /** The six instruments, in the declaration order of the Java enum. */
  datatype CurrencyPair = EUR_USD | EUR_GBP | USD_GBP | EUR_CHF | GBP_CHF | USD_CHF
  {
    function Base(): Currency {
      match this
      case EUR_USD => EUR
      case EUR_GBP => EUR
      case USD_GBP => USD
      case EUR_CHF => EUR
      case GBP_CHF => GBP
      case USD_CHF => USD
    }

    function Quote(): Currency {
      match this
      case EUR_USD => USD
      case EUR_GBP => GBP
      case USD_GBP => GBP
      case EUR_CHF => CHF
      case GBP_CHF => CHF
      case USD_CHF => CHF
    }

    /** The two currencies of the pair, without their order. */
    function Members(): set<Currency> {
      {Base(), Quote()}
    }

    /**
     * The other side of the pair. A currency that is not the base (the quote,
     * or one outside the pair) yields the base.
     */
    function Opposing(c: Currency): (r: Currency)
      ensures c == Base() ==> r == Quote()
      ensures c == Quote() ==> r == Base()
      ensures c !in Members() ==> r == Base()
      ensures r in Members() && r != c
    {
      if c == Base() then Quote() else Base()
    }
  }

  /** `CurrencyPair.values()`. */
  const AllPairs: seq<CurrencyPair> := [EUR_USD, EUR_GBP, USD_GBP, EUR_CHF, GBP_CHF, USD_CHF]

  const AllCurrencies: set<Currency> := {EUR, USD, GBP, CHF}

  lemma AllPairsListsEveryPair(p: CurrencyPair)
    ensures p in AllPairs
  {
  }

  /** There are only four currencies, so no graph has more than four vertices. */
  lemma AtMostFourCurrencies(s: set<Currency>)
    ensures |s| <= 4
  {
    forall c | c in s
      ensures c in AllCurrencies
    {
      assert c.EUR? || c.USD? || c.GBP? || c.CHF?;
    }
    SubsetNoLarger(s, AllCurrencies);
  }

  lemma {:induction false} SubsetNoLarger<T>(a: set<T>, b: set<T>)
    requires a <= b
    ensures |a| <= |b|
  {
    if a != {} {
      var x :| x in a;
      SubsetNoLarger(a - {x}, b - {x});
    }
  }

  /** Every pair joins two different currencies. */
  lemma BaseIsNotQuote(p: CurrencyPair)
    ensures p.Base() != p.Quote()
    ensures |p.Members()| == 2
  {
  }

  /** Looking through the pair twice from either side returns where one started. */
  lemma OpposingIsInvolution(p: CurrencyPair, c: Currency)
    requires c in p.Members()
    ensures p.Opposing(p.Opposing(c)) == c
  {
  }

  /** No two instruments cover the same unordered pair of currencies. */
  lemma MembersInjective(p: CurrencyPair, q: CurrencyPair)
    requires p.Members() == q.Members()
    ensures p == q
  {
    assert p.Base() in q.Members() && p.Quote() in q.Members();
    assert q.Base() in p.Members() && q.Quote() in p.Members();
  }

  /**
   * The instrument over two currencies, whichever way round they are given:
   * a search of `AllPairs`, the reference for the string lookup.
   */
  function PairOf(a: Currency, b: Currency): (r: Option<CurrencyPair>)
    ensures r.Some? <==> a != b
    ensures r.Some? ==> r.value.Members() == {a, b}
  {
    if a != b then
      EveryCurrencyPairIsAnInstrument(a, b);
      var p: CurrencyPair :| p.Members() == {a, b};
      AllPairsListsEveryPair(p);
      FindPair(AllPairs, a, b)
    else
      FindPair(AllPairs, a, b)
  }

  function FindPair(ps: seq<CurrencyPair>, a: Currency, b: Currency): (r: Option<CurrencyPair>)
    ensures r.Some? ==> r.value in ps && r.value.Members() == {a, b}
    ensures r.None? ==> forall p :: p in ps ==> p.Members() != {a, b}
  {
    if ps == [] then None
    else if ps[0].Members() == {a, b} then Some(ps[0])
    else FindPair(ps[1..], a, b)
  }

  /** The six instruments are exactly the six edges of the complete graph on four currencies. */
  lemma EveryCurrencyPairIsAnInstrument(a: Currency, b: Currency)
    requires a != b
    ensures exists p: CurrencyPair :: p.Members() == {a, b}
  {
    match (a, b)
    case (EUR, USD) => assert EUR_USD.Members() == {a, b};
    case (USD, EUR) => assert EUR_USD.Members() == {a, b};
    case (EUR, GBP) => assert EUR_GBP.Members() == {a, b};
    case (GBP, EUR) => assert EUR_GBP.Members() == {a, b};
    case (USD, GBP) => assert USD_GBP.Members() == {a, b};
    case (GBP, USD) => assert USD_GBP.Members() == {a, b};
    case (EUR, CHF) => assert EUR_CHF.Members() == {a, b};
    case (CHF, EUR) => assert EUR_CHF.Members() == {a, b};
    case (GBP, CHF) => assert GBP_CHF.Members() == {a, b};
    case (CHF, GBP) => assert GBP_CHF.Members() == {a, b};
    case (USD, CHF) => assert USD_CHF.Members() == {a, b};
    case (CHF, USD) => assert USD_CHF.Members() == {a, b};
  }
}
