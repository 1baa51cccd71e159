/**
 * The string-keyed instrument lookup of
 * src/main/java/com/estar/customcode/algo/UtilClass.java: every instrument is
 * reachable under "BASE_QUOTE" and under "QUOTE_BASE", because a detected
 * cycle may traverse an instrument in either direction.
 */
module PairLookup {
  import opened Wrappers
  import opened Currencies

  /** The key `start.getId() + "_" + end.getId()` built for a directed step. */
  function PairKey(a: Currency, b: Currency): string
  {
    Name(a) + "_" + Name(b)
  }

  /** Keys built by `key` name their two currencies, in order. */
  ghost predicate InjectiveKey(key: (Currency, Currency) -> string)
  {
    forall a, b, c, d :: key(a, b) == key(c, d) ==> a == c && b == d
  }

  /** A key names its two currencies, in order. */
  lemma PairKeyInjective()
    ensures InjectiveKey(PairKey)
  {
    forall a, b, c, d | PairKey(a, b) == PairKey(c, d)
      ensures a == c && b == d
    {
      var k := PairKey(a, b);
      assert k[..3] == Name(a) && k[4..] == Name(b);
      assert k[..3] == Name(c) && k[4..] == Name(d);
      NameInjective(a, c);
      NameInjective(b, d);
    }
  }

  /**
   * The two puts per instrument, "BASE_QUOTE" then "QUOTE_BASE", in the order
   * of `ps`; `key` spells the string.
   */
  function LookupOver(ps: seq<CurrencyPair>, key: (Currency, Currency) -> string): map<string, CurrencyPair>
  {
    if ps == [] then map[]
    else
      var p := ps[|ps| - 1];
      LookupOver(ps[..|ps| - 1], key)[key(p.Base(), p.Quote()) := p][key(p.Quote(), p.Base()) := p]
  }

  /** `UtilClass.getCurrencyPair()`. */
  function GetCurrencyPair(): (r: map<string, CurrencyPair>)
    ensures forall k :: k in r <==> KeyOf(AllPairs, PairKey, k)
    ensures forall p, k :: p in AllPairs && IsKeyOf(p, PairKey, k) ==> k in r && r[k] == p
  {
    LookupOverKeys(AllPairs, PairKey);
    PairKeyInjective();
    LookupOverValues(AllPairs, PairKey);
    LookupOver(AllPairs, PairKey)
  }

  /** `k` is one of the two keys of `p`. */
  predicate IsKeyOf(p: CurrencyPair, key: (Currency, Currency) -> string, k: string)
  {
    k == key(p.Base(), p.Quote()) || k == key(p.Quote(), p.Base())
  }

  /** `k` is a key of some instrument of `ps`. */
  ghost predicate KeyOf(ps: seq<CurrencyPair>, key: (Currency, Currency) -> string, k: string)
  {
    exists p :: p in ps && IsKeyOf(p, key, k)
  }

  lemma LookupOverSnoc(init: seq<CurrencyPair>, p: CurrencyPair, key: (Currency, Currency) -> string)
    ensures LookupOver(init + [p], key) == LookupOver(init, key)[key(p.Base(), p.Quote()) := p][key(p.Quote(), p.Base()) := p]
  {
    assert (init + [p])[..|init|] == init;
  }

  /** The lookup's keys are exactly the two directions of each listed instrument. */
  lemma {:induction false} LookupOverKeys(ps: seq<CurrencyPair>, key: (Currency, Currency) -> string)
    ensures forall k :: k in LookupOver(ps, key) <==> KeyOf(ps, key, k)
  {
    if ps != [] {
      var init := ps[..|ps| - 1];
      var p := ps[|ps| - 1];
      LookupOverKeys(init, key);
      assert ps == init + [p];
      LookupOverSnoc(init, p, key);
      forall k
        ensures k in LookupOver(ps, key) <==> KeyOf(ps, key, k)
      {
        if KeyOf(ps, key, k) {
          var q :| q in ps && IsKeyOf(q, key, k);
          if q != p {
            assert q in init;
            assert KeyOf(init, key, k);
          }
        }
        if k in LookupOver(ps, key) {
          if k in LookupOver(init, key) {
            var q :| q in init && IsKeyOf(q, key, k);
            assert q in ps;
          } else {
            assert IsKeyOf(p, key, k) && p in ps;
          }
        }
      }
    }
  }

  /** Two different instruments share no key. */
  lemma KeysDisjoint(p: CurrencyPair, q: CurrencyPair, key: (Currency, Currency) -> string, k: string)
    requires InjectiveKey(key)
    requires IsKeyOf(p, key, k) && IsKeyOf(q, key, k)
    ensures p == q
  {
    assert p.Members() == q.Members();
    MembersInjective(p, q);
  }

  /**
   * For instruments listed without repetition and an injective spelling, each
   * key leads back to its own instrument: no later put overwrites an earlier
   * instrument's key.
   */
  lemma {:induction false} LookupOverValues(ps: seq<CurrencyPair>, key: (Currency, Currency) -> string)
    requires InjectiveKey(key)
    requires forall i, j :: 0 <= i < j < |ps| ==> ps[i] != ps[j]
    ensures forall p, k :: p in ps && IsKeyOf(p, key, k) ==> k in LookupOver(ps, key) && LookupOver(ps, key)[k] == p
  {
    if ps != [] {
      var init := ps[..|ps| - 1];
      var p := ps[|ps| - 1];
      assert forall i, j :: 0 <= i < j < |init| ==> init[i] != init[j] by {
        forall i, j | 0 <= i < j < |init|
          ensures init[i] != init[j]
        {
          assert init[i] == ps[i] && init[j] == ps[j];
        }
      }
      LookupOverValues(init, key);
      assert ps == init + [p];
      LookupOverSnoc(init, p, key);
      var m := LookupOver(init, key);
      var k1, k2 := key(p.Base(), p.Quote()), key(p.Quote(), p.Base());
      assert LookupOver(ps, key) == m[k1 := p][k2 := p];
      forall q, k | q in ps && IsKeyOf(q, key, k)
        ensures k in LookupOver(ps, key) && LookupOver(ps, key)[k] == q
      {
        if k == k1 || k == k2 {
          KeysDisjoint(p, q, key, k);
        } else {
          assert q in init by {
            var i :| 0 <= i < |ps| && ps[i] == q;
            assert i != |ps| - 1;
            assert init[i] == q;
          }
          assert k in m && m[k] == q;
        }
      }
    }
  }

  /**
   * Each of the twelve puts of `getCurrencyPair` writes a key not written
   * before: the two keys of an instrument differ from each other and from
   * every key of the instruments listed before it.
   */
  lemma PutsNeverOverwrite(i: nat)
    requires i < |AllPairs|
    ensures PairKey(AllPairs[i].Base(), AllPairs[i].Quote()) !in LookupOver(AllPairs[..i], PairKey)
    ensures PairKey(AllPairs[i].Quote(), AllPairs[i].Base()) !in LookupOver(AllPairs[..i], PairKey)
    ensures PairKey(AllPairs[i].Base(), AllPairs[i].Quote()) != PairKey(AllPairs[i].Quote(), AllPairs[i].Base())
  {
    var p := AllPairs[i];
    var init := AllPairs[..i];
    PairKeyInjective();
    LookupOverKeys(init, PairKey);
    assert p !in init;
    forall k | IsKeyOf(p, PairKey, k)
      ensures k !in LookupOver(init, PairKey)
    {
      if k in LookupOver(init, PairKey) {
        var q :| q in init && IsKeyOf(q, PairKey, k);
        KeysDisjoint(p, q, PairKey, k);
      }
    }
    BaseIsNotQuote(p);
  }

  /** "X_X" is never a key. */
  lemma LookupHasNoSelfKey(a: Currency)
    ensures PairKey(a, a) !in GetCurrencyPair()
  {
    LookupOverKeys(AllPairs, PairKey);
    if PairKey(a, a) in GetCurrencyPair() {
      var q :| q in AllPairs && IsKeyOf(q, PairKey, PairKey(a, a));
      PairKeyInjective();
      BaseIsNotQuote(q);
    }
  }

  /** Both keys of an instrument resolve to it. */
  lemma LookupValueOf(p: CurrencyPair, k: string)
    requires IsKeyOf(p, PairKey, k)
    ensures k in GetCurrencyPair() && GetCurrencyPair()[k] == p
  {
    PairKeyInjective();
    AllPairsListsEveryPair(p);
    LookupOverValues(AllPairs, PairKey);
  }

  /**
   * The lookup resolves "X_Y" exactly when X and Y differ, and then to the
   * instrument over {X, Y}, whichever of X and Y is its base.
   */
  lemma LookupResolves(a: Currency, b: Currency)
    ensures PairKey(a, b) in GetCurrencyPair() <==> a != b
    ensures a != b ==> GetCurrencyPair()[PairKey(a, b)] == PairOf(a, b).value
    ensures a != b ==> GetCurrencyPair()[PairKey(a, b)].Members() == {a, b}
  {
    if a != b {
      var p := PairOf(a, b).value;
      BaseIsNotQuote(p);
      assert IsKeyOf(p, PairKey, PairKey(a, b));
      LookupValueOf(p, PairKey(a, b));
    } else {
      LookupHasNoSelfKey(a);
    }
  }

  /** Every key of the lookup is "X_Y" for two different currencies. */
  lemma LookupKeysAreDirectedPairs(k: string)
    requires k in GetCurrencyPair()
    ensures exists a, b :: a != b && k == PairKey(a, b)
  {
    LookupOverKeys(AllPairs, PairKey);
    var q :| q in AllPairs && IsKeyOf(q, PairKey, k);
    BaseIsNotQuote(q);
  }

  /** The first `i` instruments contribute `2 * i` keys, since no put overwrites. */
  lemma {:induction false} LookupSizeUpTo(i: nat)
    requires i <= |AllPairs|
    ensures |LookupOver(AllPairs[..i], PairKey)| == 2 * i
  {
    if i > 0 {
      var init := AllPairs[..i - 1];
      var p := AllPairs[i - 1];
      LookupSizeUpTo(i - 1);
      PutsNeverOverwrite(i - 1);
      assert AllPairs[..i] == init + [p];
      LookupOverSnoc(init, p, PairKey);
    }
  }

  /** The lookup has exactly twelve keys, two per instrument. */
  lemma LookupHasTwelveKeys()
    ensures |GetCurrencyPair()| == 12
  {
    LookupSizeUpTo(|AllPairs|);
    assert AllPairs[..|AllPairs|] == AllPairs;
  }
}
