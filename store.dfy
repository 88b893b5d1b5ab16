/**
 * The database as one mutable object: the two tables and the counters from
 * which the store hands out fresh primary keys. Its methods are the four
 * writes a request can make (`add` of a currency, `add` of a rate, assignment
 * of a rate's value, `delete` of a rate), each one atomic: the flush and
 * commit that follow it in the handlers are not modelled separately.
 */
module Database {
  import opened Tables

  class Store {
    var currencies: seq<Currency>
    var rates: seq<ExchangeRate>
    var nextCurrencyId: nat
    var nextRateId: nat

    /** The table invariants, and every stored id lies below the counter it was drawn from. */
    ghost predicate Valid()
      reads this
    {
      && TablesValid(currencies, rates)
      && (forall k :: 0 <= k < |currencies| ==> currencies[k].id < nextCurrencyId)
      && (forall i :: 0 <= i < |rates| ==> rates[i].id < nextRateId)
    }

    /** An empty database; identifiers start at 1 as the store's autoincrement does. */
    constructor ()
      ensures Valid()
      ensures currencies == [] && rates == []
      ensures nextCurrencyId == 1 && nextRateId == 1
    {
      currencies := [];
      rates := [];
      nextCurrencyId := 1;
      nextRateId := 1;
    }

    /** Inserts a currency under a fresh id; the unique index on `code` requires the code to be new. */
    method AddCurrency(code: string, name: string, sign: string) returns (c: Currency)
      requires Valid()
      requires FindCode(currencies, code).None?
      modifies this
      ensures Valid()
      ensures c == Currency(old(nextCurrencyId), code, name, sign)
      ensures currencies == old(currencies) + [c]
      ensures rates == old(rates)
      ensures nextCurrencyId == old(nextCurrencyId) + 1 && nextRateId == old(nextRateId)
      ensures FindCode(currencies, code) == Some(c)
    {
      c := Currency(nextCurrencyId, code, name, sign);
      assert !HasId(currencies, c.id);
      AddCurrencyPreserves(currencies, rates, c);
      currencies := currencies + [c];
      nextCurrencyId := nextCurrencyId + 1;
    }

    /**
     * Inserts a rate under a fresh id. The foreign keys require both currencies
     * to exist; that the ordered pair has no row yet is what keeps one rate per
     * pair, and only the caller's check guarantees it.
     */
    method AddRate(baseId: nat, targetId: nat, rate: real) returns (r: ExchangeRate)
      requires Valid()
      requires HasId(currencies, baseId) && HasId(currencies, targetId)
      requires PairIndex(rates, baseId, targetId).None?
      modifies this
      ensures Valid()
      ensures r == ExchangeRate(old(nextRateId), baseId, targetId, rate)
      ensures rates == old(rates) + [r]
      ensures currencies == old(currencies)
      ensures nextRateId == old(nextRateId) + 1 && nextCurrencyId == old(nextCurrencyId)
    {
      r := ExchangeRate(nextRateId, baseId, targetId, rate);
      AddRatePreserves(currencies, rates, r);
      rates := rates + [r];
      nextRateId := nextRateId + 1;
    }

    /** Overwrites the value of the rate at position `i`; its id and currency references stay. */
    method SetRate(i: nat, rate: real)
      requires Valid() && i < |rates|
      modifies this
      ensures Valid()
      ensures rates == old(rates)[i := old(rates)[i].(rate := rate)]
      ensures currencies == old(currencies)
      ensures nextCurrencyId == old(nextCurrencyId) && nextRateId == old(nextRateId)
    {
      SetRatePreserves(currencies, rates, i, rate);
      rates := rates[i := rates[i].(rate := rate)];
    }

    /** Deletes the rate at position `i`; the other rows keep their order. */
    method RemoveRate(i: nat)
      requires Valid() && i < |rates|
      modifies this
      ensures Valid()
      ensures rates == old(rates)[..i] + old(rates)[i + 1..]
      ensures |rates| == |old(rates)| - 1
      ensures currencies == old(currencies)
      ensures nextCurrencyId == old(nextCurrencyId) && nextRateId == old(nextRateId)
    {
      RemoveRatePreserves(currencies, rates, i);
      rates := rates[..i] + rates[i + 1..];
    }
  }
}
