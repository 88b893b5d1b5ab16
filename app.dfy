/**
 * The endpoints of the synchronous service (`main.py`). Its single-lookup
 * reads are functions of the two tables; the listing, which loops over the
 * rows, and the handlers that write to the database are methods on the store. Its exchange-rate endpoints answer as
 * those of the asynchronous router do, except that PATCH returns the bare
 * rate row rather than the expanded one.
 */
module App {
  import opened Tables
  import opened Database

  /** GET /api/currencies: the whole currency table, in table order. */
  function GetCurrencies(cs: seq<Currency>): (r: seq<Currency>)
    ensures |r| == |cs| && forall k :: 0 <= k < |cs| ==> r[k] == cs[k]
  {
    cs
  }

  /** GET /api/currency/{code}: the currency with that code, or NotFound. */
  function GetCurrency(cs: seq<Currency>, code: string): (r: Result<Currency>)
    ensures r.Ok? || r == NotFound(CurrencyMissing)
    ensures r.NotFound? <==> forall k :: 0 <= k < |cs| ==> cs[k].code != code
    ensures r.Ok? ==> r.value in cs && r.value.code == code
  {
    match FindCode(cs, code)
    case None => NotFound(CurrencyMissing)
    case Some(c) => Ok(c)
  }

  /**
   * POST /api/currencies: Conflict when the code is taken, otherwise one new
   * currency with the given code, name and sign, which a lookup by its code
   * then returns.
   */
  method PostCurrency(db: Store, name: string, code: string, sign: string) returns (res: Result<Currency>)
    requires db.Valid()
    modifies db
    ensures db.Valid()
    ensures res.Ok? || res.Conflict?
    ensures res.Conflict? <==> exists k :: 0 <= k < |old(db.currencies)| && old(db.currencies)[k].code == code
    ensures res.Conflict? ==> unchanged(db)
    ensures res.Ok? ==>
      && res.value == Currency(old(db.nextCurrencyId), code, name, sign)
      && db.currencies == old(db.currencies) + [res.value]
      && db.rates == old(db.rates)
      && db.nextCurrencyId == old(db.nextCurrencyId) + 1 && db.nextRateId == old(db.nextRateId)
      && GetCurrency(db.currencies, code) == Ok(res.value)
  {
    if FindCode(db.currencies, code).Some? {
      return Conflict;
    }
    var c := db.AddCurrency(code, name, sign);
    res := Ok(c);
  }

  /** GET /api/exchangeRates: every stored rate, in table order, with both currencies filled in. */
  method GetExchangeRates(db: Store) returns (res: seq<Expanded>)
    requires db.Valid()
    ensures |res| == |db.rates|
    ensures forall i :: 0 <= i < |res| ==>
      && res[i].id == db.rates[i].id && res[i].rate == db.rates[i].rate
      && res[i].base in db.currencies && res[i].base.id == db.rates[i].baseId
      && res[i].target in db.currencies && res[i].target.id == db.rates[i].targetId
    ensures forall i :: 0 <= i < |res| ==> res[i] == Expand(db.currencies, db.rates[i])
  {
    res := [];
    for i := 0 to |db.rates|
      invariant |res| == i
      invariant forall k :: 0 <= k < i ==> res[k] == Expand(db.currencies, db.rates[k])
    {
      var row := db.rates[i];
      var base := FindId(db.currencies, row.baseId);
      var target := FindId(db.currencies, row.targetId);
      res := res + [Expanded(row.id, row.rate, base.value, target.value)];
    }
  }

  /**
   * GET /api/exchangeRate/{pair}: `pair[:3]` and `pair[3:]` name the base and
   * target codes; the answer is the rate the join finds, expanded, or NotFound.
   */
  function GetExchangeRate(cs: seq<Currency>, rs: seq<ExchangeRate>, pair: string): (r: Result<Expanded>)
    requires TablesValid(cs, rs)
    ensures r.Ok? || r == NotFound(RateMissing)
    ensures r.Ok? <==> exists i :: 0 <= i < |rs| && Joins(cs, rs[i], SplitPair(pair).0, SplitPair(pair).1)
    ensures r.Ok? ==>
      exists i :: 0 <= i < |rs| && Joins(cs, rs[i], SplitPair(pair).0, SplitPair(pair).1) && r.value == Expand(cs, rs[i])
    ensures r.Ok? ==> r.value.base.code == SplitPair(pair).0 && r.value.target.code == SplitPair(pair).1
  {
    var (b, t) := SplitPair(pair);
    match JoinIndex(cs, rs, b, t)
    case None => NotFound(RateMissing)
    case Some(i) =>
      ExpandByCodes(cs, rs[i], b, t);
      Ok(Expand(cs, rs[i]))
  }

  /**
   * POST /api/exchangeRates: NotFound when either code is unknown, Conflict
   * when the ordered pair of their ids already has a row, otherwise exactly
   * one new row.
   */
  method PostExchangeRate(db: Store, baseCode: string, targetCode: string, rate: real) returns (res: Result<Expanded>)
    requires db.Valid()
    modifies db
    ensures db.Valid()
    ensures res.NotFound? <==>
      FindCode(old(db.currencies), baseCode).None? || FindCode(old(db.currencies), targetCode).None?
    ensures res.NotFound? ==> res.reason == PairCurrencyMissing
    ensures res.Conflict? <==>
      && FindCode(old(db.currencies), baseCode).Some? && FindCode(old(db.currencies), targetCode).Some?
      && PairIndex(old(db.rates), FindCode(old(db.currencies), baseCode).value.id,
                   FindCode(old(db.currencies), targetCode).value.id).Some?
    ensures !res.Ok? ==> unchanged(db)
    ensures res.Ok? ==>
      var cb, ct := FindCode(old(db.currencies), baseCode).value, FindCode(old(db.currencies), targetCode).value;
      && db.rates == old(db.rates) + [ExchangeRate(old(db.nextRateId), cb.id, ct.id, rate)]
      && db.currencies == old(db.currencies)
      && db.nextRateId == old(db.nextRateId) + 1 && db.nextCurrencyId == old(db.nextCurrencyId)
      && res.value == Expanded(old(db.nextRateId), rate, cb, ct)
      && JoinIndex(db.currencies, db.rates, baseCode, targetCode) == Some(|db.rates| - 1)
  {
    var base := FindCode(db.currencies, baseCode);
    var target := FindCode(db.currencies, targetCode);
    if base.None? || target.None? {
      return NotFound(PairCurrencyMissing);
    }
    if PairIndex(db.rates, base.value.id, target.value.id).Some? {
      return Conflict;
    }
    var cb, ct := base.value, target.value;
    JoinAfterAdd(db.currencies, db.rates, baseCode, targetCode, db.nextRateId, rate);
    var row := db.AddRate(cb.id, ct.id, rate);
    res := Ok(Expanded(row.id, row.rate, cb, ct));
  }

  /**
   * PATCH /api/exchangeRate/{pair}: NotFound when a currency of the pair is
   * unknown, NotFound when the known pair has no rate, otherwise only the
   * `rate` of the matched row changes and that row is returned.
   */
  method PatchExchangeRate(db: Store, pair: string, rate: real) returns (res: Result<ExchangeRate>)
    requires db.Valid()
    modifies db
    ensures db.Valid()
    ensures res.Ok? || res == NotFound(PairMissing) || res == NotFound(RateMissing)
    ensures res == NotFound(PairMissing) <==>
      FindCode(old(db.currencies), SplitPair(pair).0).None? || FindCode(old(db.currencies), SplitPair(pair).1).None?
    ensures res == NotFound(RateMissing) <==>
      && FindCode(old(db.currencies), SplitPair(pair).0).Some? && FindCode(old(db.currencies), SplitPair(pair).1).Some?
      && JoinIndex(old(db.currencies), old(db.rates), SplitPair(pair).0, SplitPair(pair).1).None?
    ensures !res.Ok? ==> unchanged(db)
    ensures res.Ok? ==>
      var i := JoinIndex(old(db.currencies), old(db.rates), SplitPair(pair).0, SplitPair(pair).1).value;
      && db.rates == old(db.rates)[i := old(db.rates)[i].(rate := rate)]
      && db.currencies == old(db.currencies)
      && db.nextRateId == old(db.nextRateId) && db.nextCurrencyId == old(db.nextCurrencyId)
      && res.value == db.rates[i]
      && res.value == old(db.rates)[i].(rate := rate)
  {
    var (b, t) := SplitPair(pair);
    var base := FindCode(db.currencies, b);
    var target := FindCode(db.currencies, t);
    if base.None? || target.None? {
      return NotFound(PairMissing);
    }
    var found := JoinIndex(db.currencies, db.rates, b, t);
    if found.None? {
      return NotFound(RateMissing);
    }
    var i := found.value;
    db.SetRate(i, rate);
    res := Ok(db.rates[i]);
  }

  /**
   * GET /api/exchange: NotFound when either code is unknown, NotFound when
   * the ordered (base, target) pair has no rate (the reverse pair is never
   * consulted), otherwise the stored rate, the given amount and their product.
   */
  function GetExchange(cs: seq<Currency>, rs: seq<ExchangeRate>, baseCode: string, targetCode: string, amount: real): (r: Result<Conversion>)
    requires TablesValid(cs, rs)
    ensures r.Ok? || r == NotFound(PairCurrencyMissing) || r == NotFound(RateMissing)
    ensures r == NotFound(PairCurrencyMissing) <==> FindCode(cs, baseCode).None? || FindCode(cs, targetCode).None?
    ensures r == NotFound(RateMissing) <==>
      && FindCode(cs, baseCode).Some? && FindCode(cs, targetCode).Some?
      && forall i :: 0 <= i < |rs| ==> !OnPair(rs[i], FindCode(cs, baseCode).value.id, FindCode(cs, targetCode).value.id)
    ensures r.Ok? ==>
      && r.value.base in cs && r.value.base.code == baseCode
      && r.value.target in cs && r.value.target.code == targetCode
      && r.value.amount == amount
      && r.value.convertedAmount == r.value.rate * amount
      && exists i :: 0 <= i < |rs| && OnPair(rs[i], r.value.base.id, r.value.target.id) && r.value.rate == rs[i].rate
  {
    var base := FindCode(cs, baseCode);
    var target := FindCode(cs, targetCode);
    if base.None? || target.None? then NotFound(PairCurrencyMissing)
    else
      JoinIndexByIds(cs, rs, baseCode, targetCode);
      var found := JoinIndex(cs, rs, baseCode, targetCode);
      assert found == PairIndex(rs, base.value.id, target.value.id);
      if found.None? then NotFound(RateMissing)
      else
        var row := rs[found.value];
        assert OnPair(row, base.value.id, target.value.id);
        Ok(Conversion(base.value, target.value, row.rate, amount, row.rate * amount))
  }

  // ---------------------------------------------------------------------------
  // What the handlers promise together.
  // ---------------------------------------------------------------------------

  /** A rate just added for (`b`, `t`) is what a GET of the pair string `b + t` returns. */
  lemma GetAfterPost(cs: seq<Currency>, rs: seq<ExchangeRate>, b: string, t: string)
    requires TablesValid(cs, rs) && |rs| > 0
    requires JoinIndex(cs, rs, b, t) == Some(|rs| - 1)
    requires |b| == 3
    ensures GetExchangeRate(cs, rs, b + t) == Ok(Expand(cs, rs[|rs| - 1]))
    ensures Expand(cs, rs[|rs| - 1]) == Expanded(rs[|rs| - 1].id, rs[|rs| - 1].rate, FindCode(cs, b).value, FindCode(cs, t).value)
  {
    SplitPairOfConcat(b, t);
    ExpandByCodes(cs, rs[|rs| - 1], b, t);
  }

  /**
   * Conversion looks only at the row for the ordered pair: when (base, target)
   * has no rate the answer is NotFound, whatever row (target, base) has.
   */
  lemma ExchangeIgnoresReversePair(cs: seq<Currency>, rs: seq<ExchangeRate>, baseCode: string, targetCode: string, amount: real)
    requires TablesValid(cs, rs)
    requires FindCode(cs, baseCode).Some? && FindCode(cs, targetCode).Some?
    requires PairIndex(rs, FindCode(cs, baseCode).value.id, FindCode(cs, targetCode).value.id).None?
    ensures GetExchange(cs, rs, baseCode, targetCode, amount) == NotFound(RateMissing)
  {
  }

  /**
   * With US dollar and euro stored and a single rate of 1.1 from dollar to
   * euro, converting 100 dollars gives 110 euros, while converting euros to
   * dollars finds no rate although the reverse pair is stored.
   */
  lemma ConversionExample()
    ensures
      var usd, eur := Currency(1, "USD", "US Dollar", "$"), Currency(2, "EUR", "Euro", "E");
      var cs, rs := [usd, eur], [ExchangeRate(1, 1, 2, 1.1)];
      && TablesValid(cs, rs)
      && GetExchange(cs, rs, "USD", "EUR", 100.0) == Ok(Conversion(usd, eur, 1.1, 100.0, 110.0))
      && GetExchange(cs, rs, "EUR", "USD", 100.0) == NotFound(RateMissing)
  {
    var usd, eur := Currency(1, "USD", "US Dollar", "$"), Currency(2, "EUR", "Euro", "E");
    var cs, rs := [usd, eur], [ExchangeRate(1, 1, 2, 1.1)];
    assert HasId(cs, 1) && HasId(cs, 2) by { assert cs[0].id == 1 && cs[1].id == 2; }
    assert TablesValid(cs, rs);
    assert FindCode(cs, "USD") == Some(usd);
    assert FindCode(cs, "EUR") == Some(eur);
    assert JoinIndex(cs, rs, "USD", "EUR") == Some(0) by {
      assert Names(cs, 1, "USD") by { assert cs[0].id == 1 && cs[0].code == "USD"; }
      assert Names(cs, 2, "EUR") by { assert cs[1].id == 2 && cs[1].code == "EUR"; }
    }
    ExchangeIgnoresReversePair(cs, rs, "EUR", "USD", 100.0);
  }
}
