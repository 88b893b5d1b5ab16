/**
 * The exchange-rate endpoints of the asynchronous service
 * (`src/exchange_rates/router.py`), each one request, one atomic step on the
 * store. A handler that finds nothing answers `NotFound` with the reason its
 * message gives and leaves the store as it was.
 */
module ExchangeRatesRouter {
  import opened Tables
  import opened Database

  /** GET /exchangeRates: every stored rate, in table order, with both currencies filled in. */
  method GetExchangeRates(db: Store) returns (res: seq<Expanded>)
    requires db.Valid()
    ensures |res| == |db.rates|
    ensures forall i :: 0 <= i < |res| ==>
      && res[i].id == db.rates[i].id && res[i].rate == db.rates[i].rate
      && res[i].base in db.currencies && res[i].base.id == db.rates[i].baseId
      && res[i].target in db.currencies && res[i].target.id == db.rates[i].targetId
    ensures forall i :: 0 <= i < |res| ==> res[i] == Expand(db.currencies, db.rates[i])
  {
    res := [];
    var i := 0;
    while i < |db.rates|
      invariant i <= |db.rates|
      invariant |res| == i
      invariant forall k :: 0 <= k < i ==> res[k] == Expand(db.currencies, db.rates[k])
    {
      var row := db.rates[i];
      var base := FindId(db.currencies, row.baseId);
      var target := FindId(db.currencies, row.targetId);
      res := res + [Expanded(row.id, row.rate, base.value, target.value)];
      i := i + 1;
    }
  }

  /**
   * POST /exchangeRates: NotFound when either code is unknown, Conflict when
   * the ordered pair of their ids already has a row, otherwise one new row
   * whose response nests the two currencies.
   */
  method PostExchangeRate(db: Store, baseCode: string, targetCode: string, rate: real) returns (res: Result<Expanded>)
    requires db.Valid()
    modifies db
    ensures db.Valid()
    ensures res.NotFound? <==>
      FindCode(old(db.currencies), baseCode).None? || FindCode(old(db.currencies), targetCode).None?
    ensures res.NotFound? ==> res.reason == PairCurrencyMissing
    ensures res.Conflict? <==>
      && FindCode(old(db.currencies), baseCode).Some? && FindCode(old(db.currencies), targetCode).Some?
      && PairIndex(old(db.rates), FindCode(old(db.currencies), baseCode).value.id,
                   FindCode(old(db.currencies), targetCode).value.id).Some?
    ensures !res.Ok? ==> unchanged(db)
    ensures res.Ok? ==>
      var cb, ct := FindCode(old(db.currencies), baseCode).value, FindCode(old(db.currencies), targetCode).value;
      && db.rates == old(db.rates) + [ExchangeRate(old(db.nextRateId), cb.id, ct.id, rate)]
      && db.currencies == old(db.currencies)
      && db.nextRateId == old(db.nextRateId) + 1 && db.nextCurrencyId == old(db.nextCurrencyId)
      && res.value == Expanded(old(db.nextRateId), rate, cb, ct)
      && JoinIndex(db.currencies, db.rates, baseCode, targetCode) == Some(|db.rates| - 1)
  {
    var base := FindCode(db.currencies, baseCode);
    var target := FindCode(db.currencies, targetCode);
    if base.None? || target.None? {
      return NotFound(PairCurrencyMissing);
    }
    if PairIndex(db.rates, base.value.id, target.value.id).Some? {
      return Conflict;
    }
    var cb, ct := base.value, target.value;
    JoinAfterAdd(db.currencies, db.rates, baseCode, targetCode, db.nextRateId, rate);
    var row := db.AddRate(cb.id, ct.id, rate);
    res := Ok(Expanded(row.id, row.rate, cb, ct));
  }

  /**
   * GET /exchangeRate/{pair}: the pair string is cut into `pair[:3]` and
   * `pair[3:]`, and the answer is the rate whose base currency has the first
   * code and whose target currency has the second, or NotFound.
   */
  method GetExchangeRate(db: Store, pair: string) returns (res: Result<Expanded>)
    requires db.Valid()
    ensures res.Ok? || res == NotFound(RateMissing)
    ensures res.Ok? <==>
      exists i :: 0 <= i < |db.rates| && Joins(db.currencies, db.rates[i], SplitPair(pair).0, SplitPair(pair).1)
    ensures res.Ok? ==>
      exists i :: 0 <= i < |db.rates| && Joins(db.currencies, db.rates[i], SplitPair(pair).0, SplitPair(pair).1)
        && res.value == Expand(db.currencies, db.rates[i])
    ensures res.Ok? ==> res.value.base.code == SplitPair(pair).0 && res.value.target.code == SplitPair(pair).1
  {
    var (b, t) := SplitPair(pair);
    var found := JoinIndex(db.currencies, db.rates, b, t);
    if found.None? {
      return NotFound(RateMissing);
    }
    var row := db.rates[found.value];
    var base := FindId(db.currencies, row.baseId);
    var target := FindId(db.currencies, row.targetId);
    ExpandByCodes(db.currencies, row, b, t);
    res := Ok(Expanded(row.id, row.rate, base.value, target.value));
  }

  /**
   * PATCH /exchangeRate/{pair}: NotFound when a currency of the pair is
   * unknown (checked first), NotFound when the known pair has no rate,
   * otherwise only the `rate` of that one row changes.
   */
  method PatchExchangeRate(db: Store, pair: string, rate: real) returns (res: Result<Expanded>)
    requires db.Valid()
    modifies db
    ensures db.Valid()
    ensures res.Ok? || res == NotFound(PairMissing) || res == NotFound(RateMissing)
    ensures res == NotFound(PairMissing) <==>
      FindCode(old(db.currencies), SplitPair(pair).0).None? || FindCode(old(db.currencies), SplitPair(pair).1).None?
    ensures res == NotFound(RateMissing) <==>
      && FindCode(old(db.currencies), SplitPair(pair).0).Some? && FindCode(old(db.currencies), SplitPair(pair).1).Some?
      && JoinIndex(old(db.currencies), old(db.rates), SplitPair(pair).0, SplitPair(pair).1).None?
    ensures !res.Ok? ==> unchanged(db)
    ensures res.Ok? ==>
      var i := JoinIndex(old(db.currencies), old(db.rates), SplitPair(pair).0, SplitPair(pair).1).value;
      && db.rates == old(db.rates)[i := old(db.rates)[i].(rate := rate)]
      && db.currencies == old(db.currencies)
      && db.nextRateId == old(db.nextRateId) && db.nextCurrencyId == old(db.nextCurrencyId)
      && res.value == Expand(db.currencies, db.rates[i])
      && res.value.rate == rate
  {
    var (b, t) := SplitPair(pair);
    var base := FindCode(db.currencies, b);
    var target := FindCode(db.currencies, t);
    if base.None? || target.None? {
      return NotFound(PairMissing);
    }
    var found := JoinIndex(db.currencies, db.rates, b, t);
    if found.None? {
      return NotFound(RateMissing);
    }
    var i := found.value;
    db.SetRate(i, rate);
    assert Joins(db.currencies, db.rates[i], b, t);
    ExpandByCodes(db.currencies, db.rates[i], b, t);
    res := Ok(Expanded(db.rates[i].id, rate, base.value, target.value));
  }

  /**
   * DELETE /exchangeRate/{pair} (the handler `delete_currency`): NotFound when
   * no rate joins the pair's codes, otherwise that row is removed and the
   * response describes it; the same pair then finds nothing.
   */
  method DeleteExchangeRate(db: Store, pair: string) returns (res: Result<Expanded>)
    requires db.Valid()
    modifies db
    ensures db.Valid()
    ensures res.Ok? || res == NotFound(RateMissing)
    ensures res.NotFound? <==> JoinIndex(old(db.currencies), old(db.rates), SplitPair(pair).0, SplitPair(pair).1).None?
    ensures res.NotFound? ==> unchanged(db)
    ensures res.Ok? ==>
      var i := JoinIndex(old(db.currencies), old(db.rates), SplitPair(pair).0, SplitPair(pair).1).value;
      && db.rates == old(db.rates)[..i] + old(db.rates)[i + 1..]
      && |db.rates| == |old(db.rates)| - 1
      && db.currencies == old(db.currencies)
      && db.nextRateId == old(db.nextRateId) && db.nextCurrencyId == old(db.nextCurrencyId)
      && res.value == Expand(db.currencies, old(db.rates)[i])
      && JoinIndex(db.currencies, db.rates, SplitPair(pair).0, SplitPair(pair).1).None?
  {
    var (b, t) := SplitPair(pair);
    var found := JoinIndex(db.currencies, db.rates, b, t);
    if found.None? {
      return NotFound(RateMissing);
    }
    var i := found.value;
    var row := db.rates[i];
    JoinAfterRemove(db.currencies, db.rates, b, t);
    db.RemoveRate(i);
    var base := FindId(db.currencies, row.baseId);
    var target := FindId(db.currencies, row.targetId);
    res := Ok(Expanded(row.id, row.rate, base.value, target.value));
  }
}
