/**
 * The two tables of the currency-exchange service, the queries its request
 * handlers run against them, and the invariants the schema and the handlers
 * keep between requests.
 */
module Tables {

  datatype Option<T> = None | Some(value: T)

  /** A row of the `currency` table. */
  datatype Currency = Currency(id: nat, code: string, name: string, sign: string)

  /** A row of the `exchange_rate` table; `baseId` and `targetId` are foreign keys into `currency`. */
  datatype ExchangeRate = ExchangeRate(id: nat, baseId: nat, targetId: nat, rate: real)

  /** An exchange rate whose two currency ids are replaced by the currency rows they name. */
  datatype Expanded = Expanded(id: nat, rate: real, base: Currency, target: Currency)

  /** The body of a successful conversion. */
  datatype Conversion = Conversion(base: Currency, target: Currency, rate: real, amount: real, convertedAmount: real)

  /** Why a handler answered "not found"; each reason stands for one fixed message. */
  datatype Reason =
    | CurrencyMissing      // no currency with the requested code
    | PairCurrencyMissing  // one or both currencies of the pair do not exist
    | PairMissing          // the currency pair is absent from the database
    | RateMissing          // no exchange rate for the pair

  /** What a handler answers: a response body, a 404 with its reason, or a 409. */
  datatype Result<T> = Ok(value: T) | NotFound(reason: Reason) | Conflict

  // ---------------------------------------------------------------------------
  // Queries. Each is one SELECT; a query that keeps the first row stands for
  // `.first()` and, under the invariants below, for `scalar_one_or_none()`.
  // ---------------------------------------------------------------------------

  /** `currency` filtered on `code`: the first row with that code, if any. */
  function FindCode(cs: seq<Currency>, code: string): (r: Option<Currency>)
    ensures r.None? <==> forall k :: 0 <= k < |cs| ==> cs[k].code != code
    ensures r.Some? ==> r.value in cs && r.value.code == code
  {
    if |cs| == 0 then None
    else if cs[0].code == code then Some(cs[0])
    else FindCode(cs[1..], code)
  }

  /** Some row of `currency` has primary key `id`. */
  predicate HasId(cs: seq<Currency>, id: nat) {
    exists k :: 0 <= k < |cs| && cs[k].id == id
  }

  /** `currency` filtered on `id`: the first row with that id, if any. */
  function FindId(cs: seq<Currency>, id: nat): (r: Option<Currency>)
    ensures r.None? <==> !HasId(cs, id)
    ensures r.Some? ==> r.value in cs && r.value.id == id
  {
    if |cs| == 0 then None
    else if cs[0].id == id then Some(cs[0])
    else
      var r := FindId(cs[1..], id);
      assert r.Some? ==> r.value in cs;
      assert HasId(cs[1..], id) ==> HasId(cs, id) by {
        if HasId(cs[1..], id) {
          var k :| 0 <= k < |cs[1..]| && cs[1..][k].id == id;
          assert cs[k + 1].id == id;
        }
      }
      assert HasId(cs, id) ==> HasId(cs[1..], id) by {
        if HasId(cs, id) {
          var k :| 0 <= k < |cs| && cs[k].id == id;
          assert k != 0 && cs[1..][k - 1].id == id;
        }
      }
      r
  }

  /** Row `r` is the rate for the ordered pair of currency ids (`baseId`, `targetId`). */
  predicate OnPair(r: ExchangeRate, baseId: nat, targetId: nat) {
    r.baseId == baseId && r.targetId == targetId
  }

  /** `exchange_rate` filtered on both currency ids: the position of the first row for the ordered pair. */
  function PairIndex(rs: seq<ExchangeRate>, baseId: nat, targetId: nat): (r: Option<nat>)
    ensures r.None? <==> forall i :: 0 <= i < |rs| ==> !OnPair(rs[i], baseId, targetId)
    ensures r.Some? ==> r.value < |rs| && OnPair(rs[r.value], baseId, targetId)
    ensures r.Some? ==> forall i :: 0 <= i < r.value ==> !OnPair(rs[i], baseId, targetId)
  {
    if |rs| == 0 then None
    else if OnPair(rs[0], baseId, targetId) then Some(0)
    else match PairIndex(rs[1..], baseId, targetId)
      case None => None
      case Some(i) => Some(i + 1)
  }

  /** Some currency row has primary key `id` and code `code`. */
  predicate Names(cs: seq<Currency>, id: nat, code: string) {
    exists k :: 0 <= k < |cs| && cs[k].id == id && cs[k].code == code
  }

  /**
   * The condition of the join `exchange_rate JOIN currency c1 ON base_currency_id = c1.id
   * JOIN currency c2 ON target_currency_id = c2.id WHERE c1.code = b AND c2.code = t`.
   */
  predicate Joins(cs: seq<Currency>, r: ExchangeRate, b: string, t: string) {
    Names(cs, r.baseId, b) && Names(cs, r.targetId, t)
  }

  /** The join by codes: the position of the first rate whose base currency has code `b` and target currency code `t`. */
  function JoinIndex(cs: seq<Currency>, rs: seq<ExchangeRate>, b: string, t: string): (r: Option<nat>)
    ensures r.None? <==> forall i :: 0 <= i < |rs| ==> !Joins(cs, rs[i], b, t)
    ensures r.Some? ==> r.value < |rs| && Joins(cs, rs[r.value], b, t)
    ensures r.Some? ==> forall i :: 0 <= i < r.value ==> !Joins(cs, rs[i], b, t)
  {
    if |rs| == 0 then None
    else if Joins(cs, rs[0], b, t) then Some(0)
    else match JoinIndex(cs, rs[1..], b, t)
      case None => None
      case Some(i) => Some(i + 1)
  }

  /**
   * The pair string cut as Python slices it: `pair[:3]` and `pair[3:]`. The base
   * code is at most three characters long and the target code is all the rest,
   * so a string longer than six characters yields a longer target code.
   */
  function SplitPair(pair: string): (r: (string, string))
    ensures r.0 + r.1 == pair
    ensures |r.0| == if |pair| < 3 then |pair| else 3
  {
    var n := if |pair| < 3 then |pair| else 3;
    (pair[..n], pair[n..])
  }

  /** Splitting the concatenation of a three-character code and any other string gives both back. */
  lemma SplitPairOfConcat(b: string, t: string)
    requires |b| == 3
    ensures SplitPair(b + t) == (b, t)
  {
    assert (b + t)[..3] == b;
    assert (b + t)[3..] == t;
  }

  /** A rate row with both currency ids replaced by the currency rows that have those ids. */
  function Expand(cs: seq<Currency>, r: ExchangeRate): (e: Expanded)
    requires HasId(cs, r.baseId) && HasId(cs, r.targetId)
    ensures e.id == r.id && e.rate == r.rate
    ensures e.base in cs && e.base.id == r.baseId
    ensures e.target in cs && e.target.id == r.targetId
  {
    Expanded(r.id, r.rate, FindId(cs, r.baseId).value, FindId(cs, r.targetId).value)
  }

  // ---------------------------------------------------------------------------
  // Invariants of the two tables.
  // ---------------------------------------------------------------------------

  /** The unique index on `currency.code`. */
  ghost predicate CodesUnique(cs: seq<Currency>) {
    forall i, j :: 0 <= i < j < |cs| ==> cs[i].code != cs[j].code
  }

  /** `currency.id` is the primary key. */
  ghost predicate CurrencyIdsUnique(cs: seq<Currency>) {
    forall i, j :: 0 <= i < j < |cs| ==> cs[i].id != cs[j].id
  }

  /** `exchange_rate.id` is the primary key. */
  ghost predicate RateIdsUnique(rs: seq<ExchangeRate>) {
    forall i, j :: 0 <= i < j < |rs| ==> rs[i].id != rs[j].id
  }

  /** The two non-null foreign keys of `exchange_rate` into `currency`. */
  ghost predicate ForeignKeys(cs: seq<Currency>, rs: seq<ExchangeRate>) {
    forall i :: 0 <= i < |rs| ==> HasId(cs, rs[i].baseId) && HasId(cs, rs[i].targetId)
  }

  /** At most one rate per ordered pair of currencies: not in the schema, kept by the handlers alone. */
  ghost predicate PairsUnique(rs: seq<ExchangeRate>) {
    forall i, j :: 0 <= i < j < |rs| ==> !OnPair(rs[j], rs[i].baseId, rs[i].targetId)
  }

  ghost predicate TablesValid(cs: seq<Currency>, rs: seq<ExchangeRate>) {
    CodesUnique(cs) && CurrencyIdsUnique(cs) && RateIdsUnique(rs) && ForeignKeys(cs, rs) && PairsUnique(rs)
  }

  // ---------------------------------------------------------------------------
  // Lemmas about the queries under the invariants.
  // ---------------------------------------------------------------------------

  /** With unique codes, a code lookup finds exactly the row carrying that code. */
  lemma FindCodeExact(cs: seq<Currency>, k: nat)
    requires CodesUnique(cs) && k < |cs|
    ensures FindCode(cs, cs[k].code) == Some(cs[k])
  {
    var c := FindCode(cs, cs[k].code).value;
    var j :| 0 <= j < |cs| && cs[j] == c;
  }

  /** With unique ids, an id lookup finds exactly the row carrying that id. */
  lemma FindIdExact(cs: seq<Currency>, k: nat)
    requires CurrencyIdsUnique(cs) && k < |cs|
    ensures FindId(cs, cs[k].id) == Some(cs[k])
  {
    assert HasId(cs, cs[k].id);
    var c := FindId(cs, cs[k].id).value;
    var j :| 0 <= j < |cs| && cs[j] == c;
  }

  /** With unique codes, a row joins the codes (`b`, `t`) exactly when it is on the id pair of the currencies with those codes. */
  lemma JoinsIffOnPair(cs: seq<Currency>, r: ExchangeRate, b: string, t: string)
    requires CodesUnique(cs)
    ensures Joins(cs, r, b, t) <==>
      FindCode(cs, b).Some? && FindCode(cs, t).Some? && OnPair(r, FindCode(cs, b).value.id, FindCode(cs, t).value.id)
  {
    if Names(cs, r.baseId, b) {
      var k :| 0 <= k < |cs| && cs[k].id == r.baseId && cs[k].code == b;
      FindCodeExact(cs, k);
    }
    if Names(cs, r.targetId, t) {
      var k :| 0 <= k < |cs| && cs[k].id == r.targetId && cs[k].code == t;
      FindCodeExact(cs, k);
    }
    if FindCode(cs, b).Some? && FindCode(cs, t).Some? && OnPair(r, FindCode(cs, b).value.id, FindCode(cs, t).value.id) {
      var kb :| 0 <= kb < |cs| && cs[kb] == FindCode(cs, b).value;
      var kt :| 0 <= kt < |cs| && cs[kt] == FindCode(cs, t).value;
      assert cs[kb].id == r.baseId && cs[kb].code == b;
      assert cs[kt].id == r.targetId && cs[kt].code == t;
    }
  }

  /**
   * The join by codes finds the same row as the duplicate check by ids: none
   * when a code is unknown, otherwise the row for the ordered id pair.
   */
  lemma {:induction false} JoinIndexByIds(cs: seq<Currency>, rs: seq<ExchangeRate>, b: string, t: string)
    requires CodesUnique(cs)
    ensures JoinIndex(cs, rs, b, t) ==
      if FindCode(cs, b).Some? && FindCode(cs, t).Some?
      then PairIndex(rs, FindCode(cs, b).value.id, FindCode(cs, t).value.id)
      else None
  {
    if |rs| > 0 {
      JoinsIffOnPair(cs, rs[0], b, t);
      JoinIndexByIds(cs, rs[1..], b, t);
    }
  }

  /** Under the invariants at most one rate row matches the join for a pair of codes. */
  lemma JoinAtMostOne(cs: seq<Currency>, rs: seq<ExchangeRate>, b: string, t: string, i: nat, j: nat)
    requires TablesValid(cs, rs)
    requires i < |rs| && j < |rs| && Joins(cs, rs[i], b, t) && Joins(cs, rs[j], b, t)
    ensures i == j
  {
    JoinsIffOnPair(cs, rs[i], b, t);
    JoinsIffOnPair(cs, rs[j], b, t);
  }

  /**
   * Expanding a joined row by its foreign keys gives the same two currency
   * rows as looking them up by the codes the join matched on.
   */
  lemma ExpandByCodes(cs: seq<Currency>, r: ExchangeRate, b: string, t: string)
    requires CodesUnique(cs) && CurrencyIdsUnique(cs) && Joins(cs, r, b, t)
    ensures HasId(cs, r.baseId) && HasId(cs, r.targetId)
    ensures FindCode(cs, b).Some? && FindCode(cs, t).Some?
    ensures Expand(cs, r) == Expanded(r.id, r.rate, FindCode(cs, b).value, FindCode(cs, t).value)
  {
    var kb :| 0 <= kb < |cs| && cs[kb].id == r.baseId && cs[kb].code == b;
    var kt :| 0 <= kt < |cs| && cs[kt].id == r.targetId && cs[kt].code == t;
    FindIdExact(cs, kb);
    FindIdExact(cs, kt);
    FindCodeExact(cs, kb);
    FindCodeExact(cs, kt);
  }

  // ---------------------------------------------------------------------------
  // The four changes the handlers make, and what each preserves.
  // ---------------------------------------------------------------------------

  /** Adding a currency whose code and id are new keeps the invariants, and the new code then finds it. */
  lemma AddCurrencyPreserves(cs: seq<Currency>, rs: seq<ExchangeRate>, c: Currency)
    requires TablesValid(cs, rs)
    requires FindCode(cs, c.code).None? && !HasId(cs, c.id)
    ensures TablesValid(cs + [c], rs)
    ensures FindCode(cs + [c], c.code) == Some(c)
  {
    var cs' := cs + [c];
    forall i | 0 <= i < |rs|
      ensures HasId(cs', rs[i].baseId) && HasId(cs', rs[i].targetId)
    {
      var kb :| 0 <= kb < |cs| && cs[kb].id == rs[i].baseId;
      var kt :| 0 <= kt < |cs| && cs[kt].id == rs[i].targetId;
      assert cs'[kb] == cs[kb] && cs'[kt] == cs[kt];
    }
    FindCodeExact(cs', |cs|);
  }

  /** Adding a rate with a new id, known currencies and an ordered pair that has no row keeps the invariants. */
  lemma AddRatePreserves(cs: seq<Currency>, rs: seq<ExchangeRate>, r: ExchangeRate)
    requires TablesValid(cs, rs)
    requires HasId(cs, r.baseId) && HasId(cs, r.targetId)
    requires PairIndex(rs, r.baseId, r.targetId).None?
    requires forall i :: 0 <= i < |rs| ==> rs[i].id != r.id
    ensures TablesValid(cs, rs + [r])
  {
    var rs' := rs + [r];
    forall i, j | 0 <= i < j < |rs'|
      ensures !OnPair(rs'[j], rs'[i].baseId, rs'[i].targetId)
    {
      if j == |rs| {
        assert !OnPair(rs[i], r.baseId, r.targetId);
      }
    }
  }

  /** Overwriting the rate value of one row keeps the invariants: ids and currency references are untouched. */
  lemma SetRatePreserves(cs: seq<Currency>, rs: seq<ExchangeRate>, i: nat, rate: real)
    requires TablesValid(cs, rs) && i < |rs|
    ensures TablesValid(cs, rs[i := rs[i].(rate := rate)])
  {
    var rs' := rs[i := rs[i].(rate := rate)];
    assert forall k :: 0 <= k < |rs| ==> rs'[k].id == rs[k].id && rs'[k].baseId == rs[k].baseId && rs'[k].targetId == rs[k].targetId;
  }

  /** Removing one rate row keeps the invariants. */
  lemma RemoveRatePreserves(cs: seq<Currency>, rs: seq<ExchangeRate>, i: nat)
    requires TablesValid(cs, rs) && i < |rs|
    ensures TablesValid(cs, rs[..i] + rs[i + 1..])
  {
    var rs' := rs[..i] + rs[i + 1..];
    assert forall k :: 0 <= k < |rs'| ==> rs'[k] == rs[if k < i then k else k + 1];
  }

  // ---------------------------------------------------------------------------
  // What one change means for the next lookup.
  // ---------------------------------------------------------------------------

  /** Appending a row leaves the duplicate check's answer for every earlier pair alone and finds the new row otherwise. */
  lemma {:induction false} PairIndexAppend(rs: seq<ExchangeRate>, r: ExchangeRate, baseId: nat, targetId: nat)
    ensures PairIndex(rs + [r], baseId, targetId) ==
      if PairIndex(rs, baseId, targetId).Some? then PairIndex(rs, baseId, targetId)
      else if OnPair(r, baseId, targetId) then Some(|rs|)
      else None
  {
    if |rs| > 0 {
      assert (rs + [r])[1..] == rs[1..] + [r];
      PairIndexAppend(rs[1..], r, baseId, targetId);
    }
  }

  /** After a rate for (`b`, `t`) is added to a store that had none, the join for `b` and `t` finds the new row. */
  lemma JoinAfterAdd(cs: seq<Currency>, rs: seq<ExchangeRate>, b: string, t: string, id: nat, rate: real)
    requires CodesUnique(cs)
    requires FindCode(cs, b).Some? && FindCode(cs, t).Some?
    requires PairIndex(rs, FindCode(cs, b).value.id, FindCode(cs, t).value.id).None?
    ensures JoinIndex(cs, rs + [ExchangeRate(id, FindCode(cs, b).value.id, FindCode(cs, t).value.id, rate)], b, t) == Some(|rs|)
  {
    var r := ExchangeRate(id, FindCode(cs, b).value.id, FindCode(cs, t).value.id, rate);
    JoinIndexByIds(cs, rs + [r], b, t);
    PairIndexAppend(rs, r, r.baseId, r.targetId);
  }

  /**
   * Adding the rate for one ordered pair does not change whether the reverse
   * pair has a row: the duplicate check compares ordered ids, so (B, A) stays
   * creatable after (A, B) and the two rows never collide.
   */
  lemma ReversePairIndependent(rs: seq<ExchangeRate>, r: ExchangeRate)
    requires r.baseId != r.targetId
    ensures PairIndex(rs + [r], r.targetId, r.baseId) == PairIndex(rs, r.targetId, r.baseId)
  {
    var rs' := rs + [r];
    assert !OnPair(rs'[|rs|], r.targetId, r.baseId);
    assert forall i :: 0 <= i < |rs| ==> rs'[i] == rs[i];
    match PairIndex(rs, r.targetId, r.baseId)
    case Some(i) =>
      assert OnPair(rs'[i], r.targetId, r.baseId);
    case None =>
  }

  /** Changing a rate value does not move its row: the join for any pair of codes finds the same position. */
  lemma JoinAfterSetRate(cs: seq<Currency>, rs: seq<ExchangeRate>, i: nat, rate: real, b: string, t: string)
    requires i < |rs|
    ensures JoinIndex(cs, rs[i := rs[i].(rate := rate)], b, t) == JoinIndex(cs, rs, b, t)
  {
    var rs' := rs[i := rs[i].(rate := rate)];
    assert forall k :: 0 <= k < |rs| ==> (Joins(cs, rs'[k], b, t) <==> Joins(cs, rs[k], b, t));
    match JoinIndex(cs, rs, b, t)
    case Some(j) =>
      assert Joins(cs, rs'[j], b, t);
    case None =>
  }

  /** After the row the join found is removed, the join for the same codes finds nothing. */
  lemma JoinAfterRemove(cs: seq<Currency>, rs: seq<ExchangeRate>, b: string, t: string)
    requires TablesValid(cs, rs) && JoinIndex(cs, rs, b, t).Some?
    ensures var i := JoinIndex(cs, rs, b, t).value;
      JoinIndex(cs, rs[..i] + rs[i + 1..], b, t).None?
  {
    var i := JoinIndex(cs, rs, b, t).value;
    var rs' := rs[..i] + rs[i + 1..];
    forall k | 0 <= k < |rs'|
      ensures !Joins(cs, rs'[k], b, t)
    {
      var k' := if k < i then k else k + 1;
      assert rs'[k] == rs[k'];
      if Joins(cs, rs[k'], b, t) {
        JoinAtMostOne(cs, rs, b, t, i, k');
      }
    }
  }
}
