# Currency-exchange store, modelled in Dafny

This model covers the currency-exchange reference service. The service keeps
a table of currencies (id, code, name, sign) and a table of directional
exchange rates (id, base currency id, target currency id, rate). It answers
HTTP requests by reading, inserting, updating and deleting rows of those
tables. Its source has two implementations of the same endpoints:

- an asynchronous router for the exchange-rate endpoints (`src/exchange_rates/router.py`);
- a synchronous application covering currencies, exchange rates and conversion (`main.py`).

The model treats the database as one object, `Database.Store`. It has two
sequence fields, `currencies` and `rates`, and two counters that hand out
fresh primary keys. Every request handler is one atomic step on that object,
and it answers with `Result<T> = Ok(T) | NotFound(Reason) | Conflict` in
place of an HTTP status code.

- `tables.dfy` (module `Tables`) holds everything shared:
  - the rows and the response records;
  - the queries: lookup by code, lookup by id, the duplicate check on the ordered id pair, and the join by two codes;
  - the split of a pair string into two codes;
  - the table invariants;
  - lemmas about the queries and about what each of the four kinds of write preserves.
- `store.dfy` (module `Database`) holds the `Store` class. `Valid()` is the schema's invariants plus "every id lies below its counter". Four primitive writes (`AddCurrency`, `AddRate`, `SetRate`, `RemoveRate`) prove they keep `Valid()`.
- `router.dfy` (module `ExchangeRatesRouter`) holds the router's five handlers as methods on the store.
- `app.dfy` (module `App`) holds `main.py`'s eight handlers. The single-lookup reads (`GetCurrencies`, `GetCurrency`, `GetExchangeRate`, `GetExchange`) are functions of the tables. The listing `GetExchangeRates`, whose source builds its answer in a loop, is a read-only method on the store. The writing handlers are methods on the store. The module also has lemmas that tie handlers together.

These are the invariants. Unique currency codes come from the unique index
in the migration. Unique currency and rate ids come from the primary keys.
Both foreign keys of a rate must name a stored currency. There is at most one
rate per ordered (base, target) pair. The schema does not enforce this last
one; the handlers' duplicate check alone keeps it. The model proves this
through `AddRate`'s precondition, which each POST handler discharges with
its own check.

Where the code and a plain reading of the design differ, the model follows
the code:

- The pair string is cut as Python slices it, `pair[:3]` and `pair[3:]`, not `pair[3:6]`. A longer string gives a longer target code, and that code then fails the lookup.
- No unique constraint exists on the rate pair.
- DELETE does not look the currencies up on their own. An unknown currency and a missing rate both give the same "no rate for the pair" answer.
- PATCH in `main.py` returns the bare rate row, not the expanded record.

## Model

| member | source | states |
|---|---|---|
| `Tables.FindCode` | main.py:44 | The currency query by code. It finds nothing exactly when no row has the code; otherwise it returns a stored row with that code. |
| `Tables.FindId` | src/exchange_rates/router.py:29-37 | The currency query by primary key. It finds nothing exactly when no row has the id; otherwise it returns a stored row with that id. |
| `Tables.PairIndex` | src/exchange_rates/router.py:72-76 | The duplicate check's filter on the ordered pair of currency ids. It returns the first row on that pair, or nothing exactly when no row is on it. |
| `Tables.JoinIndex` | src/exchange_rates/router.py:116-123 | The join on both currency ids filtered by the two codes. It returns the first row whose base currency has code b and whose target currency has code t, or nothing exactly when no row matches. |
| `Tables.SplitPair` | src/exchange_rates/router.py:110-111 | The two slices of the pair string put back together give the string. The base code has at most three characters; the target code is the whole rest. |
| `Tables.SplitPairOfConcat` | main.py:91-92 | Splitting a three-character code followed by any string gives both parts back. |
| `Tables.Expand` | src/exchange_rates/router.py:129-150 | The expanded response keeps the row's id and rate. Its base and target are stored currencies whose ids equal the row's two foreign keys. |
| `Tables.FindCodeExact` | migrations/versions/6c62ac3c6e51_create_db.py:30 | Codes are unique, so looking up any stored currency's code returns exactly that currency. |
| `Tables.FindIdExact` | migrations/versions/6c62ac3c6e51_create_db.py:28 | Ids are unique, so looking up any stored currency's id returns exactly that currency. |
| `Tables.JoinsIffOnPair` | src/exchange_rates/router.py:182-185 | With unique codes, a row joins codes (b, t) if and only if both codes are known and the row is on the id pair of their currencies. |
| `Tables.JoinIndexByIds` | main.py:96-99 | The join by codes finds the same row as the duplicate check on ids. When either code is unknown it finds nothing. |
| `Tables.JoinAtMostOne` | src/exchange_rates/router.py:227-234 | Under the table invariants, at most one rate row matches the join for a pair of codes. So the query's single-row fetch never meets two rows. |
| `Tables.ExpandByCodes` | src/exchange_rates/router.py:179-213 | For a joined row, expanding by the foreign keys gives the same currencies as looking them up by the two codes. |
| `Tables.AddCurrencyPreserves` | main.py:58-62 | Adding a currency with a new code and a new id keeps every table invariant, and a lookup by its code then returns it. |
| `Tables.AddRatePreserves` | src/exchange_rates/router.py:83-88 | Adding a rate keeps every table invariant, including one rate per ordered pair. The rate needs a new id, two stored currencies, and an ordered pair with no row yet. |
| `Tables.SetRatePreserves` | src/exchange_rates/router.py:197-199 | Overwriting one row's rate value keeps every table invariant. |
| `Tables.RemoveRatePreserves` | src/exchange_rates/router.py:240-241 | Deleting one rate row keeps every table invariant. |
| `Tables.PairIndexAppend` | src/exchange_rates/router.py:83-88 | After a row is appended, the duplicate check gives its old answer for any pair that already had a row. Otherwise it finds the new row exactly when the row is on that pair. |
| `Tables.JoinAfterAdd` | src/exchange_rates/router.py:83-88 | After the rate for a known pair of codes with no row is added, the join for those codes finds the new row. |
| `Tables.ReversePairIndependent` | src/exchange_rates/router.py:72-73 | Adding the rate for (A, B) does not change whether (B, A) has a row. The reverse pair stays creatable, and the two rows never collide. |
| `Tables.JoinAfterSetRate` | src/exchange_rates/router.py:197 | Changing a rate value does not change which row the join finds for any pair of codes. |
| `Tables.JoinAfterRemove` | src/exchange_rates/router.py:236-241 | After the row the join found is deleted, the join for the same codes finds nothing. |
| `Database.Store.constructor` | migrations/versions/6c62ac3c6e51_create_db.py:23-40 | A new database has both tables empty and satisfies the invariants. |
| `Database.Store.AddCurrency` | main.py:58-61 | Inserts exactly one currency under a fresh id and keeps the invariants. The code must be new, as the unique index demands. |
| `Database.Store.AddRate` | src/exchange_rates/router.py:83-88 | Appends exactly one rate under a fresh id, leaving the currencies alone, and keeps the invariants. Both currencies must exist and the ordered pair must have no row. |
| `Database.Store.SetRate` | src/exchange_rates/router.py:197-199 | Changes only the `rate` field of one row. Ids, currency references, the other rows and the counters stay as they were. |
| `Database.Store.RemoveRate` | src/exchange_rates/router.py:240-241 | Removes exactly one row; the others keep their order. |
| `ExchangeRatesRouter.GetExchangeRates` | src/exchange_rates/router.py:21-49 | One entry per stored rate, in order. Each entry keeps the row's id and rate; its base and target are the stored currencies whose ids equal the row's foreign keys. |
| `ExchangeRatesRouter.PostExchangeRate` | src/exchange_rates/router.py:52-104 | NotFound iff either code is unknown, Conflict iff the ordered id pair already has a row; both leave the store unchanged. Otherwise exactly one row is appended with the looked-up ids and the given rate, and the response nests both currencies. A following join for the codes finds the new row. |
| `ExchangeRatesRouter.GetExchangeRate` | src/exchange_rates/router.py:107-152 | Ok iff some row joins the `[:3]` and `[3:]` codes, and then the response is that row expanded with currencies carrying those codes. Otherwise the answer is NotFound for a missing rate. |
| `ExchangeRatesRouter.PatchExchangeRate` | src/exchange_rates/router.py:155-215 | Exactly three outcomes. NotFound for the pair iff a currency is unknown, checked first. NotFound for the rate iff both are known and no row joins. Both leave the store unchanged. In every other case the answer is Ok: only the `rate` of the joined row changes, and the response is that row expanded with the new rate. |
| `ExchangeRatesRouter.DeleteExchangeRate` | src/exchange_rates/router.py:218-266 | NotFound iff no row joins the pair, with the store unchanged. Otherwise exactly that row is removed, the response is the deleted row expanded, and the join for the pair then finds nothing. |
| `App.GetCurrencies` | main.py:36-38 | Every currency row, in table order. |
| `App.GetCurrency` | main.py:41-47 | NotFound iff no currency has the code. Otherwise the answer is a stored currency with that code. |
| `App.PostCurrency` | main.py:50-62 | Conflict iff the code is taken, with the store unchanged. Otherwise exactly one currency is added with a fresh id and the given code, name and sign. A following lookup by the code returns it, and codes stay unique. |
| `App.GetExchangeRates` | main.py:65-85 | Same promise as the router's listing: one fully expanded entry per stored rate. |
| `App.GetExchangeRate` | main.py:88-123 | Same split and join as the router. Ok iff some row joins the two codes, and then the answer is that row expanded; otherwise NotFound. |
| `App.PostExchangeRate` | main.py:126-168 | Same three outcomes as the router: NotFound for an unknown code, Conflict for an existing ordered pair, otherwise exactly one new row. |
| `App.PatchExchangeRate` | main.py:171-201 | Exactly three outcomes. NotFound for the pair iff a currency is unknown. NotFound for the rate iff both are known and no row joins. Both leave the store unchanged. In every other case the answer is Ok: only the matched row's `rate` changes, and the answer is that row. |
| `App.GetExchange` | main.py:204-244 | Exactly three outcomes. NotFound for a currency iff either code is unknown. NotFound for the rate iff both are known and no row is on the ordered (base, target) id pair. In every other case the answer is Ok: the stored rate unchanged, the given amount, and rate × amount. |
| `App.GetAfterPost` | main.py:88-123 | A rate the join finds as the newest row is what a GET of the pair string "base code + target code" returns, with the currencies looked up by those codes. |
| `App.ExchangeIgnoresReversePair` | main.py:217-228 | When the ordered pair has no row, conversion answers NotFound whatever the reverse pair holds. |
| `App.ConversionExample` | main.py:236-242 | The store holds USD and EUR and one rate 1.1 from USD to EUR. Converting 100 USD gives 110, and converting EUR to USD finds no rate. |

## Left out

- Web framework plumbing (routing, form, body and query binding, status codes, CORS, static files, templates) is not modelled. `Result` stands in for the status codes.
- Sessions are not modelled: `flush`, `commit`, `refresh` and async/await are left out, and each handler is one atomic step. Two requests racing to insert the same code or pair are out of scope.
- Whether attributes stay readable after a commit depends on a session setting, and `database.py` is not part of this model. The model assumes they do. The router's POST, PATCH and DELETE responses all need this: each copies the row's `__dict__` after `commit` (`src/exchange_rates/router.py:88-90`, `:199-201`, `:241-243`).
- Display rounding is left out. `round(float(rate), 2)` rounds the rate in these responses:
  - all five of the router's responses: listing, POST, GET, PATCH and DELETE (`src/exchange_rates/router.py:41`, `:92`, `:150`, `:203`, `:264`);
  - `main.py`'s listing, GET and POST responses (`main.py:77`, `:121`, `:156`).

  `main.py`'s PATCH returns the refreshed row as it is, without rounding (`main.py:198-201`). Its conversion rounds only the converted amount (`round(float(rate) * amount, 2)`, `main.py:241`) and returns the rate unrounded. Responses here carry the unrounded values. Floating point in general is not modelled: rates and amounts are `real`.
- Error message texts are reduced to the four `Reason` values; both conflicts share the single `Conflict` outcome.
- Copying attribute dictionaries and deleting `_sa_instance_state` is left out. Responses are records built field by field.
- The migration's `upgrade`/`downgrade` calls are not modelled. The migration only supplies the table invariants.
- When a query that expects one row meets several, it raises. The invariants make this unreachable (`Tables.JoinAtMostOne`, `Tables.FindCodeExact`), so the model has no path for it.
- Ids come from counters that only grow. Whether the database would reuse the id of a deleted last row is not modelled.
- `App.GetCurrencies` and the listings return rows in table order. The source leaves the order to the database.
