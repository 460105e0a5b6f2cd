# Exchange backend core, modelled in Dafny

This project models the business logic of an Express/Mongoose currency-exchange backend
(coins-back). Stored collections are modelled as sequences of records. Request bodies are
typed values, and HTTP answers are `Result` values carrying the error status.

The model covers four parts:

- **Quote engine** (`Commission`, `Quote`).
  - `getCommission` scans per-asset commission tiers.
  - The `POST` quote handler validates the request and reads the latest rate snapshot.
  - It derives the pair rate and applies one of four give/receive formulas.
- **Amount formatting** (`Currencies`, `Decimal`, `AmountFormat`).
  - The precision table and `getDecimalPlaces`.
  - `formatAmount`, with JavaScript's `Math.round` and `toFixed` and the `/\.?0+$/` strip written out over digit strings.
  - A reader (`Decimal.Parse`) used to state what the texts mean.
- **Commission schedule** (`CommissionConfig`).
  - The stored schedule, created lazily with defaults.
  - The admin GET and PATCH routes.
- **Bookkeeping** (`Collection`, `Records`, `Orders`, `Withdrawals`, `Partner`, `ExchangeRates`).
  - Order creation, and the admin order listing and status update.
  - Withdrawal creation, the caller's own listing, and the admin status update.
  - The partner statistics fold.
  - The rate service: the response filter loop, the single-document upsert and the latest-snapshot read.

Behaviour the code has, and that the model follows:

- Completing an order credits no referral bonus.
- A withdrawal neither checks nor debits the bonus balance.
- Commission tiers are looked up with the raw request amount, not a rouble equivalent.
- An amount at a tier's upper bound does not move to the next tier when the next tier
  starts one unit higher. It falls in the gap and takes the last tier's rate.
- Only a zero amount is refused by the quote handler; a negative amount is quoted, and
  giving it away and back then returns more than was given.
- A rouble-to-rouble quote is accepted, with rate 1.

## Model

| member | source | states |
|---|---|---|
| Currencies.SymbolsDistinct | src/config/currencies.ts:6-21 | no symbol is listed twice in the precision table |
| AmountFormat.Find | src/config/utils.ts:4 | the entry found is in the table and has the symbol, and nothing is found exactly when no entry has the symbol |
| AmountFormat.GetDecimalPlaces | src/config/utils.ts:3-6 | a listed symbol gets its table precision, and an unlisted one gets 6 |
| AmountFormat.PrecisionAtLeastTwo | src/config/currencies.ts:7-19 | every symbol other than RUB, listed or not, is written with at least two places |
| AmountFormat.RubAmount | src/config/utils.ts:9-10 | a rouble amount is written with no point; it reads back as the amount rounded half up, within half a rouble of it |
| AmountFormat.NonRubAmount | src/config/utils.ts:11-13 | any other amount is its `toFixed` numeral at the currency's precision, with the zeros ending the fraction dropped, and the point too when no digit is left |
| AmountFormat.NonRubAmountValue | src/config/utils.ts:11-13 | the text reads back as the amount rounded half up to the currency's precision, within half a unit of the last place |
| AmountFormat.NonRubAmountShape | src/config/utils.ts:13 | the text never ends in a point, and it ends in '0' only when it has no point |
| AmountFormat.StripWithoutPlaces | src/config/utils.ts:9-13 | with no places the strip would also eat a whole number's zeros ("100" becomes "1"), which is why roubles take their own branch |
| AmountFormat.FormatAmount | src/config/utils.ts:8-15 | `formatAmount`: roubles through `Math.round`, any other currency through `toFixed` at its precision and the zero strip; what the text is and means is stated by RubAmount, NonRubAmount, NonRubAmountValue and NonRubAmountShape |
| Decimal.ToFixed | src/config/utils.ts:13 | `toFixed(d)` as text: the digits and sign are stated by Fixed, the value by FixedValue and RoundedIsClose, and the strip of it by StripFixed and StrippedValue |
| Decimal.RoundHalfUp | src/config/utils.ts:10 | `Math.round` gives the integer within half of x, with halves going up |
| Decimal.Fixed | src/config/utils.ts:13 | `toFixed(d)` writes exactly d fraction digits and a sign exactly for negative x |
| Decimal.FixedValue | src/config/utils.ts:13 | the value of the `toFixed(d)` numeral is x rounded half up in magnitude to d places |
| Decimal.RoundedIsClose | src/config/utils.ts:13 | that rounding is within half a unit of the d-th place |
| Decimal.IntToStringValue | src/config/utils.ts:10 | an integer's text has no point and reads back as the integer |
| Decimal.LeftmostMatch | src/config/utils.ts:13 | the regex search finds the first position where `\.?0+` runs to the end, and none exactly when no position matches |
| Decimal.StripZeros | src/config/utils.ts:13 | the replace leaves a prefix of the text, and what it removes is matched by the pattern |
| Decimal.StripCutsTrailingRun | src/config/utils.ts:13 | the replace removes exactly the trailing run of zeros plus at most the one point before it |
| Decimal.StripFixed | src/config/utils.ts:12-13 | with at least one place, stripping a `toFixed` text drops only fraction zeros, and the point when nothing is left; sign and integer digits stay |
| Decimal.StrippedValue | src/config/utils.ts:12-13 | with at least one place, the stripped text reads back as the rounded value |
| Commission.FirstMatch | src/routes/rates.ts:33-37 | the scan finds the first tier in table order with min ≤ amount < max; nothing is found exactly when no tier holds the amount |
| Commission.Lookup | src/routes/rates.ts:33-40 | the rate is always one of the table's rates, whether matched or taken by the fallback |
| Commission.GetCommission | src/routes/rates.ts:26-41 | every commission lies between 2.5% and 6% |
| Commission.UsdtBands | src/routes/rates.ts:6-40 | USDT pays 4% below 50000, 3% on [50001, 100000), and 2.5% everywhere else, including the gaps and amounts ≥ 10000000 |
| Commission.BtcBands | src/routes/rates.ts:13-40 | BTC pays 6% below 50000, 5% on [50001, 100000), and 4% everywhere else |
| Commission.AltBands | src/routes/rates.ts:20-40 | every other symbol, RUB included, pays 5% below 100000 and 6% from there on |
| Commission.BoundaryAmounts | src/routes/rates.ts:34-40 | for USDT and BTC the whole amounts 50000 and 100000 sit in no tier and take the last tier's rate, while 49999 still pays the first tier's |
| Commission.TableFor | src/routes/rates.ts:27-32 | USDT and BTC have their own tables and every other symbol, RUB included, the altcoin table; the resulting rates are stated by UsdtBands, BtcBands and AltBands |
| Quote.PairRate | src/routes/rates.ts:72 | the pair rate is never negative, and it is positive exactly when one side is RUB |
| Quote.Handle | src/routes/rates.ts:43-79 | missing field gives 400 before the snapshot is read; no snapshot gives 500; an unknown symbol or a pair without RUB gives 400; otherwise the quotation with both commissions looked up with the raw amount; never 404 |
| Quote.QuoteFor | src/routes/rates.ts:72-106 | the quotation of an accepted request has a positive rate; its result is stated per branch by GiveFromRub, GiveToRub, ReceiveFromRub, ReceiveToRub and UnknownDirection |
| Quote.ResultAmount | src/routes/rates.ts:82-106 | the four formulas chosen by `lastChanged` and by which side is RUB, 0 for any other direction; stated by the same five lemmas |
| Quote.Render | src/routes/rates.ts:108-112 | both numbers of the answer through `toFixed(6)`; what the texts read back as is stated by RenderValue |
| Quote.NoRoubleSideRefused | src/routes/rates.ts:72-75 | a pair of two known non-RUB symbols is refused with 400 |
| Quote.RubToRub | src/routes/rates.ts:45-79 | RUB to RUB is accepted with rate 1 |
| Quote.GiveFromRub | src/routes/rates.ts:87-90 | giving roubles yields amount·(1−cTo)·rate, with rate = RUB rate / target rate |
| Quote.GiveToRub | src/routes/rates.ts:91-95 | giving crypto yields (amount/rate)·(1−cFrom), with rate = RUB rate / source rate |
| Quote.ReceiveFromRub | src/routes/rates.ts:98-101 | asking to receive crypto costs (amount/rate)/(1−cTo) |
| Quote.GrossUp | src/routes/rates.ts:99-101 | net + net·c/(1−c) equals net/(1−c) |
| Quote.ReceiveToRub | src/routes/rates.ts:102-105 | asking to receive roubles yields amount·(1−cFrom)·rate |
| Quote.UnknownDirection | src/routes/rates.ts:82-106 | a `lastChanged` other than give and receive is quoted 0 |
| Quote.GivePositive | src/routes/rates.ts:85-95 | a positive amount gives a positive result in both give branches |
| Quote.ReceiveUndoesGive | src/routes/rates.ts:85-101 | receiving from RUB exactly undoes giving RUB when the same target commission applies |
| Quote.GiveRoundTrip | src/routes/rates.ts:85-95 | giving a positive amount of roubles for x and then giving the x received back for roubles is accepted both ways and never returns more roubles than were given |
| Quote.NegativeRoundTripGains | src/routes/rates.ts:48-95 | the handler quotes a negative amount, and the same round trip then returns strictly more than was given |
| Quote.GiveBack | src/routes/rates.ts:85-95 | the two give legs together take both commissions off the amount, whatever the pair rate |
| Quote.ReceiveToRubThenGive | src/routes/rates.ts:91-105 | the RUB-target branches are not inverse: when both legs apply the same source commission c, giving back what a receive of y roubles quoted returns y·(1−c)², not y (the handler looks the commission up again at the second leg's amount, which may pick another c) |
| Quote.RenderValue | src/routes/rates.ts:108-112 | both numbers of the answer read back as the quotation rounded to six places |
| CommissionConfig.GetCommissionConfig | src/models/CommissionConfig.ts:29-51 | a stored schedule is returned and nothing is written; otherwise the defaults are created and saved |
| CommissionConfig.GetCommissionConfigIdempotent | src/models/CommissionConfig.ts:29-51 | a second call returns the same schedule and creates nothing |
| CommissionConfig.DefaultsMatchQuoteTables | src/models/CommissionConfig.ts:33-46 | the default lists equal the quote handler's hard-coded tables |
| CommissionConfig.DefaultsWellFormed | src/models/CommissionConfig.ts:33-46 | every default tier has min < max and a rate in [0.025, 0.06], and each tier ends before the next starts |
| CommissionConfig.ThreeTierGaps | src/models/CommissionConfig.ts:34-41 | between 5000 and 10000000 the USDT and BTC defaults leave exactly [50000, 50001) and [100000, 100001) uncovered |
| CommissionConfig.AltGap | src/models/CommissionConfig.ts:43-46 | between 5000 and 10000000 the altcoin defaults leave exactly [100000, 100001) uncovered |
| CommissionConfig.AdminGet | src/routes/adminCommissionRoutes.ts:9-20 | GET answers 404 exactly when nothing is stored, and creates nothing |
| CommissionConfig.AdminPatch | src/routes/adminCommissionRoutes.ts:23-39 | each supplied list, even an empty one, replaces the stored one; the others keep their value; with nothing stored the others are empty; the result is saved |
| CommissionConfig.PatchThenGet | src/routes/adminCommissionRoutes.ts:11-33 | a GET after a PATCH returns what the PATCH saved |
| CommissionConfig.PatchIdempotent | src/routes/adminCommissionRoutes.ts:30-33 | repeating a PATCH changes nothing more |
| CommissionConfig.PatchOnEmptyStore | src/routes/adminCommissionRoutes.ts:26-32 | with nothing stored, a PATCH of one list leaves the other lists empty, not the defaults |
| CommissionConfig.PatchStoresUnchecked | src/routes/adminCommissionRoutes.ts:25-33 | an inverted tier with a rate above 100% is stored as given |
| Records.ParseStatus | src/routes/adminOrdersRoutes.ts:30-33 | a text is accepted exactly when it spells one of the four statuses |
| Records.StatusNameRoundTrip | src/models/Withdrawal.ts:19-22 | each status reads back from its stored spelling |
| Records.SaveKeepsOrderIdsUnique | src/models/Order.ts:14 | saving an order the schema accepts keeps order ids unique |
| Records.SaveKeepsWithdrawalIdsUnique | src/models/Withdrawal.ts:15 | saving a request the schema accepts keeps withdrawal ids unique |
| Records.UpdateStatus | src/routes/withdrawalRoutes.ts:55-64 | an invalid status gives 400 before the lookup; an unknown id gives 404; otherwise the first document with the id takes the status, and the save answers 500 exactly when the updated document fails the schema's required-field check; failures change nothing |
| Records.UpdateStatusIdempotent | src/routes/withdrawalRoutes.ts:59-64 | repeating a status update changes nothing more |
| Collection.SelectCount | src/routes/adminOrdersRoutes.ts:12-17 | a query returns each kept document as often as it is stored, and nothing else |
| Collection.SortNewest | src/routes/adminOrdersRoutes.ts:17 | the sort returns the same documents, newest first |
| Collection.FirstWithId | src/routes/adminOrdersRoutes.ts:34 | `findOne` finds the first document with the id, or none when no document has it |
| Orders.BuildOrder | src/routes/order.ts:19-27 | the record copies the four fields verbatim and sets no nickname, user or status |
| Orders.CreateOrder | src/routes/order.ts:7-35 | 400 exactly when a field is falsy; a stored order is the built record under the returned id; a failure changes nothing; users and withdrawals never change |
| Orders.CreateOrderNeverStores | src/routes/order.ts:21-34 | the nickname the schema requires is never set, so every complete request answers 500 and stores nothing |
| Orders.ListOrders | src/routes/adminOrdersRoutes.ts:9-17 | the listing holds the orders the status filter keeps, newest first |
| Orders.ListOrdersMembers | src/routes/adminOrdersRoutes.ts:12-17 | an order is listed exactly when it is stored and has the queried status; with no string query every order is listed |
| Orders.UnknownStatusListsNothing | src/routes/adminOrdersRoutes.ts:12-16 | a query that spells no status lists nothing |
| Orders.UpdateOrderStatus | src/routes/adminOrdersRoutes.ts:26-43 | 400 for an invalid status before the lookup; 404 for an unknown id; 500 exactly when the order found fails the schema's required fields on the re-save; otherwise only that order's status changes, from any status to any; users and withdrawals never change |
| Orders.NicknamelessOrderStuck | src/routes/adminOrdersRoutes.ts:34-43 | an order stored without the required nickname, as order creation builds it, can never change status: wherever it is stored, when it is the first with its id, the re-save answers 500 and nothing changes |
| Orders.UpdateOrderStatusIdempotent | src/routes/adminOrdersRoutes.ts:34-39 | repeating an order status update changes nothing more |
| Withdrawals.Trim | src/routes/withdrawalRoutes.ts:27 | `trim` keeps a contiguous slice and removes only white space from either end |
| Withdrawals.TrimEmpty | src/routes/withdrawalRoutes.ts:27 | a contact trims to nothing exactly when it is all white space |
| Withdrawals.TrimIdempotent | src/routes/withdrawalRoutes.ts:27 | trimming twice is trimming once |
| Withdrawals.CreateWithdrawal | src/routes/withdrawalRoutes.ts:10-36 | 400 exactly for a falsy amount or contact or an amount below 1000; otherwise a new-status request for the caller with the trimmed contact, or 500 when the schema refuses it; users and orders never change |
| Withdrawals.Refused | src/routes/withdrawalRoutes.ts:13-19 | the 400 condition: a falsy amount or contact, or an amount below 1000; CreateWithdrawal answers 400 exactly when it holds, and MinimumAccepted shows 1000 itself passes |
| Withdrawals.MinimumAccepted | src/routes/withdrawalRoutes.ts:13-30 | exactly 1000 is accepted, with any contact that does not trim to nothing and an id no stored request has |
| Withdrawals.BlankContactFails | src/routes/withdrawalRoutes.ts:13-30 | a contact of white space only passes the 400 check and fails the save with 500 |
| Withdrawals.CreateKeepsIdsUnique | src/routes/withdrawalRoutes.ts:21-30 | creation keeps withdrawal ids unique |
| Withdrawals.ListMine | src/routes/withdrawalRoutes.ts:39-48 | `/my` returns the caller's requests, newest first |
| Withdrawals.ListMineMembers | src/routes/withdrawalRoutes.ts:41-42 | a request is listed exactly when it is stored and belongs to the caller |
| Withdrawals.CreatedIsListed | src/routes/withdrawalRoutes.ts:23-42 | a request just created appears in the caller's listing |
| Withdrawals.UpdateWithdrawalStatus | src/routes/withdrawalRoutes.ts:51-69 | 400 for an invalid status before the lookup; 404 for an unknown id; 500 exactly when the request found has an empty contact or id on the re-save; otherwise only that request's status changes |
| Withdrawals.CreatedCanChangeStatus | src/routes/withdrawalRoutes.ts:23-64 | a request creation stored always passes the re-save check, so its status can be changed |
| Withdrawals.UpdateWithdrawalStatusIdempotent | src/routes/withdrawalRoutes.ts:59-64 | repeating a withdrawal status update changes nothing more |
| Partner.IsRubSpellings | src/routes/partnerRoutes.ts:32-35 | the upper-cased comparison accepts exactly the eight case spellings of RUB |
| Partner.RubLeg | src/routes/partnerRoutes.ts:31-36 | the rouble side of an order, the give side first, 0 when neither side is RUB in any letter case; stated by IsRubSpellings and CountedOrderAdded |
| Partner.EarnedIsTenthPercent | src/routes/partnerRoutes.ts:28-39 | summing 0.1% of each rouble leg earns 0.1% of the summed legs |
| Partner.Info | src/routes/partnerRoutes.ts:10-46 | 404 exactly when the caller is no user; otherwise counts the caller's referrals and their completed orders; earned = 0.001 × total; pending and paid are 0; available = current balance |
| Partner.PartnerInfo | src/routes/partnerRoutes.ts:12-46 | the handler's loop with two running sums computes the same statistics |
| Partner.UncountedOrderIgnored | src/routes/partnerRoutes.ts:20-25 | an order that is not a referral's completed order changes nothing |
| Partner.CountedOrderAdded | src/routes/partnerRoutes.ts:24-39 | a counted order adds one exchange and its rouble leg; without a rouble leg it adds 0 |
| Partner.CompletionCreditsNothing | src/routes/adminOrdersRoutes.ts:38-40 | completing an order leaves the caller's bonus balance as it was |
| Partner.WithdrawalDebitsNothing | src/routes/withdrawalRoutes.ts:10-31 | creating a withdrawal leaves the partner statistics, balance included, as they were |
| ExchangeRates.RequestedAreListed | src/services/exchangeRateService.ts:13-27 | the 13 symbols fetched are exactly the symbols of the precision table |
| ExchangeRates.RequestedPrecision | src/services/exchangeRateService.ts:13-27 | no fetched symbol falls back to the default precision of 6 |
| ExchangeRates.Member | src/services/exchangeRateService.ts:52-54 | a key lookup finds the last member with the key, and nothing exactly when no member has it |
| ExchangeRates.RubPrice | src/services/exchangeRateService.ts:49-56 | an entry contributes a price exactly when its value is an object whose RUB member is a number, and then it contributes that number |
| ExchangeRates.KeptKey | src/services/exchangeRateService.ts:45-59 | a symbol is kept exactly when some entry for it carries a price, so no key is invented |
| ExchangeRates.KeptValue | src/services/exchangeRateService.ts:54-56 | a kept rate is the price of one of the symbol's entries |
| ExchangeRates.KeptExactly | src/services/exchangeRateService.ts:48-58 | with distinct symbols, each priced entry's symbol maps to exactly its price |
| ExchangeRates.ParseRates | src/services/exchangeRateService.ts:44-59 | the filter loop builds the entry-by-entry map |
| ExchangeRates.Upsert | src/services/exchangeRateService.ts:62-66 | the first document is replaced wholesale with the new rates and time, or inserted when the collection is empty |
| ExchangeRates.FetchAndSave | src/services/exchangeRateService.ts:29-72 | a failed fetch stores nothing; an answer is filtered and upserted |
| ExchangeRates.Latest | src/services/exchangeRateService.ts:74-83 | the read returns a stored snapshot no older than any other, and none exactly when nothing is stored |
| ExchangeRates.SaveKeepsOneSnapshot | src/services/exchangeRateService.ts:62-66 | the collection never grows beyond one snapshot |
| ExchangeRates.SaveThenLatest | src/services/exchangeRateService.ts:62-77 | when at most one snapshot is stored before the run (which SaveKeepsOneSnapshot keeps true from an empty collection), the latest snapshot after a successful run is the new one, with none of the old rates merged in |
| ExchangeRates.FailedFetchKeepsLatest | src/services/exchangeRateService.ts:69-71 | after a failed run the latest snapshot is unchanged |

## Left out

- HTTP, Express and Mongoose glue is left out: routing, response bodies and messages, the auth and admin middleware, and query mechanics. Errors are `Result` values.
- The catch-all 500 for a database failure is left out. A 500 is modelled only where the schema refuses a save: a required field missing or empty (on creation and on the re-save of both status routes), or, on creation, an id the unique index already holds.
- Identifier generation (`uuidv4`) and clocks (`Date.now`, `new Date()`) are left out. Ids and times are parameters.
- Binary floating point is left out. Amounts and rates are exact reals.
  - `Math.round` and `toFixed` are round half up on the exact value.
  - `toFixed`'s exponent form for magnitudes ≥ 1e21 and NaN are not modelled.
- Request values are typed. A missing field is its falsy value ("" or 0).
  - `Number(amount)` on a string and values of the wrong type are not modelled.
  - An admin `status` query that is not a string is `None`.
- The quote handler reads the snapshot as `rates.get(symbol).rub`, but the service stores plain numbers. The model takes the snapshot as symbol → positive RUB rate (`Quote.Snapshot`).
  - The rate map the service builds may hold non-positive numbers. The quote model's snapshot type admits only positive rates, so a non-positive stored rate is outside the model; no member connects `ExchangeRates.Snapshot` to `Quote.Snapshot`.
  - A `getLatestExchangeRates` failure that answers null is not modelled. An empty collection answers None.
- The order schema declares no `status` and no `user`. The routes still read and write both, and the model follows the routes; Mongoose's strict mode, which would drop them, is not modelled.
- The stored commission schedule is never read by the quote handler, as in the code. `createdAt`/`updatedAt` timestamps are not modelled.
- `Partner.Info` leaves out the profile fields it merely copies (`accountId`, `registrationDate`, `email`, `ctrValue`). `partnerPercent` and `visitors` are the constants the route writes.
- `Partner.Upper` maps ASCII letters only. Case mapping of other characters is not modelled.
- Withdrawals.CreateWithdrawal: the schema's required `user` check is not modelled, because the caller id always comes from the auth middleware.
- Collection.SortNewest: documents with equal `createdAt` may come out in any order, as in the database.
- Records.UpdateStatus: the identifiers are looked up in natural order, so when two documents share an id only the first is updated. Unique indexes keep that from happening.
- The `GET` rate route (src/routes/exchangeRate.ts) and the unused `Counter` model are not part of this model.
