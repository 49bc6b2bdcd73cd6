# comisys sales ingestion and reconciliation, modelled in Dafny

comisys is a small Flask application that tracks sales staff commissions. A manager uploads the
sales spreadsheet exported by the shop's ERP. The application finds the table in the sheet,
cleans its rows, and reconciles them with the stored Sales table. Dashboards then show each
seller's monthly total, percentage of goal, commission and bonus.

This project models that pipeline and proves what it does to the stored sales:

- `Extractor`: the tabular extractor, which is the same code in both upload handlers. It finds
  the header row, normalises column names, checks the required columns and drops empty, unparsable
  and "comagro" rows. Errors are values of `ExtractError`.
- `Comisys`: the application module's own upload handler (reconciler v1). Class `LegacyStore`
  holds the Sales table. For each row of a known seller it deletes, one by one, the same-order
  sales dated on or before the row, then inserts the row. A final sweep over the duplicate groups
  keeps only the latest-dated sales of each order number. It deletes with a strict `date < ?`
  (comisys.py:523-527), so two stored sales with the same order number and the same latest date
  both survive it, as `Comisys.LatestOnlyExact` states. This module also holds the delete routes
  and a seller view that always applies the Loja rates.
- `Sales`: the sales blueprint's handler (reconciler v2). Class `SalesStore` marks the window's
  sales unprocessed, accumulates each row onto the first sale of its order number (deleting it
  when the sum is not positive) or inserts a new processed sale, warns once per unknown seller,
  and finally deletes the window's sales left unprocessed. It also holds the `delete_sale` and
  `delete_all_sales` routes. The window (year, month) is a parameter.
- `Dashboards`: monthly seller and company sums, the percentage of goal, and the Loja/Oficina
  commission and bonus rates.
- `Goals`: the `set_goals` upsert on the IndividualGoals and GeneralGoals tables (class
  `GoalTables`), and the goal reads of the dashboards and of the goal form.
- `TextUtils`: the separator swap of `format_currency` and `format_percentage`, and the
  combining-character filter of `remove_accents`.
- `Seqs`, `Wrappers`, `Domain`: generic sequence filters and maps, `Option`/`Result`, dates and
  users.

Unicode services (`lower`, `title`, `upper`, `strip`'s whitespace test, NFKD and `combining`)
are fields of the `Unicode` datatype. The pandas coercions `to_datetime` and `to_numeric` are
the `Parsers` fields. Both are parameters of the operations that need them. The current date
becomes `(year, month)` parameters. A sheet is a grid of optional cell texts. Amounts and rates
are `real`.

Where the specification and the code disagree, the model follows the code:

- The Oficina commission rate is 0.5, raised to 0.55 at 50000 in sales
  (modules/dashboards/__init__.py:82-86). The specification describes other figures.
- Order, seller and customer cells are converted with `astype(str)` and are not trimmed. A
  missing cell becomes the text "nan" and does not drop the row.
- The blueprint handler does not replace a re-uploaded sale: it adds the row's amount to the
  stored one (modules/sales/__init__.py:139-146). `Sales.ReuploadAccumulates` shows that
  uploading the same one-row sheet twice stores twice its amount.

## Model

| member | source | states |
|---|---|---|
| Extractor.FirstHeader | comisys.py:439-443 | the header offset is the least index of a row whose lower-cased cells include "data"; `None` exactly when no row qualifies |
| Extractor.FindHeaderRow | modules/sales/__init__.py:60-64 | the scan loop that stops at the first header row returns exactly `FirstHeader` |
| Extractor.Strip | comisys.py:452 | the trimmed text neither starts nor ends with whitespace |
| Extractor.StripTrims | comisys.py:452 | the trimmed text is a slice of the input with only whitespace before and after it; with `Strip`'s own ensures this is exactly `str.strip()` |
| Extractor.Extraction | comisys.py:434-477 | fails with `HeaderNotFound` exactly when no row is a header row; when the first header row lacks a required column after normalisation, fails with `MissingColumns` naming exactly the missing ones; when all are present but a required name labels two columns, fails with `DuplicateColumns` naming those names; succeeds exactly when a header row exists, carries all five required columns and no required name twice |
| Extractor.Extract | modules/sales/__init__.py:54-100 | the handler's extraction, with its header loop, returns exactly `Extraction` |
| Extractor.Columns | comisys.py:450-452 | the normalised column names, `str(col).strip().lower()` of pandas' de-duplicated labels; specified through `StripTrims`, `LookalikeHeaderRefused`, `RepeatedHeaderRenamed` and `Extraction` |
| Extractor.DuplicatedInEmpty | comisys.py:466-477 | no required name is reported duplicated exactly when every required name labels a single column, so each `df[name]` below is one column |
| Extractor.LookalikeHeaderRefused | comisys.py:450-477 | a header with "data" and " data" (two pandas labels that both normalise to "data") and the other four required names is refused with `DuplicateColumns({"data"})` |
| Extractor.RepeatedHeaderRenamed | comisys.py:450-452 | two raw-identical "data" header cells become "data" and "data.1", so the same sheet is read |
| Extractor.CleanRows | comisys.py:455-477 | the cleaning chain below the header; specified by `CleanRowsSound`, `ExtractionKeepsGoodRows` and `DropEmptyRowsIsRedundant` |
| Extractor.CleanRowsInOrder | comisys.py:455-477 | the cleaned records correspond one to one, in sheet order, to the rows below the header that are non-blank, coerce and name no excluded customer: the kept row indices increase, are exactly those rows, and record k is the coercion of the k-th of them |
| Extractor.CleanRowsSound | comisys.py:455-477 | every cleaned record names no excluded customer and is the coercion of a non-blank row below the header |
| Extractor.ExtractedRowsAreClean | modules/sales/__init__.py:78-100 | every record the extraction returns names no excluded customer and comes from a non-blank row below the first header row |
| Extractor.ToRecordFields | comisys.py:466-473 | a row yields a record exactly when its date and amount parse; the record carries the parsed date and amount and the text of the order, seller and customer cells |
| Extractor.ExtractionKeepsGoodRows | comisys.py:455-477 | conversely, every row below the header whose date and amount parse and whose customer is not excluded is in the result |
| Extractor.DropEmptyRowsIsRedundant | comisys.py:455-473 | dropping blank rows changes nothing the coercion keeps, since a blank row has no date |
| Extractor.ExcludedIffContainsComagro | comisys.py:476-477 | a customer is excluded exactly when its lower-cased text contains "comagro" |
| Comisys.SellerDirectoryExact | comisys.py:483-485 | a key is in the seller map exactly when some user with role "seller" has a name whose lower-cased, accent-free form is that key |
| Comisys.SellerDirectoryLastWins | comisys.py:483-485 | a key maps to the id of the last seller carrying it |
| Comisys.SellerDirectory | comisys.py:483-485 | the seller map; specified by `SellerDirectoryExact` and `SellerDirectoryLastWins` |
| Comisys.Ingest | comisys.py:487-511 | the row loop over the table as a value; specified by `IngestSkipsUnknownSellers`, `UnknownSellerRowIgnored` and `IngestKeepsShape`, and implemented by `LegacyStore.IngestRecords` |
| Comisys.UnknownSellerRowIgnored | comisys.py:487-491 | a row whose seller key is not in the map leaves the table as it was |
| Comisys.IngestSkipsUnknownSellers | comisys.py:487-491 | a sheet none of whose sellers is known leaves the table unchanged |
| Comisys.UpsertOneExact | comisys.py:493-511 | a matched row deletes exactly the sales of its order number dated on or before it, keeps every other sale (later-dated ones included), and inserts exactly one new sale with a fresh id |
| Comisys.UpsertOne | comisys.py:493-511 | one matched row's delete-then-insert; specified by `UpsertOneExact`, `UpsertOneKeepsIds` and `UpsertOneKeepsDistinctDates`, and implemented by `LegacyStore.UpsertRow` |
| Comisys.UpsertOneKeepsIds | comisys.py:493-511 | the upsert keeps ids increasing and below the next id |
| Comisys.UpsertOneKeepsDistinctDates | comisys.py:493-511 | if no two sales of an order number share a date before the upsert, none do after it |
| Comisys.IngestKeepsShape | comisys.py:487-511 | the row loop keeps ids ordered and keeps dates distinct within each order number |
| Comisys.LatestDateIsMax | comisys.py:515-520 | `MAX(date)` of an order number is the date of one of its sales and is on or after the dates of all of them |
| Comisys.LatestDate | comisys.py:515-520 | an order number has a `MAX(date)` exactly when some sale carries it |
| Comisys.LatestOnlyKeepsIds | comisys.py:515-527 | the sweep keeps ids ordered and below the next id |
| Comisys.LatestOnlyExact | comisys.py:515-527 | the sweep keeps a sale exactly when no sale of its order number is later, so every remaining sale has its order number's latest date and no latest-dated sale is deleted |
| Comisys.LatestOnly | comisys.py:515-527 | the table after the duplicate sweep; specified by `LatestOnlyExact`, `LatestOnlyUnique`, `SingleSaleUntouched` and `LatestOnlyKeepsIds`, and implemented by `LegacyStore.SweepDuplicates` |
| Comisys.DuplicateGroups | comisys.py:515-521 | the (order number, `MAX(date)`) rows of the `GROUP BY ... HAVING COUNT(*) > 1` query; specified by `GroupIsLatest` and `SweepComplete` |
| Comisys.SingleSaleUntouched | comisys.py:515-527 | an order number with a single sale is left alone by the sweep |
| Comisys.SoleSaleNotStale | comisys.py:518-520 | a sale whose order number counts once is not older than its order number's latest date |
| Comisys.LatestOnlyUnique | comisys.py:515-527 | when dates are distinct within each order number, the sweep leaves at most one sale per order number |
| Comisys.SweepStep | comisys.py:523-527 | deleting one group's older sales is the sweep extended to that order number |
| Comisys.SweepComplete | comisys.py:515-527 | once every group of the query has been processed, the table is `LatestOnly` of the table before the sweep |
| Comisys.GroupIsLatest | comisys.py:515-520 | every group the query returns carries its order number's latest date |
| Comisys.DeletedAreSuperseded | comisys.py:497-505 | deleting by id the fetched same-order sales dated on or before the row deletes exactly the superseded sales |
| Comisys.LegacyUploadUnique | comisys.py:434-529 | from a table with distinct dates per order number, a successful upload leaves at most one sale per order number |
| Comisys.LegacyUpload | comisys.py:434-529 | the whole v1 upload as a value; specified by `LegacyUploadUnique`, and implemented by `LegacyStore.ProcessFile` |
| Comisys.LegacyFiguresAreLoja | comisys.py:286-352 | the module's seller view equals the blueprint's view of a Loja seller over the same rows |
| Comisys.LegacyPayoutRates | comisys.py:341-352 | the commission rate is always 0.01 and the bonus rate is the Loja tier reached |
| Comisys.LegacyFigures | comisys.py:286-367 | the module's seller view; specified by `LegacyFiguresAreLoja` and `LegacyPayoutRates` |
| Comisys.LegacyStore.UpsertRow | comisys.py:493-511 | the inner delete loop and the insert produce `UpsertOne` of the old table, keeping ids ordered |
| Comisys.LegacyStore.SweepDuplicates | comisys.py:515-527 | the loop over the duplicate groups, in any order, leaves exactly `LatestOnly` of the old rows and keeps the next id |
| Comisys.LegacyStore.IngestRecords | comisys.py:487-511 | the row loop produces `Ingest` of the old table |
| Comisys.LegacyStore.ProcessFile | comisys.py:434-529 | an extraction error leaves the store unchanged and is returned; otherwise the store becomes `LegacyUpload` of the old one |
| Comisys.LegacyStore.DeleteSale | comisys.py:370-382 | the rows become those of another id; the next id is kept |
| Comisys.LegacyStore.DeleteAllSales | comisys.py:385-397 | the rows become those of other owners; the next id is kept |
| Sales.MarkWindowFlags | modules/sales/__init__.py:109-113 | marking clears the flag of exactly the window's sales and changes no other field or sale |
| Sales.MarkWindowKeepsShape | modules/sales/__init__.py:109-113 | marking keeps ids ordered and order numbers unique |
| Sales.MarkWindow | modules/sales/__init__.py:109-113 | the `processed = 0` update; specified by `MarkWindowFlags` and `MarkWindowKeepsShape` |
| Sales.SellerDirectoryLastWins | modules/sales/__init__.py:116-118 | every user's title-cased, accent-free name is a key of the map, and a key maps to the id of the last user carrying it |
| Sales.SellerDirectory | modules/sales/__init__.py:116-118 | the map over every user; specified by `SellerDirectoryLastWins` |
| Sales.FirstWithOrder | modules/sales/__init__.py:136-137 | the result is the least index of a sale of the order number, `None` when there is none |
| Sales.ApplyRecordFrame | modules/sales/__init__.py:136-152 | a row leaves every sale of another order number where it was |
| Sales.ApplyRecordMatched | modules/sales/__init__.py:139-146 | an existing order number replaces its first sale by that sale with the summed amount, marked processed, or removes it when the sum is at most 0; every other sale is kept with its multiplicity, and the next id is unchanged |
| Sales.AccumulateMultiset | modules/sales/__init__.py:141-146 | the update or delete of one sale, as a multiset change |
| Sales.ApplyRecordInserted | modules/sales/__init__.py:147-152 | a new order number appends exactly one processed sale with the row's date, amount, owner and order number under a fresh id |
| Sales.ApplyRecord | modules/sales/__init__.py:132-152 | one row's accumulate, delete or insert; specified by `ApplyRecordFrame`, `ApplyRecordMatched`, `ApplyRecordInserted`, `ApplyRecordKeepsIds` and `ApplyRecordKeepsUniqueOrders`, and implemented by `SalesStore.ApplyRow` |
| Sales.ApplyRecordKeepsIds | modules/sales/__init__.py:136-152 | a row keeps ids ordered and below the next id |
| Sales.AccumulateKeepsIds | modules/sales/__init__.py:141-146 | updating or deleting one sale keeps ids ordered |
| Sales.ApplyRecordKeepsUniqueOrders | modules/sales/__init__.py:136-152 | a row keeps at most one sale per order number, since it inserts only when no sale has the number |
| Sales.IngestKeepsShape | modules/sales/__init__.py:124-152 | the row loop keeps ids ordered and order numbers unique |
| Sales.ApplyRecordCovers | modules/sales/__init__.py:136-152 | after a row, every processed window sale carries an order number of the upload so far |
| Sales.IngestCovers | modules/sales/__init__.py:124-152 | after the loop, every processed window sale carries an order number of the upload |
| Sales.IngestKeepsUnnamed | modules/sales/__init__.py:124-152 | a sale whose order number is not in the upload survives the row loop |
| Sales.Ingest | modules/sales/__init__.py:124-152 | the row loop as a value; specified by `IngestKeepsShape`, `IngestCovers` and `IngestKeepsUnnamed` |
| Sales.PurgePendingExact | modules/sales/__init__.py:154-159 | the sweep keeps exactly the sales that are out of the window or processed |
| Sales.PurgePendingKeepsShape | modules/sales/__init__.py:154-159 | the sweep keeps ids ordered and order numbers unique |
| Sales.PurgePendingKeepsAll | modules/sales/__init__.py:154-159 | with no pending sale, the sweep changes nothing |
| Sales.PurgePending | modules/sales/__init__.py:154-159 | the delete of the window's unprocessed sales; specified by `PurgePendingExact`, `PurgePendingKeepsShape` and `PurgePendingKeepsAll` |
| Sales.ReconcileKeepsShape | modules/sales/__init__.py:109-159 | mark, loop and sweep keep ids ordered and, if it held before, at most one sale per order number |
| Sales.ReconcileDropsUnlistedWindowSales | modules/sales/__init__.py:109-159 | every window sale left after reconciling carries an order number of the upload |
| Sales.ReconcileKeepsUnlistedOtherSales | modules/sales/__init__.py:109-159 | an out-of-window sale whose order number is not in the upload is kept unchanged |
| Sales.Reconcile | modules/sales/__init__.py:106-159 | mark, row loop and sweep; specified by `ReconcileKeepsShape`, `ReconcileDropsUnlistedWindowSales` and `ReconcileKeepsUnlistedOtherSales`, and implemented by `SalesStore.ReconcileRecords` |
| Sales.Upload | modules/sales/__init__.py:54-164 | extraction then reconciliation, as a value; implemented by `SalesStore.ProcessFile` |
| Sales.UnmatchedKeysSnoc | modules/sales/__init__.py:125-130 | the unmatched keys of a sheet grow by the last row's key exactly when that key is unknown |
| Sales.WarningsOncePerSeller | modules/sales/__init__.py:121-130 | the keys warned about are exactly the upload's unmatched keys, with one message per key |
| Sales.FirstUnmatched | modules/sales/__init__.py:125-128 | a row is the first of the upload to carry its seller key, and no user has that key |
| Sales.FirstUnmatchedRows | modules/sales/__init__.py:124-128 | the rows that are first to carry an unmatched key, listed increasing and exactly: a row is listed iff it is such a first row |
| Sales.LastRowFirstUnmatched | modules/sales/__init__.py:128 | the test `user_id is None and seller_name not in non_registered_sellers` on the last row holds exactly when that row is the first to carry an unmatched key |
| Sales.WarningMessagesInOrder | modules/sales/__init__.py:124-130 | there are as many messages as first-unmatched rows, and the k-th message is the title-cased seller name of the k-th such row, in sheet order |
| Sales.FirstUnmatchedKeysDistinct | modules/sales/__init__.py:121-129 | the rows behind the messages carry pairwise different seller keys, so no seller is warned about twice |
| Sales.Warnings | modules/sales/__init__.py:121-130 | the set of unmatched keys seen and the messages; specified by `WarningsOncePerSeller`, `WarningMessagesInOrder` and `FirstUnmatchedKeysDistinct` |
| Sales.UnmatchedSellerStoredWithoutOwner | modules/sales/__init__.py:126-152 | an unknown seller's new sale is still stored, with no owner |
| Sales.WithoutSaleExact | modules/sales/__init__.py:178 | `delete_sale` keeps exactly the sales of another id |
| Sales.WithoutSellerExact | modules/sales/__init__.py:193 | `delete_all_sales` keeps exactly the sales not owned by the seller; unowned sales are kept |
| Sales.WithoutSellerSnoc | modules/sales/__init__.py:193 | the seller delete distributes over appending one sale |
| Sales.WithoutSale | modules/sales/__init__.py:178 | the `delete_sale` filter; specified by `WithoutSaleExact` |
| Sales.WithoutSeller | modules/sales/__init__.py:193 | the `delete_all_sales` filter; specified by `WithoutSellerExact` and `WithoutSellerSnoc` |
| Sales.ReuploadAccumulates | modules/sales/__init__.py:139-146 | uploading the same one-row sheet twice leaves one sale with twice the amount |
| Sales.SalesStore.ApplyRow | modules/sales/__init__.py:136-152 | the SELECT and UPDATE/DELETE/INSERT of one row produce `ApplyRecord` of the old table, keeping ids ordered |
| Sales.SalesStore.ReconcileRecords | modules/sales/__init__.py:109-159 | the store becomes `Reconcile` of the old one, and the warnings are those of `Warnings` |
| Sales.SalesStore.ProcessFile | modules/sales/__init__.py:54-164 | an extraction error leaves the store unchanged and is returned; otherwise the store and the warnings are those of `Upload` |
| Sales.SalesStore.DeleteSale | modules/sales/__init__.py:171-183 | the rows become `WithoutSale` of the old rows; the next id is kept |
| Sales.SalesStore.DeleteAllSales | modules/sales/__init__.py:186-198 | the rows become `WithoutSeller` of the old rows; the next id is kept |
| Dashboards.SellerTotalWithoutSales | modules/dashboards/__init__.py:25-33 | a seller with no sale in the month has a total of 0 (a SUM over nothing read as 0) |
| Dashboards.CompanyTotalCoversSeller | modules/dashboards/__init__.py:39-46 | with non-negative amounts, the company's monthly total is at least any seller's |
| Dashboards.SellerTotalIsOwnSalesTotal | modules/dashboards/__init__.py:25-46 | the seller's monthly sum equals the company's monthly sum taken over that seller's own sales |
| Dashboards.SellerMonthTotal | modules/dashboards/__init__.py:25-33 | the seller's monthly `SUM`; specified by `SellerTotalWithoutSales`, `SellerTotalIsOwnSalesTotal`, `CompanyTotalCoversSeller` and `DeleteAllSalesTotals` |
| Dashboards.CompanyMonthTotal | modules/dashboards/__init__.py:39-46 | the company's monthly `SUM`; specified by the same lemmas |
| Dashboards.DeleteAllSalesTotals | modules/dashboards/__init__.py:125-146 | after `delete_all_sales`, the company total drops by exactly the seller's total and the seller's total is 0 |
| Dashboards.PercentageMeaning | modules/dashboards/__init__.py:69-70 | a zero goal gives 0, with no division by zero; otherwise the percentage times the goal is 100 times the total |
| Dashboards.PercentageReachesGoal | modules/dashboards/__init__.py:174-175 | against a positive goal, 100% is reached exactly when the total reaches the goal |
| Dashboards.Percentage | modules/dashboards/__init__.py:69-70 | the percentage of goal; specified by `PercentageMeaning` and `PercentageReachesGoal` |
| Dashboards.LojaBonusIsHighestTier | modules/dashboards/__init__.py:76-81 | the Loja bonus rate is the rate of the highest tier reached, or 0 when none is; lower tiers are not added |
| Dashboards.BranchRates | modules/dashboards/__init__.py:72-86 | Loja: commission 0.01 and bonus 0.006/0.004/0.003/0 by threshold; Oficina: commission 0.5, or 0.55 from 50000, and no bonus |
| Dashboards.LojaBonusMonotone | modules/dashboards/__init__.py:76-81 | the Loja bonus rate never falls as the total grows |
| Dashboards.ZeroSalesZeroPayout | modules/dashboards/__init__.py:88-89 | zero sales give zero commission and zero bonus on either branch |
| Dashboards.PayoutMonotone | modules/dashboards/__init__.py:188-193 | on non-negative totals, commission and bonus never fall as the total grows |
| Dashboards.LojaTopTierExample | modules/dashboards/__init__.py:176-193 | 225000 in Loja sales pays 2250 commission and 1350 bonus |
| Dashboards.LojaBonusRate | modules/dashboards/__init__.py:76-81 | the Loja if/elif bonus chain; specified by `LojaBonusIsHighestTier` and `LojaBonusMonotone` |
| Dashboards.RatesFor | modules/dashboards/__init__.py:72-86 | the branch rates; specified by `BranchRates` |
| Dashboards.PayoutFor | modules/dashboards/__init__.py:88-89 | commission and bonus of a total; specified by `ZeroSalesZeroPayout`, `PayoutMonotone` and `LojaTopTierExample` |
| Dashboards.SellerDashboardConsistent | modules/dashboards/__init__.py:117-193 | 100% of a positive individual goal is reached exactly when the total reaches it; a zero goal shows 0%; with non-negative amounts the seller never out-sells the company |
| Dashboards.SellerDashboard | modules/dashboards/__init__.py:117-193 | the master's view of one seller; specified by `SellerDashboardConsistent` |
| Goals.EmptyFormRejected | comisys.py:554-556 | a form with both goals blank is refused |
| Goals.IndividualGoalApplied | comisys.py:559-564 | every row of the user receives the goal, or exactly one row with a fresh id is appended when the user had none |
| Goals.OtherUsersUntouched | comisys.py:559-564 | rows of other users are not touched |
| Goals.GeneralTableNeverGrows | comisys.py:567-572 | once the general table has a row, it never gains another |
| Goals.SetGoalsPreservesValid | comisys.py:549-577 | the upsert keeps ids ordered and the general table at most its single row 1 |
| Goals.IndividualGoalOfUpdated | comisys.py:562 | after the UPDATE, the user's first row holds the new goal |
| Goals.IndividualGoalOfAppended | comisys.py:564 | after the INSERT, the user's first row is the new one |
| Goals.LastGoalOfUpdated | comisys.py:562 | after the UPDATE, the user's last row holds the new goal |
| Goals.LastGoalOfAppended | comisys.py:564 | after the INSERT, the user's last row is the new one |
| Goals.IndividualGoalReadBack | modules/dashboards/__init__.py:35-37 | after an individual goal is set, the dashboards read that goal for the user |
| Goals.FormGoals | comisys.py:588-595 | the goal form has an entry for every seller and every user with a goal row |
| Goals.LastGoalOfIsLastRow | comisys.py:588-590 | the dictionary built from the goal rows keeps, for a user, the goal of the user's last row, and has no entry exactly when the user has no row |
| Goals.FormGoalsValues | comisys.py:588-595 | a seller without a goal row shows 0, and a user with rows shows the goal of the last one |
| Goals.FormGoalReadBack | comisys.py:588-595 | after an individual goal is set, the goal form shows that goal for the user |
| Goals.GeneralGoalReadBack | modules/dashboards/__init__.py:48-50 | after a general goal is set, the dashboards read it |
| Goals.GoalTables.SetGoals | comisys.py:549-577 | an empty form leaves both tables unchanged; otherwise the tables become `SetGoalsSpec` of the old ones, keeping the invariant |
| Goals.SetGoalsSpec | comisys.py:549-577 | the two upserts as a value; specified by `EmptyFormRejected`, `IndividualGoalApplied`, `OtherUsersUntouched`, `GeneralTableNeverGrows` and `SetGoalsPreservesValid`, and implemented by `GoalTables.SetGoals` |
| Goals.IndividualGoalOf | modules/dashboards/__init__.py:35-37 | the `fetchone` goal read; specified by `IndividualGoalOfUpdated`, `IndividualGoalOfAppended` and `IndividualGoalReadBack` |
| Goals.CurrentGeneralGoal | modules/dashboards/__init__.py:48-50 | the last general goal, or 0; specified by `GeneralGoalReadBack` |
| TextUtils.SwapSeparatorsSwaps | utils/text_utils.py:6 | on text without 'X', the replace chain maps ',' to '.' and '.' to ',' and keeps every other character and the length |
| TextUtils.SwapSeparatorsInvolution | utils/text_utils.py:6 | on text without 'X', the separator swap is its own inverse |
| TextUtils.SwapSeparators | utils/text_utils.py:6 | the replace chain; specified by `SwapSeparatorsSwaps` and `SwapSeparatorsInvolution` |
| TextUtils.FixedTwoShape | utils/text_utils.py:6 | the `{:,.2f}` text ends in '.' and two digits, and before that holds only digits and ','; a '-' can only come first, and comes first exactly when the amount is negative |
| TextUtils.FormatCurrencyShape | utils/text_utils.py:5-6 | the currency text starts with "R$ ", has ',' as its only decimal separator before the last two digits, and every other separator swapped |
| TextUtils.FormatCurrencyExample | utils/text_utils.py:5-6 | 1234.50 is shown as "R$ 1.234,50" |
| TextUtils.FormatCurrency | utils/text_utils.py:5-6 | `format_currency`; specified by `FormatCurrencyShape` and `FormatCurrencyExample` |
| TextUtils.FormatPercentageShape | utils/text_utils.py:9-10 | the percentage text ends with '%' and contains no ','; every ',' became '.' and the decimal point stays '.' |
| TextUtils.FormatPercentageAmbiguous | utils/text_utils.py:9-10 | as written, 1234.56 is shown as "1.234.56%" |
| TextUtils.FormatPercentageExample | utils/text_utils.py:9-10 | as written, 55.43 is shown as "55.43%" |
| TextUtils.FormatPercentage | utils/text_utils.py:9-10 | `format_percentage` as written; specified by `FormatPercentageShape`, `FormatPercentageAmbiguous` and `FormatPercentageExample` |
| TextUtils.FormatPercentageBrShape | utils/text_utils.py:9-10 | the corrected text ends with '%', has ',' only just before the two decimals, and has '.' exactly where the number had ',' |
| TextUtils.FormatPercentageBrExample | utils/text_utils.py:9-10 | corrected, 55.43 is shown as "55,43%" |
| TextUtils.FormatPercentageBr | utils/text_utils.py:9-10 | the corrected percentage format; specified by `FormatPercentageBrShape` and `FormatPercentageBrExample` |
| TextUtils.RemoveAccentsSubsequence | utils/text_utils.py:13-15 | the result has no combining character and is the in-order subsequence of the NFKD form at exactly its non-combining positions |
| TextUtils.CombiningFilterIdempotent | utils/text_utils.py:15 | filtering combining characters a second time changes nothing |
| TextUtils.RemoveAccents | utils/text_utils.py:13-15 | `remove_accents`; specified by `RemoveAccentsSubsequence` and `CombiningFilterIdempotent` |

## Left out

- Flask plumbing is not modelled: routes, sessions and the master-role gate, `flash` messages other than the unknown-seller warnings, redirects, templates and saving the uploaded file.
- modules/users/__init__.py (registration, login, user deletion, passwords) is not part of this model. Users appear only as the `User` rows the seller lookup reads.
- SQLite is replaced by in-memory tables. The connection, the schema and the AUTOINCREMENT counter are modelled only as a `nextId` that grows.
- The `except Exception` blocks are not modelled, and neither are the non-atomic commits, including the commit before the v1 sweep. Failures are `Result` values only.
- Extractor.Extraction: a required name that labels two columns is refused before any row is read. The source fails only where the two-column `df[name]` is used: at once for "data", "valor total" and "cliente" (`to_datetime`, `to_numeric`, `.str`). For "vendedor" and the order number it fails only when a row reaches `row['vendedor'].lower()` or the SQL binding of the order number. On a sheet with no such row the source goes on, and v1 still runs its duplicate sweep.
- Extractor.Columns: pandas numbers the second and later copies of a raw header label ".1", ".2" and so on. Its further renaming, when such a name collides with a label already present (a sheet with both "x", "x" and "x.1"), is not modelled.
- The pandas internals `read_excel`, `to_datetime` and `to_numeric` are not modelled. The sheet is a grid of optional cell texts and the coercions are parse functions that return `Option`.
- Floating-point rounding of REAL amounts and rates is not modelled. Amounts are Dafny `real`s.
- Python's `{:,.2f}` is modelled on an integer count of cents, so the rounding to two decimals happens outside the model.
- `unicodedata.normalize`, `unicodedata.combining` and the `str` case and whitespace methods are parameters of the model, not definitions.
- The blueprint's upload handler (modules/sales/__init__.py:107-108) and the dashboards' SQL (`strftime(..., 'now')`) take the current date from the clock. The window is a `(year, month)` parameter instead. Line 107 of the sales blueprint calls `now()` on the `datetime` module, which would raise first; that error is not modelled.
- The SQLite typing of `strftime` text against Python integers at modules/sales/__init__.py:112-113 and 158 is not modelled. The window test is an integer comparison.
- The branch lookup at modules/dashboards/__init__.py:63-65, which names a missing column and reads `'goal'`, is not modelled. The session seller's own dashboard at modules/dashboards/__init__.py:10-103 is not modelled either. `Dashboards.SellerDashboard` takes the branch text as an input and returns `None` for a branch that is neither LOJA nor OFICINA, where the handler would fail on an unbound rate.
- Debug `print`s, the sales listings ordered for display (`vendas`) and the master's seller list are not modelled.
- The session seller's dashboard in comisys.py (lines 200-272) computes the same figures as the master's view of a seller (lines 286-367). Only the latter is modelled, as `Comisys.LegacyFigures`.
- Comisys.LegacyStore.SweepDuplicates: the order in which SQLite returns the groups is not modelled. The method picks the groups in any order, and its contract holds for every order.
- Goals.GoalTables.SetGoals: goal form fields are modelled as already-parsed numbers, with `None` for a blank field. The column is REAL, and a non-numeric text stored by SQLite as text is not modelled.
- The v1 schema has no `processed` column and makes `user_id` NOT NULL (comisys.py:62-71). The v2 code assumes the opposite. Each module's `Sale` follows its own code.
- `Comisys.Sale` values come from records of matched sellers only, so a v1 sale always has an owner.

## Findings

| source | as written | input that shows it | evidently intended | confidence | as-written member | corrected member |
|---|---|---|---|---|---|---|
| utils/text_utils.py:9-10 | `format_percentage` replaces ',' with 'X' and then 'X' with '.', so both the thousands separator and the decimal point become '.' | 1234.56 is shown as "1.234.56%" | the separators swapped as in `format_currency`: "1.234,56%" ("55,43%" for 55.43) | not executed | TextUtils.FormatPercentageAmbiguous | TextUtils.FormatPercentageBrShape |
