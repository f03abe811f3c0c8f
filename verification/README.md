# duck — a Dafny model of the retail ingestion pipeline

The model covers the `duck` retail-sales service. A CSV of store transactions is uploaded. Its
column names are normalised and every line gets a content hash and a fresh row id. The whole
batch is appended to the staging table `duck_store_staging`. The validation library then
re-checks all of staging against a fixed rule table, and every reported violation becomes a
record of `validation_errors`. When anything was flagged, the staging rows that were not flagged
are promoted into the analytic table `duck_store` with a derived sale price and margin. Four read
endpoints report on the stored data: the validation-error list, data quality, promotion uplift
and price index.

| file | module | what it holds |
|---|---|---|
| `wrappers.dfy` | `Wrappers` | `Option` and `Result` |
| `text.dfy` | `Text` | the Python `str` operations the pipeline relies on, and the quote-to-bracket rewrite |
| `records.dfy` | `Records` | staging, analytic and error rows, the library's report entry, the faults, the two table constraints |
| `validation.dfy` | `Validation` | the rule table, `data_validate`, and the link between an agreeing report and the rule table |
| `db.dfy` | `Db` | class `Store`: the three tables, the two inserts and `process_validation` |
| `ingest.dfy` | `Ingest` | the `ingest` request: normalisation, staging, validation, promotion, response |
| `error_report.dfy` | `ErrorReport` | `validation_report` |
| `quality.dfy` | `Quality` | `quality_report`, given its query results |
| `promotion.dfy` | `Promotion` | the promotion query's row filter and per-group arithmetic, and `promotion_report`'s post-processing |
| `pricing.dfy` | `Pricing` | `pricing_report`, given its query result |

Calls into code outside the model become parameters:

- `hasher` stands for the SHA-256 of a line's cells.
- `rowId` and `errorId` stand for the k-th uuid7 drawn during the request.
- `validate` stands for the validation library's flattened report on the staging rows.
- `render` stands for the database engine's text rendering of a float, used when a float is inserted into a text column.

The library's report is related to the rule table only through the hypothesis
`Validation.ReportAgrees`. It says that the report lists exactly the rule-table violations, in
any order. The lemmas that speak about rules assume it; everything else holds for any report.

## Model

| member | source | states |
|---|---|---|
| Text.Lower | src/main.py:46 | same length, no upper-case letter left, each character lowered one by one |
| Text.LowerOfLowered | src/main.py:46 | lowering a string without upper-case letters changes nothing |
| Text.Strip | src/main.py:46 | the result is the span of the input between its leading and its trailing white space: everything before and after it is white space, and it neither starts nor ends with white space |
| Text.StripOfStripped | src/main.py:46 | stripping a string that neither starts nor ends with white space changes nothing |
| Text.StripPadded | src/main.py:46 | white space around a name that neither starts nor ends with white space is removed, and nothing else |
| Text.ReplaceCharPointwise | src/main.py:46 | replacing one character by another is a character-by-character map of the same length |
| Text.ReplaceAll | src/validation.py:60-64 | a replacement as long as the pattern keeps the length of the string |
| Text.ReplaceAbsent | src/validation.py:60-64 | `replace` on a string without the pattern returns it unchanged |
| Text.ReplaceChars | src/validation.py:60-64 | every character of a `replace` result comes from the input or from the replacement |
| Text.ReplaceRemoves | src/validation.py:60-62 | a non-empty replacement sharing no character with the pattern leaves no occurrence of the pattern |
| Text.NatToString | src/validation.py:57-59 | `str(n)` of a non-negative integer is a non-empty run of digits |
| Text.IntToString | src/main.py:79 | an integer rendered as text is non-empty and starts with `-` exactly when negative |
| Text.QuoteToBracket | src/services.py:24 | the rewrite keeps the length of the message |
| Text.QuoteToBracketShape | src/services.py:24 | the rewrite keeps the length and every non-quote character; a quote becomes `[`, `]` or stays; no two quotes remain |
| Text.QuotedSpan | src/services.py:24 | after quote-free text, a quoted span becomes a bracketed one: its opening quote turns into `[`, its closing quote into `]`, the text between is kept and the rest is rewritten in turn |
| Text.UnmatchedQuote | src/services.py:24 | a quote with no closing quote after it is kept, and so is everything after it |
| Text.QuoteToBracketNoQuote | src/services.py:24 | a message without a double quote comes back unchanged |
| Text.QuoteToBracketIdempotent | src/services.py:24 | rewriting twice equals rewriting once |
| Validation.Violates | src/validation.py:9-30 | a field holding no value always breaks its rule, since every field is required; a field holding a value can break one only for the hash, the three amounts and the date |
| Validation.FieldIndex | src/validation.py:7-33 | every field has a position in the schema that holds it |
| Validation.SchemaFieldsDistinct | src/validation.py:7-33 | the schema lists each field once |
| Validation.Violations | src/validation.py:7-33 | every field listed for a row is one whose rule the row breaks |
| Validation.ViolationsListed | src/validation.py:7-33 | a field is listed for a row exactly when the row breaks that field's rule, and then exactly once |
| Validation.ViolationsEmpty | src/validation.py:7-33 | a row has no violation exactly when it breaks no rule |
| Validation.CleanRow | src/validation.py:9-30 | a row with every field present, a new hash, non-negative amounts and a date not after today has no violation |
| Validation.ZeroAmountsPass | src/validation.py:19-25 | quantity, total sales and recommended price of 0 pass their `minimum: 0` rules |
| Validation.RewriteMessage | src/validation.py:60-64 | every character of the stored message comes from the library's message, the field name or the row id |
| Validation.RewriteKeepsPlainMessage | src/validation.py:60-64 | a message naming neither the field number nor the row number is stored unchanged |
| Validation.RecordKeepsPlainMessage | src/validation.py:56-74 | an entry whose message names neither its field number nor its row number is recorded with that message as it is |
| Validation.FieldNumberReplaced | src/validation.py:60-62 | after the first replacement, a digit-free field name leaves no trace of the field number |
| Validation.FieldNamesHaveNoDigits | src/validation.py:9-30 | every schema field name is non-empty and digit-free |
| Validation.RecordOf | src/validation.py:56-74 | succeeds exactly when the entry has at least two cells, a field name and a text row id; the record's id, row id, hash, field, cell and note come from the entry, and its message is the entry's message with the field number replaced by the field name and then the row number by the row id |
| Validation.ErrorRecords | src/validation.py:45-77 | succeeds exactly when every entry converts; the k-th record is entry k's, with the k-th fresh id |
| Validation.ErrorRecordsFrom | src/validation.py:45-77 | from a given entry on, succeeds exactly when every later entry converts, record k being entry k's with the k-th fresh id |
| Validation.FirstFailure | src/validation.py:45-77 | the pass fails with the fault of the first entry that cannot be converted |
| Validation.AllConvert | src/validation.py:45-77 | when entry k converts to record k for every k, the pass returns exactly those records |
| Validation.ValidateSpec | src/validation.py:36-79 | on success, no records for an empty batch and otherwise one per report entry |
| Validation.RowIds | src/validation.py:77 | one row id per record, in record order |
| Validation.DataValidate | src/validation.py:36-79 | an empty batch gives no ids and no records; otherwise the records of the report or its first fault, with the id list built in lockstep |
| Validation.Locations | src/validation.py:56-74 | one location per report entry, in report order |
| Validation.ExpectedShape | src/validation.py:7-33 | every expected entry names a row of the batch by its id cell, with a text hash cell and a field |
| Validation.ExpectedAbsent | src/validation.py:7-33 | an id that no row carries is never expected |
| Validation.ExpectedCount | src/validation.py:7-33 | with distinct ids, row k's id is expected once per field it violates |
| Validation.AgreeingReportConverts | src/validation.py:56-74 | a report agreeing with the rule table converts without fault, and its row ids are the report's row cells |
| Validation.ValidationListsViolations | src/validation.py:36-79 | for an agreeing report, row k's id is listed once per violated field, and listed at all exactly when it violates something |
| Db.Store.constructor | src/db.py:12-62 | a fresh database has three empty tables and satisfies both constraints |
| Db.Store.InsertStaging | src/main.py:79 | appends the batch exactly when no id would repeat, otherwise fails with the primary-key violation and changes nothing |
| Db.Store.InsertAnalytic | src/main.py:85-106 | appends the batch exactly when no hash would repeat, otherwise fails with the unique violation and changes nothing |
| Db.Store.ProcessValidation | src/db.py:114-136 | validates the current staging table; on success appends the records and returns their row ids, on a fault writes nothing; staging and analytic are untouched |
| Db.StagingClashPersists | src/db.py:14 | a batch repeating a staged id breaks the primary key |
| Db.FreshIdsAccepted | src/db.py:14 | distinct ids new to staging keep the primary key |
| Db.AnalyticClash | src/db.py:33 | a new row whose hash is already stored breaks the UNIQUE constraint |
| ErrorReport.ValidationReport | src/services.py:19-26 | one entry per stored error, in table order, each as long as its message |
| ErrorReport.ReportEntry | src/services.py:19-26 | entry i is stored message i rewritten: same length, non-quote characters kept, at most one quote left, unchanged without quotes, a fixed point of the rewrite |
| ErrorReport.ReportQuotedSpan | src/services.py:24 | a stored message with a quoted span after quote-free text is listed with the opening quote as `[`, the closing quote as `]` and the text between kept |
| ErrorReport.ReportUnmatchedQuote | src/services.py:24 | a stored message whose only quote has no closing partner is listed unchanged |
| Ingest.NormalizeColumn | src/main.py:45-48 | a normalised column name is never longer than the original |
| Ingest.UnderscoredPointwise | src/main.py:46 | spaces and hyphens become underscores, position by position |
| Ingest.NormalizedShape | src/main.py:45-48 | a normalised column name has no upper-case letter, space or hyphen, is no longer than the original and has no white space at either end |
| Ingest.NormalizeIdempotent | src/main.py:45-48 | normalising a normalised name changes nothing |
| Ingest.NormalizeHeader | src/main.py:45-50 | every column name is normalised, in place |
| Ingest.IndexOf | src/main.py:57-77 | finds the first column with a given name, or none exactly when it is absent |
| Ingest.FirstMissing | src/main.py:59-77 | none exactly when every name is present, otherwise a name that is missing |
| Ingest.MissingUnresolvable | src/main.py:59-77 | a missing business column makes the header unusable |
| Ingest.Positions | src/main.py:59-77 | the position of each business column in a usable header |
| Ingest.ResolveColumns | src/main.py:51-79 | fails exactly when some business column is missing or repeated, or `id` or `hash` is repeated; a missing `store_name` is the `KeyError` of the id attachment, a repeated one the `ValueError` of assigning one id per `store_name` column; otherwise a missing business column is its `KeyError`, and a repeated business column, `id` or `hash` the insert error; on success each business column's position |
| Ingest.AsText | src/main.py:79 | a text column stores NULL as no value, text as it is, an integer in decimal and a float as the engine renders it; a date is the insert error |
| Ingest.AsCount | src/main.py:79 | the quantity column accepts NULL, integers within the `HUGEINT` range, kept as they are, and floats whose rounding is within that range, stored within 0.5 of the float; anything else is the insert error |
| Ingest.RoundHalfEven | src/main.py:79 | the float-to-integer cast: the nearest integer, and the even one at a tie |
| Ingest.RoundingExamples | src/main.py:79 | a whole float keeps its value; 1.5 and 2.5 both become 2 and -0.5 becomes 0 |
| Ingest.AsAmount | src/main.py:79 | a `DOUBLE` column accepts NULL and numbers, keeping the value |
| Ingest.AsDate | src/main.py:43 | the date column accepts NULL and the dates the reader parsed |
| Ingest.TextColumns | src/main.py:79 | succeeds exactly when every text cell of the line converts, and then each value is that cell's `AsText`; otherwise the insert error |
| Ingest.StageRow | src/main.py:51-79 | succeeds exactly when all thirteen business cells convert; the row carries the given id and hash and every business column holds its cell's `AsText`, `AsCount`, `AsAmount` or `AsDate` value; otherwise the insert error |
| Ingest.AllOrNothing | src/main.py:79 | the whole batch when every line converts, otherwise the fault of one line |
| Ingest.StageRows | src/main.py:51-79 | line k becomes row k with the k-th id and its own hash exactly when every line converts; otherwise the insert error |
| Ingest.Prepare | src/main.py:43-79 | a file without the `Date Of Sale` column fails in the reader; on success one row per line, with id k and the hash of line k |
| Ingest.PrepareStages | src/main.py:43-79 | with the date column present, the preparation is the column lookup's fault, or else exactly the conversion of every line by `StageRows` |
| Ingest.EqualLinesEqualHashes | src/main.py:51-56 | lines with the same cells get the same hash |
| Ingest.FreshIdsFit | src/main.py:57 | ids that never repeat and are new to staging give a batch the primary key accepts |
| Ingest.Derive | src/main.py:102-103 | sale price times quantity equals total sales and margin plus rrp equals sale price; each is present exactly when its inputs are present and the quantity is not 0 |
| Ingest.Promote | src/main.py:85-106 | exactly the derived staging rows, from every batch so far, whose id was not flagged |
| Ingest.PromoteKeepsIdsDistinct | src/main.py:85-106 | with distinct staging ids the promoted rows have distinct ids |
| Ingest.PromotesCleanRows | src/main.py:81-106 | for an agreeing report, the promoted rows are exactly the staging rows that break no rule |
| Ingest.RepromotionRefused | src/main.py:85-106 | an unflagged staging row whose hash is already in the analytic table makes the promotion fail |
| Ingest.TwoLineExample | src/main.py:102-105 | of a clean and a flagged line, only the clean one is promoted, with sale price 10 and margin 2 |
| Ingest.Ingest | src/main.py:36-120 | a preparation fault or an id clash changes no table; otherwise the batch is staged and the rest follows `AfterStaging`; received = for review + ingested |
| Ingest.ValidateAndPromote | src/main.py:81-117 | the outcome and the analytic and error tables are exactly those `AfterStaging` describes; the analytic table keeps its UNIQUE constraint |
| Ingest.AfterStaging | src/main.py:81-117 | the counts add up to the rows received, and the analytic table keeps distinct hashes |
| Ingest.FlaggedIdsAreStaged | src/db.py:114-136 | for an agreeing report, every flagged id is a staging row's id |
| Ingest.CleanStagingNotPromoted | src/main.py:83-117 | when every staging row is clean nothing is promoted and the whole batch counts as ingested |
| Ingest.ReviewCountsViolations | src/main.py:108-113 | rows for review count violations, not rows, so a one-line batch breaking two rules reports negative rows ingested |
| Ingest.ResubmittedLineFailsRequest | src/main.py:79-106 | re-uploading a promoted line fails the request on the UNIQUE constraint, after the error records are written |
| Ingest.PromotionClashFails | src/main.py:83-106 | a refused promotion fails the request with the analytic table unchanged and the errors written |
| Quality.StoreIssues | src/services.py:89-101 | each store issue is listed exactly when its condition holds, and nothing else is listed |
| Quality.SupplierIssues | src/services.py:125-137 | each supplier issue is listed exactly when its condition holds, and nothing else is listed |
| Quality.HealthOf | src/services.py:116-118 | no label when the query returned no rows; otherwise good exactly when the listed count is below a tenth of the total |
| Quality.StoreHaving | src/services.py:51-53 | a store with negative values, zero sales above 20% or the volatility issue passes the query's HAVING clause |
| Quality.SupplierHaving | src/services.py:66-68 | a supplier with missing prices or zero sales above 20%, or fewer than three stores, passes the query's HAVING clause |
| Quality.StoreNullsNotListed | src/services.py:44-95 | a store whose only issue is a NULL share above 20% fails the HAVING clause, so it is never listed |
| Quality.StoreListedWithoutIssues | src/services.py:51-101 | the query's 10% threshold lets through a store that gets no issue at the 20% threshold |
| Quality.SupplierListedWithoutIssues | src/services.py:66-137 | the same gap exists between the supplier query's 15% and the issue check's 20% |
| Quality.ZeroAverageNotFlagged | src/services.py:53-100 | a zero average price passes the query's volatility test but never gets the volatility issue |
| Quality.QualityReport | src/services.py:29-173 | one entry per query row with its issues; counts, percentages and health labels as stated; a NULL name or an empty staging table is a fault |
| Promotion.UpperCaseBrandMatchesNothing | src/services.py:199 | a brand with an upper-case letter matches no lower-cased supplier |
| Promotion.LinesFor | src/services.py:197-199 | exactly the rows with both prices whose supplier contains the brand |
| Promotion.IsPromo | src/services.py:189 | a sale is promotional exactly when its discount from the recommended price is at least 10% of that price |
| Promotion.IsBaseline | src/services.py:191 | a sale is baseline exactly when its discount from the recommended price is at most 10% of that price |
| Promotion.ClassificationCovers | src/services.py:189-191 | every sale is promotional or baseline, and exactly the sales at 90% are both |
| Promotion.UnitsCounted | src/services.py:189-191 | promotional plus baseline units equal all units plus, once more, the units sold at exactly 90% |
| Promotion.PromoTransactions | src/services.py:196 | never more promotional transactions than lines |
| Promotion.GroupRow | src/services.py:186-201 | a group appears exactly when it has promotional and baseline units; it then carries the group's description, section, promotional and baseline units and promotional transactions, and its uplift times the baseline units is the excess of promotional over baseline units, in percent, so it is positive or negative exactly when promotional units exceed or fall short of baseline units |
| Promotion.Kept | src/services.py:212-226 | without a minimum uplift every row is kept |
| Promotion.KeptMembers | src/services.py:216 | a row is kept exactly when it passes the minimum-uplift filter |
| Promotion.Entries | src/services.py:217-226 | one entry per kept row, in order |
| Promotion.InsertSorted | src/services.py:228 | inserting into a sorted list keeps it sorted |
| Promotion.InsertPermutes | src/services.py:228 | inserting adds exactly the new entry |
| Promotion.SortByUplift | src/services.py:228 | the sort returns the same entries, as a multiset, highest uplift first |
| Promotion.InsertStable | src/services.py:228 | inserting keeps the order of existing entries with equal uplift |
| Promotion.SortStable | src/services.py:228 | the sort is stable: entries with equal uplift keep their order |
| Promotion.SignCountsBounded | src/services.py:245-246 | positive and negative counts together never exceed the entries |
| Promotion.SortKeepsTotals | src/services.py:228-246 | sorting changes none of the summary's sums and counts |
| Promotion.Top | src/services.py:248 | the first ten entries, or all, in order |
| Promotion.Poor | src/services.py:249 | the last ten entries, or all, in reverse order |
| Promotion.TopAndPoor | src/services.py:248-249 | on the sorted list, the top performers are the ten highest and the poor performers the ten lowest, lowest first |
| Promotion.OverallUplift | src/services.py:239-243 | 0 without baseline units; otherwise the relative excess of promotional over baseline units, in percent |
| Promotion.AverageUplift | src/services.py:232 | 0 for no entries; otherwise the mean uplift |
| Promotion.SummaryOf | src/services.py:230-247 | the number of entries; the unit totals are the sums of the entries' promotional and baseline units; the overall uplift times the baseline total is the excess of the promotional total in percent, 0 without baseline units; the average times the count is the sum of uplifts; the sign counts are the numbers of entries with a positive and with a negative uplift, and never exceed the entries together |
| Promotion.SignCounts | src/services.py:244-245 | the recursive sign counts equal the sizes of the sets of positions whose uplift is above and below 0 |
| Promotion.PromotionReportOf | src/services.py:176-250 | no data when the query returned nothing; otherwise top, poor and summary of the filtered entries sorted by uplift, or a fault when a kept row lacks a name |
| Promotion.NothingKept | src/services.py:228-249 | when the filter keeps nothing the report has no performers and zero uplift figures |
| Pricing.PositionOf | src/services.py:322-327 | discount below 90, premium above 105, market in between, both ends included |
| Pricing.CompetitivenessOf | src/services.py:358-360 | competitive within 90 to 105, premium above, discount below |
| Pricing.VerdictMatchesBands | src/services.py:322-360 | the verdict on the average uses the same bands as a single row's position |
| Pricing.CountAt | src/services.py:349-357 | a position count never exceeds the entries |
| Pricing.PositionCountsAddUp | src/services.py:349-357 | the three position counts add up to the number of segments |
| Pricing.SumIndexBounds | src/services.py:341 | indices within bounds give a sum within count times the bounds |
| Pricing.SumIndexStrict | src/services.py:341 | indices strictly beyond a bound give a sum strictly beyond count times it |
| Pricing.AverageIndex | src/services.py:341 | the average times the count is the sum of the indices |
| Pricing.UniformSegmentsVerdict | src/services.py:322-360 | segments all in one band give the matching verdict |
| Pricing.PricingReportOf | src/services.py:253-362 | no data exactly when the query returned nothing; otherwise one positioned entry per row, the last row's supplier, the three counts, the average and its verdict |

## Left out

- The HTTP layer is not modelled: FastAPI routing, response serialisation, and the conversion of every exception (including the 204 "no data") into a 500 response, `src/main.py:119-167`.
- CSV parsing is not modelled. The upload arrives as a header and rows of typed cells, as the reader would produce them; `Ingest.AsDate` takes the reader's date parsing as given.
- SHA-256, uuid7 and the validation library are parameters (`hasher`, `rowId`/`errorId`, `validate`). The library's message texts and its error order are not modelled; `Validation.ReportAgrees` is a hypothesis about the library, not a fact proved.
- Validation.Violates: the date rule is "not after today". The schema passes the uncalled method `datetime.now(UTC).date` as the maximum (`src/validation.py:29`), and what the library makes of that is outside the model.
- SQL execution is not modelled: the grouping and aggregation of the quality, promotion and pricing queries. The quality and pricing reports start from the query results. The promotion report models the promotion query's row filter and one group's arithmetic (`Promotion.LinesFor`, `Promotion.GroupRow`), but not the grouping itself.
- Pricing.PricingReportOf: the pricing query hard-codes the brand `'bidco'` (`src/services.py:281`, `297`) and ignores the parameter. Its join and averages are not modelled; the brand parameter appears only in the no-data fault.
- Rounding is not modelled: `ROUND(…, 2)` in the promotion query and `round(…, 2)` in the quality, promotion and pricing summaries. Results are stated exactly, as products, so DuckDB's and Python's division are not modelled either.
- Quality.QualityReport: the issue texts are reduced to the counts they quote, and the distinct store and supplier counts are inputs.
- `str.lower` and `str.strip` are modelled on ASCII letters and the ASCII and Latin-1 white-space characters only; Unicode case mapping is left out.
- Promotion.SortByUplift: the in-place `list.sort` is modelled on values, as a stable insertion sort; it does not capture update in place.
- Database connection handling (`DuckDB` context manager, `read_query`, `run_query`) is not modelled; each table is a sequence of rows in insertion order.
- Duplicated uploads: a re-uploaded line that was already promoted is neither held for review nor skipped. The new copy is flagged for its repeated hash, the promotion offers the earlier clean copy again, and the request fails on the UNIQUE constraint of `duck_store` after the error records are written. The model follows the code (`Ingest.ResubmittedLineFailsRequest`).
- Ingest.AsText: a date in a text column is the insert error. Dates come only from the date column, so the engine's rendering of a date as text is not modelled. The engine's rendering of a float as text is the parameter `render`.
- Ingest.AsCount: a text cell in the quantity column is the insert error; the engine's parse of text as a number is not modelled.
- Ingest.AsAmount: a text cell in `total_sales` or `rrp` is the insert error; the engine's parse of text as a number is not modelled.
- Ingest.AsDate: a text cell in the date column, which the reader leaves when it cannot parse a date, is the insert error; the engine's parse of text as a date is not modelled.
- A quantity of 0 passes validation, as the schema's `minimum: 0` says; the derived sale price and margin are then NULL (`Ingest.Derive`). The model does not treat it as a violation.
