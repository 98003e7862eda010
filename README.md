# news-service, modelled in Dafny

This project models the core of the news service (Go): a JSON API and a gRPC
service over one table of news items. The model covers:

- the rules an item must meet before it is stored (`ValidateNews`);
- the versioned table behind `NewsModel`, where an update is conditional on the
  version the caller read and bumps it by one;
- the list query: filters, the `ORDER BY <column> <direction>, id ASC` order,
  `LIMIT`/`OFFSET` paging and the pagination metadata;
- the query-string readers and the `Runtime` JSON codec;
- the per-client rate-limit table of the HTTP middleware;
- the decisions of the HTTP and gRPC handlers: which response each request
  gets and which statement reaches the table.

Modules, one per concern:

| module | file | models |
|---|---|---|
| `Wrappers` | wrappers.dfy | `Option` and `Result` for Go's nil references and `(value, error)` pairs |
| `Text` | text.dfy | the parts of `strings` and `strconv` the service uses: `Split`, `TrimPrefix`, `FormatInt`, `ParseInt`, the byte length `len` reports |
| `Validation` | validator.dfy | the validator: an error map, `Check`, `AddError`, `Valid`, `PermittedValue`, `Unique` |
| `Filters` | filters.dfy | internal/data/database/filters.go |
| `NewsRecord` | news.dfy | `News` and `ValidateNews` of internal/data/news.go |
| `NewsOrder` | ordering.dfy | the listing order of `GetAll` |
| `NewsStorage` | store.dfy | `NewsModel` and `MockNewsModel` of internal/data/news.go, and the error values of models.go |
| `RateLimit` | ratelimit.dfy | `rateLimit` in cmd/api/middleware.go, with `net.SplitHostPort` |
| `RuntimeCodec` | runtime.dfy | internal/data/database/runtime.go |
| `RequestParams` | helpers.dfy | `readIDParam`, `readString`, `readCSV` and `readInt` of cmd/api/helpers.go |
| `HttpNews` | http_news.dfy | the handlers of cmd/api/news.go |
| `GrpcNews` | grpc_news.dfy | the handlers of internal/data/grpc_service/news/news_grpc_handler.go |

How the environment is represented:

- **The table.** It is a class over `map<int, News>` plus the id sequence's
  next value.
- **Database clock.** Every statement takes the clock's reading `now` as a
  parameter wherever the SQL calls `now()`.
- **Database failures.** A flag `fault` stands for a failing connection, the
  3-second timeout or a constraint violation.
- **Full-text title match.** `to_tsvector @@ plainto_tsquery` is a
  `matcher` parameter.
- **Concurrent writer.** Another request that writes between the update
  handler's read and its write is a parameter `concurrent`: either an update
  of some item (`Put`) or a delete of some id (`Remove`).
- **Request bodies.** A decoded body is an `Option` that is `None` when
  `readJSON` fails.
- **Responses.** Handlers return a response value rather than writing bytes.

## Model

| member | source | states |
|---|---|---|
| `Filters.OffsetOfValidFilters` | internal/data/database/filters.go:17-22 | for validated filters the LIMIT is at least 1, the OFFSET is not negative, and it is exactly page-1 whole pages (a multiple of the page size) |
| `Filters.SortColumn` | internal/data/database/filters.go:26-33 | the search yields a column exactly when the key is in the safelist, and that column is the key with its one leading "-" removed; the panic is the `None` outcome |
| `Filters.SortDirection` | internal/data/database/filters.go:37-42 | descending exactly when the key starts with "-" |
| `Filters.FilterChecksPass` | internal/data/database/filters.go:44-53 | no check fails iff 1 <= page <= 10,000,000, 1 <= page_size <= 100 and the sort key is in the safelist |
| `Filters.ValidateFilters` | internal/data/database/filters.go:44-53 | the validator ends with its old errors plus exactly the keys of the failing checks, and is valid iff it was valid and the filters are within bounds |
| `Filters.CeilDivBounds` | internal/data/database/filters.go:79 | the integer ceiling q of a/b is at least 1 and satisfies (q-1)*b < a <= q*b |
| `Filters.CalculateMetadata` | internal/data/database/filters.go:70-81 | no records give the all-zero metadata; otherwise current page, size, first page 1 and total are copied, and the last page is the fewest pages that hold every record |
| `Filters.LastPageUnique` | internal/data/database/filters.go:79 | any page count between those bounds is the last page the function computes, so it is the ceiling of total / page size |
| `Filters.TwelveRecordsInPagesOfFive` | internal/data/database/filters.go:64-69 | 12 records in pages of 5 give last page 3 |
| `Validation.Validator.constructor` | cmd/api/news.go:36 | a new validator holds no error |
| `Validation.Validator.Valid` | cmd/api/news.go:37 | valid iff the error map is empty |
| `Validation.Validator.AddError` | cmd/api/helpers.go:147 | records the message under the key unless the key already has one |
| `Validation.Validator.Check` | internal/data/news.go:28 | records an error exactly when the condition is false |
| `Validation.RecordAllAppend` | internal/data/news.go:27-44 | running two runs of checks one after the other is running their concatenation |
| `Validation.NoFailedKeysIffAllPass` | internal/data/news.go:27-44 | no key fails iff every check passes |
| `Validation.RecordAllKeys` | internal/data/news.go:27-44 | a run of checks adds exactly the keys of the failing checks and drops none |
| `Validation.RecordAllEmpty` | cmd/api/news.go:36-40 | after a run of checks the map is empty iff it was empty before and every check passed |
| `Validation.ValueSet` | internal/data/news.go:36 | the set holds exactly the values of the list |
| `Validation.UniqueIffNoDuplicates` | internal/data/news.go:36 | `Unique`, counted as set size equal to length, holds iff no value occurs twice |
| `NewsRecord.FieldChecksInOrder` | internal/data/news.go:28-39 | the bridge between the eight `Check` calls and the check list: running the list is the eight calls one after another, in source order |
| `NewsRecord.ImageChecksApplied` | internal/data/news.go:41-43 | the image URL is checked only when it is present |
| `NewsRecord.ValidPassesChecks` | internal/data/news.go:27-44 | a valid item passes every check |
| `NewsRecord.PassingChecksValid` | internal/data/news.go:27-44 | an item that passes every check is valid |
| `NewsRecord.NewsChecksPass` | internal/data/news.go:27-44 | no check fails iff the title is non-empty and at most 500 bytes, the content is non-empty, there are 1 to 10 distinct categories, the status is DRAFT, PUBLISHED or ARCHIVED, and an image URL, when given, is at most 1000 bytes |
| `NewsRecord.NewsErrorKeys` | internal/data/news.go:28-42 | errors are reported only under title, content, categories, status and image_url |
| `NewsRecord.NewsValidationOutcome` | internal/data/news.go:27-44 | validation adds exactly the failing keys, and leaves no error iff the map was clean and the item is valid |
| `NewsRecord.ValidateNews` | internal/data/news.go:27-44 | the validator ends holding the result of running the news checks in order on its old errors |
| `NewsOrder.CompareKeysProperties` | internal/data/news.go:165 | key comparison is zero exactly for equal keys and is antisymmetric |
| `NewsOrder.CompareKeysTransitive` | internal/data/news.go:165 | key comparison is transitive |
| `NewsOrder.DirectedProperties` | internal/data/news.go:165 | the comparison in either direction is zero exactly for equal keys and is antisymmetric |
| `NewsOrder.DirectedTransitive` | internal/data/news.go:165 | the comparison in either direction is transitive |
| `NewsOrder.BeforeIrreflexive` | internal/data/news.go:165 | no row is listed before itself |
| `NewsOrder.BeforeTransitive` | internal/data/news.go:165 | the listing order is transitive |
| `NewsOrder.BeforeTotal` | internal/data/news.go:165 | the id tie-break orders any two rows with different ids |
| `NewsOrder.BeforeAsymmetric` | internal/data/news.go:165 | two rows are never listed each before the other |
| `NewsOrder.InsertRow` | internal/data/news.go:165 | inserting a row adds exactly that row |
| `NewsOrder.SortRows` | internal/data/news.go:165 | sorting is a permutation of the rows |
| `NewsOrder.InsertRowSorted` | internal/data/news.go:165 | inserting a row with a new id into a sorted list keeps it sorted |
| `NewsOrder.SortRowsSorted` | internal/data/news.go:165 | rows with distinct ids come out sorted by the column in the direction, ties broken by ascending id |
| `NewsOrder.SortedHeadsAgree` | internal/data/news.go:165 | two sorted arrangements of the same rows start with the same row |
| `NewsOrder.SortedUnique` | internal/data/news.go:165 | two sorted arrangements of the same rows are equal, so the order fixes one page for every offset |
| `NewsStorage.UpdateOutcome` | internal/data/news.go:102-131 | the conditional update succeeds iff the row exists with the caller's version; then the version goes up by one, id and created_at stay, the five editable fields come from the caller, updated_at is now and no other row changes; otherwise it is an edit conflict that leaves the table as it was |
| `NewsStorage.RacingUpdates` | internal/data/news.go:104-126 | of two updates that read the same version, at most the first succeeds; the second is an edit conflict that changes nothing |
| `NewsStorage.RetryAfterConflict` | internal/data/news.go:104-130 | an update carrying the version just read from the table succeeds |
| `NewsStorage.DeleteThenGet` | internal/data/news.go:133-156 | delete succeeds iff get would find the row; afterwards get finds nothing under that id, every other id reads as before, and a failed delete changes nothing |
| `NewsStorage.InsertThenGet` | internal/data/news.go:51-63 | the next id is unused; after the insert, get returns the new row under it with version 1 and equal timestamps, and every other id reads as before |
| `NewsStorage.StatementsKeepTableValid` | internal/data/news.go:102-156 | update and delete keep every row under its own id below the id sequence |
| `NewsStorage.RowsBelowContents` | internal/data/news.go:160-161 | the scan holds exactly the stored rows below the bound, in ascending id order |
| `NewsStorage.Filter` | internal/data/news.go:162-164 | a row is kept iff it passes the title, categories (superset) and status filters; distinct ids stay distinct |
| `NewsStorage.WindowSize` | internal/data/news.go:166 | a page holds min(limit, rows left after the offset) rows, taken in order from the offset |
| `NewsStorage.ListingProperties` | internal/data/news.go:159-166 | the listing is sorted and holds exactly the stored rows that match the filters |
| `NewsStorage.WindowSorted` | internal/data/news.go:165-166 | a page of a sorted listing is sorted and holds only listed rows |
| `NewsStorage.PageProperties` | internal/data/news.go:158-171 | a page holds at most `limit` rows, in listing order, each a stored row that matches the filters |
| `NewsStorage.PastLastPage` | internal/data/news.go:178-205 | a page that starts past the last match is empty and carries the empty metadata |
| `NewsStorage.NewsModel.constructor` | internal/data/database/models.go:34-38 | a new table is empty and its id sequence starts at 1 |
| `NewsStorage.NewsModel.Insert` | internal/data/news.go:51-63 | adds one row under the next id with version 1 and created_at = updated_at = now, leaves every existing row, and writes id, created_at and version back into the caller's record |
| `NewsStorage.NewsModel.Get` | internal/data/news.go:66-99 | an id below 1 is not found without a lookup; otherwise it returns the stored row, or not found when there is none |
| `NewsStorage.NewsModel.Update` | internal/data/news.go:102-131 | the table becomes the conditional update's result; on success the caller's record gets the new version |
| `NewsStorage.NewsModel.Delete` | internal/data/news.go:133-156 | an id below 1 or a missing row is not found and changes nothing; otherwise exactly that row goes |
| `NewsStorage.NewsModel.GetAll` | internal/data/news.go:158-208 | refuses an unsortable column and a negative limit or offset; otherwise returns the page at the offset of the sorted, filtered listing, and metadata for the full match count only when the page is not empty |
| `NewsStorage.MockNewsModel.Insert` | internal/data/news.go:212-214 | succeeds and leaves the record as given |
| `NewsStorage.MockNewsModel.Get` | internal/data/news.go:216-218 | returns neither a row nor an error |
| `NewsStorage.MockNewsModel.Update` | internal/data/news.go:220-222 | succeeds and leaves the record as given |
| `NewsStorage.MockNewsModel.Delete` | internal/data/news.go:224-226 | succeeds |
| `NewsStorage.MockNewsModel.GetAll` | internal/data/news.go:228-230 | returns no rows, the empty metadata and no error |
| `RateLimit.SplitHostPortPlain` | cmd/api/middleware.go:70 | "host:port" with no colon or bracket in either part splits back into host and port |
| `RateLimit.SplitHostPortBracketed` | cmd/api/middleware.go:70 | "[host]:port" splits back into the host (which may hold colons) and the port |
| `RateLimit.SplitHostPortMissingPort` | cmd/api/middleware.go:70-74 | an address without a colon is refused |
| `RateLimit.Fresh` | cmd/api/middleware.go:77-80 | a new limiter's bucket is within its bounds |
| `RateLimit.AllowKeepsBucketValid` | cmd/api/middleware.go:83 | `Allow` keeps the bucket within 0..burst tokens, admits iff a whole token has built up, and then takes exactly one |
| `RateLimit.AdmittedAtOnce` | cmd/api/middleware.go:83 | a bucket holding k tokens admits min(n, k) of n simultaneous requests |
| `RateLimit.FreshBurst` | cmd/api/middleware.go:79-83 | a new client may make `burst` requests at once and no more |
| `RateLimit.SurvivesSweep` | cmd/api/middleware.go:57-61 | a client seen at t is kept, unchanged, by any sweep up to three minutes later |
| `RateLimit.IdleIsSwept` | cmd/api/middleware.go:58-59 | a client idle for more than three minutes is removed |
| `RateLimit.SweepMonotone` | cmd/api/middleware.go:57-61 | a second sweep at the same time removes nothing more, and a later sweep keeps only clients an earlier one kept |
| `RateLimit.RateLimiter.constructor` | cmd/api/middleware.go:44-48 | the client table starts empty |
| `RateLimit.RateLimiter.Handle` | cmd/api/middleware.go:67-91 | disabled, it forwards and leaves the table; an address without a port is a server error that leaves the table; otherwise the client gets a full bucket if new, its lastSeen becomes now whether or not it is admitted, the bucket decides between forwarding and refusing, and no other entry changes |
| `RateLimit.RateLimiter.Sweep` | cmd/api/middleware.go:57-61 | removes exactly the clients idle for more than three minutes; every other entry keeps its limiter and lastSeen |
| `RateLimit.HandledClientSurvives` | cmd/api/middleware.go:82 | a client entry written at t survives every sweep up to three minutes later |
| `RuntimeCodec.MarshalJSON` | internal/data/database/runtime.go:21-29 | the output is the decimal value followed by " mins", in double quotes |
| `RuntimeCodec.Unquote` | internal/data/database/runtime.go:40 | only text in matching double quotes or back quotes unquotes |
| `RuntimeCodec.UnquoteOfQuote` | internal/data/database/runtime.go:26-40 | unquoting what `Quote` wrote gives the text back |
| `RuntimeCodec.UnmarshalJSON` | internal/data/database/runtime.go:35-66 | on any error the receiver keeps its value; text that does not unquote is an invalid runtime format |
| `RuntimeCodec.UnmarshalAccepts` | internal/data/database/runtime.go:46-65 | a space-free int32 number followed by " mins" is accepted and becomes the value |
| `RuntimeCodec.UnmarshalOnlyAccepts` | internal/data/database/runtime.go:40-65 | every accepted input unquotes to a space-free number followed by " mins", and the value is that number |
| `RuntimeCodec.RoundTrip` | internal/data/database/runtime.go:21-65 | unmarshalling what `MarshalJSON` wrote gives every int32 value back, whatever the receiver held |
| `RuntimeCodec.RejectsUnlessOneSpace` | internal/data/database/runtime.go:46-52 | text without exactly one space ("5  mins", "mins") is refused |
| `RuntimeCodec.RejectsWrongUnit` | internal/data/database/runtime.go:46-52 | a unit other than "mins" ("5 min") is refused |
| `Text.TrimPrefix` | internal/data/database/filters.go:29 | a leading "-" is removed and nothing else changes |
| `Text.Split` | cmd/api/helpers.go:129 | splitting yields at least one piece |
| `Text.JoinOfSplit` | cmd/api/helpers.go:129 | the pieces joined with the separator give the input back |
| `Text.SplitPiecesFree` | cmd/api/helpers.go:129 | no piece holds the separator |
| `Text.SplitLength` | cmd/api/helpers.go:129 | there is one piece more than there are separators |
| `Text.SplitOfJoin` | cmd/api/helpers.go:129 | splitting undoes joining of separator-free pieces |
| `Text.FormatInt` | cmd/api/news.go:49 | the decimal text is digits with an optional leading minus |
| `Text.ParseInt` | cmd/api/helpers.go:23 | an accepted number lies in the signed range of the width |
| `Text.ParseIntOfFormatInt` | cmd/api/helpers.go:23 | parsing the decimal text of any value of the width gives it back |
| `Text.FormatIntInjective` | cmd/api/news.go:100 | different numbers print differently |
| `Text.Utf8LenBounds` | internal/data/news.go:29 | the byte length lies between the character count and four bytes per character, and equals the count for ASCII |
| `Text.StrLessIrreflexive` | internal/data/news.go:165 | no text sorts before itself |
| `Text.StrLessTransitive` | internal/data/news.go:165 | text order is transitive |
| `Text.StrLessAsymmetric` | internal/data/news.go:165 | two texts never sort each before the other |
| `Text.StrLessTotal` | internal/data/news.go:165 | of two different texts one sorts first |
| `RequestParams.ReadIDParam` | cmd/api/helpers.go:21-28 | every error comes with id 0 and "invalid id parameter" |
| `RequestParams.ReadIDParamAccepts` | cmd/api/helpers.go:23-27 | the id is read iff the parameter is a base-10 int64 of at least 1, and then it is that number |
| `RequestParams.ReadIDParamOfFormatInt` | cmd/api/helpers.go:21-28 | the decimal text of any positive int64 reads back as that id |
| `RequestParams.ReadString` | cmd/api/helpers.go:106-116 | the default when the value is empty or missing, otherwise the value as given |
| `RequestParams.ReadCSVPieces` | cmd/api/helpers.go:121-130 | the default on an empty value; otherwise comma-free pieces, one more than the commas, that join back into the value |
| `RequestParams.ReadCSVOfJoin` | cmd/api/helpers.go:121-130 | a list of comma-free entries written with commas reads back as that list |
| `RequestParams.ReadInt` | cmd/api/helpers.go:136-152 | an empty value gives the default and no error; a non-integer gives the default and records "must be an integer value" under the key; an integer is returned and the validator is left as it was |
| `HttpNews.LocationNamesItem` | cmd/api/news.go:48-49 | the Location is "/v1/news/" followed by text that reads back as the new id |
| `HttpNews.CreateNews` | cmd/api/news.go:13-55 | an undecodable body is a bad request, an invalid item a failed validation with the checks' errors, and neither touches the table; only a valid item is inserted, and the response carries it as Insert wrote it back, with its Location |
| `HttpNews.ShowNews` | cmd/api/news.go:57-79 | a bad id or a missing row is not found, a failing database a server error, otherwise the stored item |
| `HttpNews.VersionHeaderIff` | cmd/api/news.go:99-104 | no header never conflicts, and a header naming version w conflicts iff w is not the stored version |
| `HttpNews.MergeFields` | cmd/api/news.go:120-134 | each editable field is overwritten iff the body gives it; id, timestamps and version stay; merging twice equals merging once, and an empty body changes nothing |
| `HttpNews.HandlerUpdateRace` | cmd/api/news.go:142-151 | without a concurrent writer the handler's update succeeds; after another update that read the same version, or after a delete of the same row, the conditional update finds no row and it is an edit conflict |
| `HttpNews.ApplyBody` | cmd/api/news.go:120-134 | the field-by-field overwrite gives the merge |
| `HttpNews.SaveMerged` | cmd/api/news.go:136-156 | an invalid merge is a failed validation that leaves the table; a valid one goes through the conditional update: a conflict response when it loses, the item with its new version when it wins |
| `HttpNews.UpdateNews` | cmd/api/news.go:81-157 | a bad id or missing row is not found and a failing read a server error; a mismatching X-Expected-Version is a conflict before the body is read; then the merge is validated and written, and nothing reaches the table unless it is valid |
| `HttpNews.DeleteNews` | cmd/api/news.go:159-181 | a bad id or a missing row is not found, a failing database a server error; otherwise exactly that row goes |
| `HttpNews.ListDefaults` | cmd/api/news.go:194-200 | an empty query lists page 1 of 20 by id and is accepted; every accepted sort key names a sortable column and gives a positive limit and a non-negative offset |
| `HttpNews.ListErrorKeys` | cmd/api/news.go:194-206 | a refused listing's errors are under "page" or "page_size" exactly for the number that does not parse, plus "page", "page_size" or "sort" for each failing filter bound |
| `HttpNews.ListNews` | cmd/api/news.go:183-217 | a failed validation iff a number does not parse or the filters are out of bounds, carrying the errors of the two readings and the filter checks with exactly those keys; otherwise the page and metadata of the listing, or a server error |
| `GrpcNews.ConvertNewsToPBRoundTrip` | internal/data/grpc_service/news/news_grpc_handler.go:157-173 | no item gives the empty message; an item's message holds both timestamps and gives the item back, so every field is copied |
| `GrpcNews.Int32Wrap` | internal/data/grpc_service/news/news_grpc_handler.go:147-151 | the conversion lands in the int32 range and is congruent to the input modulo 2^32 |
| `GrpcNews.Int32WrapInRange` | internal/data/grpc_service/news/news_grpc_handler.go:147-151 | a value already in range is kept |
| `GrpcNews.LastPageAtMostTotal` | internal/data/database/filters.go:79 | the last page never exceeds the number of records |
| `GrpcNews.MetadataFitsInt32` | internal/data/grpc_service/news/news_grpc_handler.go:146-152 | for validated filters and fewer than 2^31 matches the metadata is copied field by field without wrapping |
| `GrpcNews.NewsOfCreateRequest` | internal/data/grpc_service/news/news_grpc_handler.go:29-35 | the image URL is always set, to "" when it was left out |
| `GrpcNews.CreateNews` | internal/data/grpc_service/news/news_grpc_handler.go:28-49 | an invalid item is "invalid input data" and leaves the table; a valid one is inserted and returned as Insert wrote it back; a store error is passed through |
| `GrpcNews.ShowNews` | internal/data/grpc_service/news/news_grpc_handler.go:51-58 | the stored item, or the store's error as it is |
| `GrpcNews.GrpcMergeFields` | internal/data/grpc_service/news/news_grpc_handler.go:71-86 | title, content, status and image change iff present; categories are replaced only by a non-empty list, so an item's categories are never emptied; id, timestamps and version stay |
| `GrpcNews.ApplyRequest` | internal/data/grpc_service/news/news_grpc_handler.go:71-86 | the field-by-field overwrite gives the merge |
| `GrpcNews.SaveRequest` | internal/data/grpc_service/news/news_grpc_handler.go:88-98 | an invalid merge leaves the table; a valid one goes through the conditional update, and its outcome or error is returned |
| `GrpcNews.UpdateNews` | internal/data/grpc_service/news/news_grpc_handler.go:60-99 | a failing read passes its error through; a version other than the stored one is Aborted before any field is applied; an invalid merge is "invalid input data"; otherwise the row is updated with the next version |
| `GrpcNews.DeleteNews` | internal/data/grpc_service/news/news_grpc_handler.go:101-107 | the store's error as it is, or the empty reply after exactly that row goes |
| `GrpcNews.GrpcFiltersDefaults` | internal/data/grpc_service/news/news_grpc_handler.go:110-129 | page <= 0 becomes 1 and page size <= 0 becomes 20, positive values stay, so over-limit values and an empty sort are still refused |
| `GrpcNews.ListNews` | internal/data/grpc_service/news/news_grpc_handler.go:109-155 | refused iff the filters are invalid; otherwise one message per listed row, in order, and the metadata copied into int32 fields |
| `GrpcNews.ConvertAll` | internal/data/grpc_service/news/news_grpc_handler.go:141-144 | the append loop converts every row, one for one and in order |

## Left out

- The `Models.News` interface (internal/data/database/models.go:16-22) is not a Dafny trait. `NewsModel` and `MockNewsModel` are two classes with the same operations, and the handlers are written against `NewsModel`.
- SQL execution is not modelled. Neither are the 3-second context timeouts, the connection pool, or the consistency of `count(*) OVER()` under concurrent writes. Each failure is the `fault` flag.
- The database clock is the `now` parameter.
- Full-text title matching is the `matcher` parameter: a title filter of "" always matches, any other delegates to it.
- Text columns are ordered by code point; the database's collation is not part of this model. `categories` and `image_url` are not sortable columns.
- `NewsRecord.ValidateNews`: a nil and an empty categories list are the same empty sequence. An item without categories reports "must contain at least 1 categories" under "categories", never "must be provided". The set of failing keys is the same.
- `GrpcNews.ListNews`: the replacement of nil categories by an empty list is the identity here, for the same reason.
- `Validation.Validator.AddError`: the validator package (internal/validator) is not part of this model. `AddError` keeps the first message for a key. The properties about validity and error keys do not depend on that choice.
- `NewsStorage.NewsModel.Update`: the int32 version column is an unbounded integer, so an overflow after 2^31 updates is not modelled.
- `NewsStorage.NewsModel.GetAll`: the offset `(page-1)*page_size` is an unbounded integer. Go's `int` cannot overflow for validated filters anyway.
- `RequestParams.ReadInt`: `strconv.Atoi` is modelled as base-10 `ParseInt` with 64 bits, the width of `int` on a 64-bit platform.
- `RuntimeCodec.Unquote`: only double-quoted text without escape sequences and back-quoted text are modelled. Text with a backslash escape is refused, although Go's `strconv.Unquote` would decode it. A quoted rune literal is refused too; its one character could never pass the format check.
- `RateLimit.Allow`: `rate.Limiter` is an integer token bucket, with tokens counted in billionths and time in nanoseconds. The rate is a whole number of requests per second. No refill timing is claimed beyond "whole tokens admit requests".
- `net.SplitHostPort` follows Go's checks for colons and brackets. IPv6 zones are just text.
- The mutex, the background goroutine and its one-minute `time.Sleep` in `rateLimit` are left out. A sweep is the explicit `Sweep(now)` method; calls are assumed not to interleave.
- `GrpcNews.UpdateNews`: no writer is modelled between the handler's read and its write, so the store's edit conflict is never reached here. `HttpNews.UpdateNews` models that race with its `concurrent` parameter.
- `recoverPanic`, `readJSON` and `writeJSON` are Go panic recovery, JSON decoding and response writing. A failed body decode is the `None` body; a failing response write is left out.
- Protobuf timestamps are the clock values themselves.
- The generated gRPC stubs, `main`, the router, the gRPC server setup and the JSON logger are plumbing and are not modelled.
