# EcoShopper scan backend, modelled in Dafny

This project models the computable part of the EcoShopper demo backend. The
backend takes a scanned barcode, trims it and rejects it when nothing is
left. It looks the barcode up in a fixed enrichment table and fabricates a
manufacture date, an expiry date and a sustainability rating. Then it
persists the record and answers with it. A history endpoint lists the most
recently persisted scans.

Modules, one per concern of `main.py` and its two helper files:

- `Calendar` (calendar.dfy) covers date arithmetic. It has the Gregorian
  leap-year rule and the month-length table of `add_months`. It has
  `AddMonths` itself: floor-division carry of months into years, then the day
  clamped to the target month. It also has whole-day subtraction
  (`now - timedelta(days=n)`), specified by the date's day number, with
  0001-01-01 as day 1.
- `Text` (text.dfy) has `Strip`, the string `strip()` with its full set of
  whitespace characters. Like the library, it scans forward for the first
  non-whitespace character and backward for the last one.
- `Enrichment` (enrichment.dfy) has the `MOCK_DB` table and the exact-match
  lookup with its fallback triple.
- `Fabrication` (fabrication.dfy) has `random_in_past_months` and the expiry
  rule `add_months(mfg, 12 + k)`. The random draws and the clock are
  parameters, and their ranges are preconditions.
- `Schemas` (schemas.dfy) has the persisted document, the stored document
  with its identifier, and the response record with optional fields.
- `Store` (store.dfy) is the document store as the service sees it. Insert
  appends the document with the identifier the store assigns. Find returns
  the newest documents first, cut to the limit.
- `Scan` (scan.dfy) has `scan_product` and `history` as pure functions over
  the stored collection, plus the lemmas that connect them. The history
  endpoint's default limit is 25.

The model follows the code: the history limit is handed to the database driver unchanged. So a
limit of 0 returns every document and a negative limit counts by its
absolute value. A failed write in the scan request is not caught by the
code. It reaches the caller as a server error, and the model reports it as
`StoreUnavailable` with status 500.

## Model

| member | source | states |
|---|---|---|
| `Calendar.IsLeapYear` | main.py:43 | a year is a leap year when it is divisible by 4, except that century years are leap years only when divisible by 400 |
| `Calendar.DaysInMonth` | main.py:43 | every month has 28 to 31 days, and only February has fewer than 30. February has 29 days exactly in leap years. The 30-day months are April, June, September and November |
| `Calendar.AddMonths` | main.py:38-44 | the result is a valid date-time and its month index (year*12 + month-1) is the input's plus `months`. Its day is at most the input's day and at most the target month's length, and equals one of them. The time of day is unchanged. The requires clause holds exactly when the resulting year lies in 1..9999 |
| `Calendar.AddMonthsUnique` | main.py:40-44 | any valid date-time with the shifted month index, the day `min(d.day, month length)` and the same time of day equals `AddMonths(d, months)` |
| `Calendar.AddMonthsKeepsDay` | main.py:43 | a day that exists in the target month is kept |
| `Calendar.AddMonthsClampsToMonthEnd` | main.py:43 | a day past the end of the target month becomes that month's last day |
| `Calendar.AddMonthsZero` | main.py:38-44 | adding zero months returns the same date-time |
| `Calendar.AddMonthsIncreases` | main.py:38-44 | adding one month or more gives a strictly later date-time |
| `Calendar.AddMonthsExamples` | main.py:38-44 | Jan 31 2024 + 1 is Feb 29 2024 and Jan 31 2023 + 1 is Feb 28 2023. Nov 30 2023 + 3 is Feb 29 2024 with the time kept, and May 15 2024 - 5 is Dec 15 2023 |
| `Calendar.LeapYearExamples` | main.py:43 | 1900 and 2023 are not leap years while 2000 and 2024 are, so February 1900 has 28 days and February 2000 has 29 |
| `Calendar.LeapYearPeriod` | main.py:43 | the leap-year rule repeats every 400 years |
| `Calendar.DaysBeforeMonthStep` | main.py:43 | the days before month m + 1 are the days before month m plus the length of month m, so the day-number table agrees with the month-length table |
| `Calendar.SumOfMonthLengthsIsDaysBefore` | main.py:43 | the lengths of months 1 to m add up to the days before month m plus the length of month m |
| `Calendar.MonthLengthsSum` | main.py:43 | the sum of the twelve month lengths of the table is 365 days, or 366 in a leap year |
| `Calendar.DaysBeforeYearStep` | main.py:35 | consecutive years are 365 or 366 day numbers apart, as the leap-year rule says |
| `Calendar.DayNumberMonotone` | main.py:35 | a strictly earlier calendar day has a strictly smaller day number |
| `Calendar.DayNumberInjective` | main.py:35 | two valid dates with the same day number are the same calendar day |
| `Calendar.PrevDay` | main.py:35 | the previous calendar day, with the same time of day, is valid and strictly earlier. Its day number is one less |
| `Calendar.SubtractDays` | main.py:35 | `d - timedelta(days=n)` is valid and keeps the time of day. Its day number is exactly `n` less, it is `d` itself for `n = 0`, and otherwise it is strictly before `d` |
| `Calendar.SubtractDaysUnique` | main.py:35 | any valid date-time with the lowered day number and the same time of day equals `SubtractDays(d, n)` |
| `Text.SkipForward` | main.py:54 | the forward scan stops at the first non-whitespace position at or after its start, or at the end, and everything it passes is whitespace |
| `Text.SkipBackward` | main.py:54 | the backward scan never passes the forward scan's stop. Everything it passes is whitespace, and it stops after a non-whitespace character unless it met the forward stop |
| `Text.StripStart` | main.py:54 | everything before the start of the stripped text is whitespace, and the character at the start is not |
| `Text.StripEnd` | main.py:54 | the end of the stripped text is not before its start. Everything after it is whitespace, and the character just before it is not whitespace unless the stripped text is empty |
| `Text.NothingLeftIffAllSpace` | main.py:54-55 | the two scans meet exactly when the input is all whitespace |
| `Text.Strip` | main.py:54-55 | the result is the slice of the input between the two scans, with only whitespace before and after it. It is empty exactly when the input is all whitespace, and it neither starts nor ends with whitespace |
| `Text.StripUnique` | main.py:54 | any non-empty slice that has only whitespace around it and neither starts nor ends with whitespace is exactly what Strip returns |
| `Text.StripSurroundingSpace` | main.py:54 | stripping text that is padded with whitespace on both sides gives back the text, as long as the text itself neither starts nor ends with whitespace |
| `Text.StripTrimmed` | main.py:54 | text that neither starts nor ends with whitespace comes back unchanged |
| `Text.StripIdempotent` | main.py:54 | stripping twice equals stripping once |
| `Text.StripExamples` | main.py:54-55 | a blank code strips to the empty string, and a padded barcode strips to the bare barcode |
| `Enrichment.Lookup` | main.py:58 | a listed barcode gets its own table entry, and the fallback triple is returned exactly when the barcode is not listed |
| `Enrichment.LookupListedCodes` | main.py:21-27 | each of the five listed barcodes gets its own table entry |
| `Enrichment.LookupFallbackExactly` | main.py:58 | the fallback triple is returned if and only if the code is none of the five listed barcodes |
| `Enrichment.LookupUnlistedCodes` | main.py:58 | an unlisted code gets the fallback, and so does a listed barcode with a trailing space (matching is exact) |
| `Fabrication.PastDayOffsetBounds` | main.py:32-34 | for draws in their ranges the day offset lies in [0, months*30 + 29] |
| `Fabrication.RandomInPastMonths` | main.py:30-35 | the result is valid, keeps the time of day and is never after `now`. It lies exactly `monthsBack*30 + daysBack` days before `now`, so at most `months*30 + 29` days |
| `Fabrication.ExpiryDate` | main.py:60 | the expiry is valid and strictly after manufacture, `12 + extraMonths` month steps later (so 12 to 24). Its day is the manufacture day clamped to the target month's length, and its time of day is the manufacture's |
| `Fabrication.FabricateDates` | main.py:59-60 | for a clock in years 2 to 9997 and draws in range, the manufacture date is not after now and is exactly the drawn number of days before it. The expiry is `AddMonths(mfg, 12 + k)`: strictly after manufacture, 12 + k month steps later, its day clamped to the month's length and its time of day kept |
| `Scan.StatusCode` | main.py:55-56 | an invalid barcode is reported as 400 and a store failure as 500, and no other error gets either code |
| `Scan.ToResponse` | main.py:80-91 | every response field is copied from the same-named document field, and `id` comes from the store's identifier |
| `Scan.BuildDocument` | main.py:58-77 | the assembled document is well formed. Its code is the trimmed code and its name, manufacturer and category are the enrichment triple. The manufacture date lies the drawn number of days before the clock with its time of day. The expiry is 12 + k month steps later, with the manufacture day clamped to the target month's length and the manufacture time of day. The rating is in [50, 95], and footprint and timestamp are passed through |
| `Scan.BuildDocumentExpiry` | main.py:60 | the stored expiry date is exactly `AddMonths` of the stored manufacture date by 12 + k months, and that call is within the date-time range |
| `Scan.ScanProduct` | main.py:52-91 | the scan succeeds if and only if the trimmed code is non-empty and the store accepts the write. An all-whitespace code fails with InvalidBarcode and a failed write with StoreUnavailable, and on failure the store is unchanged. On success exactly the built document is appended under the assigned identifier, and the response is that stored document |
| `Scan.Responses` | main.py:97-111 | one response per fetched document, in the same order, each built by `ToResponse` |
| `Store.Insert` | database.py:19-24 | the stored document is the input plus the assigned identifier. It is appended after all earlier documents |
| `Store.Reverse` | database.py:28 | the result has the same length and holds the input's elements in reverse order |
| `Store.FindCount` | database.py:28 | a find returns at most all documents. A limit of 0 returns all of them, and any other limit returns its absolute value or all documents, whichever is fewer |
| `Store.Find` | database.py:26-33 | the result holds the newest documents first (element i is the i-th newest) and has `FindCount` elements |
| `Scan.History` | main.py:94-111 | history returns as many responses as the find returns documents. Entry i is the response for the i-th most recently stored document |
| `Scan.ScanPreservesWellFormed` | main.py:54-77 | a scan keeps every stored document well formed, whatever the outcome. Well formed means a trimmed non-empty code, expiry strictly after manufacture and 12 to 24 month steps later, and rating in [50, 95] |
| `Scan.HistoryWellFormed` | main.py:94-111 | every history entry from a well-formed store has an id and a non-empty code, a rating in [50, 95], and an expiry strictly after manufacture |
| `Scan.ScanThenHistory` | main.py:80-111 | after a successful scan, the next history request (with any limit) shows exactly the scan's response first |
| `Scan.HistoryAfterScan` | main.py:94-111 | after a successful scan, history with limit n > 1 is the scan's response followed by the previous history with limit n - 1 |

## Left out

- The web framework setup, the permissive CORS middleware, the `/test` endpoint and the async plumbing (main.py:9-18, 47-49) have no logic to model.
- The footprint value `round(0.5 + random.random() * 5, 2)` (main.py:63) uses floating point. The model takes the footprint as a real parameter and passes it through unchanged.
- `utcnow()`, the `scannedAt` millisecond conversion through a float timestamp (main.py:76), and the `isoformat()` rendering of dates (main.py:72-73) are library behaviour. The clock and `scannedAt` are parameters, and dates are stored as date-time values rather than ISO-8601 text.
- The `random` module is not modelled. Each draw is a parameter whose range is a precondition.
- The database connection, its lazy global handle and the `_created_at` stamp (database.py:9-24) are not modelled. The collection is a sequence in creation order. The model does not capture ties between equal creation timestamps, whose order the store does not fix.
- Requests are modelled one at a time, with a clock that never goes backwards. The source stamps `_created_at` before the awaited insert (database.py:21-22), and find sorts by that stamp (database.py:28). So two interleaved scans, or a `utcnow()` that steps back, could list history in an order other than the order of completed inserts. The model's Insert appends in completion order and does not capture that.
- Scan.History: a failed find (database.py:26-33) fails the request with a server error; the model's History always succeeds.
- Store.Find: for a negative limit the driver returns at most one batch. The model assumes that batch holds all requested documents.
- Calendar.AddMonths: requires the resulting year to lie in 1..9999. The source raises the date-time library's ValueError there, and the model does not include that error path.
- Calendar.SubtractDays: requires the result to be on or after 0001-01-01. The source raises the library's OverflowError there, and the model does not include that error path.
- Scan.ScanProduct: requires the clock's year to lie in 2..9997. For a clock in year 1 or in 9998-9999 the source may raise a date-range error from the date-time library, and that path is not modelled.
- Scan.BuildDocument: requires the same clock range 2..9997 through `EnvInRange`, for the same reason.
- Fabrication.FabricateDates: requires the same clock range 2..9997, for the same reason.
- Response validation by the schema library is not modelled. Stored documents always carry every field, so it cannot fail on them.
- `main.py` has no authentication endpoints, so identity-token verification, session cookies and logout are not part of this model.
