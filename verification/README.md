# Credit distribution report: the `GET /credits` handler

This project models the one piece of logic in the credit-distribution report,
the Express route callback in `backend/routes/creditsDisplayRoutes.js`. The
handler reads a `department` and a `semester` from the query string. It
rejects the request unless the department is non-empty and the semester
parses with `parseInt(_, 10)`. It then looks up the `(credits, category)`
rows for that department and semester. No rows is answered with "not found".
Otherwise it answers with one entry per row: the row's category, its credits
and its share of the total credits as a percentage. A failing lookup is caught
and answered with a server error.

The model is a pure function `CreditsDisplay.Handle(req, lookup)`:

- `req` holds the two query parameters as `Option<string>`. `None` is an
  absent parameter, which JavaScript sees as `undefined`.
- `lookup` is the parameterised database query, taken as a function from
  `(department, semester)` to `Rows(rows)` or `QueryFailed`.
- The answer is `BadRequest`, `NotFound`, `ServerError` or `Ok(entries)`,
  with the status codes and messages of the source.

Files:

- `wrappers.dfy`: the `Option` type.
- `parse_int.dfy`: ECMAScript `parseInt` with radix 10, from section 19.2.5
  of ECMA-262. It skips leading StrWhiteSpaceChar characters and reads one
  optional sign. It then reads the longest run of decimal digits and ignores
  the rest. An empty run is NaN, modelled as `None`.
- `credits_display.dfy`: the data model, validation, the total, the
  percentage and the handler.
- `credits_properties.dfy`: the properties of the handler.

The percentage `credits / totalCredits * 100` is modelled exactly, as a
`Percentage`:

- `Exact(v)` with `v` a real number when the total is non-zero.
- `NaN` for `0 / 0`.
- `Infinity(negative)` for a non-zero numerator over a zero total.

One might expect every percentage to lie between 0 and 100 and the
percentages to sum to 100. The code guarantees neither:

- A zero total gives NaN or an infinity.
- Negative credits can push a percentage outside the range.

The model follows the code. It proves the range only for non-negative credits
with a positive total, and the sum of 100 only for a non-zero total.

## Model

| member | source | states |
|---|---|---|
| `CreditsDisplay.Handle` | backend/routes/creditsDisplayRoutes.js:6-39 | the route callback: 400 exactly when the department is falsy or the semester is NaN; otherwise the lookup bound with the department and the parsed semester decides: 500 exactly when it fails, 404 exactly when it returns no rows, and 200 with one entry per row otherwise |
| `ParseInt.ParseInt10` | backend/routes/creditsDisplayRoutes.js:9 | the `parseInt(_, 10)` call on the semester text; its meaning is stated by the ParseInt lemmas below |
| `CreditsDisplay.TotalCredits` | backend/routes/creditsDisplayRoutes.js:25 | the `reduce` that sums the rows' credits left to right from 0; its meaning is stated by `CreditsProperties.TotalCreditsConcat` and `CreditsProperties.CreditsConserved` |
| `CreditsDisplay.Validate` | backend/routes/creditsDisplayRoutes.js:8-12 | validation passes exactly when the department is present and non-empty and the semester text (the text "undefined" when the parameter is absent) has an integer prefix; on success the department is passed on unchanged and the semester is the parseInt value |
| `ParseInt.AcceptsExactly` | backend/routes/creditsDisplayRoutes.js:9-10 | parseInt(_, 10) is not NaN exactly when, after leading white space, there is a digit or a sign followed by a digit |
| `ParseInt.ParsesWrittenInteger` | backend/routes/creditsDisplayRoutes.js:9 | for white space, an optional sign, a non-empty digit run and any text not starting with a digit, parseInt returns the signed value of the digit run, whatever follows it |
| `ParseInt.ParseIntRoundTrip` | backend/routes/creditsDisplayRoutes.js:9 | parseInt reads back the decimal text of every integer, with any non-digit text after it, so no range restriction is applied to the semester |
| `ParseInt.StartsWithoutNumber` | backend/routes/creditsDisplayRoutes.js:9-10 | text whose first character is neither white space, a digit nor a sign before a digit parses to NaN |
| `ParseInt.TrailingTextIgnored` | backend/routes/creditsDisplayRoutes.js:9 | "3abc" parses to 3 |
| `ParseInt.SignedWithSpaceAccepted` | backend/routes/creditsDisplayRoutes.js:9 | " -2" parses to -2 |
| `ParseInt.LettersRejected` | backend/routes/creditsDisplayRoutes.js:9-10 | "abc" parses to NaN |
| `ParseInt.UndefinedRejected` | backend/routes/creditsDisplayRoutes.js:9-10 | an absent semester, read as the text "undefined", parses to NaN |
| `ParseInt.NoDigitsRejected` | backend/routes/creditsDisplayRoutes.js:9-10 | the empty text and a lone "-" parse to NaN |
| `CreditsProperties.BadRequestExactly` | backend/routes/creditsDisplayRoutes.js:8-12 | the answer is 400 exactly when the department is absent or empty or the semester has no integer prefix |
| `CreditsProperties.InvalidRequestSkipsLookup` | backend/routes/creditsDisplayRoutes.js:10-18 | a request that fails validation is answered 400 whatever the lookup would return, so the lookup is not consulted |
| `CreditsProperties.LookupBoundWithParams` | backend/routes/creditsDisplayRoutes.js:15-18 | a valid request's answer depends on the lookup only through its result for the given department and the parsed semester |
| `CreditsProperties.NotFoundExactly` | backend/routes/creditsDisplayRoutes.js:20-22 | a valid request is answered 404 exactly when the lookup returns no rows, and an empty success array is never sent |
| `CreditsProperties.ServerErrorExactly` | backend/routes/creditsDisplayRoutes.js:35-37 | a valid request is answered 500 exactly when the lookup fails |
| `CreditsProperties.ErrorAnswersDistinct` | backend/routes/creditsDisplayRoutes.js:11-37 | the three error answers have pairwise distinct status codes and messages |
| `CreditsDisplay.PercentOf` | backend/routes/creditsDisplayRoutes.js:31 | the percentage is finite exactly when the total is non-zero, and then it times the total equals the credits times 100; it is NaN exactly for 0 credits over a 0 total, and otherwise an infinity of the credits' sign |
| `CreditsDisplay.Breakdown` | backend/routes/creditsDisplayRoutes.js:28-32 | one entry per row in row order, each with the row's category and credits and the row's percentage of the total |
| `CreditsProperties.BreakdownKeepsRows` | backend/routes/creditsDisplayRoutes.js:28-32 | removing the percentages from the breakdown gives back exactly the rows, with nothing merged, reordered, added or changed |
| `CreditsProperties.OkEntriesMatchRows` | backend/routes/creditsDisplayRoutes.js:25-34 | a valid request with a non-empty lookup result is answered 200 with the rows' categories and credits in order, each row with its percentage of the summed credits |
| `CreditsProperties.TotalCreditsConcat` | backend/routes/creditsDisplayRoutes.js:25 | the left-to-right total of concatenated rows is the sum of the two totals |
| `CreditsProperties.CreditsConserved` | backend/routes/creditsDisplayRoutes.js:25-30 | the credits of the response add up to the total credits of the rows |
| `CreditsProperties.PercentSumIsShare` | backend/routes/creditsDisplayRoutes.js:25-31 | against any non-zero total, all percentages are finite and they add up to the rows' credits as a percentage of that total |
| `CreditsProperties.PercentagesSumTo100` | backend/routes/creditsDisplayRoutes.js:25-31 | when the rows' total credits are non-zero, the percentages of the breakdown against that total are all finite and add up to exactly 100 before rounding |
| `CreditsProperties.ResponsePercentagesSumTo100` | backend/routes/creditsDisplayRoutes.js:15-34 | a valid request whose rows have a non-zero total is answered 200 with finite percentages that add up to exactly 100 before rounding |
| `CreditsProperties.ShareWithinBounds` | backend/routes/creditsDisplayRoutes.js:31 | credits between 0 and a positive total give a finite percentage between 0 and 100 |
| `CreditsProperties.PercentagesWithinBounds` | backend/routes/creditsDisplayRoutes.js:25-31 | with no negative credits and a positive total, every percentage of the breakdown against that total lies between 0 and 100 |
| `CreditsProperties.ResponsePercentagesWithinBounds` | backend/routes/creditsDisplayRoutes.js:15-34 | a valid request whose rows have no negative credits and a positive total is answered 200 with every percentage between 0 and 100 |
| `CreditsProperties.AllZeroCreditsGiveNaN` | backend/routes/creditsDisplayRoutes.js:20-31 | rows that all have zero credits still get a 200 answer, with every percentage NaN |
| `CreditsProperties.ZeroTotalNotFinite` | backend/routes/creditsDisplayRoutes.js:25-31 | when the credits sum to zero, no percentage is finite: zero-credit rows get NaN and the others an infinity of their sign |
| `CreditsProperties.TwoCategoryRequest` | backend/routes/creditsDisplayRoutes.js:6-34 | department "CSE", semester "3", rows 4 Core and 2 Elective: answer 200 with Core at 200/3 percent and Elective at 100/3 percent |
| `CreditsProperties.NoRowsRequest` | backend/routes/creditsDisplayRoutes.js:9-22 | semester "9" passes validation and, with no rows, is answered 404 |
| `CreditsProperties.NonNumericSemesterRequest` | backend/routes/creditsDisplayRoutes.js:9-11 | semester "abc" is answered 400 |

## Left out

- The pie-chart component in `src/` is left out. It is presentation: the dropdowns, the fetch on every selection change and the colour palette.
- The database pool and the SQL text are not modelled. The lookup is an input function bound with `(department, semester)`, and its row order is taken as given.
- `toFixed(2)` on the percentage is left out. Percentages are exact real numbers, not rounded decimal strings, so NaN and infinities are kept as values instead of the texts "NaN" and "Infinity".
- PercentagesSumTo100: states that the unrounded percentages sum to exactly 100. The rounding error of the two-decimal strings is outside the model because `toFixed` is.
- IEEE-754 floating point is not modelled. Credits and the total are mathematical integers, so very large totals are not rounded.
- Credits are modelled as integers. A driver that returns the column as text would make `reduce` concatenate strings, and that is not modelled.
- A NULL credits value is not modelled.
- The conversion of the parsed integer to a double in step 16 of parseInt is not modelled. Above 2^53 the parsed value is rounded, so "9007199254740993" gives 9007199254740992. A digit run of more than about 309 digits gives Infinity, which is not NaN and so passes validation.
- ParseInt.ParseIntRoundTrip: gives back the exact integer for every integer. In the source this holds only for integers of magnitude at most 2^53, because larger values are rounded to the nearest double.
- `parseInt` can return -0 for text such as "-0". That case is not modelled, and -0 is taken as 0.
- Express plumbing is left out: routing, `res.status(...).json(...)` serialisation and `console.log` of the error.
- A query parameter given as an array or an object is left out. Express can deliver one, and `parseInt` would convert it with its own `toString`.
- Idempotence of the handler is not stated separately. `Handle` is a pure function of the request and the lookup result.
