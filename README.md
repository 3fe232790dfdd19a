# Course upload validation and degraded-mode cache, in Dafny

This project models the two pieces of real logic in a small course-catalog backend.

The first is the course upload handler (`src/controllers/course-controller.js`). It takes
the rows of a CSV file, each row a map from column header to cell text. Its loop checks
the required columns of every row. For every row that fails, it records the error
"Row n: Missing required field" and goes on to the next row. Next to the loop is an
object literal that turns one row into a course record with trimmed texts. The last
piece is a check that rejects an upload for which no course record was built.

The second is the cache helper (`src/utils/cache.js`). It sits in front of a key-value
store whose client may be closed. While the client is closed, reads miss and writes do
nothing. Errors are always swallowed. A write goes through only when the client is
open. Entries carry a time to live when the caller passes a truthy expiry.

Where the code is odd, the model follows the code:

- `category` is required, like `course_id`, `title` and `duration`.
- The instructor test is `!!row.instructor`, so a row that has an instructor is
  reported. A row without one passes.
- A row is numbered `i + 1` from its zero-based index `i` in the parsed rows, so the
  first data row is "Row 1".
- Column names are matched exactly as they appear in the parsed row.

Modules:

- `Wrappers` (wrappers.dfy): `Option`.
- `JsString` (js_string.dfy): `String.prototype.trim`, with the full ECMAScript set of
  WhiteSpace and LineTerminator code points. It also holds the decimal text of a number
  in a template literal.
- `CourseUpload` (course_controller.dfy): the validation loop `ValidateRows`, which is
  proved against the function `RowErrors`. It also holds the record builder
  `BuildRecord` and the empty-result check `CheckCourses`.
- `Cache` (cache.dfy): the expiry constants and the class `CacheClient`. The class has
  the `isOpen` flag and the store as fields, plus `GetFromCache` and `SetCache`. The
  functions `Lookup` and `Write` specify those two methods.

JSON.stringify and JSON.parse are the `encode` and `decode` function parameters.
`None` stands for a throw. A failure of the store's own reply is the `fails` parameter.

## Model

| member | source | states |
|---|---|---|
| `JsString.IsWhitespace` | src/controllers/course-controller.js:65-69 | the code points `trim` strips: the ECMAScript WhiteSpace set (tab, vertical tab, form feed, space, no-break space, byte-order mark and the Unicode "Zs" separators) and the LineTerminator set (LF, CR, LS, PS) |
| `JsString.LeadingWhitespace` | src/controllers/course-controller.js:65-69 | the number of leading characters `trimStart` drops is at most the length, and the character right after them is not whitespace |
| `JsString.ContentEnd` | src/controllers/course-controller.js:65-69 | the point where `trimEnd` cuts is within the string, and the character right before it is not whitespace |
| `JsString.TrimStart` | src/controllers/course-controller.js:65-69 | the result of `trimStart` does not start with whitespace |
| `JsString.TrimEnd` | src/controllers/course-controller.js:65-69 | the result of `trimEnd` does not end with whitespace |
| `JsString.Trim` | src/controllers/course-controller.js:65-69 | the result of `trim` is no longer than the input, and neither of its ends is whitespace |
| `JsString.LeadingWhitespaceIsWhitespace` | src/controllers/course-controller.js:65-69 | everything `trimStart` removes is whitespace |
| `JsString.TrailingWhitespaceIsWhitespace` | src/controllers/course-controller.js:65-69 | everything `trimEnd` removes is whitespace |
| `JsString.LeadingWhitespaceOfPadded` | src/controllers/course-controller.js:65-69 | leading whitespace added in front is exactly what `trimStart` additionally removes |
| `JsString.ContentEndOfPadded` | src/controllers/course-controller.js:65-69 | trailing whitespace added at the end is exactly what `trimEnd` additionally removes |
| `JsString.TrimOfPadded` | src/controllers/course-controller.js:65-69 | a trimmed string with whitespace added on both sides trims back to itself, so `trim` has exactly one possible result |
| `JsString.TrimSplits` | src/controllers/course-controller.js:65-69 | every string is leading whitespace, then the result of `trim`, then trailing whitespace |
| `JsString.TrimIdempotent` | src/controllers/course-controller.js:65-69 | trimming twice gives the same result as trimming once |
| `JsString.TrimEmptyIffWhitespace` | src/controllers/course-controller.js:68 | `trim` gives "" if and only if the string is all whitespace |
| `JsString.Decimal` | src/controllers/course-controller.js:51 | the row number's text in the message is a non-empty string of decimal digits |
| `JsString.DecimalRoundTrip` | src/controllers/course-controller.js:51 | the row number's digits read back as the number, and there is no leading zero |
| `JsString.DecimalInjective` | src/controllers/course-controller.js:51 | different row numbers are written as different texts |
| `CourseUpload.Present` | src/controllers/course-controller.js:45-49 | JavaScript truthiness of `row.x` for a CSV cell: the column exists and its text is not "" |
| `CourseUpload.RowFlagged` | src/controllers/course-controller.js:44-50 | the condition of the loop's `if`, as written: `course_id`, `title`, `category` or `duration` missing or empty, or `instructor` non-empty. Its effect on `errors` is stated by `ErrorForRowIffFlagged`, `MissingRequiredColumnReported` and `InstructorRowReported` |
| `CourseUpload.MissingFieldMessage` | src/controllers/course-controller.js:51 | the pushed text starts with "Row ", ends with ": Missing required field", and has only decimal digits in between; `MissingFieldMessageNamesRow` states that those digits are the row number |
| `CourseUpload.MissingFieldMessageNamesRow` | src/controllers/course-controller.js:51 | the digits between "Row " and ": Missing required field" read back as exactly the number passed in, so the loop's message for index i names row i + 1 |
| `CourseUpload.RowErrors` | src/controllers/course-controller.js:38-53 | the `errors` array after the loop has at most one entry per row |
| `CourseUpload.FailingRowsFrom` | src/controllers/course-controller.js:40-53 | there are at most as many reported row numbers as rows |
| `CourseUpload.FailingRows` | src/controllers/course-controller.js:40-53 | the numbers `i + 1` of the rows the loop reports, in file order, numbered from the first row; its contents are fixed by `FailingRowsExact`, `FailingRowsIncreasing` and `FailingRowsBounds` |
| `CourseUpload.ValidateRows` | src/controllers/course-controller.js:37-54 | the loop returns exactly `RowErrors(rows)`, with no more errors than rows |
| `CourseUpload.ErrorsNameFailingRows` | src/controllers/course-controller.js:44-52 | there is one error per failing row, and error k is "Row n: Missing required field" for the k-th failing row number n |
| `CourseUpload.FailingRowsBounds` | src/controllers/course-controller.js:40-53 | every reported row number lies between the first and the last number of the rows checked |
| `CourseUpload.FailingRowsExact` | src/controllers/course-controller.js:40-53 | row number offset+i+1 is reported if and only if the row at index i is flagged |
| `CourseUpload.FailingRowsIncreasing` | src/controllers/course-controller.js:40-51 | failing rows are reported in strictly increasing row order |
| `CourseUpload.FailingRowsConcat` | src/controllers/course-controller.js:40-53 | a failing row only `continue`s, so the reports for a later part of the file are that part's own reports, numbered on from the earlier part |
| `CourseUpload.FailingRowsOffset` | src/controllers/course-controller.js:40-53 | starting the numbering elsewhere shifts every reported number by the same amount and reports the same rows |
| `CourseUpload.FailingRowsOfSuffix` | src/controllers/course-controller.js:40-53 | in a file made of a first part and a second part, the reports after those of the first part are the second part's own reports with every number raised by the first part's length |
| `CourseUpload.FailingRowsSnoc` | src/controllers/course-controller.js:40-53 | an extra last row adds its own number if and only if it fails, and leaves earlier reports as they were |
| `CourseUpload.MissingFieldMessageInjective` | src/controllers/course-controller.js:51 | two error messages are equal only if their row numbers are equal |
| `CourseUpload.MessageInIffNumberIn` | src/controllers/course-controller.js:51 | when each message names the matching row number, a message is in the list exactly when its number is |
| `CourseUpload.FailingRowIffFlagged` | src/controllers/course-controller.js:40-53 | row number i+1 is a failing row number if and only if the row at index i is flagged |
| `CourseUpload.ErrorNamesIffFailing` | src/controllers/course-controller.js:44-52 | "Row n: Missing required field" is in the error list if and only if n is a failing row number |
| `CourseUpload.ErrorForRowIffFlagged` | src/controllers/course-controller.js:40-53 | "Row i+1: Missing required field" is in the error list if and only if the row at index i fails the check |
| `CourseUpload.MissingRequiredColumnReported` | src/controllers/course-controller.js:44-51 | a row whose `course_id`, `title`, `category` or `duration` is missing or empty is reported |
| `CourseUpload.InstructorRowReported` | src/controllers/course-controller.js:48-51 | a row with a non-empty `instructor` is reported, because of the double negation |
| `CourseUpload.Description` | src/controllers/course-controller.js:68 | the description is trimmed, and it is "" when the column is missing or empty |
| `CourseUpload.BuildRecord` | src/controllers/course-controller.js:64-71 | a record is built if and only if the row has `course_id`, `title`, `category` and `instructor` columns (otherwise `toString` of undefined throws). Then `course_id`, `title`, `category` and `instructor` are exactly `trim` of their cells, `description` is the trimmed cell or "", and every text field is trimmed |
| `CourseUpload.BuildRecordDescription` | src/controllers/course-controller.js:68 | `description` is "" if and only if the column is missing, empty or all whitespace; otherwise it is the trimmed cell |
| `CourseUpload.DescriptionIgnoresPadding` | src/controllers/course-controller.js:68 | trimming the description cell first does not change the description |
| `CourseUpload.BuildRecordIgnoresPadding` | src/controllers/course-controller.js:64-71 | trimming every cell of the row first does not change the built record |
| `CourseUpload.PassingRowHasNoInstructor` | src/controllers/course-controller.js:44-69 | for a row the loop lets through, building the record either throws or gives an empty instructor |
| `CourseUpload.CheckCourses` | src/controllers/course-controller.js:74-79 | the upload is rejected if and only if no course record was built, and the rejection carries status 400 and the collected errors unchanged |
| `Cache.Truthy` | src/utils/cache.js:31-39 | JavaScript truthiness of the expiry: the default `null` and 0 are falsy, and a truthy expiry is a number |
| `Cache.Lookup` | src/utils/cache.js:11-28 | what `getFromCache` resolves to: a miss when closed or failing, and a hit only for a present non-empty entry, which is then decoded |
| `Cache.Write` | src/utils/cache.js:31-50 | what `setCache` does: false and an unchanged store when closed, failing or unencodable; a failed write changes nothing; a successful one stores the encoded text under the key and changes no other key |
| `Cache.CacheClient.constructor` | src/utils/cache.js:1 | the client the helpers share starts with the given open flag and store |
| `Cache.CacheClient.GetFromCache` | src/utils/cache.js:11-28 | the result is a miss when the client is closed, when the read fails, or when the key is absent or empty; otherwise it is the decoded text. The method cannot change the client or the store |
| `Cache.CacheClient.SetCache` | src/utils/cache.js:31-50 | when the client is closed or an error occurs, the method returns false and leaves the store unchanged. Otherwise it stores the encoded text under the key, with a TTL only for a truthy expiry, and returns true. No other key changes |
| `Cache.ClosedClientIsInert` | src/utils/cache.js:13-15 | a closed client misses every read and turns every write into a no-op that returns false |
| `Cache.WriteIsLocal` | src/utils/cache.js:37-49 | a failed write leaves the store as it was. A successful write only adds or replaces the entry under its own key |
| `Cache.WriteThenLookup` | src/utils/cache.js:17-43 | on an open client with no failures, a value written and read back is returned unchanged, provided its JSON text is non-empty and decodes to it |
| `Cache.LastWriteWins` | src/utils/cache.js:17-43 | after two writes to one key, a read returns what decoding the second text gives |
| `Cache.ExpiryClassesSetTtl` | src/utils/cache.js:4-8 | the three expiry classes `CourseByIdExpiry` (3600 s), `AllCoursesExpiry` (1800 s) and `SearchExpiry` (900 s) are truthy and accepted, so an entry written with one carries exactly that TTL |

## Left out

- The `uploadCourses` handler end to end is not modelled. It reads `req.body.file` instead of the uploaded file. It uses `errors` before declaring it, and `row`/`i` outside the loop. It also calls `NaN(...)`, which is not a function. The loop, the record builder and the empty-result check are modelled as three separate operations, and nothing claims the handler reaches them.
- Duration parsing with `parseFloat` and the `duration` field of the record are not modelled, because they involve floating point and the code is broken as written.
- CSV parsing (src/utility/csv-parser.js) is not part of this model. The row sequence is an input.
- Client creation, connection and event handling (src/config/redis.js) are not part of this model. Only the `isOpen` flag enters.
- JSON.stringify and JSON.parse are not modelled. They are the function parameters `encode` and `decode`.
- Time-to-live expiry is not modelled because there is no clock. Entries never expire in the model.
- `Cache.CacheClient.SetCache`: when a failure is reported, the store is assumed unchanged. A write that reaches the server but whose reply is lost is not modelled.
- `Cache.CacheClient.SetCache`: the expiry is an integer. A fractional or NaN expiry is not modelled. Of the server's refusals only the negative time to live is its own case; any other (a time to live too large for the server, or a huge number written in exponent notation) is folded into the `fails` argument.
- Logging to the console is left out.
- Authentication, the auth middleware, the routes, the server bootstrap and the database schema are not part of this model.
