# Expense tracker: a verified Dafny model of its core

The expense tracker is a small web application. An Express/Mongoose backend stores
expenses: an amount with at most two decimals, a category, a description and a date. Each
expense is keyed by a client-generated idempotency key. The backend lists the expenses,
optionally filtered by category and sorted by date, and lists the distinct categories. A
React frontend submits new expenses through a form and retries failed requests.

This project models that core in Dafny and proves what it promises:

- **`JsText`**: the JavaScript string built-ins the code relies on:
  - `String.prototype.trim`;
  - the ASCII part of case-insensitive matching;
  - `Array.prototype.join`;
  - `String.prototype.length`, which counts UTF-16 code units;
  - the order `Array.prototype.sort` uses without a comparator, which compares UTF-16
    code units. It is proved equal to lexicographic order on the strings' code units.
- **`Amount`**: the amount grammar `^\d+(\.\d{1,2})?$` and express-validator's
  `isFloat({ gt: 0 })`. It also covers `parseFloat(...) > 0`, and the exact decimal value a
  `Decimal128` holds with its `toString`.
- **`ExpenseModel`**: the schema (backend/src/models/Expense.js):
  - the `trim` setters, the required and `maxlength` validators (lengths in UTF-16 code
    units), and the positivity validator;
  - the `toJSON` transform, both as a function and as an in-place method;
  - the collection, as the class `Store`. Its unique index keeps at most one record per
    idempotency key.
- **`RequestValidation`**: the express-validator chains of the two listing/creating routes,
  and the ISO 8601 calendar-date form (section 4.1.2.2 of ISO 8601:2004, extended format).
- **`CategoryMatch`**: the category filter's escaping, and the anchored, case-insensitive
  regular expression built from it. A small matcher for that fragment of PCRE shows that
  the filter selects exactly the categories equal to the query, ignoring case.
- **`Listing`**: the `GET /` filter, the sort on `(date, createdAt)` in either direction,
  the serialisation of a listed record, and `GET /categories`.
- **`ExpenseRoutes`**: the `POST /` handler as a specification function and as a method
  against the `Store`: validate, look up the key, create, recover from a duplicate key, or
  fail. Also the two `GET` handlers.
- **`ApiClient`** (frontend/src/api/expenses.js):
  - `apiFetch`'s retry rule over a sequence of attempt outcomes;
  - the message of an `ApiError`;
  - the query string of `getExpenses`.
- **`ExpenseForm`** (frontend/src/components/ExpenseForm.jsx):
  - `validate`;
  - the component as the class `ExpenseFormComponent`, whose fields are the React state and
    the key ref.

Time, randomness and the database's failures are inputs to the model:
- the insertion time, and the day the form is reset to;
- the fresh key `generateKey` yields;
- whether `findOne` or `create` fails, and whether a concurrent request stored the same key
  first;
- the outcome of each `fetch`.

### Where the code and its description differ

The model follows the code.

- **Blank or over-long category and description.** The documented behaviour is a 422 for a
  category or description that is blank after trimming, or that exceeds 100 or 500
  characters. The code differs:
  - it checks emptiness before the `trim()` sanitizer runs, so a value of white space alone
    passes validation;
  - the length limits exist only in the schema.
  Both cases therefore fail in `Expense.create`, and the catch-all answers 500
  (`ExpenseRoutes.PostBlankCategoryFails`, `ExpenseRoutes.PostTooLongFails`).
- **Retries.** The documented rule retries every failure that is not a 4xx, and never a
  4xx. The code differs in two places:
  - a 2xx answer whose body is not JSON rejects without a retry, because `res.json()` is
    returned without `await`;
  - a 4xx answer whose body is JSON `null`, or whose `errors` array holds a `null`, throws a
    `TypeError` while the `ApiError` is built, and that error is retried.

## Model

| member | source | states |
|---|---|---|
| JsText.Trim | backend/src/routes/expenses.js:31-32 | The trimmed value is empty exactly when the input is all white space; otherwise it neither starts nor ends with white space. |
| JsText.TrimIsInfix | backend/src/routes/expenses.js:47-48 | `trim` returns the infix of the input that is left once all white space at both ends is dropped. |
| JsText.TrimStartIsSuffix | frontend/src/components/ExpenseForm.jsx:27 | The leading-white-space skip of `parseFloat` keeps a suffix that does not start with white space, and drops only white space. |
| JsText.TrimIdempotent | backend/src/routes/expenses.js:47-48 | Trimming a value the sanitizer already trimmed changes nothing. |
| JsText.UpperAscii | backend/src/routes/expenses.js:78 | The `i` flag folds a lower-case ASCII letter to its upper-case letter and leaves every other character alone. |
| JsText.LessIrreflexive | backend/src/routes/expenses.js:109 | No string sorts before itself in the default sort order. |
| JsText.LessAsymmetric | backend/src/routes/expenses.js:109 | Two strings never sort before each other both ways. |
| JsText.LessTransitive | backend/src/routes/expenses.js:109 | The default sort order is transitive. |
| JsText.LessTotal | backend/src/routes/expenses.js:109 | Any two different strings are ordered one way or the other. |
| JsText.LessIsCodeUnitOrder | backend/src/routes/expenses.js:109 | The string order is exactly lexicographic order on the strings' UTF-16 code units, a proper prefix first. |
| JsText.SupplementaryBeforeLateBmp | backend/src/routes/expenses.js:109 | U+1F600 sorts before U+FF01 although its code point is larger: code-unit order is not code-point order. |
| JsText.Length | backend/src/models/Expense.js:23 | A string's JavaScript `length` is between its number of characters and twice that, and is 0 exactly for the empty string. |
| JsText.LengthIsUnitCount | backend/src/models/Expense.js:23 | `length` is exactly the number of UTF-16 code units of the string. |
| JsText.LengthOfSupplementaryRun | backend/src/models/Expense.js:23 | A run of n copies of one supplementary character has `length` 2n. |
| Amount.LongFraction | backend/src/routes/expenses.js:24-30 | Digits, a point and three or more digits fail the amount format. Both positivity tests read such a string as above zero exactly when some digit is not 0. |
| Amount.PointedMantissa | backend/src/routes/expenses.js:24 | Digits, a point and digits form one unsigned mantissa that fills the whole string and has no leading white space. |
| Amount.AmountFormatIsGrammar | backend/src/routes/expenses.js:27 | The amount scanner accepts exactly the strings made of whole digits, then optionally a point and one or two digits. |
| Amount.IsFloatAboveZero | backend/src/routes/expenses.js:24 | No contract of its own: `isFloat({ gt: 0 })` as the float pattern, the excluded strings, and a mantissa with a non-zero digit and no minus sign. `PositivityOnAmounts` states its value on amounts. |
| Amount.ParsesAboveZero | frontend/src/components/ExpenseForm.jsx:27-28 | No contract of its own: `parseFloat(s) > 0` as the skip of leading white space, then `Infinity` or a mantissa with a non-zero digit and no minus sign. `PositivityOnAmounts` states its value on amounts. |
| Amount.PositivityOnAmounts | backend/src/routes/expenses.js:22-30 | On strings in the amount format, both `isFloat({ gt: 0 })` and `parseFloat(...) > 0` hold exactly when some digit is not 0. |
| Amount.FromString | backend/src/routes/expenses.js:46 | No contract of its own: `Decimal128.fromString` of an amount as its digits without the point and the count of fraction digits. `FromStringPositive` and `FromStringToString` state what it yields. |
| Amount.ToString | backend/src/models/Expense.js:43-45 | No contract of its own: the plain-notation `toString` of a decimal, padded to one digit before the point. `ToStringFromString` states that it reads back. |
| Amount.ToStringFromString | backend/src/models/Expense.js:43-45 | The decimal string of every stored amount is in the amount format and reads back to the same value. |
| Amount.FromStringToString | backend/src/routes/expenses.js:46 | An amount without superfluous zeros comes back from `Decimal128.fromString` and `toString` unchanged. |
| Amount.FromStringPositive | backend/src/routes/expenses.js:46 | The decimal read from an amount string is above zero exactly when one of its digits is not 0. |
| Amount.RenderedPositive | backend/src/models/Expense.js:15 | `parseFloat(v.toString()) > 0` holds of a stored decimal exactly when its value is above zero. |
| ExpenseModel.Cast | backend/src/models/Expense.js:19-30 | Casting trims category and description and leaves the other fields as given. |
| ExpenseModel.CastIdempotent | backend/src/models/Expense.js:19-30 | Casting a cast draft changes nothing. |
| ExpenseModel.StringViolations | backend/src/models/Expense.js:19-30 | A string field has no violation exactly when it is non-empty and its `length`, in UTF-16 code units, is within the maximum. |
| ExpenseModel.StringViolationKinds | backend/src/models/Expense.js:19-30 | A string field gets `required` exactly when it is empty, and `maxlength` exactly when it is non-empty and its code units exceed the limit. |
| ExpenseModel.SupplementaryCategoryTooLong | backend/src/models/Expense.js:23 | 51 copies of U+1F600 are 51 characters but 102 code units, so the category gets `maxlength`. |
| ExpenseModel.Violations | backend/src/models/Expense.js:3-37 | A draft has no violation exactly when it conforms to the schema. Conforming means a key, a positive amount, a category of 1 to 100 and a description of 1 to 500 UTF-16 code units, and a date. |
| ExpenseModel.AmountValidatorIsPositivity | backend/src/models/Expense.js:14-17 | The amount validator holds exactly when the stored decimal is above zero. |
| ExpenseModel.NotPositiveReported | backend/src/models/Expense.js:14-17 | The amount violation is reported exactly when the amount validator fails. |
| ExpenseModel.NotPositiveOnZero | backend/src/models/Expense.js:14-17 | The amount violation is reported exactly when the amount is zero. |
| ExpenseModel.Lookup | backend/src/routes/expenses.js:41 | `findOne` by key finds a stored record with that key, and finds nothing exactly when no record has it. |
| ExpenseModel.LookupFindsTheRecord | backend/src/routes/expenses.js:41 | With unique keys, the lookup by a record's key finds that very record. |
| ExpenseModel.CountKeyUnique | backend/src/models/Expense.js:5-10 | Under the unique index a key is held by exactly one record, or by none. |
| ExpenseModel.CreateSpec | backend/src/models/Expense.js:3-37 | `create` fails validation exactly when the cast draft does not conform, with the length limits counted in UTF-16 code units. It reports a storage failure or a duplicate key only for a conforming draft, and then leaves the store unchanged. Otherwise it appends one trimmed, timestamped record with the next id. |
| ExpenseModel.CreateKeepsInvariant | backend/src/models/Expense.js:5-10 | `create` keeps keys unique and ids fresh; after a creation or a duplicate report, exactly one record holds the key. |
| ExpenseModel.AppendKeepsInvariant | backend/src/models/Expense.js:5-10 | Appending a well-formed record with a new key and the next id keeps the store invariant. |
| ExpenseModel.Transformed | backend/src/models/Expense.js:38-47 | The transformed document has `id` in place of `_id` and `__v`, and its decimal amount becomes its string; every other field is unchanged. |
| ExpenseModel.ToJSON | backend/src/models/Expense.js:39-46 | The in-place edit of `ret` yields the transformed document. |
| ExpenseModel.CreateSpecInserts | backend/src/models/Expense.js:3-37 | A draft without violations, with a new key and a working database, is appended as a trimmed record with the next id. |
| ExpenseModel.Store.Create | backend/src/routes/expenses.js:44-50 | Creating against the store does what `CreateSpec` says to the result and to the stored records, and keeps keys unique. |
| RequestValidation.RenderedDateIsIso | frontend/src/components/ExpenseForm.jsx:18 | The date the form is reset to is an ISO 8601 calendar date, and its year, month and day read back. |
| RequestValidation.IsIsoDate | backend/src/routes/expenses.js:33 | No contract of its own: four year digits, a month 01-12 and a day 01-31, separated by hyphens. `RenderedDateIsIso` and `FormMirrorsServer` use it. |
| RequestValidation.AmountErrors | backend/src/routes/expenses.js:22-30 | Every error of the amount chain names the amount field. "Invalid value" is reported exactly for an empty amount, "Amount must be positive" exactly when `isFloat({ gt: 0 })` fails, and "Max 2 decimal places" exactly when the format fails; there are at most three errors. |
| RequestValidation.TooManyDecimals | backend/src/routes/expenses.js:22-30 | A non-zero amount with three or more decimals gets exactly one error, "Max 2 decimal places". |
| RequestValidation.TooManyDecimalsExample | backend/src/routes/expenses.js:22-30 | "10.999" gets exactly the one error "Max 2 decimal places". |
| RequestValidation.ZeroAmountErrors | backend/src/routes/expenses.js:22-30 | An amount in the format whose digits are all 0 gets exactly one error, "Amount must be positive". |
| RequestValidation.AmountAccepted | backend/src/routes/expenses.js:22-30 | The amount chain passes exactly when the amount is in the two-decimal format and not zero. |
| RequestValidation.EmptyAmountErrors | backend/src/routes/expenses.js:22-30 | A missing amount fails all three amount validators, in chain order. |
| RequestValidation.ValidatePost | backend/src/routes/expenses.js:20-34 | The POST errors are empty exactly when the body is accepted. They are ordered by field, and carry the required-field messages exactly when those fields are empty before trimming. |
| RequestValidation.Sanitized | backend/src/routes/expenses.js:31-32 | The handler sees category and description trimmed and the other fields unchanged. |
| RequestValidation.ValidateListQuery | backend/src/routes/expenses.js:69 | The listing query fails exactly when a sort value other than the two allowed ones is present. |
| RequestValidation.SanitizedQuery | backend/src/routes/expenses.js:68 | A present category is trimmed, and the sort value is kept. |
| CategoryMatch.ParseEscaped | backend/src/routes/expenses.js:78 | The escaped query parses as one literal per character of the query. |
| CategoryMatch.PatternAtoms | backend/src/routes/expenses.js:78 | The anchored pattern parses to a start anchor, the query's characters as literals, and an end anchor. |
| CategoryMatch.LitsMatch | backend/src/routes/expenses.js:78 | The literals of a query match at a position exactly when the next characters equal the query ignoring case. |
| CategoryMatch.SelectsExactlyEqual | backend/src/routes/expenses.js:76-80 | On a value not ending in a newline, the filter selects exactly when the value equals the query ignoring case. |
| CategoryMatch.SelectsTrimmed | backend/src/routes/expenses.js:76-80 | Stored categories are trimmed, so the filter selects them exactly when they equal the query ignoring case. |
| CategoryMatch.FoodExamples | backend/src/routes/expenses.js:76-80 | "food" selects "Food" but not "Food2". |
| CategoryMatch.EscapeNeeded | backend/src/routes/expenses.js:78 | "A.B" does not select "AxB", while the unescaped pattern would. |
| CategoryMatch.DollarBeforeFinalNewline | backend/src/routes/expenses.js:78 | The end anchor also matches before a final newline, so the escaped pattern selects a value its query does not equal. |
| CategoryMatch.Escape | backend/src/routes/expenses.js:78 | The escaped query is never shorter than the query, and a query without metacharacters is left unchanged. |
| CategoryMatch.Pattern | backend/src/routes/expenses.js:78 | The pattern is the escaped query between a leading `^` and a trailing `$`. |
| CategoryMatch.MatchAt | backend/src/routes/expenses.js:77-79 | No contract of its own: PCRE's matching of this fragment, where `.` skips a newline and `$` also matches before a final newline. `LitsMatch` and `SelectsExactlyEqual` state what it decides. |
| Listing.SameCategory | backend/src/routes/expenses.js:76-80 | The reference selection: exactly the records whose category equals the query ignoring case. |
| Listing.Filter | backend/src/routes/expenses.js:76-83 | The filter keeps some of the stored records, in store order, and never more than there are. `FilterIsCaseInsensitiveEquality` states which ones. |
| Listing.FilterIsCaseInsensitiveEquality | backend/src/routes/expenses.js:76-83 | On stored records, the regex filter selects the same records, in the same order, as the reference selection. |
| Listing.DirectionOf | backend/src/routes/expenses.js:82 | The listing is ascending exactly for `date_asc`, and descending otherwise. |
| Listing.KeyTrichotomy | backend/src/routes/expenses.js:84 | Any two records compare below, above or equal on `(date, createdAt)`, and never both below and above. |
| Listing.KeyLessTransitive | backend/src/routes/expenses.js:84 | The `(date, createdAt)` order is transitive. |
| Listing.NotBeforeTransitive | backend/src/routes/expenses.js:84 | "Not before" is transitive in either direction. |
| Listing.InsertOrdered | backend/src/routes/expenses.js:83-85 | Inserting into an ordered list keeps it ordered and adds exactly the one record. |
| Listing.Sort | backend/src/routes/expenses.js:83-85 | The sorted listing is ordered in the requested direction and is a permutation of the selected records. |
| Listing.ReverseFlipsDirection | backend/src/routes/expenses.js:82-84 | A list is ascending exactly when its reverse is descending. |
| Listing.Serialise | backend/src/routes/expenses.js:87-95 | A listed record has exactly the fields id, idempotencyKey, amount, category, description, date and createdAt. |
| Listing.ListedAsCreated | backend/src/routes/expenses.js:87-95 | A listed record is the `toJSON` form of the stored record without `updatedAt`. |
| Listing.InsertDistinct | backend/src/routes/expenses.js:108-109 | Adding a value to a strictly increasing list keeps it strictly increasing, and adds exactly that value. |
| Listing.Categories | backend/src/routes/expenses.js:108-109 | The categories are strictly increasing in UTF-16 code-unit order, and a value is among them exactly when some record has it. |
| Listing.CategoriesDistinct | backend/src/routes/expenses.js:108-109 | No category is listed twice. |
| ExpenseRoutes.HandleValidation | backend/src/routes/expenses.js:9-15 | A request goes on exactly when there is no error; otherwise the answer is 422 with the whole error list. |
| ExpenseRoutes.DraftFor | backend/src/routes/expenses.js:44-50 | The handler creates the record with the key and date as given, the decimal read from the amount, and category and description trimmed. |
| ExpenseRoutes.SanitizedIsCast | backend/src/routes/expenses.js:31-32 | The body's `trim()` sanitizers do to category and description what the schema's `trim: true` setters do. |
| ExpenseRoutes.PostSpec | backend/src/routes/expenses.js:18-62 | The answer is 422 exactly when validation fails, and then the store is unchanged. The answer is always 200, 201, 422 or 500, and 201 only for a key not already stored. |
| ExpenseRoutes.Handle | backend/src/routes/expenses.js:36-61 | The answer is 200, 201 or 500. A failed lookup answers 500 and a stored key answers 200, both with the store unchanged. A 201 comes only after a lookup that found no record. |
| ExpenseRoutes.Insert | backend/src/routes/expenses.js:44-59 | 201 exactly for a conforming draft with a new key and no storage failure, with one record added. 200 exactly when a conforming draft's key is already stored. 500 exactly for a draft that does not conform or a storage failure. Only a 201 changes the store. |
| ExpenseRoutes.Post | backend/src/routes/expenses.js:18-62 | The POST handler against the store answers and changes the store as the POST specification says, and keeps keys unique. |
| ExpenseRoutes.HandleBody | backend/src/routes/expenses.js:37-59 | Past validation, the handler's lookup and insert against the store follow the specification. |
| ExpenseRoutes.InsertDraft | backend/src/routes/expenses.js:44-59 | `create` and its `catch` against the store follow the specification. |
| ExpenseRoutes.RenderedAmount | backend/src/models/Expense.js:43-45 | A rendered record carries its amount as the decimal string. |
| ExpenseRoutes.InsertCreates | backend/src/routes/expenses.js:44-52 | A conforming draft with a new key is stored as one new record and answered with 201 and that record. |
| ExpenseRoutes.InsertRecovers | backend/src/routes/expenses.js:53-56 | On a duplicate key, the record already holding the key is answered with 200, and the store is unchanged. |
| ExpenseRoutes.InsertFails | backend/src/routes/expenses.js:58-59 | Any other failure of `create` is answered with 500 and the generic body, and the store is unchanged. |
| ExpenseRoutes.DraftOfAccepted | backend/src/routes/expenses.js:31-50 | For an accepted body the draft is already cast. It conforms exactly when the trimmed category and description are non-empty and their `length` is within 100 and 500 UTF-16 code units. |
| ExpenseRoutes.PostRejects | backend/src/routes/expenses.js:9-15 | A body that fails validation is answered with 422 and its error list, and the store is untouched. |
| ExpenseRoutes.PostReplays | backend/src/routes/expenses.js:41-42 | A POST with a key already stored answers 200 with that record, and the store is unchanged. |
| ExpenseRoutes.PostOfNewKey | backend/src/routes/expenses.js:36-50 | A valid POST whose key is not stored, with no other request in between, goes on to `create` with the sanitized draft. |
| ExpenseRoutes.PostCreates | backend/src/routes/expenses.js:44-52 | A valid POST with a new key, whose trimmed category and description are non-empty and within their limits in UTF-16 code units, stores exactly one record, trimmed, and answers 201 with it. Afterwards exactly one record has the key, and a canonical amount is echoed unchanged. |
| ExpenseRoutes.PostRecoversFromDuplicate | backend/src/routes/expenses.js:53-56 | When a concurrent request stored the key first, the POST answers 200 with that record, and exactly one record has the key. |
| ExpenseRoutes.PostBlankCategoryFails | backend/src/routes/expenses.js:31-32 | A category of white space alone passes validation and is answered with 500, and the store is unchanged. |
| ExpenseRoutes.PostTooLongFails | backend/src/models/Expense.js:23-29 | A category or description whose trimmed `length` exceeds its limit in UTF-16 code units is answered with 500, not 422, and the store is unchanged. |
| ExpenseRoutes.PostKeepsInvariant | backend/src/routes/expenses.js:36-61 | Every POST keeps keys unique, and leaves at most one record with its key. |
| ExpenseRoutes.HandleKeepsInvariant | backend/src/routes/expenses.js:37-59 | The handler past validation keeps keys unique. |
| ExpenseRoutes.InsertKeepsInvariant | backend/src/routes/expenses.js:44-59 | `create` and its `catch` keep keys unique. |
| ExpenseRoutes.RetryReplays | backend/src/routes/expenses.js:40-42 | Repeating a POST that created a record answers 200 with the same body, and stores nothing more. |
| ExpenseRoutes.SerialiseAll | backend/src/routes/expenses.js:87-95 | The listing serialises each record in order. |
| ExpenseRoutes.ListSpec | backend/src/routes/expenses.js:64-103 | The listing is answered with 422 exactly when the sort value is not allowed. Otherwise a failed `find` answers 500 with the generic body, and a successful one 200 with records. |
| ExpenseRoutes.ListingContents | backend/src/routes/expenses.js:72-97 | A valid listing answers 200 with the selected records, in the requested direction, as a permutation of the selection. A blank category selects every record. |
| ExpenseRoutes.CategoriesSpec | backend/src/routes/expenses.js:106-113 | The categories answer is 500 exactly on failure. Otherwise it is strictly increasing in UTF-16 code-unit order and holds exactly the stored categories. |
| ApiClient.MemberIsLast | frontend/src/api/expenses.js:11-12 | A property read from a parsed body is the last member with that name, and is undefined exactly when there is none. |
| ApiClient.Detail | frontend/src/api/expenses.js:11-12 | Reading the detail throws exactly when the body is `null`. Otherwise the detail is `errors` if truthy, else `error` if truthy, else "Request failed", and it is truthy. |
| ApiClient.Msgs | frontend/src/api/expenses.js:29 | Mapping `e.msg` throws exactly when an element is `null`; otherwise it gives one message per element. |
| ApiClient.Attempt | frontend/src/api/expenses.js:6-16 | An attempt returns a body exactly for a 2xx answer with a JSON body, and throws an `ApiError` only for a 4xx answer. |
| ApiClient.ApiFetch | frontend/src/api/expenses.js:3-25 | `apiFetch` makes at least one attempt and at most `retries + 1`. |
| ApiClient.ApiFetchStops | frontend/src/api/expenses.js:17-23 | Every attempt before the last was retried. The calls stop early only at an outcome that is not retried. The last attempt decides the result. |
| ApiClient.ClientErrorTriedOnce | frontend/src/api/expenses.js:9-19 | A 4xx answer becomes an `ApiError` with its status, after exactly one attempt. |
| ApiClient.FirstSuccessReturned | frontend/src/api/expenses.js:7-16 | The first attempt that returns a body settles the call with that body, after exactly that many attempts. |
| ApiClient.ExhaustedRejectsWithLast | frontend/src/api/expenses.js:19-23 | When every attempt fails in a retried way, there are `retries + 1` attempts, and the last attempt's error is thrown. |
| ApiClient.DefaultAttemptsAtMostFour | frontend/src/api/expenses.js:3 | With the default of 3 retries there are at most four attempts. |
| ApiClient.ValidationErrorsReported | frontend/src/api/expenses.js:27-31 | A 422 answer listing validation errors rejects at once, with an `ApiError` whose message is their messages joined with ", ". |
| ApiClient.BareClientError | frontend/src/api/expenses.js:11-12 | A 4xx answer without `errors` or `error`, or without a JSON body, reports "Request failed". |
| ApiClient.ClientErrorOfErrorField | frontend/src/api/expenses.js:10-12 | A 4xx answer without a truthy `errors` but with a non-empty string `error` rejects after one attempt with an `ApiError` carrying its status and that string. |
| ApiClient.NotFoundReported | backend/src/server.js:20 | The server's 404 answer `{ error: 'Not found' }` rejects at once with an `ApiError` whose message is "Not found". |
| ApiClient.ClientError | frontend/src/api/expenses.js:10-12 | A 4xx answer always throws an `ApiError` carrying its status, or a `TypeError`, and a `TypeError` only when there is a JSON body. |
| ApiClient.Message | frontend/src/api/expenses.js:28-29 | Building the message throws exactly when the detail is an array holding a `null`. An array detail gives the `msg` texts joined with ", ", and any other detail its string form. |
| ApiClient.QueryString | frontend/src/api/expenses.js:34-38 | The query is `?category=<c>&sort=<s>`, category first, with only the parameters whose values are not empty, and nothing when neither is. |
| ApiClient.QueryRoundTrip | frontend/src/api/expenses.js:34-39 | The query is empty exactly when neither parameter is set. The server reads back exactly the parameters set, with their values. |
| ExpenseForm.WithField | frontend/src/components/ExpenseForm.jsx:37 | Setting a field gives it the new value and leaves the other fields alone. |
| ExpenseForm.AmountError | frontend/src/components/ExpenseForm.jsx:27-29 | The amount has no error exactly when it is in the two-decimal format and not zero. An error is either of the two messages. An amount in the format can only get the positive-amount one, and "Max 2 decimal places" is shown exactly when the format fails but `parseFloat` is above 0. |
| ExpenseForm.Validate | frontend/src/components/ExpenseForm.jsx:25-34 | The amount, category, description or date is in error exactly when, respectively: its amount check fails, it is empty, it is all white space, or it is empty. The messages are the amount's own, "Select a category", "Description is required" and "Date is required". |
| ExpenseForm.AmountMessages | frontend/src/components/ExpenseForm.jsx:27-29 | A non-zero amount with three or more decimals is told "Max 2 decimal places". An amount in the format whose digits are all 0 is told "Enter a positive amount". |
| ExpenseForm.AmountErrorMatchesServer | frontend/src/components/ExpenseForm.jsx:27-29 | The form accepts an amount exactly when the server's amount chain does. |
| ExpenseForm.Payload | frontend/src/components/ExpenseForm.jsx:50-56 | The posted body carries the current key and the trimmed description, and the other fields as entered. |
| ExpenseForm.FormMirrorsServer | frontend/src/components/ExpenseForm.jsx:25-56 | The server accepts the posted body exactly when the form has no error, the date is a calendar date and the key is not empty. |
| ExpenseForm.Initial | frontend/src/components/ExpenseForm.jsx:14-23 | The initial state holds its key among the issued ones. |
| ExpenseForm.Change | frontend/src/components/ExpenseForm.jsx:36-39 | A change keeps the key and the status. It gives the named field the value and clears its error. |
| ExpenseForm.SubmitStart | frontend/src/components/ExpenseForm.jsx:41-56 | A submit sends a body exactly when the form has no error, and that body is the payload with the current key. Key and form are kept. |
| ExpenseForm.Settle | frontend/src/components/ExpenseForm.jsx:57-67 | A success brings the new key, no errors and the success status. A failure keeps the key and the form, and sets the error status. Both keep the key among the issued ones. |
| ExpenseForm.ChangeTouchesOneField | frontend/src/components/ExpenseForm.jsx:36-39 | A change sets only the named field and clears only its error. Status, key and API error stay. |
| ExpenseForm.SubmitOutcome | frontend/src/components/ExpenseForm.jsx:41-56 | A submit with errors records exactly them and sends nothing. Without errors it sends the current key, sets the status to submitting and clears the API error. |
| ExpenseForm.SuccessRenewsKey | frontend/src/components/ExpenseForm.jsx:58-63 | On success: a blank form dated with a calendar date, no errors, and a key never used before. A tick then makes the form idle. |
| ExpenseForm.RetryAfterFailureReplays | frontend/src/components/ExpenseForm.jsx:64-67 | On failure the status is error and the key is kept, and the API error is the `ApiError`'s message or the generic one. Submitting again sends the same body. |
| ExpenseForm.ValidationErrorsShown | frontend/src/components/ExpenseForm.jsx:64-67 | A 422 answer shows the server's messages, joined with ", ", as the API error. |
| ExpenseForm.ExpenseFormComponent.constructor | frontend/src/components/ExpenseForm.jsx:14-23 | The component starts with a blank form dated today, no errors, idle, and a first key. |
| ExpenseForm.ExpenseFormComponent.HandleChange | frontend/src/components/ExpenseForm.jsx:36-39 | `handleChange` updates the state as `Change` says. |
| ExpenseForm.ExpenseFormComponent.HandleSubmit | frontend/src/components/ExpenseForm.jsx:41-56 | `handleSubmit`, up to the request, updates the state and returns the body as `SubmitStart` says. |
| ExpenseForm.ExpenseFormComponent.Complete | frontend/src/components/ExpenseForm.jsx:57-67 | `handleSubmit`, after the request, updates the state as `Settle` says, and keeps the key among the issued ones. |
| ExpenseForm.ExpenseFormComponent.Tick | frontend/src/components/ExpenseForm.jsx:63 | The timer sets the status back to idle, and changes nothing else. |

## Left out

- backend/src/server.js is not part of this model. It is Express wiring, CORS, logging, the
  404 and 500 fallbacks, and connecting and listening.
- The frontend hooks, the expense list and the application shell
  (frontend/src/hooks/useExpenses.js, frontend/src/components/ExpenseList.jsx,
  frontend/src/App.jsx) are not part of this model. They are effects, rendering, and a
  floating-point running total.
- JSX rendering is not modelled, and neither is the form's `onSuccess` callback.
- The concurrency of Node and the browser is not modelled. A concurrent insert of the same
  key is an input to the POST (`PostEnv.concurrent`), and a request that settles after the
  timer has set the form back to idle is a call of `Complete` after `Tick`.
- ExpenseRoutes.Handle: the re-`findOne` after a duplicate key is assumed to succeed. Its
  own failure would escape the `catch`, and is not modelled.
- Listing.Sort: the order of records with equal `(date, createdAt)` is MongoDB's, and the
  model fixes no order among them.
- Listing.Sort: dates are ordered by their YYYY-MM-DD text. The source stores `new Date(date)`,
  which rolls a day past the end of its month over: "2023-02-30" becomes 2023-03-02. So with
  `date_asc` the source lists such a record after one dated "2023-03-01", while the model
  lists it before. The listed and returned `date` is likewise the text, not the rolled-over
  instant.
- Amount: `Decimal128`'s 34-digit limit is not modelled; amounts are exact decimals of any
  size.
- RequestValidation.ValidatePost: `isISO8601` also accepts forms other than `YYYY-MM-DD`
  (times, week dates, ordinal dates). The model accepts only the calendar date, and stores
  the date as that string rather than as a JavaScript `Date`.
- RequestValidation.ValidatePost: body fields are the strings the validators see, with a
  missing field as the empty string. Non-string JSON values and arrays in query parameters
  are not modelled.
- JsText.UpperAscii: case folding covers ASCII letters only. The Unicode case folding of the
  `i` flag is not modelled.
- JsText.Utf16: strings are sequences of Unicode scalar values. Their UTF-16 code units are
  used for the sort order and for `length`, and a string holding an unpaired surrogate
  cannot be expressed.
- ApiClient.QueryString: percent-encoding by `URLSearchParams` is not modelled, and the
  round trip assumes values of URL-safe characters.
- ApiClient.Text: JSON numbers are integers. Fractional numbers, and the exponent form of
  very large ones, are not modelled.
- ApiClient.ErrorObject: an error entry omits the `value` field express-validator adds; the
  client never reads it.
- ApiClient.ApiFetch: the 10-second abort timer and the 500 ms pause are not modelled. The
  timer appears only as the `TimedOut` outcome, and the URL and request options do not
  affect the model.
- ExpenseForm.AmountError: `parseFloat`'s NaN and sign handling are modelled on the decimal
  grammar, not as floating point. A literal that underflows to 0 in double precision (below
  about 2.5e-324, such as `1e-400`) counts as above zero, so the model shows "Max 2 decimal
  places" where the source shows "Enter a positive amount". Whether the form accepts an
  amount is unaffected: such a literal is never in the two-decimal format.
- Amount.IsFloatAboveZero: the exponent is read but not applied to the value, so a literal
  that underflows to 0 in double precision (such as `1e-400`) counts as above zero.
- Amount.ParsesAboveZero: the same underflow is not modelled: `parseFloat("1e-400")` is 0,
  and the model counts it as above zero.
- RequestValidation.AmountErrors: for an amount that underflows to 0, the model reports only
  "Max 2 decimal places", where the source also reports "Amount must be positive". Whether
  the chain passes is unaffected.
- ExpenseForm.Change: `handleChange` stores `undefined` under the field's error key. The
  model removes the key, which renders the same.
- ExpenseForm.ExpenseFormComponent.Complete: `generateKey` is a fresh key handed in, and
  `new Date()` is a calendar day handed in.
- ExpenseModel.Violations: the schema's amount validator is stated through
  `AmountValidator`, and proved equivalent to positivity.
