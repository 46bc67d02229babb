# clearflow-io/api, modelled in Dafny

This project models the core of a personal-finance HTTP backend written in Go.
It covers:

- the Clerk identity webhook that keeps the user table in step with the identity provider;
- the user, expense and category repositories;
- the expense and category services, with their ownership and Clerk-ID resolution rules;
- the JSON Web Key Set cache and the bearer-token gate;
- the request-parameter parsers (integer, UUID, ISO date);
- the validation-message formatter;
- the HTTPS redirect middleware;
- configuration loading.

Everything is pure functions over immutable values:

- **Tables.** The user table is a map keyed by Clerk ID. The expense and category tables are sequences of rows in insertion order.
- **Database inputs.** Each repository call takes the database's inputs explicitly:
  - `fault`: the error the database reports, if any;
  - `freshId`: the identifier it would generate;
  - `now`: its `NOW()`.
- **Library verdicts.** The cache takes the clock reading and the outcome of the key-set download as inputs. Svix signature checking, JWT parsing, claim validation and JSON decoding are function parameters whose verdicts drive the model.
- **Go library behaviour.** These are modelled exactly as far as the core depends on them: `strconv.Atoi`, `uuid.Parse`/`UUID.String`, `time.Parse`/`Format` with the layout `2006-01-02`, `strings.Split`/`Join`/`TrimPrefix`, `os.Getenv`.

Files, one module each:

- `wrappers.dfy`, `bytes.dfy`, `strings.dfy`, `strconv.dfy`, `uuids.dfy`, `dates.dfy`: value types and the Go library functions.
- `model.dfy`: rows and store errors.
- `listing.dfy`: filter / order / offset-limit.
- `user_repository.dfy`, `expense_repository.dfy`, `category_repository.dfy`: the repositories.
- `expense_service.dfy`, `category_service.dfy`: the services.
- `clerk_webhook.dfy`, `auth.dfy`, `parse.dfy`, `validation.dfy`, `middleware.dfy`, `config.dfy`: the remaining core files.

## Model

| member | source | states |
|---|---|---|
| ClerkWebhook.Handle | internal/api/handlers/clerk_webhook.go:47-79 | Guards run in order: empty secret 500, unusable secret 500, body over 1<<20 bytes 400, bad signature 401, undecodable payload 400 (each with its exact message, store unchanged); only then is the event dispatched; any non-200 leaves the store unchanged |
| ClerkWebhook.UnverifiedNeverParsed | internal/api/handlers/clerk_webhook.go:69-79 | With a failing signature the response and store do not depend on what the payload would decode to |
| ClerkWebhook.OversizeBeforeSignature | internal/api/handlers/clerk_webhook.go:61-72 | An oversized body gets 400 whatever the signature verdict: the size cap is checked first |
| ClerkWebhook.FirstMatch | internal/api/handlers/clerk_webhook.go:85-90 | Index of the first e-mail entry whose id equals the primary id; none when no entry matches |
| ClerkWebhook.PrimaryEmail | internal/api/handlers/clerk_webhook.go:84-94 | The first matching entry's address; if that is empty or nothing matches, the first entry's address; "" for an empty list |
| ClerkWebhook.PrimaryEmailExamples | internal/api/handlers/clerk_webhook.go:84-94 | Concrete selections: match wins, empty match falls back to first, no match falls back to first, empty list gives "" |
| ClerkWebhook.Dispatch | internal/api/handlers/clerk_webhook.go:81-121 | created/updated upsert the payload keyed by data.id (200 iff the upsert succeeds); deleted deletes by data.id (200 iff it succeeds, any error 500); a 500 carries the store's error in its body and leaves the store unchanged; other types 200 with the store unchanged |
| ClerkWebhook.UpsertEventApplied | internal/api/handlers/clerk_webhook.go:82-108 | A successful created/updated event leaves a row for data.id with the chosen e-mail, names and image, and other Clerk IDs' rows untouched |
| ClerkWebhook.DeleteUnknownIsServerError | internal/api/handlers/clerk_webhook.go:110-115 | Deleting an unknown Clerk ID answers 500 carrying ErrNotFound and changes nothing |
| ClerkWebhook.HandleKeepsValid | internal/repositories/user.go:80-81 | Whatever request arrives, the user table keeps one row per Clerk ID and distinct ids |
| UserRepository.Upsert | internal/repositories/user.go:71-106 | Fault: error, table unchanged. Existing Clerk ID: email, names and image replaced, updated_at = now, id and created_at kept. New Clerk ID: row inserted with the fresh id and created_at = updated_at = now. created iff created_at equals updated_at. Only the Clerk ID's entry changes |
| UserRepository.UpsertValid | internal/repositories/user.go:80-81 | Upsert preserves "each row filed under its own Clerk ID, ids distinct" |
| UserRepository.UpsertFrame | internal/repositories/user.go:80-89 | Rows of other Clerk IDs are untouched; the table grows by one row exactly when the Clerk ID was new |
| UserRepository.UpsertUpdateNotCreated | internal/repositories/user.go:80-103 | An update at a time strictly later than creation reports created = false and the updated row |
| UserRepository.UpsertTwice | internal/repositories/user.go:71-105 | Delivering one payload twice: first created, second not created; one row holding the payload, the first id and creation time |
| UserRepository.UpsertIdempotent | internal/repositories/user.go:80-89 | Repeating a successful upsert changes nothing but updated_at |
| UserRepository.DeleteByClerkID | internal/repositories/user.go:108-126 | Fault: error. Absent Clerk ID: ErrNotFound, table unchanged. Otherwise exactly that entry is removed |
| UserRepository.DeleteTwice | internal/repositories/user.go:108-126 | Deletion keeps the table valid, removes one row, keeps the others, and a second delete reports ErrNotFound |
| UserRepository.GetInternalIDByClerkID | internal/repositories/user.go:128-141 | Returns the row's id iff the Clerk ID is present, ErrNotFound otherwise, the fault when the query fails; the table is not an output |
| UserRepository.UpsertThenResolve | internal/repositories/user.go:71-141 | After an upsert the Clerk ID resolves to the stored row's id |
| UserRepository.Create | internal/repositories/user.go:49-69 | A failed query gives its error and no change; otherwise inserts a row with the fresh id and created_at = updated_at = now iff the Clerk ID and the id are new; otherwise an error and no change |
| UserRepository.ListSpec | internal/repositories/user.go:31-47 | A failed query gives its error and no rows; otherwise the listing is the window starting at offset, at most limit long, of a sequence holding every table row once in ascending id order: rows of the table only, strictly ascending ids, window size |
| UserRepository.ListDetermined | internal/repositories/user.go:31-47 | Any sequence holding every row once in ascending id order gives exactly the listing as its window, so the rows the offset skips are the first offset rows in id order |
| UserRepository.CreateValid | internal/repositories/user.go:49-69 | A plain insert preserves "each row filed under its own Clerk ID, ids distinct", and a successful one adds exactly one row |
| ExpenseRepository.ListByUser | internal/repositories/expense.go:26-45 | A fault gives its error; otherwise the result is the window starting at offset, at most limit long, of the user's expenses ordered newest first (equal created_at in some order): every row belongs to the user and is in the table, created_at never increases, a sub-multiset of the user's rows, window size |
| ExpenseRepository.ListByUserComplete | internal/repositories/expense.go:26-45 | A page from offset 0 wide enough returns every expense of the user, each exactly as often as stored |
| ExpenseRepository.Create | internal/repositories/expense.go:47-70 | Appends one row carrying the caller's user, amount, description, dates and category with the fresh id and created_at = now; error and no change on a fault or id clash |
| ExpenseRepository.CreateThenList | internal/repositories/expense.go:47-70 | After a create, the owner's rows are the old ones plus the new row; every other user's rows are unchanged |
| CategoryRepository.ListByUser | internal/repositories/category.go:26-45 | As for expenses: the window starting at offset of the user's categories ordered newest first; only the user's rows, sub-multiset of them, window size |
| CategoryRepository.ListByUserComplete | internal/repositories/category.go:26-45 | A page from offset 0 wide enough returns every category of the user |
| CategoryRepository.Create | internal/repositories/category.go:47-66 | Appends one row with the caller's user, name, description and colour, the fresh id and created_at = now; error and no change on a fault or id clash |
| CategoryRepository.CreateThenList | internal/repositories/category.go:47-66 | After a create, the owner's rows gain exactly the new row and other users' rows are unchanged |
| CategoryRepository.SameNameAllowed | internal/repositories/category.go:47-66 | Two categories of one user with the same name can both be created |
| ExpenseService.Create | internal/services/expense.go:33-49 | With a category id: lookup error returned as is, then absent gives ErrNotFound, then foreign owner gives ErrForbidden, all with no insert; with no category id or an own category, exactly the repository create |
| ExpenseService.NoCategoryIgnoresLookup | internal/services/expense.go:35-48 | Without a category id the lookup outcome makes no difference |
| ExpenseService.CreateKeepsCategoriesOwned | internal/services/expense.go:35-48 | When the lookup answers from the category table, creation preserves "every expense's category exists and belongs to the expense's user" |
| ExpenseService.ForeignCategoryRefused | internal/services/expense.go:40-45 | A category id naming only other users' categories is refused with ErrNotFound or ErrForbidden |
| CategoryService.Resolve | internal/services/category.go:29-32 | Clerk ID resolves iff known and the query succeeds; a failure is wrapped with "failed to get internal user ID for clerk <id>" and is ErrNotFound (through the wrapping) exactly when the Clerk ID is unknown |
| CategoryService.ListByUser | internal/services/category.go:28-34 | An unresolvable Clerk ID gives the wrapped error and no listing; otherwise exactly the repository listing for the resolved internal id, with the same limit and offset |
| CategoryService.Create | internal/services/category.go:36-45 | An unresolvable Clerk ID gives the wrapped error and no insert; otherwise exactly the repository create of the category with its user id replaced by the resolved one: the caller's name, description and colour, the fresh id and created_at = now |
| CategoryService.CreateIgnoresCallerUserId | internal/services/category.go:41 | The user id the caller put in the category has no effect |
| CategoryService.CreateThenList | internal/services/category.go:28-45 | A category created for a Clerk ID is listed for that Clerk ID by a wide enough page |
| Auth.GetJWKS | internal/auth/auth.go:40-74 | Hit (key set held, strictly under 24 h elapsed): cached set, no download, cache unchanged. Otherwise a download; on failure "failed to fetch JWKS: …" and cache unchanged; on success the set is cached with the download's time and returned |
| Auth.StaleStaysStale | internal/auth/auth.go:43-56 | A stale cache is still stale at any later clock reading, so the repeated check under the write lock cannot hit |
| Auth.FetchThenHit | internal/auth/auth.go:43-73 | After a download, calls strictly within 24 h are hits returning that set; at exactly 24 h a new download is attempted |
| Auth.EmptyAlwaysFetches | internal/auth/auth.go:43-56 | An empty cache always downloads |
| Auth.Run | internal/auth/auth.go:40-74 | Calls made one after another: the first starts from the given cache, each later one from the cache the previous call left, and the run ends with the last call's cache |
| Auth.RunWithinWindow | internal/auth/auth.go:42-46 | Any sequence of calls within the window of a held set performs no download and returns that set each time |
| Auth.FailuresKeepEmpty | internal/auth/auth.go:63-66 | Starting empty, a run of failed downloads leaves the cache empty and every call fails |
| Auth.ExtractTokenData | internal/auth/auth.go:114-149 | Fails on key-set error, then "invalid access token", then "token validation failed: …", then "user ID not found in token"; on success UserID equals the subject; a download's cache update survives later failures |
| Auth.AuthMiddleware | internal/auth/auth.go:77-111 | Missing header 401, token after removing one "Bearer " prefix empty 401, extraction failure 401 (all without calling the next handler); otherwise the next handler gets the token data |
| Auth.BearerOptional | internal/auth/auth.go:87 | A header without the prefix is treated exactly like the same token with the prefix |
| Auth.OnePrefixRemoved | internal/auth/auth.go:87 | Only one leading "Bearer " is removed |
| Auth.ProceedOnlyWithSubject | internal/auth/auth.go:80-108 | A request proceeds only with a non-empty token that parses, validates and carries the subject that ends up in the context |
| Auth.GetUserID | internal/auth/auth.go:167-174 | No token data: "token data not found in context"; otherwise the UUID parse of UserID with the parameter name "UserID", which succeeds exactly when UserID is a non-empty canonical UUID |
| Auth.GetUserIDString | internal/auth/auth.go:167-174 | A subject that is a printed UUID reads back as that UUID |
| Parse.ParseQueryParamInt | internal/utils/parse.go:12-28 | Succeeds iff the parameter is absent/empty and optional, or a decimal int64; then dest holds its value; otherwise dest is unchanged and the error text is the required or invalid-value message |
| Parse.QueryParamValidExample | internal/utils/parse_test.go:22-29 | "age=25" sets dest to 25 |
| Parse.QueryParamMissingExamples | internal/utils/parse_test.go:30-44 | A missing optional parameter is no error and keeps dest; a missing required one is an error |
| Parse.QueryParamInvalidExample | internal/utils/parse_test.go:45-51 | "abc" is an error and keeps dest |
| Parse.ParseUUID | internal/utils/parse.go:30-41 | "" gives the required message; succeeds exactly when the string is non-empty and parses, with the parsed value; every other string gets the invalid message |
| Parse.ParseUUIDLowerCase | internal/utils/parse.go:35-40 | A canonical lower-case UUID is accepted and its value prints back as the input |
| Parse.ParseUUIDString | internal/utils/parse_test.go:71-83 | The printed form of any UUID is accepted as that UUID, so printing the result gives the input back |
| Parse.UuidExamples | internal/utils/parse_test.go:84-95 | "" and "not-a-uuid" are rejected with their messages |
| Parse.ParseIsoDate | internal/utils/parse.go:43-51 | Succeeds iff the text is a valid YYYY-MM-DD date; then formatting dest gives the input back; otherwise dest unchanged and the message names the input |
| Parse.IsoDateExamples | internal/utils/parse_test.go:117-131 | "2023-10-27" parses to that date; "27-10-2023" and "2023-13-45" are rejected and keep dest |
| Strconv.AtoiSpec | internal/utils/parse.go:21-24 | Atoi succeeds iff the text is an optional sign and digits within int64, giving its value; a range error happens exactly when the leading digit run overflows int64 for its sign and is either the whole rest or overflows 64 unsigned bits, and gives MinInt64 for '-' and MaxInt64 otherwise; every other input is a syntax error giving 0 |
| Strconv.ItoaAtoi | internal/utils/parse.go:21 | Every int64's decimal text is read back by Atoi as that number |
| Uuids.ParseString | internal/utils/parse.go:35 | Every UUID's printed form parses back to it |
| Uuids.StringParse | internal/utils/parse_test.go:105 | A lower-case canonical string that parses prints back to itself |
| Uuids.DecodeEncodeHex | internal/utils/parse.go:35 | Hex decoding inverts hex encoding |
| Uuids.EncodeDecodeHex | internal/utils/parse.go:35 | Hex encoding inverts decoding on lower-case digit strings |
| Uuids.BytesValueInjective | internal/repositories/user.go:37 | Equal big-endian values mean equal UUIDs, so the id order has no ties |
| Dates.Parse | internal/utils/parse.go:44 | A successful parse is a valid calendar date with a four-digit year |
| Dates.FormatParse | internal/utils/parse_test.go:142 | Formatting a parsed date gives the input text back |
| Dates.ParseFormat | internal/utils/parse.go:44 | Every valid date with year 0..9999 survives formatting then parsing |
| Dates.LeapDayExamples | internal/utils/parse.go:44 | February 29 exists in 2024 and 2000 but not in 2023 or 1900 |
| Validation.FormatValidationErrors | internal/utils/errors.go:10-33 | No errors give ""; one gives its message; more give the first message, "; ", and the text of the rest |
| Validation.Messages | internal/utils/errors.go:14-29 | One message per validation error |
| Validation.MessagesInOrder | internal/utils/errors.go:14-29 | The i-th message is the message of the i-th error |
| Validation.MessageByTag | internal/utils/errors.go:16-27 | required / uuid / min / max produce their texts; any other tag gives "F is invalid" |
| Validation.FormatSmall | internal/utils/errors.go:31-32 | No errors give ""; one error gives its message alone |
| Validation.RecoverFormat | internal/utils/errors.go:14-32 | When no field or parameter contains ';', splitting the joined text recovers exactly the messages in order |
| Middleware.EnforceHTTPS | internal/api/middleware.go:9-23 | Redirect iff X-Forwarded-Proto is exactly "http", always with 308 to the target https:// + host + path (+ "?" + query); otherwise the same request goes on |
| Middleware.RedirectTargetParts | internal/api/middleware.go:14-17 | When neither host nor decoded path contains '?': the target starts with "https://", reads back as host and path up to its first '?', and carries "?" + query iff the query is non-empty |
| Middleware.RedirectTargetAmbiguous | internal/api/middleware.go:14 | GET /a%3Fb?x=1 on host "h" is redirected to https://h/a?b?x=1, which reads back as path "/a" and query "b?x=1" (see Findings) |
| Middleware.EscapeRoundTrip | internal/api/middleware.go:14 | Escaping '%', '?' and '#' in a path leaves no '?' in it, and decoding the escapes gives the path back |
| Middleware.EscapedTargetParts | internal/api/middleware.go:14-17 | Built from the escaped path, the target reads back as the host, a path that decodes to the request's path, and the query iff it is non-empty, whatever the path holds |
| Middleware.OtherProtocolsPass | internal/api/middleware.go:13-21 | "HTTP", "https" and an absent header pass through |
| Config.GetEnv | internal/config/config.go:67-73 | The value if set and non-empty, else the default |
| Config.Load | internal/config/config.go:33-64 | Fails iff DATABASE_URL is empty, with its message; stores the URL unchanged; CLERK_SECRET_KEY defaults to "" and ENV to "development" |
| Config.LoadPort | internal/config/config.go:47 | PORT unset gives 8080; an int64 numeral its value; an out-of-range numeral MinInt64 if negative, MaxInt64 otherwise; anything else 0 silently |
| Config.LoadOrigins | internal/config/config.go:48 | The origins contain no ',' and re-joined with ',' give the variable (or the default) back |
| Config.LoadOriginsDefault | internal/config/config.go:48 | With ALLOWED_ORIGINS unset or empty the origins are ["http://localhost:3000"] |
| Listing.SortBy | internal/repositories/expense.go:33-34 | The result is a permutation of the input ordered by the key |
| Listing.Window | internal/repositories/expense.go:35 | OFFSET/LIMIT: the elements from offset on, at most limit of them |
| Listing.WindowsTile | internal/repositories/expense.go:35 | Consecutive pages of one size concatenate to the page of twice that size |
| Listing.Page | internal/repositories/expense.go:27-35 | The window starting at offset, at most limit long, of the matching elements arranged in key order (each as often as it occurs): only matching elements, key-ordered, a sub-multiset of the matching ones, window size |
| Listing.FilterCount | internal/repositories/expense.go:31-33 | Filtering keeps every matching element exactly as often as it occurs and nothing else |
| Strings.JoinSplit | internal/config/config.go:48 | Joining the pieces of a split gives back the input |
| Strings.SplitJoin | internal/utils/errors.go:32 | Splitting a join of separator-free pieces gives back the pieces |

## Left out

- I/O and wiring are not modelled: HTTP transport, SQL and query building, logging, `main.go`, the router and the database connection. Tables are values, and the database's failures, generated ids and `NOW()` are inputs.
- The JWT library (parse, signature, claim validation) and the Svix signature scheme are not modelled. Only their verdicts are, as function parameters. JSON decoding of the webhook payload is likewise a parameter.
- TLS and HTTP client setup (`InitializeHTTPClient`) and the 5-second download timeout are left out. A timeout is just one more failed download.
- Concurrency is not modelled. The read/write lock is dropped and calls run one after another, so the second freshness check is the first one repeated on an unchanged cache; `StaleStaysStale` shows it cannot hit.
- Auth.GetJWKS: the time the download completes is an input (`fetchedAt`), and `lastFetch` is set to it, as the source's `time.Now()` after the download does. The zero `time.Time` is modelled as clock reading 0.
- Auth.ExtractTokenData: the key-set URL built from the project id is not modelled. The download outcome is given directly.
- ClerkWebhook.Handle: a read error from the transport other than exceeding the size cap is not modelled. The JSON error body is modelled as the error value, not its encoding. Store errors keep their identity (`ErrNotFound` and so on), because their text is defined outside this model.
- The `Create`, `List` and `Upsert` delegations in `internal/services/user.go` are not modelled; that file's `Upsert` returns two results where the repository returns three, so it is modelled through the repository directly.
- ExpenseService.ListByUser is pure delegation to the repository and has no member of its own. Callers use `ExpenseRepository.ListByUser`.
- The category lookup by id that the expense service calls is not part of this model's repositories. Its outcome is an input (`CategoryLookup`); `FindCategory` gives it a reference meaning over a category table.
- Foreign-key constraints of the schema (an expense's user or category existing) are not modelled: the schema is not part of this model. Only the unique Clerk ID and primary keys are.
- Negative `limit`/`offset` are not modelled; they are natural numbers here. Postgres rejects negative values.
- Middleware.EnforceHTTPS: `target` is the URL handed to `http.Redirect`. The percent-escaping of its non-ASCII bytes that `http.Redirect` applies when writing the Location header is not modelled, nor is the short HTML body it writes for GET and HEAD.
- UserRepository.List is a ghost function (the order of a map's entries is chosen by the proof). Rows are ordered by the big-endian value of the UUID bytes, which is the byte-wise order Postgres uses for `uuid`.
- An absent row is assumed to be reported by the query library as `sql.ErrNoRows`, so GetInternalIDByClerkID maps it to ErrNotFound. That library is not part of this model.
- Uuids.Parse: only the canonical 36-character form is modelled. The braced, `urn:uuid:` and 32-digit forms that `uuid.Parse` also accepts are not.
- Parse.ParseUUID: as for `Uuids.Parse`, the non-canonical forms are treated as rejected.
- Validation.FormatValidationErrors: the model takes the list of field errors directly. The source first asserts that its argument is a `validator.ValidationErrors` and panics on any other error; that panic is not modelled.
- Expense amounts are modelled as exact reals, not floating point.
- The `.env` loading of `godotenv` is not modelled. `Load` is modelled from the environment after that file has been merged in.
- The older handlers under `internal/api/handlers` (expense, category, user), `internal/utils/json.go` and the superseded `internal/repository/user.go` are outside the core and not modelled.

Any error from `DeleteByClerkID` on `user.deleted`, including ErrNotFound for an unknown Clerk ID, answers 500 (`ClerkWebhook.DeleteUnknownIsServerError`).

An update in the same clock tick as the insert reports `created = true`, because `created` compares the two timestamps. `UserRepository.UpsertUpdateNotCreated` therefore assumes a strictly later clock reading.

## Findings

| source | as written | input that shows it | evidently intended | confidence | as-written member | corrected member |
|---|---|---|---|---|---|---|
| internal/api/middleware.go:14 | The target is built from `r.URL.Path`, the percent-decoded path, so an escaped '?' (or '#', '%') is sent unescaped | GET /a%3Fb?x=1 with X-Forwarded-Proto "http" on host "h" redirects to https://h/a?b?x=1: path "/a", query "b?x=1" | Redirect to the same resource, building the target from the escaped path (`r.URL.EscapedPath()`) | medium, not executed | Middleware.RedirectTargetAmbiguous | Middleware.EscapedTargetParts |
