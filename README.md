# cloud-clicker, modelled in Dafny

cloud-clicker is a Next.js web app with one big button. Each click by a signed-in user is sent to an API route. The route checks the user's Firebase ID token and then, in one Firestore transaction, does three writes:

- bumps the user's click counter;
- bumps the global counter;
- appends a click event with a server timestamp.

A middleware runs in front of that route and applies an in-memory, per-client, fixed-window rate limit. A dashboard page draws clicks per minute over the last few hours, for everyone and for the signed-in user. The login/signup form validates its fields before it submits.

This project models the logic of that core and proves properties of it. Each file is one module:

| file | module | models |
|---|---|---|
| `wrappers.dfy` | `Wrappers` | `Option` |
| `interfaces.dfy` | `Interfaces` | `ClickInfo`, `RateLimitData` (src/interfaces/interface.ts) |
| `rate_limit.dfy` | `RateLimit` | the limiter table and `rateLimit` (src/rate-limit.ts), the middleware (src/middleware.ts) |
| `click_update.dfy` | `ClickUpdate` | the click endpoint (src/pages/api/clicks/update.ts): Bearer-token extraction, the status decision, the three-write transaction |
| `activity.dfy` | `Dashboard` | `getClicksPerMinute`, `fetchData` and `handleOnclick` of src/pages/dashboard.tsx |
| `login_form.dfy` | `LoginForm` | the two regular expressions and `handleSubmit` of src/components/LoginForm.tsx |
| `private_key.dfy` | `PrivateKey` | `formatPrivateKey` of db/firebaseAdmin.ts |

The modelling choices follow how the source code behaves:

- **Rate-limit table.** The module-level table becomes the field of a `Limiter` object, which `Check` updates in place. Its effect is specified by the pure function `Step`.
- **Firestore records.** The three records the endpoint writes become the fields of a `Database` object, and `RunTransaction` updates them all or none. The pure counterparts are `Transact` and `Handle`.
- **Dashboard counting.** The counting pass is an imperative loop, specified by the recursive function `Tally`.
- **Inputs passed as parameters.** Clocks, the server timestamp, the time-zone offset, the token verifier and store failures are all parameters:
  - `now`, `ts`, `offsetMinutes`;
  - `verify: string -> Verification`;
  - `fault`.

Where the code and its documentation disagree, the code is followed:

- **Rate limit.** The limiter admits 150 requests per client in a window of 60000 ms. The reset test is strictly "more than 60000 ms since the window opened". The toast shown to users says 15 per minute; `RateLimit.AdvertisedLimitIsNotEnforced` proves that the 16th call of a fresh window is admitted.
- **Username length.** The username pattern accepts 7 to 30 characters, while its error message says 7-28. See `LoginForm.UsernameMatchesSpec` and `LoginForm.ThirtyCharacterUsernameAccepted`.
- **Verifier errors.** A token the verifier rejects by throwing ends in the handler's catch block, so the answer is 500 "Failed to update clicks", not 401.
- **Email address.** The email check is unanchored: any text containing a match passes.

## Model

| member | source | states |
|---|---|---|
| RateLimit.FirstEntry | src/rate-limit.ts:7 | `split(',')[0]`: a comma-free prefix of the header that is all of it or stops at its first comma |
| RateLimit.ClientKey | src/rate-limit.ts:7 | the key is `x-real-ip` when present and non-empty, else the first entry of `x-forwarded-for`, else the shared key "undefined" |
| RateLimit.Step | src/rate-limit.ts:10-35 | only the caller's entry changes. An unknown key or a window older than 60000 ms restarts at count 1 and is admitted. Inside the window: below 150 it is admitted and counted, with the window start kept; at 150 it is rejected with "Rate Limit Exceeded!" and the table is unchanged. Counts stay within 1..150 |
| RateLimit.RunInsideWindow | src/rate-limit.ts:18-35 | inside an open window holding c requests, call i is admitted exactly when i < 150 - c. The count ends at c + min(n, 150 - c), the window start never moves, and other clients are untouched |
| RateLimit.RunFromFirstRequest | src/rate-limit.ts:10-35 | for a new client, or one whose window is more than 60000 ms old at its first call, a burst within 60000 ms of that call admits exactly the first 150 calls, and min(n, 150) calls in all |
| RateLimit.AdvertisedLimitIsNotEnforced | src/pages/index.tsx:49 | the 16th call in a fresh window is still admitted, although the toast announces 15 |
| RateLimit.Limiter.constructor | src/rate-limit.ts:4 | the table starts empty and well-formed |
| RateLimit.Limiter.Check | src/rate-limit.ts:6-36 | the in-place update of the table and the verdict are those of `Step` for the derived key; the well-formedness of counts is preserved |
| RateLimit.Middleware | src/middleware.ts:11-20 | passes the request on exactly when the limiter admits it, otherwise answers 429 "Rate limit exceeded"; the table is updated as by `Step` |
| ClickUpdate.BearerToken | src/pages/api/clicks/update.ts:25 | `split('Bearer ')[1]` is absent exactly when the header contains no "Bearer ", and the token never contains "Bearer " |
| ClickUpdate.TokenBetweenBearers | src/pages/api/clicks/update.ts:25 | `pre + "Bearer " + t + "Bearer " + rest` yields exactly `t` when neither `pre` nor `t` contains "Bearer " |
| ClickUpdate.TokenAfterFirstBearer | src/pages/api/clicks/update.ts:25 | `pre + "Bearer " + t` yields exactly `t` when neither `pre` nor `t` contains "Bearer " |
| ClickUpdate.UsableToken | src/pages/api/clicks/update.ts:25-31 | the handler goes on exactly when the Authorization header is present, contains "Bearer ", and the text after it is non-empty; the token is then that text, which never contains "Bearer " |
| ClickUpdate.Decide | src/pages/api/clicks/update.ts:23-71 | a non-POST gets 405 with `Allow: POST`. A missing or empty token gets 401 "Authentication token required". A verifier that throws gives 500, and an empty uid gives 401 "Unauthorized!". A click is recorded exactly for a POST with a usable token whose verified uid is non-empty, and for that uid |
| ClickUpdate.NoTokenNoVerification | src/pages/api/clicks/update.ts:26-31 | without a usable token the outcome does not depend on the verifier |
| ClickUpdate.Transact | src/pages/api/clicks/update.ts:42-49 | commits exactly when there is no store fault and both the user's and the counter's documents exist. A commit bumps that user's counter and the global counter by one and appends one event for the uid at the server time; otherwise nothing is written |
| ClickUpdate.TransactPreservesConsistency | src/pages/api/clicks/update.ts:42-49 | counters that agree with the event log still agree after a commit. The user's event count rises by one and every other user's stays the same |
| ClickUpdate.Handle | src/pages/api/clicks/update.ts:23-71 | the store changes exactly when the answer is 200, and a 200 is always "Clicks updated successfully!". A request `Decide` answers (405, 401, 500 from the verifier) gets that answer with the store unchanged. A verified uid gets 200 with the committed state when the transaction commits, and 500 with nothing written when it does not |
| ClickUpdate.HandlePreservesConsistency | src/pages/api/clicks/update.ts:19-72 | every request, answered or recorded, keeps the counters consistent with the event log |
| ClickUpdate.Database.RunTransaction | src/pages/api/clicks/update.ts:42-49 | all three writes take effect in place or none does, as `Transact` states |
| ClickUpdate.Handler | src/pages/api/clicks/update.ts:19-72 | the response and the new database state are those of `Handle` on the old state |
| Dashboard.MinuteKey | src/pages/dashboard.tsx:76-81 | the bucket is a whole minute, at most one minute below the shifted timestamp |
| Dashboard.SameMinuteSameKey | src/pages/dashboard.tsx:76-81 | two timestamps share a bucket exactly when they fall in the same minute |
| Dashboard.KeyMonotone | src/pages/dashboard.tsx:76-81 | later clicks never get an earlier bucket |
| Dashboard.InWindow | src/pages/dashboard.tsx:65-68 | a click is in the window exactly when it is at most `hours` hours old; clicks stamped at or after now are always in it |
| Dashboard.Filter | src/pages/dashboard.tsx:68 | the query returns no more clicks than the log holds |
| Dashboard.FilterMembers | src/pages/dashboard.tsx:65-68 | the query returns exactly the clicks of the log with timestamp at or after the cutoff |
| Dashboard.FilterOrderFree | src/pages/dashboard.tsx:68 | filtering a reordered log gives a reordering of the filtered log |
| Dashboard.BumpMeans | src/pages/dashboard.tsx:83 | `(m[k] \|\| 0) + 1` adds one to bucket k, creating it at 1 when missing, and leaves every other bucket as it was |
| Dashboard.TallySnoc | src/pages/dashboard.tsx:74-87 | counting one more click bumps exactly that click's bucket |
| Dashboard.TallyKeys | src/pages/dashboard.tsx:83-86 | the counts hold exactly the buckets that received a click, and none holds 0 |
| Dashboard.CountPerMinute | src/pages/dashboard.tsx:74-87 | the loop leaves the per-minute counts of all fetched clicks, and those of the viewer's own clicks |
| Dashboard.ClicksPerMinute | src/pages/dashboard.tsx:63-90 | the two maps count the clicks of the window, all and the viewer's; every viewer bucket is a total bucket with no more clicks |
| Dashboard.ViewerWithinTotal | src/pages/dashboard.tsx:84-86 | in every bucket the viewer's count is at most the total count |
| Dashboard.ViewerKeysWithinTotal | src/pages/dashboard.tsx:83-86 | the viewer's buckets are among the total's, with pointwise smaller counts |
| Dashboard.TallyOrderFree | src/pages/dashboard.tsx:74-87 | the counts do not depend on the order in which the store returns the clicks |
| Dashboard.SortedKeys | src/pages/dashboard.tsx:96 | each bucket of the set appears once, in increasing order, and nothing else does |
| Dashboard.Align | src/pages/dashboard.tsx:97-98 | one value per key: that key's count, or 0 where the map lacks it |
| Dashboard.BuildSeries | src/pages/dashboard.tsx:96-98 | the keys are the sorted union of both maps' buckets; the two value series line up with them, with 0 for a missing bucket |
| Dashboard.Datasets | src/pages/dashboard.tsx:105-114 | "Total Clicks" is always drawn; "Your Clicks" is drawn second, and only when someone is signed in |
| Dashboard.FetchData | src/pages/dashboard.tsx:93-120 | when the clicks are read, the chart set is `Activity` of the log, time, window, viewer and offset; when reading fails, the chart on screen stays as it was |
| Dashboard.ActivityShape | src/pages/dashboard.tsx:96-114 | the chart's buckets are in increasing order; "Total Clicks" comes first, "Your Clicks" second exactly when someone is signed in, and each has one value per bucket |
| Dashboard.ChartKeysAreEventMinutes | src/pages/dashboard.tsx:95-98 | the x positions are exactly the minutes holding a click of the window, each once and in time order; the viewer's series adds none |
| Dashboard.ChartViewerWithinTotal | src/pages/dashboard.tsx:105-109 | at every x position "Your Clicks" is at most "Total Clicks" |
| Dashboard.TotalsSumToWindow | src/pages/dashboard.tsx:83-97 | the "Total Clicks" values add up to the number of clicks in the window |
| Dashboard.NoViewerNoMine | src/pages/dashboard.tsx:84-86 | with nobody signed in, no click counts as the viewer's |
| Dashboard.EmptyWindow | src/pages/dashboard.tsx:65-68 | a window without clicks draws no positions and empty series |
| Dashboard.ActivityOrderFree | src/pages/dashboard.tsx:68-98 | the chart does not depend on the order in which the store returns the clicks |
| Dashboard.ClampHours | src/pages/dashboard.tsx:124-129 | the window is always 2 to 24 hours: an in-range entry is used as is, and an empty or out-of-range entry becomes 4 |
| LoginForm.IsValidUsername | src/components/LoginForm.tsx:22-25 | an accepted username starts with an ASCII letter and has 7 to 30 characters |
| LoginForm.UsernameMatchesSpec | src/components/LoginForm.tsx:22-25 | the username pattern accepts exactly: an ASCII letter, then letters, digits or '_', 7 to 30 characters in all |
| LoginForm.ThirtyCharacterUsernameAccepted | src/components/LoginForm.tsx:23 | a 30-character username passes, though the error message announces at most 28 |
| LoginForm.IsValidEmail | src/components/LoginForm.tsx:27-30 | an accepted text has an '@' with at least one character before it and three after it |
| LoginForm.EmailMatchesSpec | src/components/LoginForm.tsx:27-30 | the email check passes exactly when, somewhere in the text, an '@' preceded by a non-space is followed by non-spaces, a '.', and one more non-space |
| LoginForm.EmailSurroundingsFree | src/components/LoginForm.tsx:28 | the email pattern is unanchored: any text around an accepted address is accepted too |
| LoginForm.HandleSubmit | src/components/LoginForm.tsx:32-57 | absent fields read as "". The checks run in order username (signup only), email, password, and the first failure's message is reported. A submit reaches `onSubmit` exactly when all checks pass, and it carries the three field values |
| LoginForm.LoginIgnoresUsername | src/components/LoginForm.tsx:38 | in login mode the username never changes whether, or with which message, a submit fails |
| LoginForm.FirstFailureWins | src/components/LoginForm.tsx:38-42 | in signup mode a bad username is reported whatever the email and password are |
| PrivateKey.FormatPrivateKey | db/firebaseAdmin.ts:12-14 | the result is shorter than the key by exactly the number of backslash-'n' pairs in it |
| PrivateKey.FormatHead | db/firebaseAdmin.ts:13 | a backslash at the head of the result is a key backslash that does not start a pair |
| PrivateKey.FormatLeavesNoPair | db/firebaseAdmin.ts:13 | no backslash-'n' pair is left in the result |
| PrivateKey.FormatSplit | db/firebaseAdmin.ts:13 | the replacement works piece by piece: a key cut anywhere but inside a pair formats as its two pieces formatted |
| PrivateKey.PairBecomesNewline | db/firebaseAdmin.ts:13 | each backslash-'n' pair becomes one newline in its place, whatever text surrounds it, including real newlines |
| PrivateKey.FormatWithoutPairs | db/firebaseAdmin.ts:13 | a key without backslash-'n' pairs is returned unchanged |
| PrivateKey.FormatIdempotent | db/firebaseAdmin.ts:13 | formatting twice is the same as formatting once |
| PrivateKey.Escape | db/firebaseAdmin.ts:12-14 | the inverse encoding, used to store such a key: no newline survives and the text only grows |
| PrivateKey.EscapeUndoesFormat | db/firebaseAdmin.ts:13 | for a key without newlines, escaping the formatted key restores it, so every other character keeps its place |
| PrivateKey.FormatUndoesEscape | db/firebaseAdmin.ts:13 | formatting an escaped text restores it, when the text had no backslash-'n' pair of its own |

## Left out

- **Time.** `Date.now()` and the server timestamp are parameters.
- **Time-zone offset.** The dashboard uses one fixed offset, while the source asks for the offset of each click's date, so a daylight-saving change inside the window is not modelled.
- **Bucket labels.** The minute bucket is kept as an integer. The ISO text `YYYY-MM-DD HH:MM` is not modelled, nor the years where its width changes, nor the locale formatting of the chart labels.
- **Hours value.** The hours value is an integer. Fractional and non-numeric entries, which `Number(...)` turns into fractions or NaN, are not modelled.
- **Field clearing.** `handleOnclick` clears the input field; that UI effect is not modelled.
- **Limiter keys.** The limiter table is a plain map. A client key that names a property of a JavaScript object prototype (such as "constructor") behaves differently in the source.
- **Table growth.** The limiter never evicts entries; the model keeps them too, and no bound on the table is claimed.
- **Token verification.** `verifyIdToken`, `initAdmin` and `createFirebaseAdminApp` are a parameter function returning a uid or throwing. How Firebase Admin apps are created and reused is not modelled.
- **Store failures.** Failures of the Firestore transaction other than a missing document are the flag `fault`. Retries, contention and partial network failure are not modelled; the transaction is all or nothing.
- **Missing click counter.** A user document with no `clickCount` field is not distinguished from one whose count is 0.
- **HandleSubmit:** in login mode the username input is not rendered, so the page passes an empty username to `onSubmit`. The model takes whatever username the caller gives and does not model the rendering.
- **Password length.** It is measured in Dafny characters. JavaScript counts UTF-16 code units, so characters outside the Basic Multilingual Plane count twice in the source.
- **Concurrency.** Concurrent requests, and interleaving of the limiter's read and write, are not modelled; each call runs alone.
- **Not part of this model:**
  - the live counter feed (src/hooks/useFirestore.ts);
  - the auth hooks and account creation (src/hooks/useAuth.ts);
  - logging (logger.ts, src/instrumentation.ts);
  - the button component;
  - page layout and rendering.
