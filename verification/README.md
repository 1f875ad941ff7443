# PulseLog route logic in Dafny

This project models the stateful logic of the PulseLog fitness app's route
handlers (Express, MySQL, express-session):

- **routes/users.js.** The account router:
  - the `strongPw` password pattern;
  - the ordered express-validator chain on POST /signup, of which only the first failing message is shown;
  - POST /login, POST /signup, GET /logout;
  - the `/loggedin` and `/registered` aliases;
  - the `redirectLogin` guard.
- **routes/auth.js.** A second account router whose login records only `session.user` and never `session.userId`.
- **routes/main.js.**
  - The weather page's one-shot "flash" of three session keys.
  - The `/search-results` guard and its LIKE parameters.
  - The outcome of POST /add-workout.
  - The `user: req.session.user || null` field that every page receives.

Neither account router is reachable in the application as written. The entry
point mounts only `routes/main.js` (index.js:56-57), so `/login`, `/signup`,
`/logout`, `/loggedin` and `/registered` answer 404. In the same way,
`redirectLogin` (routes/users.js:12-15) is declared but never applied to any
route. The model treats both routers as the handlers they would be if mounted.

## How the model is built

- **Strings** are sequences of UTF-16 code units (`Js.JsString`). A body field
  that was not sent is `None`. `Js.Trim` is String.prototype.trim over the
  ECMAScript WhiteSpace and LineTerminator code units.
- **The session** (`Sessions.Session`) is a class with one field per session
  key. `State()` takes a snapshot of it as a `SessionState` value.
- **The users table** (`UserStore.UserDb`) is a class holding a map from
  username to row, plus a counter that stands for the AUTO_INCREMENT id
  (see `UserStore.Inserted` under "Left out").
- **Handlers.** Each handler is a method that changes the session (and the
  table) in place. Its `ensures` ties the new state and the response to a
  function of the old state: `Users.LoginSpec`, `Users.SignupSpec`,
  `MainRoutes.SubmitWeatherSpec`, and so on. The lemmas state what the
  handlers promise, in terms of those functions.
- **What the model cannot see** enters as parameters:
  - whether each database or hasher call fails, and the salt bcrypt draws (`UserStore.Infra`);
  - the e-mail shape test `isEmail`, as an arbitrary predicate;
  - `WEATHER_API_KEY`;
  - how the outbound weather request ended (`MainRoutes.FetchOutcome`);
  - whether the workout insert failed;
  - today's date.
- **bcrypt** (`Bcrypt`) is abstract. A digest records its cost, its salt and
  what it was computed from. `Compare` accepts exactly the password a digest
  was computed from.
- **`next(err)`** is the response `Forward`.
- **Behaviours of the code that are easy to miss:**
  - A login with no `username` field is not refused with "Invalid
    credentials". The MySQL driver rejects an `undefined` bind parameter, so
    the error goes to `next(err)`.
  - A missing password is tested by `strongPw` as the string "undefined",
    which the pattern refuses.
  - The `confirm` check compares the raw, untrimmed fields with `!==`.
  - A weather city holding an unpaired surrogate, which a JSON body can carry,
    makes `encodeURIComponent` throw while the URL is built. The URIError
    goes to `next(err)` after the three weather keys were deleted, and no
    request is sent.

## Model

| member | source | states |
|---|---|---|
| Js.Trim | routes/users.js:102 | the result is no longer than the input, and neither of its ends is white space or a line terminator |
| Js.TrimStrips | routes/users.js:102 | the result is the input minus a prefix and a suffix made only of white space and line terminators |
| Js.TrimIdempotent | routes/users.js:77 | trimming an already trimmed value changes nothing |
| Js.TrimEmptyIffBlank | routes/main.js:169 | a string trims to "" exactly when every code unit in it is white space or a line terminator |
| Js.WellFormedIffPaired | routes/main.js:182 | `encodeURIComponent` gets through a string, scanning from the left, exactly when every high surrogate is followed by a low one and every low surrogate follows a high one |
| Js.TrimmedTruthy | routes/main.js:162 | `x?.trim()` is truthy exactly when `x` is present and has a non-blank code unit |
| Js.OrEmpty | routes/users.js:102 | `(x or "")` is `x` when `x` is truthy and "" otherwise |
| Validation.StrongPwIffPolicy | routes/users.js:9 | the password pattern accepts exactly the strings of 8 or more code units, none a line terminator, containing a lowercase letter, an uppercase letter, a digit and a code unit outside `[A-Za-z0-9]` |
| Validation.AllDotsIffNoLineTerminator | routes/users.js:9 | `.{8,}$` can run to the end exactly when no code unit is a line terminator |
| Validation.LookaheadIffContains | routes/users.js:9 | on a string without line terminators, `(?=.*[k])` succeeds exactly when some code unit belongs to class k |
| Validation.StrongPwAcceptsExample | routes/users.js:9 | "Abcdef1!" is accepted |
| Validation.StrongPwRefusesLowercase | routes/users.js:9 | "abcdefgh" is refused |
| Validation.StrongPwRefusesShort | routes/users.js:9 | "Abc123!" (7 code units) is refused |
| Validation.NoUpperRefused | routes/users.js:9 | a string with no uppercase ASCII letter is refused |
| Validation.StrongPwRefusesUndefined | routes/users.js:85 | a missing password, tested as "undefined", is refused |
| Validation.FailingAmongIsFailing | routes/users.js:96 | a check is in the failure list built from a list of checks exactly when it is in that list and fails |
| Validation.FailuresAreFailingChecks | routes/users.js:96 | `validationResult(req)` lists exactly the checks that fail |
| Validation.FirstFailureIsDeclaredFirst | routes/users.js:105 | the first entry of the error list is the earliest failing check in declaration order, and there is none when all pass |
| Validation.EveryCheckDeclared | routes/users.js:75-93 | all four checks are declared |
| Validation.FirstFailureIsEarliest | routes/users.js:104-105 | no error is shown iff every check passes; the error shown is check c iff c fails and every check declared before it passes |
| Validation.RetrimIsTrim | routes/users.js:102 | trimming the sanitized field again gives the trimmed field as sent |
| Validation.PassingFormHasPassword | routes/users.js:84-92 | with the checks reading the body, a form that passes all checks has a password that meets the policy, a confirmation equal to it, and a trimmed username of 5 to 20 code units |
| Users.RedirectLogin | routes/users.js:12-15 | when the guard stops a request, its answer is a redirect to /login |
| Users.RedirectLoginIff | routes/users.js:12-15 | the guard redirects to /login exactly when `user` is absent and `userId` is absent or "", and otherwise calls `next()` |
| Users.LoginSucceedsIff | routes/users.js:42-55 | login redirects to / exactly when no call fails, the username has a row and the stored hash accepts the password; it then sets `userId` and `user {id, username}` from that row and nothing else; any other outcome leaves the session unchanged |
| Users.LoginFailureIsUniform | routes/users.js:29-51 | an unknown username gets the "Invalid credentials" page, echoing the username, whether or not a password was sent; a wrong password gets the same page; the session is unchanged |
| Users.LoginErrorsForward | routes/users.js:29-58 | a failed lookup, and for a known username a failed `bcrypt.compare`, go to `next(err)` with the session unchanged; any forwarded error leaves the session unchanged |
| Users.LoginOpensGuard | routes/users.js:53-54 | after a successful login the guard lets requests through |
| Users.Login | routes/users.js:23-59 | the handler's response and new session are those of `LoginSpec` applied to the old session |
| Users.LoggedIn | routes/users.js:61-65 | POST /loggedin behaves exactly as POST /login |
| Users.Cleaned | routes/users.js:102 | the echoed and stored username is the field as sent, trimmed ("" if missing) |
| Users.SignupRejectsInvalid | routes/users.js:104-111 | a form whose earliest failing check is c renders c's message with the trimmed username and e-mail and no password; the session and the table are unchanged |
| Users.EnrolOutcome | routes/users.js:113-130 | after validation, registration succeeds iff hashing, insert and re-read succeed, an e-mail was sent and the name is free; success stores (name, trimmed e-mail, hash) under the next id and logs that row in; any failure forwards the error with the session unchanged; when the insert goes through and only the re-read fails, the table holds exactly the inserted row and nobody is logged in |
| Users.SignupSucceedsIff | routes/users.js:73-132 | with the checks reading the body, signup logs someone in exactly when every check passes, an e-mail was sent, the trimmed username is not taken and no call fails |
| Users.SignupStoresHash | routes/users.js:113-127 | a successful signup stores the trimmed username and e-mail with a hash that accepts the password (never the password), under the next id, and binds that row's id and username to `user` and `userId` |
| Users.SignupGivesFreshId | routes/users.js:115-127 | on a table whose ids are unique and below the counter, the id a signup logs in with is that of the new row and of no row that existed before |
| Users.SignupErrorsForward | routes/users.js:115-130 | every forwarded error leaves the session unchanged; the table is unchanged unless the insert succeeded and only the re-read failed, and in that case it holds exactly the inserted row while nobody is logged in |
| Users.SignupTakenNameChangesNothing | routes/users.js:115-119 | a signup under a username already in the table changes neither the table nor the session, and logs nobody in |
| Users.SignupKeepsTableValid | routes/users.js:115-119 | signup keeps row ids distinct and below the id counter |
| Users.EnrolKeepsTableValid | routes/users.js:113-127 | registration after validation keeps row ids distinct and below the counter |
| Users.SignupStoresValidUsername | routes/users.js:76-127 | with the checks reading the body, the username a successful signup logs in with is stored, has 5 to 20 code units and is already trimmed |
| Validation.FirstFailureAsWrittenOnBody | routes/users.js:76-105 | when the headers and the query string carry none of the four fields, the chain as written (each check reads every place that holds its field) shows the same first failure as the body-only chain |
| Users.AsWrittenAgreesOnBody | routes/users.js:73-132 | on a request whose fields are all in the body, the handler as written and `SignupSpec` give the same response, session and table |
| Users.QueryUsernameSignsUpEmptyName | routes/users.js:76-127 | a body with no username, a valid e-mail and a strong, confirmed password, plus a valid `?username=` in the query string, passes the chain as written: the username "" is stored and logged in; the body-only chain refuses the same body with "Username must be 5-20 characters" |
| Users.QueryUsernameVetoes | routes/users.js:76-79 | a body that passes every check is refused with the username message when the query string carries a username of the wrong length |
| Users.Signup | routes/users.js:73-132 | the handler's response, new session and new table are those of `SignupSpec` applied to the old ones, with the checks reading the body (see "Findings") |
| Users.Enrol | routes/users.js:113-127 | the statements after validation follow `EnrolSpec` |
| Users.Registered | routes/users.js:134-138 | POST /registered behaves exactly as POST /signup |
| Users.LogoutIdempotentAndLocks | routes/users.js:141-143 | logout empties the session and redirects to /login; doing it twice is doing it once; afterwards the guard always redirects |
| Users.Logout | routes/users.js:141-143 | the handler destroys the session and redirects to /login |
| Auth.LoginSucceedsIff | routes/auth.js:25-33 | login redirects to / exactly when no call fails and the credentials are authentic; it then sets only `user {id, username}`, leaving `userId` as it was; any other outcome leaves the session unchanged |
| Auth.LoginFailureIsUniform | routes/auth.js:16-30 | an unknown username renders "Invalid credentials" with no form echo whether or not a password was sent; a wrong password renders the same page; the session is unchanged |
| Auth.LoginErrorsForward | routes/auth.js:16-36 | a failed query, and for a known username a failed `bcrypt.compare`, go to `next(err)` with the session unchanged; a forwarded error never logs anyone in |
| Auth.LoginVariantsAgree | routes/auth.js:11-37 | the two routers' logins succeed and forward on the same inputs; on success their sessions differ only in `userId`, and the guard lets either through |
| Auth.Login | routes/auth.js:11-37 | the handler's response and new session are those of this router's `LoginSpec` |
| Auth.Logout | routes/auth.js:40-44 | the same logout as routes/users.js: empty session, redirect to /login |
| Sessions.Session.Destroy | routes/users.js:142 | after `destroy` every session key is absent |
| Bcrypt.Hash | routes/users.js:113 | a digest made with cost 10 and the drawn salt, which `compare` accepts for the hashed password |
| UserStore.Inserted | routes/users.js:115-119 | the insert succeeds iff the statement does not fail and the username is free; it adds exactly one row, under the next id, and keeps every existing row |
| UserStore.InsertKeepsValid | routes/users.js:115-119 | an insert keeps ids distinct and below the counter |
| UserStore.UserDb.Insert | routes/users.js:115-119 | the table becomes the result of `Inserted`, or stays as it was when the insert fails |
| MainRoutes.SubmitWeatherGuards | routes/main.js:162-182 | a missing or blank city stores only "Please enter a city name" and sends no request; a missing API key stores only the "not configured" message and sends no request; a trimmed city with an unpaired surrogate makes `encodeURIComponent` throw, so the error is forwarded with the three keys deleted and nothing sent; otherwise a request is sent for the trimmed city; the answer is a redirect to /weather except in the forwarded case |
| MainRoutes.LoneSurrogateCityForwards | routes/main.js:162-182 | with an API key set, the city "\ud800" is forwarded as an error, only the three weather keys are deleted, and no request is sent |
| MainRoutes.SubmitWeatherExclusive | routes/main.js:165-225 | a POST is forwarded exactly when it stores neither report nor error, and then only the three keys are deleted; after any other POST, either the report the provider answered with and the trimmed city are stored with no error, or an error is stored with neither report nor city; the report is stored iff the request went out and came back with status 200, `cod` 200 and a well-formed body; no other session key changes |
| MainRoutes.SettleExclusive | routes/main.js:191-225 | the response callbacks store either the answered report with the city and no error, or an error alone; the report exactly when status and `cod` are 200 and the body formats; no other key changes |
| MainRoutes.SubmitWeatherErrors | routes/main.js:211-225 | the error for each failed request: the API's message or "City not found", "Failed to parse weather data", or "Failed to fetch weather data: " followed by the network error |
| MainRoutes.SubmitWeatherForgetsEarlier | routes/main.js:164-167 | the POST's outcome does not depend on anything an earlier request stored in the three weather keys |
| MainRoutes.ShowWeatherConsumes | routes/main.js:141-157 | after GET /weather none of the three keys remains, the other keys are kept, and a second GET renders null weather, city and error |
| MainRoutes.SettleStoresTruthy | routes/main.js:191-225 | every city and error the response callbacks store is a non-empty string |
| MainRoutes.StoredFlashIsTruthy | routes/main.js:161-227 | every city and error a POST stores is kept as it is by the GET handler's "or null" defaulting |
| MainRoutes.WeatherFlashRoundTrip | routes/main.js:141-157 | the GET after a POST renders exactly the report, city and error that the POST stored, with the session's user |
| MainRoutes.ShowWeather | routes/main.js:140-158 | the handler's response and new session are those of `ShowWeatherSpec` |
| MainRoutes.SubmitWeather | routes/main.js:161-227 | the handler's response, new session and outgoing request are those of `SubmitWeatherSpec`, the URIError of `encodeURIComponent` included |
| MainRoutes.Infix | routes/main.js:116 | the LIKE parameter is the text with one `%` before and one after it |
| MainRoutes.PlanSearch | routes/main.js:106-116 | a missing or blank `search_text` goes back to /search without a query; otherwise both LIKE parameters are `%` + trimmed text + `%`, and the trimmed text is non-empty and has no white space at its ends |
| MainRoutes.SearchResults | routes/main.js:105-137 | a query redirects to /search iff it is blank; any other query renders the results page, which shows the session's user and the trimmed text, with the rows found, or no rows and "Failed to search workouts" when the query fails |
| MainRoutes.WorkoutParams | routes/main.js:82 | the exercise and the duration are passed as sent; empty or missing notes are stored as null and never as ""; a missing or empty date becomes today's date |
| MainRoutes.AddWorkoutOutcome | routes/main.js:80-91 | a saved workout redirects to /workouts and leaves the session unchanged; a failed insert (including one with no exercise) sets only `workoutError` to the fixed message and redirects to /add-workout |
| MainRoutes.AddWorkout | routes/main.js:75-92 | the handler's response, new session and inserted parameters are those of `AddWorkoutSpec` |

## Left out

- index.js: the app wiring, pool settings, cookie options and environment loading. They are configuration with no logic. Its only relevant fact, that just routes/main.js is mounted, is stated above.
- routes/weather.js is not part of this model. It is a stateless message choice around an HTTP call.
- Validation.PassingFormHasPassword: stated of the checks reading the body. `check()` also reads the headers and the query string, and the chain as written (`Validation.FailsAsWritten`) can pass on a query value while the body lacks the field; see "Findings".
- Users.SignupSucceedsIff: stated of the checks reading the body. As written the handler can log in the username "" (`Users.QueryUsernameSignsUpEmptyName`) and refuse a valid body (`Users.QueryUsernameVetoes`); see "Findings".
- UserStore.Inserted: ids are drawn from a counter that only a successful insert advances. InnoDB's AUTO_INCREMENT also consumes a value when an insert fails on the UNIQUE key, so after a duplicate signup the real id can be higher than `nextId`. Of the real id only freshness (`Users.SignupGivesFreshId`) is claimed.
- Validation.FailsAsWritten: an error is listed once per failing check; express-validator lists one per place where the check fails. Only the first entry is shown, and its message is the same.
- Validation.Sanitized: assumes that express-validator's `trim()` leaves a field that was not sent undefined rather than turning it into a string; the e-mail check that forwards an error when no e-mail was sent rests on it.
- GET /login, GET /signup, GET /about, GET /add-workout and GET /search render a template with constant or query-echo data. GET / and GET /workouts render rows read from the workouts table, or none (GET /workouts adding "Failed to load workouts") when the query fails. None of them changes state. Only the `user || null` field they share is modelled, in `Http.ViewUser`.
- Weather: parsing the provider's JSON and formatting the report (`Math.round`, `|| 0`). `FetchOutcome` says only whether the body parsed and whether the report could be formatted.
- SQL semantics: ORDER BY, LIKE matching (a `%` or `_` inside the search text acts as a wildcard, since it is not escaped), and collation. The users table is a map keyed by the exact username, so "only the first row is consulted" holds trivially. UNIQUE enforcement is modelled as an insert failure when the name is taken.
- The model does not capture bcrypt's internals: the digest format, the 72-byte input limit, one-wayness, timing, and the salt's randomness (the salt is a parameter).
- `isEmail` is a parameter because its source is not visible. So, with an arbitrary `isEmail`, a form can pass validation without an e-mail field. The model then forwards the error, as `email.trim()` would throw.
- Validation.Fails: the username length is counted in UTF-16 code units. express-validator's `isLength` counts some surrogate pairs and variation selectors as one character.
- Validation.Fails: a request field sent as something other than a string is not modelled. That covers a body field (an array, a number, a nested object), `search_text` in the query string (`?search_text=a&search_text=b` gives an array, `?search_text[x]=1` an object) and the weather form's `city`. Every such field is a string or missing, so `MainRoutes.SearchResults` and `MainRoutes.SubmitWeatherSpec` do not cover the TypeError that `.trim()` throws on such a value.
- `parseInt(duration)` is not modelled, and neither is `new Date()`: the duration is stored as sent and today's date is a parameter.
- Concurrency and async interleaving, the connection pool, and the `session.destroy` callback. Each handler is modelled as one atomic step.
- `router.handle` re-dispatch. The aliases `/loggedin` and `/registered` call the handlers directly.
- `session.workoutError` is written by POST /add-workout but no handler reads or clears it. The model records the write and proves that no handler other than logout changes that key.

## Findings

| source | as written | input that shows it | evidently intended | confidence | as-written member | corrected member |
|---|---|---|---|---|---|---|
| routes/users.js:76-102 | `check(field)` validates the field in the body, the headers and the query string, while the handler reads only `req.body`, so `cleanUser` can be "" after validation passed | `POST /signup?username=alice1` with `email`, `password` and `confirm` in the body and no body `username`: the username "" is stored and logged in | the checks validate the values the handler uses (`body(field)`), so a stored username has 5 to 20 code units | medium, not executed; rests on express-validator's choice of locations | Users.QueryUsernameSignsUpEmptyName | Users.SignupStoresValidUsername |
