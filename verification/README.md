# fit-genius-backend authentication core, in Dafny

The backend keeps two PostgreSQL tables, `users` and `refresh_tokens`, and exposes
five authentication operations:

- `registerUser`, `loginUser`, `refreshAccessToken`, `logoutUser` and
  `cleanupExpiredTokens`, in `src/services/auth-service.ts`.
- Two validators: `validateEmail` and `validatePassword`.
- Two Express middlewares that check the `Authorization` header: `authenticateToken`
  and `optionalAuth`, in `src/middleware/auth.ts`.

This project models that core as pure functions over an immutable store and proves
properties of them.

- **Data.** The store is `Schema.Store`: the two tables as sequences of rows in
  insertion order. `findFirst` is a `LIMIT 1` query with no `ORDER BY`, so
  PostgreSQL may return any matching row. The model takes the first one in its
  sequence. That choice does not matter for the service: in a valid store each
  lookup it makes matches at most one row, because e-mail addresses, ids and token
  values are unique (`AuthProperties.TokenRowUnique`, `Schema.UniqueEmails`). The table
  constraints are part of the model: primary keys, the `UNIQUE` e-mail and token
  columns, the `varchar` widths, and the `ON DELETE CASCADE` foreign key. An insert
  that would break one is refused, as PostgreSQL refuses it. Two PostgreSQL rules are not modelled: its refusal of text holding NUL, and its cutting of an over-long `varchar` value whose excess is only spaces (see "## Left out"). `Schema.Valid` states
  all of them together, and every operation preserves it.
- **Operations.** Each exported operation is one transition (`AuthService.Register`,
  `Login`, `Refresh`, `Logout`, `CleanupExpiredTokens`). It returns the new store and
  either the success value or the reason for failure (`AuthError`).
- **Inputs from outside.** What the service gets from libraries or the environment
  is passed in as a parameter:
  - the current time, in milliseconds;
  - the bcrypt hash and the bcrypt comparison;
  - the random values: `randomUUID`, the token row's random id, and the 64 bytes
    behind a refresh token (`AuthService.Fresh`);
  - the result of `jwt.verify`.
- **JavaScript behaviour that matters for the proofs** is written out in `JsText`:
  - `!value` on a string or `undefined`;
  - `trim` and the `\s` class, using the ECMAScript white-space set;
  - `.length` in UTF-16 code units;
  - `split(" ")`;
  - `toLocaleLowerCase`.

Where the documentation of the system and the code disagree, the model follows the
code:

- Registration stores the e-mail exactly as given. It is neither trimmed nor
  lower-cased.
- The registration result includes the stored user row, password hash included.
- `"short1"` fails both password rules, not only the length rule.
- `cleanupExpiredTokens` revokes every unrevoked token, because its expiry condition
  is commented out.
- `cleanupExpiredTokens` returns `undefined`, not the number of revoked tokens. It
  returns `result.count`, but the database handle is drizzle over node-postgres
  (`src/db/index.ts`), whose update result reports that number as `rowCount`.

The first, fourth and fifth of these are listed under Findings, each with a corrected
definition next to the as-written one.

Files:

| File | Contents |
|---|---|
| `wrappers.dfy` | `Option` and `Result` |
| `js_text.dfy` | the JavaScript string primitives |
| `validation.dfy` | the password rule and its regular expression, and the e-mail check |
| `schema.dfy` | the two tables, their constraints, and the drizzle queries and updates the service issues |
| `tokens.dfy` | the hex refresh token and the access-token claims |
| `auth_service.dfy` | the five operations |
| `auth_properties.dfy` | properties relating several calls |
| `middleware.dfy` | `verifyToken` and the two middlewares |
| `findings.dfy` | the two discrepancies, as written and as corrected |

## Model

| member | source | states |
|---|---|---|
| JsText.Trim | fit-genius-backend/src/services/auth-service.ts:102-103 | the trimmed name is no longer than the input and neither starts nor ends with white space |
| JsText.TrimIsSlice | fit-genius-backend/src/services/auth-service.ts:102-103 | the trimmed name is a contiguous slice of the input, and only white space was cut from either end |
| JsText.TrimIdempotent | fit-genius-backend/src/services/auth-service.ts:102-103 | trimming an already trimmed name changes nothing |
| JsText.Utf16Length | fit-genius-backend/src/services/auth-service.ts:51 | `password.length` counts characters outside the Basic Multilingual Plane twice; it lies between the character count and twice that, and it is zero only for the empty string |
| JsText.LocaleLower | fit-genius-backend/src/services/auth-service.ts:141 | the lower-cased address has the same length and no capital letter left, and every character is either kept or replaced by its lower-case partner |
| JsText.LocaleLowerIdempotent | fit-genius-backend/src/services/auth-service.ts:141 | lower-casing twice gives the same as lower-casing once |
| JsText.Split | fit-genius-backend/src/middleware/auth.ts:8 | `split(" ")` returns at least one piece, no piece contains a space, and joining the pieces with spaces gives back the header |
| JsText.SplitUnique | fit-genius-backend/src/middleware/auth.ts:8 | any space-free pieces that join back to the header are exactly the pieces `split` returns |
| JsText.Falsy | fit-genius-backend/src/services/auth-service.ts:76 | JavaScript's `!v` on a string or `undefined`: true exactly for `undefined` and the empty string |
| Validation.MatchesPasswordRegex | fit-genius-backend/src/services/auth-service.ts:17-18 | `PASSWORD_REGEX.test(password)`, as a scan of the first line; `Validation.PasswordRegexCorrect` relates it to the regular expression |
| Validation.ValidateEmail | fit-genius-backend/src/services/auth-service.ts:44-47 | `validateEmail`, the address regular expression; `Validation.ValidateEmailShape` states which addresses it accepts |
| Validation.PasswordRegexCorrect | fit-genius-backend/src/services/auth-service.ts:17-18 | the first-line scan decides exactly what the regular expression means: each of the four look-aheads finds its kind of character before the first line terminator, and the first character is in the allowed class |
| Validation.ValidatePassword | fit-genius-backend/src/services/auth-service.ts:48-67 | the password is valid exactly when there are no errors. The length error appears exactly when the UTF-16 length is below 8, and the complexity error exactly when the regular expression fails. These are the only two errors, and when both occur they are reported in that order |
| Validation.NoUppercaseExample | fit-genius-backend/src/services/auth-service.ts:57-61 | `"alllowercase1!"` fails with the complexity error only |
| Validation.ShortExample | fit-genius-backend/src/services/auth-service.ts:51-61 | `"short1"` fails with both errors, the length error first |
| Validation.ValidPassExample | fit-genius-backend/src/services/auth-service.ts:48-67 | `"Valid1Pass!"` passes with no errors |
| Validation.LeadingSymbolExample | fit-genius-backend/src/services/auth-service.ts:17-18 | `"#Valid1Pass!"` contains every required kind of character but fails, because its first character is outside the leading class |
| Validation.ValidateEmailShape | fit-genius-backend/src/services/auth-service.ts:44-47 | the address regular expression holds exactly when the address has no white space, exactly one `@` that is not at the start, and a domain with a dot that has a character on each side |
| Schema.InsertUser | fit-genius-backend/src/schema/users.ts:12-20 | the insert succeeds exactly when the id and e-mail are new and every field fits its column width. On success the row is appended and the table constraints still hold |
| Schema.Valid | fit-genius-backend/src/schema/users.ts:12-20 | the store invariant: unique user ids and e-mail addresses, unique token ids and token values, every field within its `varchar` width, and every token's owner present (the token side is refresh-tokens.ts lines 12-21) |
| Schema.InsertToken | fit-genius-backend/src/schema/refresh-tokens.ts:12-21 | the insert succeeds exactly when the id and token value are new, the token fits 255 characters, and the owner exists. On success the row is appended and the constraints still hold |
| Schema.FindToken | fit-genius-backend/src/services/auth-service.ts:181-189 | `findFirst` returns some row of the table that matches the condition, and nothing exactly when no row matches |
| Schema.FindUserById | fit-genius-backend/src/services/auth-service.ts:186-188 | the `user` relation of a token resolves to the user with the token's owner id, and to nothing exactly when no user has that id |
| Schema.FindUserByEmail | fit-genius-backend/src/services/auth-service.ts:89-91 | the user found has exactly that address, and nothing is found exactly when no user has it |
| Schema.RevokeWhere | fit-genius-backend/src/services/auth-service.ts:232-235 | the update revokes exactly the rows matching the condition and leaves every other row as it was |
| Schema.CountWhere | fit-genius-backend/src/services/auth-service.ts:270-278 | the number of rows the update affects (node-postgres's `rowCount`) is at most the table size, and zero exactly when no row matches |
| Schema.RevokePreservesValid | fit-genius-backend/src/schema/refresh-tokens.ts:12-21 | setting `is_revoked` never breaks a table constraint |
| Schema.RevokeIdempotent | fit-genius-backend/src/services/auth-service.ts:232-235 | repeating a revocation whose condition revoking does not change has no further effect |
| Schema.DeleteUser | fit-genius-backend/src/schema/refresh-tokens.ts:14-16 | deleting a user with `ON DELETE CASCADE` removes exactly that user and its tokens, keeps every other row, and keeps the constraints |
| Tokens.HexEncode | fit-genius-backend/src/services/auth-service.ts:39-41 | the hex text has two lower-case hex digits per byte |
| Tokens.HexRoundTrip | fit-genius-backend/src/services/auth-service.ts:39-41 | decoding the hex text gives back the random bytes |
| Tokens.RefreshTokenText | fit-genius-backend/src/services/auth-service.ts:39-41 | 64 random bytes give a 128-character token, which fits the 255-character column |
| Tokens.IssueAccessToken | fit-genius-backend/src/services/auth-service.ts:28-38 | the claims carry the user's id and e-mail, and `iat` is the second in which the clock reading falls |
| AuthService.Message | fit-genius-backend/src/services/auth-service.ts:77-93 | the `error` text of each failure the service reports itself: the thrown messages of registration, login (lines 145 and 150) and refresh (lines 178, 192 and 202); no text for a refused insert |
| AuthService.NewUser | fit-genius-backend/src/services/auth-service.ts:96-105 | the inserted user has the fresh id, the address as given, the bcrypt hash and both names trimmed |
| AuthService.NewTokenRow | fit-genius-backend/src/services/auth-service.ts:112-116 | the inserted refresh-token row belongs to the given user, expires seven days after `now`, and is not revoked, since `is_revoked` defaults to false (refresh-tokens.ts line 19) |
| AuthService.FreshRowInserts | fit-genius-backend/src/services/auth-service.ts:112-116 | with a fresh row id, fresh token bytes and an existing owner, the refresh-token insert always succeeds |
| AuthService.Register | fit-genius-backend/src/services/auth-service.ts:71-125 | a successful registration has non-empty credentials, a valid address and password, and an address not yet stored. It stores the address verbatim, the given hash and the trimmed names, appends exactly that user, and issues one unrevoked seven-day token for that user. A failure other than a refused insert leaves the store unchanged, and no failure adds a token. `UserExists` means the address is already stored. The constraints are preserved |
| AuthService.Login | fit-genius-backend/src/services/auth-service.ts:128-172 | login never changes the users table, and a failure leaves the store unchanged. A success means some user has the address with its ASCII capitals lowered and a hash matching the password; the access token and one new seven-day refresh token are issued to that user |
| AuthService.Refresh | fit-genius-backend/src/services/auth-service.ts:175-219 | a missing value fails before anything else. The refresh fails as invalid exactly when no unrevoked row holds the value. A refresh reported expired has revoked, by its id, an unrevoked row holding the value whose expiry has passed (`now > expiresAt`). A success writes nothing and issues a token for a row that is still usable |
| AuthService.Logout | fit-genius-backend/src/services/auth-service.ts:222-248 | logout always succeeds. Without a value it writes nothing; with one it revokes exactly the rows holding it |
| AuthService.CleanupExpiredTokens | fit-genius-backend/src/services/auth-service.ts:268-286 | as written, the cleanup revokes every row; the update affects exactly the rows that were still unrevoked, and the operation returns `undefined` (`result.count` does not exist on the node-postgres result) |
| AuthService.CountIsPositions | fit-genius-backend/src/services/auth-service.ts:270-278 | the count the update reports equals the number of row positions it selects |
| AuthProperties.RegisterChecksInOrder | fit-genius-backend/src/services/auth-service.ts:76-94 | the checks run in a fixed order: missing credentials, then the address format, then the password rule, then an existing user. The first that fails is reported and no table is touched |
| AuthProperties.RegisterSucceedsIff | fit-genius-backend/src/services/auth-service.ts:71-125 | with fresh random values, a registration succeeds exactly when every check passes, both names are given and the row fits the columns; otherwise the store is unchanged |
| JsText.Join | fit-genius-backend/src/services/auth-service.ts:86 | `errors.join(". ")`: the pieces in order with the separator between consecutive ones, and the empty string for no pieces |
| AuthProperties.WeakPasswordMessage | fit-genius-backend/src/services/auth-service.ts:76-87 | for any non-empty, well-formed address and any password shorter than 8 UTF-16 units that fails the regular expression, registration is refused with both problems, length first, reported as one message joined by `". "`, and the store is unchanged |
| AuthProperties.ShortPasswordMessage | fit-genius-backend/src/services/auth-service.ts:76-87 | `"short1"`, with any well-formed address, is refused with that joined message |
| AuthProperties.RegisterThenLogin | fit-genius-backend/src/services/auth-service.ts:89-164 | after registering an ASCII address with no capital letter, logging in with the same credentials succeeds when the hash verifies the password |
| AuthProperties.LoginRejectionIsUniform | fit-genius-backend/src/services/auth-service.ts:140-151 | for an ASCII address, an unknown address and a wrong password give the same `InvalidCredentials` answer, and nothing is written |
| AuthProperties.LoginIgnoresEmailCase | fit-genius-backend/src/services/auth-service.ts:140-142 | two addresses that differ only in the case of ASCII letters get the same login result |
| AuthProperties.LoginUnknownAddress | fit-genius-backend/src/services/auth-service.ts:140-146 | an ASCII address whose lower-cased form no user has is refused with `InvalidCredentials`, and the store is unchanged |
| AuthProperties.LoginSucceedsIff | fit-genius-backend/src/services/auth-service.ts:128-172 | with fresh random values, a login with an ASCII address succeeds exactly when some user has the lower-cased address and a hash that matches |
| AuthProperties.TokenRowUnique | fit-genius-backend/src/schema/refresh-tokens.ts:17 | in a valid store a token value identifies at most one row |
| AuthProperties.RefreshSucceedsIff | fit-genius-backend/src/services/auth-service.ts:175-219 | in a valid store a refresh succeeds exactly when some unrevoked row holds the value and has not passed its expiry |
| AuthProperties.RefreshExpiryRevokesOnlyThatRow | fit-genius-backend/src/services/auth-service.ts:194-203 | an expired refresh revokes the single row holding the value and changes nothing else |
| AuthProperties.RefreshExpiredRowIsRevoked | fit-genius-backend/src/services/auth-service.ts:194-202 | in a valid store, refreshing with the value of an unrevoked row whose expiry has passed (`now > expiresAt`) revokes exactly that row, by its id, and reports the token expired |
| AuthProperties.ExpiredTokenStaysRejected | fit-genius-backend/src/services/auth-service.ts:181-203 | after a refresh has reported the token expired, any later refresh with it is refused as invalid |
| AuthProperties.RefreshDoesNotRotate | fit-genius-backend/src/services/auth-service.ts:204-211 | a successful refresh writes nothing, so the same refresh token keeps working |
| AuthProperties.LogoutIdempotent | fit-genius-backend/src/services/auth-service.ts:222-248 | logging out twice with the same value is the same as logging out once |
| AuthProperties.LogoutThenRefreshRejected | fit-genius-backend/src/services/auth-service.ts:231-235 | after logging out with a value, refreshing with it is refused |
| AuthProperties.CleanupTwiceCountsZero | fit-genius-backend/src/services/auth-service.ts:268-286 | a second cleanup straight after the first affects no row and changes nothing |
| Middleware.VerifyToken | fit-genius-backend/src/services/auth-service.ts:251-265 | verification succeeds exactly when `jwt.verify` decodes the token, and then returns the payload. A failure always carries a non-empty message: the thrown one when that is non-empty |
| Middleware.HeaderToken | fit-genius-backend/src/middleware/auth.ts:7-8 | an absent header gives no token and an empty header gives the empty string. Otherwise there is a token exactly when the header holds a space, and the token never contains a space |
| Middleware.BearerTokenIsSecondField | fit-genius-backend/src/middleware/auth.ts:8 | the token is the text between the first space of the header and the next space or the end |
| Middleware.TokenFollowsAnyScheme | fit-genius-backend/src/middleware/auth.ts:8 | the scheme word is never checked: for any space-free scheme, `scheme + " " + t`, with or without further fields, yields `t` |
| Middleware.AuthenticateToken | fit-genius-backend/src/middleware/auth.ts:4-31 | the request passes exactly when there is a non-empty token that `jwt.verify` decodes, and the decoded payload is attached. A missing or empty token gets 401 `TOKEN_MISSING`; any other refusal is 401 `TOKEN_INVALID` carrying the non-empty message `verifyToken` returned |
| Middleware.OptionalAuth | fit-genius-backend/src/middleware/auth.ts:43-60 | the request always passes; a decoded token is attached exactly when a non-empty token verifies |
| Middleware.OptionalAuthAgrees | fit-genius-backend/src/middleware/auth.ts:4-60 | the optional middleware attaches what the strict one would, and passes unauthenticated exactly the requests the strict one refuses |
| Middleware.NoSpaceMeansMissing | fit-genius-backend/src/middleware/auth.ts:8-16 | a header with no space, such as a bare `Bearer`, is refused as `TOKEN_MISSING` |
| Middleware.DoubleSpaceMeansMissing | fit-genius-backend/src/middleware/auth.ts:8-16 | two spaces after the scheme leave an empty second field, so the request is refused as `TOKEN_MISSING` even when a token follows |
| Findings.MixedCaseRegistrantCannotLogIn | fit-genius-backend/src/services/auth-service.ts:89-146 | as written: someone who registers an ASCII address with a capital letter is refused at login with the very same credentials, when no user already holds the lower-cased address |
| Findings.CaseVariantIsNotAConflict | fit-genius-backend/src/services/auth-service.ts:89-94 | as written: once a mixed-case address is registered, the variant with its ASCII capitals lowered is not refused as an existing user |
| Findings.MixedCaseCounterexample | fit-genius-backend/src/services/auth-service.ts:71-172 | on an empty store, `"A@b.co"` with `"Valid1Pass!"` registers, and logging in with the same pair is refused whatever the hash check says |
| Findings.RegisterNormalized | fit-genius-backend/src/services/auth-service.ts:89-100 | corrected: the stored address is the lower-cased input, and it was not already stored |
| Findings.NormalizedRegisterThenLogin | fit-genius-backend/src/services/auth-service.ts:89-164 | corrected: whatever its letter case, a registered address logs in with the same credentials when the hash verifies |
| Findings.NormalizedRejectsCaseVariant | fit-genius-backend/src/services/auth-service.ts:89-94 | corrected: an address that differs from a registered one only in the case of ASCII letters cannot open a second account |
| Findings.CleanupRevokesLiveToken | fit-genius-backend/src/services/auth-service.ts:268-278 | as written: a token that refreshes successfully before the cleanup is refused right after it |
| Findings.CleanupReturnsUndefined | fit-genius-backend/src/services/auth-service.ts:280-281 | as written: when some row is unrevoked the update revokes at least one row, and the operation still returns `undefined` |
| Findings.CleanupExpiredOnly | fit-genius-backend/src/services/auth-service.ts:273-281 | corrected: only unrevoked rows already past their expiry (`expires_at < now`) are revoked, and the operation returns the number of such rows, which is the update's `rowCount` |
| Findings.CleanupExpiredOnlyReturnsCount | fit-genius-backend/src/services/auth-service.ts:280-281 | corrected: when an unrevoked row has expired, the cleanup returns a positive number, and that number is the count of rows it revoked |
| Findings.CleanupExpiredOnlyKeepsRefreshOutcome | fit-genius-backend/src/services/auth-service.ts:195 | corrected: the cleanup never changes whether a refresh at the same instant succeeds |
| Findings.CleanupExpiredOnlyTwiceCountsZero | fit-genius-backend/src/services/auth-service.ts:268-286 | corrected: a second cleanup at the same instant returns zero and changes nothing |

## Left out

- bcrypt: `bcrypt.hash` and `bcrypt.compare` are parameters (`hashed` and `passwordMatches`), not implemented. The cost factor 12 and the salt are therefore not modelled.
- JWT signing: `jwt.sign` is reduced to the claims it signs. The signature, the secret (`JWT_SECRET`) and the `expiresIn` option (`JWT_EXPIRATION`) are not modelled; they come from `process.env`.
- JWT verification: `jwt.verify` is a parameter of the middleware (`JwtOutcome`). Signature checking and expiry checking are not modelled.
- Random values: `crypto.randomUUID`, the column's `defaultRandom()` and `randomBytes(64)` are inputs (`Fresh`). Where a proof needs them to be collision-free, it says so in its requirements (`FreshFor`).
- Clock: `new Date()` and `Date.now()` are an integer count of milliseconds passed in. The `createdAt` and `updatedAt` defaults take the same instant.
- Database I/O: errors from the driver and connection, and the text of their messages, are not modelled. A refused insert is `InsertRejected`, and `Message` gives no text for it.
- Transactions and concurrency: registration's two inserts are not atomic in the source. The model performs them in sequence, with no interleaving of other requests.
- Exception fallbacks: the catch-all 500 `AUTH_ERROR` answer of `authenticateToken`, the fallback error strings (`" Registration failed"` and the like) and the `catch` of `optionalAuth` are left out. Nothing modelled throws other than the paths already listed as `AuthError`.
- Logging: `console.log` and `console.error` calls are left out.
- Express: `req`, `res`, routes and cookies are outside the core. `Outcome` stands for answering the request or calling `next()`. `Next(None)` means `req.tokenData` is left as it was.
- JsText.LocaleLower: lower-cases ASCII letters only. JavaScript's `toLocaleLowerCase` also maps non-ASCII letters, such as `Ü`, and follows the host locale; a Turkic locale would lower `I` to a dotless `ı`. A host locale without such rules is assumed. The login lemmas that speak of the lowered address therefore require an ASCII address (`JsText.IsAscii`).
- AuthService.Login: for an address holding a non-ASCII capital letter, the model looks up a different string from the one the source looks up, so its contract is only faithful for addresses whose capitals are ASCII.
- Schema.InsertUser: PostgreSQL refuses any text parameter holding the character U+0000 (NUL), at every query, not only at inserts. The model leaves that rule out. For an address, password or token value holding NUL, the model therefore lets `Schema.InsertUser` succeed, lets `AuthProperties.RegisterSucceedsIff` count the registration as successful, and lets `AuthService.Logout` succeed. The source would instead answer "Registration failed" or "Logout failed". The same holds for the lookups of `AuthService.Login` and `AuthService.Refresh`. Also, PostgreSQL stores a `varchar(n)` value longer than n characters when every character past the n-th is a space, cutting it to n. `Schema.InsertUser` and `Schema.InsertToken` refuse it instead, so their "exactly when every field fits" is stricter than PostgreSQL. The service never sends such a value: addresses hold no white space, names are trimmed, and tokens are 128 hex digits.
- Schema.Valid: `is_revoked` is treated as never null. The column has a default but no `NOT NULL`, and the service never writes null to it.
- Message: `NameNotString` and `OwnerMissing` carry the TypeError text of current V8. It is not guaranteed across JavaScript engines.
- `user-profiles` and the routes and controllers that call these operations are not part of this model.

## Findings

| source | as written | input that shows it | evidently intended | confidence | as-written member | corrected member |
|---|---|---|---|---|---|---|
| fit-genius-backend/src/services/auth-service.ts:89-100 | registration checks for and stores the address exactly as given, while login looks up `email.toLocaleLowerCase()` (line 141) | register `"A@b.co"` / `"Valid1Pass!"` on an empty store, then log in with the same pair: `Invalid email or password`; `"a@b.co"` can then register as a second account | lower-case the address before the existence check and before storing it, as login does | not executed | Findings.MixedCaseCounterexample | Findings.NormalizedRegisterThenLogin |
| fit-genius-backend/src/services/auth-service.ts:273-277 | the `WHERE` of `cleanupExpiredTokens` keeps only `is_revoked = false`; the `expires_at < NOW()` condition is commented out | a store holding one unrevoked token issued a minute ago: the cleanup revokes it, and the next refresh with it fails as `Invalid refresh token` | revoke only unrevoked tokens whose expiry has passed | not executed | Findings.CleanupRevokesLiveToken | Findings.CleanupExpiredOnlyKeepsRefreshOutcome |
| fit-genius-backend/src/services/auth-service.ts:280-281 | `cleanupExpiredTokens` logs and returns `result.count`; the node-postgres result of an `UPDATE` without `returning()` has `rowCount` and no `count` | a store holding one unrevoked token: the update revokes it, the log line reads `Cleaned up expired refresh tokens: undefined` and the function returns `undefined` | return `result.rowCount`, the number of rows revoked | not executed | Findings.CleanupReturnsUndefined | Findings.CleanupExpiredOnlyReturnsCount |
