# next-blog authentication and posting core, in Dafny

This project models the server side of a small blogging application built on Next.js:

- the page session gate (`src/middleware.ts`), which inspects the `token` cookie without checking its signature;
- the token helpers of `src/lib/auth.ts`;
- the registration, login and `me` API handlers;
- the post creation and listing handler.

The model is stated in the application's own terms: users, posts, tokens and HTTP status codes.

Modules, one per source file or component:

- `Wrappers`: `Option` (JavaScript's `null`) and `Result` (a library call that may throw).
- `Json`: the JavaScript values that `JSON.parse` and `jwt.verify` return. It also defines truthiness, property access and the numeric `<` the code relies on.
- `Middleware`: `base64UrlDecode`, `decodeJwtPayload`, the static-asset pattern, the allow-list and the redirect/forward decision. `base64UrlDecode` is a method whose loops are the two global `replace` calls. It is proved against the function `Base64UrlToBase64`, which `DecodeJwtPayload` uses. `String.split('.')` is `Split`, proved to be inverted by `Join`.
- `Auth`: `verifyToken` as an exception-to-`null` wrapper over a verifier passed as a parameter, and `extractTokenFromHeader` (section 2.1 of RFC 6750).
- `Schema`: the `User` and `Post` rows, the projections the handlers return, the `findUnique` lookups, and the schema's constraints. The constraints are unique id, username and email; unique post ids; and every post's author is a stored user.
- `Database`: the class `Db`, whose `users` and `posts` tables the inserts update in place. `Valid()` is the schema's constraints plus the autoincrement counters.
- `RegisterRoute`, `LoginRoute`, `MeRoute`, `PostsRoute`: one module per route file. The two handlers that insert are methods on a `Db`. The handlers that only read are functions of the tables.

Several collaborators are parameters, not modelled:

- `atob`, `JSON.parse` and `Date.now()` in the gate;
- bcrypt's `hash` and `compare`;
- `jwt.sign` and `jwt.verify`;
- the clock the database uses for `createdAt`.

Request bodies carry string fields. A missing field is the empty string, since both are falsy. `authorId` is an optional integer.

The modelled route files implement less than a full blog API, and the model keeps to what they do:

- `POST /api/posts` checks no session at all. It takes `authorId` from the request body. It sets no slug, tags or status.
- `GET /api/posts` returns every post ordered by `createdAt`, with no search and no pagination.
- Login returns the token in the JSON body and sets no cookie.

## Model

| member | source | states |
|---|---|---|
| Middleware.ReplaceAll | src/middleware.ts:6 | the scan behind a global `replace` returns the input with every `from` turned into `to` and nothing else changed |
| Middleware.Padding | src/middleware.ts:7-9 | for a length that is not 1 mod 4, the padding is fewer than three `=` characters and brings the length to a multiple of 4 |
| Middleware.Base64UrlToBase64 | src/middleware.ts:6-10 | fails exactly when the length is 1 mod 4; otherwise `-` becomes `+`, `_` becomes `/`, other characters stay, then `=` padding brings the length to a multiple of 4 (fewer than 3 added) |
| Middleware.Base64UrlDecode | src/middleware.ts:4-12 | the imperative decoder throws (None) exactly where `Base64UrlToBase64` fails and otherwise hands `atob` the padded base64 string |
| Middleware.Split | src/middleware.ts:16 | `split('.')` yields one more part than there are dots, no part contains a dot, and joining the parts with dots gives back the token |
| Middleware.SplitJoin | src/middleware.ts:16 | splitting undoes joining dot-free parts |
| Middleware.ThreeSegments | src/middleware.ts:16-17 | `header.payload.signature` with dot-free segments splits into exactly those three |
| Middleware.ParsedPayload | src/middleware.ts:14-19 | a parsed payload exists only for a token with exactly two dots whose middle segment's length is not 1 mod 4 |
| Middleware.IsExpired | src/middleware.ts:20 | a payload is expired exactly when it is truthy and its `exp` converts to a non-zero number `n` with `n * 1000 < now` |
| Middleware.ExpiryCheckThrows | src/middleware.ts:20 | the expiry comparison throws exactly when the payload is an object whose `exp` is an object carrying its own `toString` key |
| Middleware.DecodeJwtPayload | src/middleware.ts:14-25 | the result is the parsed payload unless it is expired or the expiry comparison throws; any split, decode or parse failure, expiry or throw gives null |
| Middleware.DecodeNeedsThreeSegments | src/middleware.ts:16-17 | a token without exactly two dots decodes to null |
| Middleware.DecodeRejectsImpossibleLength | src/middleware.ts:10 | a middle segment of length 1 mod 4 makes the decoder throw, which `decodeJwtPayload` turns into null |
| Middleware.DecodeIgnoresHeaderAndSignature | src/middleware.ts:16-19 | the decoded payload is the same whatever the first and third segments are, so the signature is never checked |
| Middleware.MissingOrZeroExpNeverExpires | src/middleware.ts:20 | a payload with no `exp`, or `exp` equal to 0, is never rejected for expiry |
| Middleware.ExpiryIsStrict | src/middleware.ts:20 | a non-zero numeric `exp` is rejected exactly when `exp * 1000 < now`; `exp == now/1000` passes |
| Middleware.UnconvertibleExpIsRefused | src/middleware.ts:20-24 | an `exp` object with its own `toString` key makes the comparison throw and the `catch` return null |
| Middleware.IsStaticAsset | src/middleware.ts:32 | a static asset ends in an ASCII letter or digit and contains a dot; a path ending in a dot and one letter or digit is one |
| Middleware.StaticAssetMatchesPattern | src/middleware.ts:32 | the right-to-left test equals the pattern `\.[A-Za-z0-9]+$`: some dot followed by one or more ASCII letters or digits up to the end |
| Middleware.IsAllowListed | src/middleware.ts:33-36 | allow-listed exactly when the path is `/auth` or `/favicon.ico`, starts with `/_next/`, or ends with a dot and one or more ASCII letters or digits |
| Middleware.Middleware | src/middleware.ts:27-62 | allow-listed paths (`/auth`, `/_next/...`, `/favicon.ico`, static assets) are forwarded; any other path is forwarded exactly when the cookie is non-empty and decodes to a truthy payload with truthy `userId` and `username`; every other outcome is a redirect to `/auth` |
| Middleware.ForwardedTokenIsWellShaped | src/middleware.ts:42-61 | a guarded page is only reached with a cookie holding a three-segment token whose payload parses and is not expired |
| Middleware.UnconvertibleExpRedirects | src/middleware.ts:49-53 | a guarded page requested with a token whose `exp` is an object with its own `toString` key is redirected to `/auth` |
| Middleware.GateIgnoresSignature | src/middleware.ts:49-61 | the gate's decision is the same for a token and the same token with a forged signature |
| Json.Property | src/middleware.ts:20 | property access yields something other than `undefined` only on an object that has the key |
| Json.Truthy | src/middleware.ts:44-57 | falsy exactly for `undefined`, `null`, `false`, 0 and the empty string |
| Json.ToNumber | src/middleware.ts:20 | numbers convert to themselves and booleans to 1 or 0; `undefined` and objects without an own `toString` key convert to NaN; the conversion throws a `TypeError` exactly for an object with its own `toString` key |
| Json.LessThan | src/middleware.ts:20 | `v < x` throws exactly when `v` is an object with its own `toString` key, and is true exactly when `v` converts to a number below `x` |
| Auth.VerifyToken | src/lib/auth.ts:24-30 | never fails: returns the verifier's payload when it succeeds and null exactly when it throws |
| Auth.ExtractTokenFromHeader | src/lib/auth.ts:33-38 | non-null exactly for a header starting with the case-sensitive `Bearer `; the result is the header minus those 7 characters, so the header is `Bearer ` + result |
| Auth.BearerRoundTrip | src/lib/auth.ts:37 | extracting from `Bearer ` + t gives back t for every t, including the empty string |
| Auth.SchemeIsCaseSensitive | src/lib/auth.ts:34 | a `bearer ` header (lower case) yields null |
| Schema.PublicView | src/app/api/auth/login/route.ts:47-52 | the public user has exactly the row's id, username, email and name; the type has no password field |
| Schema.Summary | src/app/api/posts/route.ts:39-47 | the embedded author has exactly the row's id, name and email |
| Schema.FindUserById | src/app/api/posts/route.ts:20-22 | finds a row exactly when some user has that id, and the row found has it |
| Schema.FindUserByUsername | src/app/api/auth/login/route.ts:19-21 | finds a row exactly when some user has that username, and the row found has it |
| Schema.FindByIdIsUnique | src/app/api/auth/me/route.ts:16-19 | with unique ids, the lookup by id returns the one stored user carrying it |
| Schema.FindByUsernameIsUnique | src/app/api/auth/login/route.ts:19-21 | with unique usernames, the lookup by username returns the one stored user carrying it |
| Database.Db.CreateUser | src/app/api/auth/register/route.ts:46-60 | appends exactly one user with the next id, leaves posts alone, keeps the constraints given a free username and email |
| Database.Db.CreatePost | src/app/api/posts/route.ts:32-37 | appends exactly one post with the next id, leaves users alone, keeps the constraints given an existing author |
| RegisterRoute.Utf16Length | src/app/api/auth/register/route.ts:18 | JavaScript's `length` counts UTF-16 code units: between one and two per character |
| RegisterRoute.FindFirstTaken | src/app/api/auth/register/route.ts:26-33 | finds a row exactly when some user has the username OR the email |
| RegisterRoute.Status | src/app/api/auth/register/route.ts:11-40 | 400 exactly when a field is falsy or the password is under 6 code units; 409 exactly when those pass and the username or email is taken; 201 otherwise |
| RegisterRoute.ErrorMessage | src/app/api/auth/register/route.ts:11-40 | for a rejected request, the missing-fields message exactly when a field is falsy, the short-password message exactly for the remaining 400s, the taken message exactly for a 409 |
| RegisterRoute.NewUser | src/app/api/auth/register/route.ts:43-51 | the inserted row has the given username and email, `hash(password)` rather than the password, and `name` or null when `name` is falsy |
| RegisterRoute.Created | src/app/api/auth/register/route.ts:53-59 | the returned user is id, username, email, name and createdAt of the row; the type has no password field |
| RegisterRoute.Post | src/app/api/auth/register/route.ts:5-68 | answers `Status`; on every rejection the tables and counters are unchanged and the body is the check's message; on 201 exactly one `NewUser` row is appended and returned, the user counter advances by one and the post counter is unchanged; the schema constraints are preserved |
| RegisterRoute.ValidationPrecedesUniqueness | src/app/api/auth/register/route.ts:11-40 | a short password for a taken username or email is a 400, not a 409 |
| RegisterRoute.SixCharactersSuffice | src/app/api/auth/register/route.ts:18-23 | a free account with a 6-character password is created; 5 characters are refused |
| RegisterRoute.RegistrationKeepsAccountsUnique | src/app/api/auth/register/route.ts:26-51 | a successful registration keeps usernames and emails pairwise distinct |
| LoginRoute.Post | src/app/api/auth/login/route.ts:5-58 | 400 exactly for a falsy field; an unknown username is a 401; every 401 carries the same message; a 200 is for a stored user with that username whose password verifies, and carries that user's public view and a token signed over exactly `{userId, username}`; the table is only read |
| LoginRoute.LoginSucceedsIffCredentialsValid | src/app/api/auth/login/route.ts:19-44 | with unique usernames, login succeeds exactly when both fields are present and some stored user with that username has a password that verifies |
| LoginRoute.FailuresAreIndistinguishable | src/app/api/auth/login/route.ts:23-38 | an unknown username and a wrong password get the very same 401 response |
| LoginRoute.TokenCarriesUserIdentity | src/app/api/auth/login/route.ts:41-52 | a successful login's token is signed over that user's id and username, and the body carries that user's public view |
| MeRoute.LookupClaimedUser | src/app/api/auth/me/route.ts:16-19 | a found user's id equals `Number(userId)` of the token |
| MeRoute.Get | src/app/api/auth/me/route.ts:5-22 | status 200, or 500 with no user exactly when a verified truthy payload's `userId` makes `Number(...)` throw, since the handler has no `catch`; a missing or empty cookie gives `user: null`; a non-null user is a stored user's public view whose id equals `Number(userId)` of a payload that verified with truthy `userId` |
| MeRoute.RejectedTokenGivesNoUser | src/app/api/auth/me/route.ts:11-14 | a failed verification, or a payload without truthy `userId`, gives status 200 with `user: null` |
| MeRoute.UnconvertibleUserIdFails | src/app/api/auth/me/route.ts:16-17 | a verified `userId` object with its own `toString` key makes the handler fail with 500 |
| MeRoute.MeReflectsTokenOwner | src/app/api/auth/me/route.ts:11-21 | a token whose verified `userId` is a stored user's id returns exactly that user |
| PostsRoute.CreateStatus | src/app/api/posts/route.ts:12-29 | 400 exactly when title, content or authorId is falsy (0 included); 404 exactly when those pass and no user has that id; 201 otherwise |
| PostsRoute.NewPost | src/app/api/posts/route.ts:32-37 | the inserted post has the given title, content and authorId |
| PostsRoute.Create | src/app/api/posts/route.ts:5-57 | answers `CreateStatus`; on a rejection nothing changes; on 201 exactly one post is appended with its author summary in the body, the existing posts are unchanged, the post counter advances by one and the user counter is unchanged; the schema constraints are preserved |
| PostsRoute.CreationKeepsAuthorsValid | src/app/api/posts/route.ts:20-37 | a successful creation keeps every post's author a stored user |
| PostsRoute.Insert | src/app/api/posts/route.ts:83-85 | inserting into a newest-first sequence keeps it newest first and adds exactly that post |
| PostsRoute.SortNewestFirst | src/app/api/posts/route.ts:83-85 | the result is a permutation of the posts ordered by `createdAt` descending |
| PostsRoute.WithAuthor | src/app/api/posts/route.ts:74-82 | the post is joined with the summary of a stored user whose id is its `authorId` |
| PostsRoute.List | src/app/api/posts/route.ts:71-88 | returns every stored post exactly once, ordered by `createdAt` descending, each with its author's summary; nothing is changed |

## Left out

- React components, pages, hooks and layouts: presentation only.
- The logout route, `scripts/seed.ts` and `next.config.ts`: cookie I/O with constant attributes, seeding, build configuration.
- The route `config.matcher` of the gate, which keeps `/api`, `/_next/static`, `/_next/image`, `/favicon.ico` and `/public` from reaching it: this is framework routing; `Middleware.Middleware` decides for any path it is given.
- bcrypt hashing and compare, `jwt.sign` and `jwt.verify`, the signing secret and its fallback: foreign cryptographic libraries, taken as parameters. `hashPassword` is a deterministic function here, while bcrypt draws a fresh salt on each call.
- `atob`, `JSON.parse` and `Date.now()`: parameters. No byte-level base64 and no JSON parsing.
- Lengths in the gate count characters, not UTF-16 code units. The two differ only for characters outside the Basic Multilingual Plane, and `atob` rejects those because they are not Latin-1, so the gate gives null in both readings.
- The catch-all 500 responses of the register, login and posts handlers: they arise only from runtime or database exceptions. The unhandled database error `me` would raise for an id Prisma refuses is not modelled either; its 500 for a throwing `Number(userId)` is.
- Concurrency: the handlers run one at a time. The race between two registrations that both pass the uniqueness check is not modelled.
- Request bodies whose fields are not strings (numbers, objects) and the failures they cause. In particular, a non-string password's `length` is not modelled.
- Json.ToNumber: strings and arrays are treated as NaN. JavaScript converts numeric strings such as `"5"` and one-element arrays to numbers, and an array holding an object with its own `toString` key throws. An `exp` claim of such a form is therefore never expired, and never throws, in the model.
- Json.ToNumber: numbers are exact reals, not IEEE doubles. `Date.now() / 1000` is not rounded, and a literal too large for a double (such as `1e400`, which JavaScript reads as `Infinity`) keeps its exact value.
- MeRoute.LookupClaimedUser: a `userId` claim that is a numeric string finds no user, where `Number("5")` would look up id 5.
- Slug generation, tags, statuses, cursor pagination, likes, comments and per-user listings: the modelled route files contain no code for them.
