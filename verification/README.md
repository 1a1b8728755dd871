# News backend: request decision logic

A model of the handler logic of a small Express news backend: the image
validator, the news body schema, the bearer-token middleware, registration and
login, the news CRUD handlers (create, paginated list, cached fetch, owner-guarded
update and delete) and the profile handlers. The database, the cache, the image
host, bcrypt and JWT are outside the model. The database is one `Store.Database`
object holding the users table (with its unique email index) and the news table
as maps. The cache is a map passed to `getNews`. Hashing, comparing, signing,
verifying, uploading, `JSON.parse` and the auth schemas are function parameters.
The handlers assume no properties of them. Two lemmas take hypotheses about
signing and verifying: `LoginTokenPassesGate` and `LoginSessionOwnership`
assume that the signed token has no space and that `verify` returns the claims
that were signed.

The guards of four handlers are pure plan functions: `PlanCreate`,
`PlanUpdate`, `PlanDelete` and the middleware's `Gate`. Each of these handlers
is a method that applies its plan to the store. `Register`, `Login`, `GetUser`
and `UpdateProfile` state their guards directly in their postconditions. Every
handler's postcondition gives the response and every field of the store
afterwards, including the next-id counters.
JavaScript's `undefined` and `null` are `Option.None`. The decoded token claims
carry both `user_id` (`Claims.userId`) and `id` (`Claims.id`), because the
handlers read different ones.

Modules: `Wrappers`, `Entities`, `Http` (responses, faults, the request
object), `Store`, `JsString` (`split`/`join`), `ValidateImage`,
`NewsValidation`, `AuthMiddleware`, `AuthController`, `NewsController`,
`ProfileController`, and `Ownership` (how login's claims meet the owner checks).

Behaviour of the code that the model keeps:
- `getAllNews` defaults `limit` to 1, not 2.
- An out-of-range page or limit is not clamped. The handler assigns to a
  `const`, throws, and sends nothing.
- A missing article in update or delete ends in the catch-all 500, not a 404.

## Model

| member | source | states |
|---|---|---|
| ValidateImage.BytesToMbAboveTwo | util/validateImage.js:17-19 | for every non-negative byte count, `bytesToMb(n) > 2` holds exactly when `n > 2097152` |
| ValidateImage.ImageValidator | util/validateImage.js:5-15 | more than 2 MiB gives the size message whatever the MIME type; within the limit, a missing or unsupported MIME type gives the type message; no message exactly when the size is within 2 MiB (2097152 itself accepted) and the type is supported |
| NewsValidation.ValidateNews | validations/newsValidation.js:4-7 | a body is accepted exactly when the title has 5 to 150 characters and the content 10 to 5000, both bounds inclusive; the payload keeps just those two fields |
| JsString.Split | middlwares/Auth.js:11 | `split` yields at least one piece, no piece contains the separator, joining the pieces gives the input back, and there is one piece exactly when the separator is absent |
| JsString.SplitAfterPiece | middlwares/Auth.js:11 | splitting `p + sep + s`, with no separator in `p`, gives `p` followed by the pieces of `s` |
| JsString.SplitJoin | middlwares/Auth.js:11 | split undoes join for any non-empty list of separator-free pieces |
| AuthMiddleware.ExtractToken | middlwares/Auth.js:11 | `split(" ")[1]` exists exactly when the header has a space, and it never contains a space |
| AuthMiddleware.ExtractTokenOf | middlwares/Auth.js:11 | from `scheme + " " + token + rest`, where scheme and token have no space and rest is empty or starts with a space, the extracted token is `token` |
| AuthMiddleware.Gate | middlwares/Auth.js:3-22 | "No Token" exactly when the header is absent; a header without a space is always unauthorized; for a header with a space, a token the verifier accepts gives a pass with exactly the claims it returned, and a rejected one gives "UnAuthorized" |
| AuthMiddleware.Auth | middlwares/Auth.js:3-22 | an absent header answers 401 "No Token", a failed verification 401 "UnAuthorized", and neither sets `req.user` or calls `next`; on success `req.user` is the decoded claims, `next` is called exactly once and no response is sent |
| Store.Database.FindUserByEmail | controllers/AuthController.js:16-20 | `findUnique` by email finds a row exactly when some row has that email, and the row it returns has that email and is the stored row at its id |
| Store.Database.FindNews | controllers/NewsController.js:139-143 | `findUnique` by id finds a row exactly when the id is stored, and returns that row, whose owner is a stored user |
| AuthController.LoginClaims | controllers/AuthController.js:69-73 | the signed claims are the user's name and email and `user_id` equal to the user's id, with no `id` claim |
| AuthController.NewUser | controllers/AuthController.js:26-28 | the inserted row takes the id, name and email given, has no profile, and stores `hash(password)` as its password |
| AuthController.BearerToken | controllers/AuthController.js:79 | the returned token is the 7 characters `"Bearer "` followed by the signed string |
| AuthController.Register | controllers/AuthController.js:8-41 | a schema failure answers 400 "Validation Failed" and a known email 400 "User already exists", both leaving the store unchanged; otherwise exactly one row is added under a fresh id, with `password = hash(password)` and no profile, the email index points to it, the next user id advances by one, and 201 echoes the row; the store invariant is kept |
| AuthController.Login | controllers/AuthController.js:43-93 | 400 on a schema failure, 401 "User does not exists" for an unknown email, 401 "Invalid Credentials" when the hash comparison fails, else 200 with the row and `"Bearer " + sign(LoginClaims(user))`; the store is only read |
| AuthController.LoginTokenPassesGate | controllers/AuthController.js:75-79 | the header login returns passes the middleware with exactly the signed claims, when the signed string has no space and the verifier accepts what the signer produced |
| NewsController.UploadMessage | controllers/NewsController.js:27 | `imageValidator(image?.size, image?.mimetype)` gives the type message when there is no file, the size message for a present file over 2 MiB whatever its type, the type message for a present file of at most 2 MiB with an unsupported type, and no message exactly when the file has at most 2 MiB and a supported type |
| NewsController.PlanCreate | controllers/NewsController.js:16-34 | a schema failure answers 500 with the validator's message; otherwise missing files answer 400 "Image required"; otherwise a validator message answers 400 with it; the request proceeds exactly when the body is valid and the `image` file exists, has at most 2 MiB and a supported type |
| NewsController.CreateNews | controllers/NewsController.js:11-70 | a refused plan leaves the store unchanged; when the `id` claim is absent or names no user, the insert is rejected (500) and nothing is stored; otherwise exactly one row is added under a fresh id, with the payload's title and content, the upload's URL and `user_id` equal to the `id` claim, and the next article id advances by one |
| NewsController.CeilDiv | controllers/NewsController.js:102 | `Math.ceil(n / d)` is the least count of pages that holds every row: `q * d >= n` and `(q - 1) * d < n` when `q > 0` |
| NewsController.Skip | controllers/NewsController.js:85 | `skip` is the number of rows on the pages before `page`: adding one page's `limit` gives `page * limit` |
| NewsController.PageOf | controllers/NewsController.js:87-99 | `findMany({ take: limit, skip })` returns every row from position skip on, up to limit of them, in listing order |
| NewsController.GetAllNews | controllers/NewsController.js:72-106 | a response is sent exactly when the page (default 1) is at least 1 and the limit (default 1) is in 1..10; otherwise the `const` assignment throws; the response holds every row from position `(page - 1) * limit` on, up to `limit` of them (so exactly `min(limit, rows left)`), the row count, and the ceiling page count, with status 200, `success` true and "News Fetched" |
| NewsController.FirstPagesArePrefix | controllers/NewsController.js:85-99 | pages 1..k, concatenated, are exactly the first `k * limit` rows of the listing in order |
| NewsController.AllPagesCoverListing | controllers/NewsController.js:85-102 | walking pages 1..totalPages returns every row exactly once, in order |
| NewsController.PageNonEmptyIff | controllers/NewsController.js:85-102 | page `p >= 1` holds at least one row exactly when `p <= totalPages` |
| NewsController.TwentyFiveRowsThirdPage | controllers/NewsController.js:74-104 | with 25 rows and limit 10, page 3 holds the last 5 rows and there are 3 pages |
| NewsController.GetNews | controllers/NewsController.js:108-132 | a non-empty cached string is parsed and returned; otherwise the store's row, or null when there is none, is returned; always 200 with `success` true and "News Fetched" |
| NewsController.CoherentCacheReadsStore | controllers/NewsController.js:114-127 | when every cached entry parses to the store's row, the fetch returns exactly what the store holds |
| NewsController.FetchAfterInsert | controllers/NewsController.js:114-127 | an article just inserted, with no cache entry, is fetched back unchanged, since the handler never fills the cache |
| NewsController.OrElse | controllers/NewsController.js:169-171 | JavaScript's logical-or fallback for a string field: the value when it is a non-empty string, else the fallback |
| NewsController.PlanUpdate | controllers/NewsController.js:134-171 | a missing row answers 500; an `id` claim that differs from the owner answers 400 "you cannot update this news"; missing `req.files` answers 500; a rejected image answers 400; otherwise the row keeps its id and owner, each of title, content and image comes from the body when truthy, else from the row, and the image never comes from the upload |
| NewsController.UpdateNews | controllers/NewsController.js:134-209 | a refused plan leaves the store unchanged; otherwise only the row at the id is replaced, by the planned row, and the response carries it |
| NewsController.PlanDelete | controllers/NewsController.js:211-227 | removal is planned exactly when the row exists and the `user_id` claim equals its owner; a missing row answers 500, another caller 401 "Unauthorized" |
| NewsController.DeleteNews | controllers/NewsController.js:211-249 | a refused plan leaves the store unchanged; otherwise exactly the row at the id is removed, the other rows and the users table are untouched, and the response is 200 "News Deleted" |
| ProfileController.WithoutPassword | controllers/ProfileController.js:16 | dropping the password keeps id, name, email and profile |
| ProfileController.GetUser | controllers/ProfileController.js:5-24 | for the caller's email claim, the matching row is returned without its password, with 200 "User Details Fetched"; with no such row the handler throws and answers 500; the store is only read |
| ProfileController.UpdateProfile | controllers/ProfileController.js:26-67 | missing files answer 400 "Image not provided"; a missing `profile` file throws (500); a validator message answers 400; an unknown path id answers 500; all of these leave the store unchanged; otherwise only the `profile` field of the row at the path id is set to the upload's URL; the caller's claims are never consulted |
| Ownership.LoginClaimsNeverUpdate | controllers/NewsController.js:145-150 | claims issued by login never pass update's owner check, because they have no `id` claim; for an existing row the answer is 400 "you cannot update this news" |
| Ownership.LoginClaimsDeleteOwn | controllers/NewsController.js:222-227 | claims issued by login pass delete's owner check exactly for the user's own rows |
| Ownership.LoginSessionOwnership | controllers/AuthController.js:69-82 | the header that login returns passes the middleware; its claims can delete exactly the user's own articles but can update none |

## Left out

- Foreign-service failures: a throwing database, cache connection, image upload or bcrypt call. The catch-all 500 answers they would produce (including login's 500 carrying `error.message`) are not modelled; those services always succeed here.
- Token expiry (`expiresIn: "2d"`) and the `iat`/`exp` claims: verification is an opaque function.
- The bcrypt salt and cost factor: `hash` is one opaque function.
- The register and login schemas: `validations/authValidation.js` is not part of this model, so each validator is a parameter.
- The supported MIME list: `data/imageFormats.js` is not part of this model, so it is a set parameter.
- `sendEmail` and `util/sendEmail.js`: SMTP delivery through a mail library.
- `generateUniqueName`: UUID generation, which no modelled handler calls.
- `bytesToMb` in floating point: exact rationals stand in for it, which agree with doubles for sizes below 2^53 bytes.
- `Number(...)` coercion: query pages, limits and path ids are integers here. `NaN` inputs and non-numeric path ids are not modelled.
- String lengths count characters, not UTF-16 code units.
- The owner summary (`id`, `name`, `profile`) that the store joins onto each listed article, and the store's row order: `getAllNews` takes the store's listing as a sequence.
- A `JSON.parse` that throws on a corrupt cache entry: `parse` is total.
- CreateNews: the store's refusal of a row whose `user_id` is `undefined` or names no user assumes that the column is a required foreign key. The schema is not part of this model.
- The `errors` field of the 400 "Validation Failed" answers, and the echoed `user.token` field beyond the `Session` payload.
- Asynchronous sequencing, the rate limiter, logging, static routes and server start-up.
- Gate: for a header such as `"Bearer "` with nothing after the space, the empty token goes to `verify`. The JWT library rejects it with the same error as a missing token. The model leaves this to the `verify` parameter and does not fix it as `Unauthorized`.
- GetNews: `parse` always yields an article. `JSON.parse` of a cached `"null"` yields `null`, which the model does not represent.
