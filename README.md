# Request-gating middleware, modelled in Dafny

This project models the request-gating middleware of a multi-tenant HTTP
service (`src/middleware/auth.middleware.js`). The middleware decides for
each request whether the caller is authenticated, whether it may act on the
targeted resource, whether it has exceeded its request rate, and how an error
becomes a response. It models and proves the following parts:

- `js.dfy` (module `Js`): JavaScript values as the middleware sees them:
  `undefined`, `null`, booleans, numbers, strings, and nested objects known
  only by identity. It also holds JavaScript truthiness and `||`, and the
  outcomes a middleware can produce: `next()`, `next(error)`, or a
  `{success: false, message, ...}` response with its status.
- `auth_gates.dfy` (module `AuthGates`): the header parsing done by
  `authHeader.replace('Bearer ', '')`, which removes the first occurrence
  only. On top of it sit `authenticate`, `optionalAuth`, `requireAdmin` and
  `requireOwnershipOrAdmin`. The token verifier is a function parameter
  `string -> Verdict`.
- `rate_limit.dfy` (module `RateLimit`): the sliding-window limiter. It is a
  class `RateLimiter` with the per-instance map as a field. `Sweep` is the
  deletion loop and `Handle` is one request. Both are proved against the
  specification functions `Swept` and `Step`.
- `sanitizer.dfy` (module `Sanitizer`): `String.prototype.trim` with
  ECMAScript's whitespace set, and the filter `/[<>"']/g`. A class
  `RequestBody` holds the body map, and its `SanitizeInput` method rewrites
  the string fields one key at a time.
- `validator.dfy` (module `Validator`): `validateRequiredFields`. A loop
  collects the missing fields in order.
- `error_handler.dfy` (module `ErrorHandler`): the global error handler's
  first-match table.

The clock is the `now` parameter, in integer milliseconds. The production flag
(`NODE_ENV === 'production'`) is the `isProduction` parameter, and
`res.headersSent` is the `headersSent` parameter.

Several behaviours of the code are easy to miss, and the model keeps them:

- Sanitizing is not idempotent. `"a <"` becomes `"a "`, and a second pass
  gives `"a"` (`Sanitizer.SanitizeNotIdempotent`). What holds instead is
  weaker: a second pass only trims, and a third pass changes nothing.
- `authenticate` sends the verifier's own error message to the client when
  that message is non-empty.
- `requireOwnershipOrAdmin` checks for a user (401) before it checks for a
  target (400).
- `authenticate` does not check the `Bearer` scheme. A header without it is
  passed to the verifier as it is.
- In production, every error that matches no fixed row gets the generic
  message, even when it carries an explicit status.
- A uniqueness violation gets the duplicate-data answer only when the error
  is not also a malformed-body error, because the JSON rows come first.
- The reset branch of the limiter (lines 153-156) is dead code. The sweep has
  already deleted every expired entry. `Handle` proves this with
  `assert false` in that branch.

## Model

| member | source | states |
|---|---|---|
| `Js.Or` | src/middleware/auth.middleware.js:106 | the JavaScript or-operator is truthy iff either operand is, and returns the first operand when it is truthy and the second otherwise |
| `AuthGates.IndexOf` | src/middleware/auth.middleware.js:18 | returns the first position at or after `from` where the pattern occurs, and `None` only when it occurs nowhere from there on |
| `AuthGates.RemoveFirst` | src/middleware/auth.middleware.js:18 | `replace` with a string pattern leaves the text as it is or removes exactly the length of the pattern (which occurrence: `TokenRemovesFirstOccurrence`) |
| `AuthGates.Token` | src/middleware/auth.middleware.js:18 | the token is the header itself or the header less the seven characters of `Bearer ` (which seven: `TokenRemovesFirstOccurrence`, `TokenWithoutScheme`) |
| `AuthGates.TokenOfBearerHeader` | src/middleware/auth.middleware.js:18 | the header `Bearer <t>` yields exactly the token `t` |
| `AuthGates.TokenWithoutScheme` | src/middleware/auth.middleware.js:18 | a header that does not contain `Bearer ` is used as the token unchanged |
| `AuthGates.TokenRemovesFirstOccurrence` | src/middleware/auth.middleware.js:18 | only the first occurrence of `Bearer ` is removed, wherever it is |
| `AuthGates.TokenEmptyIff` | src/middleware/auth.middleware.js:18-19 | the token is empty iff the header is empty or is exactly `Bearer ` |
| `AuthGates.Authenticate` | src/middleware/auth.middleware.js:8-37 | `authenticate` calls `next` iff it binds a user; every other outcome is a 401 with only a message (which message: the lemmas below) |
| `AuthGates.AuthenticateRejectsMissingCredential` | src/middleware/auth.middleware.js:10-24 | a missing or empty header gets 401 "Token de acesso não fornecido"; a bare `Bearer ` header gets 401 "Formato de token inválido"; nothing is bound |
| `AuthGates.AuthenticateBindsVerifiedUser` | src/middleware/auth.middleware.js:18-29 | `Bound(user, token)` holds iff the header is non-empty, the token comes from it and is non-empty, and the verifier accepted that token with exactly that user |
| `AuthGates.AuthenticateBearerAccepted` | src/middleware/auth.middleware.js:18-29 | `Bearer <t>` with an accepted, non-empty `t` proceeds with the verifier's user and `t` bound |
| `AuthGates.AuthenticateEchoesVerifierMessage` | src/middleware/auth.middleware.js:18-35 | when the verifier rejects the non-empty token of any non-empty header, with or without the scheme, its own non-empty message is sent with 401 and nothing is bound; an empty or undefined message becomes "Token inválido ou expirado" |
| `AuthGates.OptionalAuth` | src/middleware/auth.middleware.js:71-91 | `optionalAuth` always calls `next` and never writes a response (what it binds: `OptionalAuthBindsLikeAuthenticate`) |
| `AuthGates.OptionalAuthBindsLikeAuthenticate` | src/middleware/auth.middleware.js:73-84 | `optionalAuth` binds exactly what `authenticate` would bind: a user only when the verifier accepts a non-empty token |
| `AuthGates.RequireAdmin` | src/middleware/auth.middleware.js:42-58 | the admin gate either calls `next` or refuses with 401 or 403 and only a message |
| `AuthGates.RequireAdminDecision` | src/middleware/auth.middleware.js:42-58 | `next` iff a user is bound and its `is_admin` is truthy; 401 "Usuário não autenticado" without a user; 403 with the administrator message for a non-admin |
| `AuthGates.TargetOwner` | src/middleware/auth.middleware.js:106 | there is a target iff the route parameter is non-empty or the body field of that name is truthy |
| `AuthGates.TargetOwnerPrefersParam` | src/middleware/auth.middleware.js:106 | a non-empty route parameter is the target; otherwise the body field of the same name is |
| `AuthGates.RequireOwnershipOrAdmin` | src/middleware/auth.middleware.js:96-121 | the ownership gate, whose parameter name defaults to `userId`, either calls `next` or refuses with 400, 401 or 403 and only a message |
| `AuthGates.RequireOwnershipOrAdminDecision` | src/middleware/auth.middleware.js:96-121 | 401 without a user, then 400 with the parameter's name for a falsy target; `next` iff there is a user and a target and the user is admin or `user.id === target`; a non-admin user whose id differs from a present target gets 403 "Acesso negado. Você só pode acessar seus próprios dados" |
| `AuthGates.AdminOverridesOwnership` | src/middleware/auth.middleware.js:114-116 | an admin passes whenever a target is present, whatever the ids |
| `AuthGates.OwnershipExample` | src/middleware/auth.middleware.js:96-121 | a non-admin `u1` may reach `userId = u1` and gets 403 for `userId = u2` |
| `RateLimit.CeilDiv1000` | src/middleware/auth.middleware.js:162 | the result is the ceiling of `x / 1000`: the least `r` with `x <= 1000 r` |
| `RateLimit.ClientIdOf` | src/middleware/auth.middleware.js:139 | the client key is `req.ip` when that is truthy, and the socket's remote address when it is not |
| `RateLimit.Swept` | src/middleware/auth.middleware.js:143-145 | after the sweep every entry is unchanged and satisfies `now - firstRequest <= windowMs`, and every such entry survives |
| `RateLimit.Step` | src/middleware/auth.middleware.js:138-168 | after one request the client has an entry, no other key is added, and a denied request changes nothing but the sweep |
| `RateLimit.ResetBranchUnreachable` | src/middleware/auth.middleware.js:153-156 | an entry found after the sweep is never expired, so the reset branch is dead |
| `RateLimit.NewClientAllowed` | src/middleware/auth.middleware.js:147-151 | a client without a live entry is allowed and gets `{count: 1, firstRequest: now}`, for every `maxRequests`, even 0 |
| `RateLimit.AllowedRepeatIncrements` | src/middleware/auth.middleware.js:158-167 | a repeat request within the window and under the limit is allowed, and its entry keeps `firstRequest` while `count` goes up by one |
| `RateLimit.DecisionOutcome` | src/middleware/auth.middleware.js:158-167 | an allowed request calls `next`; a denied one is answered with 429, "Muitas requisições. Tente novamente mais tarde" and `retryAfter` set to the decision's seconds (the whole middleware: `RateLimiter.Handle`) |
| `RateLimit.DenyKeepsEntry` | src/middleware/auth.middleware.js:158-164 | a denied request leaves the client's entry unchanged; its count is at least `maxRequests`; `retryAfter = ceil((windowMs - (now - firstRequest)) / 1000)` and is never negative |
| `RateLimit.DenyIff` | src/middleware/auth.middleware.js:143-164 | a request is denied iff the client has an unexpired entry whose count has reached `maxRequests` |
| `RateLimit.StepKeepsBounded` | src/middleware/auth.middleware.js:147-167 | every stored count stays between 1 and `max(maxRequests, 1)` |
| `RateLimit.OtherClientsUntouched` | src/middleware/auth.middleware.js:143-167 | another client's entry is deleted iff it has expired and is otherwise left exactly as it was |
| `RateLimit.DecisionDependsOnOwnEntry` | src/middleware/auth.middleware.js:147-167 | two maps that agree on a client's entry give that client the same decision and the same new entry (isolation) |
| `RateLimit.FourthRequestDenied` | src/middleware/auth.middleware.js:135-167 | with `maxRequests = 3`, four requests of a new client in one window give allow, allow, allow, deny with the count held at 3; a fifth request after the window is allowed with count 1 |
| `RateLimit.RateLimiter.constructor` | src/middleware/auth.middleware.js:135-136 | a new limiter has the given limits, 15000 requests per 15 minutes by default, and an empty map |
| `RateLimit.RateLimiter.Sweep` | src/middleware/auth.middleware.js:143-145 | the deletion loop leaves exactly `Swept(old map)` |
| `RateLimit.RateLimiter.Handle` | src/middleware/auth.middleware.js:138-168 | one request gives the outcome and the new map of `Step`, and keeps every count within the cap |
| `Sanitizer.TrimStart` | src/middleware/auth.middleware.js:201 | the result is a suffix of the input, only whitespace is cut, and the result does not start with whitespace |
| `Sanitizer.TrimEnd` | src/middleware/auth.middleware.js:201 | the result is a prefix of the input, only whitespace is cut, and the result does not end with whitespace |
| `Sanitizer.Trim` | src/middleware/auth.middleware.js:201 | `trim` gives a result no longer than its input with no whitespace at either end |
| `Sanitizer.StripMarkup` | src/middleware/auth.middleware.js:201 | the result is no longer than the input and contains none of `< > " '` |
| `Sanitizer.StripMarkupMembers` | src/middleware/auth.middleware.js:201 | a character occurs in the filtered text iff it occurs in the input and is not one of `< > " '` |
| `Sanitizer.TrimIsInfix` | src/middleware/auth.middleware.js:201 | `trim` returns a contiguous piece of the input with only whitespace cut from either end |
| `Sanitizer.TrimIdempotent` | src/middleware/auth.middleware.js:201 | trimming twice is trimming once |
| `Sanitizer.StripMarkupKeepsClean` | src/middleware/auth.middleware.js:201 | text without markup characters passes the filter unchanged |
| `Sanitizer.StripMarkupConcat` | src/middleware/auth.middleware.js:201 | the filter distributes over concatenation, so the kept characters keep their order |
| `Sanitizer.StripMarkupCounts` | src/middleware/auth.middleware.js:201 | every non-markup character is kept as often as it occurs, and every markup character is dropped |
| `Sanitizer.SanitizeString` | src/middleware/auth.middleware.js:201 | a sanitized string has none of `< > " '` and is no longer than the input |
| `Sanitizer.SanitizeStringFromInput` | src/middleware/auth.middleware.js:201 | a sanitized string takes all its characters from the input |
| `Sanitizer.SanitizeNotIdempotent` | src/middleware/auth.middleware.js:201 | `"a <"` becomes `"a "`, and a second pass gives `"a"` |
| `Sanitizer.SecondPassOnlyTrims` | src/middleware/auth.middleware.js:201 | a second pass of the sanitizer only trims |
| `Sanitizer.SanitizeStabilizes` | src/middleware/auth.middleware.js:201 | after two passes the sanitizer changes nothing more |
| `Sanitizer.SanitizedBody` | src/middleware/auth.middleware.js:196-204 | the key set and the non-string values are unchanged; each string value is replaced by a string that has no markup character and is no longer than before |
| `Sanitizer.RequestBody.SanitizeInput` | src/middleware/auth.middleware.js:196-205 | the in-place loop leaves the body equal to `SanitizedBody(old body)` |
| `Validator.MissingOf` | src/middleware/auth.middleware.js:176-181 | the list of missing fields is no longer than the required list, and each entry is absent, `''`, `null` or `undefined` in the body |
| `Validator.MissingOfMembers` | src/middleware/auth.middleware.js:176-181 | a field is reported iff it is required and is absent, `''`, `null` or `undefined` |
| `Validator.MissingOfConcat` | src/middleware/auth.middleware.js:177-181 | reporting distributes over concatenation, so the missing fields keep the order of the required list |
| `Validator.NoneMissingIff` | src/middleware/auth.middleware.js:176-182 | nothing is reported iff every required field is present with a value other than `''`, `null` and `undefined` |
| `Validator.ValidateRequiredFields` | src/middleware/auth.middleware.js:174-191 | with the required list defaulting to empty, a non-empty missing list gives 400 "Campos obrigatórios não fornecidos" with `missing_fields` set to that list; an empty one calls `next` |
| `ErrorHandler.HandleError` | src/middleware/auth.middleware.js:230-257 | the error is forwarded and nothing is written iff headers were already sent; otherwise a response with only a message is written |
| `ErrorHandler.InvalidJsonWins` | src/middleware/auth.middleware.js:235-237 | `type` `entity.parse.failed` or message "JSON inválido" gives 400 "JSON inválido", whatever else the error carries |
| `ErrorHandler.BodyParserErrorAnswered` | src/app.js:68-76 | the error thrown by the JSON parser's `verify` hook is answered with 400 "JSON inválido" |
| `ErrorHandler.VerifyFailedAnswered` | src/middleware/auth.middleware.js:240-242 | `type` `entity.verify.failed` without a malformed-JSON message gives 400 "Dados inválidos na requisição", whatever its code, status or environment |
| `ErrorHandler.UniqueViolationAnswered` | src/middleware/auth.middleware.js:245-247 | code `P2002` without a body error gives 400 and the duplicate-data message, whatever its own message, status or environment |
| `ErrorHandler.RecordNotFoundAnswered` | src/middleware/auth.middleware.js:248-250 | code `P2025` matching no earlier row gives 404 "Registro não encontrado", whatever its message, status or environment |
| `ErrorHandler.ClassifiedIgnoresEnvironment` | src/middleware/auth.middleware.js:234-250 | for the fixed rows the answer is the same in production and outside it |
| `ErrorHandler.FallbackStatus` | src/middleware/auth.middleware.js:252 | `status || statusCode || 500` is one of the error's own statuses or 500, and never 0 (which one: `StatusChoice`) |
| `ErrorHandler.StatusChoice` | src/middleware/auth.middleware.js:252 | the status is 400 or 404 for the fixed rows, otherwise the first truthy of `status`, `statusCode`, then 500; it is never 0 |
| `ErrorHandler.ProductionHidesErrorText` | src/middleware/auth.middleware.js:253-256 | in production the message is always one of the five fixed messages, and "Erro interno do servidor" for every unclassified error |
| `ErrorHandler.DevelopmentShowsErrorText` | src/middleware/auth.middleware.js:255 | outside production an unclassified error's non-empty message is sent; an empty or missing one becomes the generic message |

## Left out

- `logRequest` (lines 215-225) is left out. It only writes a console line with a wall-clock timestamp.
- All `console.*` logging is left out, because it changes no outcome.
- The `catch` blocks that answer 500 or call `next` (lines 59-65, 87-90, 122-128, 206-209) are left out. Nothing in the modelled code paths can throw there, because `req.user` and `req.body` are plain objects.
- `authService.verifyToken` is not part of this model. It is the parameter `verify`. A user it resolves to is taken to be a truthy object. A thrown error is represented by its `message`, a string or `undefined`.
- `AuthGates.Authenticate`: a verifier error whose `message` is truthy but not a string (say a number) is sent as it is; the model has only string or `undefined` messages.
- `AuthGates.Authenticate`: a verifier that throws `null` or `undefined` makes reading `error.message` throw inside the `catch` block, so no 401 is written; the model leaves such throws out.
- `async`/`await` and the interleaving of concurrent requests are left out. Each gate is one atomic step, which matches JavaScript's single-threaded handling of the synchronous rate-limit code.
- `Date.now()` is the parameter `now`.
- Request bodies that are not plain objects, such as JSON arrays or `undefined`, are left out. The body parser always supplies an object. Properties inherited through the prototype chain (for example `req.body.constructor`) are left out too.
- JavaScript strings are sequences of UTF-16 code units; here a string is a sequence of Unicode scalar values. A lone surrogate cannot be represented, and a string's length here is not its `.length` for characters outside the Basic Multilingual Plane. No modelled operation treats such characters specially.
- JavaScript numbers are integers here. `NaN`, fractions and `-0` are left out.
- The error record's `type`, `message` and `code` are strings or `undefined`, and `status` and `statusCode` are integers or `undefined`. Other value types, and a thrown `null` or `undefined`, are left out. The HTTP layer rejecting an invalid status code is left out.
- `src/config/database.js` (the connection lifecycle), `src/app.js` (framework wiring, third-party middleware, static files) and `server.js` (process bootstrap) are not part of this model. They consist of calls into libraries whose code is not available.
- `Map` iteration order in the sweep is left out. Each deletion depends only on its own entry, so the order cannot change the result.
