# Request-authorisation gate of the photo-gallery backend

A Dafny model of the part of the backend that decides whether a request may go on:

- the `auth` middleware, which reads the `Authorization` header, checks it for the Bearer scheme (RFC 6750, section 2.1), cuts the token out, verifies it under the secret the environment selects, stores the decoded payload in `req.user` and calls `next`;
- the catch-all router, which turns every request no real route claimed into a `NotFoundError`;
- the error values these forward: `BadRequestError`, `UnauthorizedError` and `NotFoundError`, each one message plus one fixed status code.

Modules:

- `Wrappers` (`wrappers.dfy`): `Option`, where `None` plays JavaScript's `undefined`.
- `HttpErrors` (`http_errors.dfy`): the error taxonomy as one datatype with a variant per error class.
- `JsStrings` (`js_strings.dfy`): JavaScript's `startsWith` and `split` for a non-empty string separator, with `split`'s left-to-right, non-overlapping cutting. Also `join`, its inverse.
- `Express` (`express.dfy`): the request, the response, and the `next` callback as a log of its calls.
- `Auth` (`auth.dfy`): the middleware. `AuthEffectOf` states what one run does: the arguments passed to `jwt.verify`, what happens to `req.user`, and the calls to `next`. The method `Auth` is the handler itself, proved against that function. The lemmas state its properties. `AuthEffectCorrected` and `AuthCorrected` are the same middleware with `return` added in the `catch` block (see Findings).
- `WrongRequestsRouter` (`wrong_requests_router.dfy`): the catch-all handler.

`jwt.verify` is a `Verifier` parameter: an arbitrary total function from a token and a secret to `Option<Claims>`, where `None` means it threw. One fact about jsonwebtoken is built in: a missing or empty token is rejected before the library decodes anything (`JwtVerify`). `NODE_ENV` and `JWT_SECRET` are an `Env` parameter, and either may be unset.

Where the code departs from the standards or from its own earlier variant, the model follows the code:

- RFC 6750, section 2.1, writes the credential as `Bearer` followed by a space. The code checks `startsWith('Bearer')` without the space.
- The scheme name is compared case-sensitively. RFC 9110, section 11.1, makes scheme names case-insensitive.
- After a failed verification the code does not stop. The commented-out cookie variant at backend/middlewares/auth.js:41-43 writes `return next(...)` in its catch (see Findings).

## Model

| member | source | states |
|---|---|---|
| `HttpErrors.HttpError.StatusCode` | backend/errors/bad-request-error.js:6 | every error's status is a 4xx client-error code, and each status belongs to exactly one variant: 400 to BadRequestError, 401 to UnauthorizedError, 404 to NotFoundError |
| `HttpErrors.BadRequestErrorConstructed` | backend/errors/bad-request-error.js:3-8 | `new BadRequestError(m)` keeps `m` as its message and has status `STATUS_BAD_REQUEST` |
| `HttpErrors.StatusIndependentOfMessage` | backend/errors/bad-request-error.js:4-7 | two errors of the same class with different messages have the same status |
| `HttpErrors.StatusAndMessageDetermineError` | backend/errors/bad-request-error.js:3-7 | an error is equal to another exactly when both the status and the message agree, so status and message together identify the value |
| `JsStrings.IndexOf` | backend/middlewares/auth.js:17 | the result is the leftmost position at or after `from` where the separator occurs, or none when it occurs nowhere from there on |
| `JsStrings.SplitJoin` | backend/middlewares/auth.js:17 | `split` gives at least one piece, none of its pieces contains the separator, and joining the pieces with the separator gives back the input |
| `JsStrings.SplitSingleIff` | backend/middlewares/auth.js:17 | `split` gives exactly one piece if and only if the separator never occurs in the string |
| `Auth.SelectSecret` | backend/middlewares/auth.js:22 | the secret is `JWT_SECRET` when `NODE_ENV` is `"production"`, and the literal `'dev-secret'` otherwise, including when `NODE_ENV` is unset |
| `Auth.ExtractTokenNoneIff` | backend/middlewares/auth.js:17 | `split('Bearer ')[1]` is `undefined` if and only if `'Bearer '` occurs nowhere in the header |
| `Auth.ExtractTokenBetweenOccurrences` | backend/middlewares/auth.js:17 | the token is the text after the first `'Bearer '`. It stops at the next occurrence, with no occurrence starting inside it, or it runs to the end of the header |
| `Auth.ExtractTokenAfterScheme` | backend/middlewares/auth.js:17 | for the header `'Bearer ' + t`, the token is exactly `t` if and only if `t` contains no further `'Bearer '` |
| `Auth.LooseSchemePrefixGivesNoToken` | backend/middlewares/auth.js:13-17 | `BearerXYZ` passes the prefix check, and yet no token can be extracted from it |
| `Auth.SchemeIsCaseSensitive` | backend/middlewares/auth.js:13 | every header that starts with lower-case `bearer` fails the prefix check |
| `Auth.Auth` | backend/middlewares/auth.js:6-29 | the handler appends to the `next` log exactly the calls `AuthEffectOf` gives, sets `req.user` to the value it gives, leaves `req.user` alone when it says so, and never touches the response |
| `Auth.FalsyHeaderRejected` | backend/middlewares/auth.js:9-11 | an absent or empty header gives exactly one `next(UnauthorizedError)`; `req.user` is untouched and the verifier is not called |
| `Auth.WrongSchemeRejected` | backend/middlewares/auth.js:13-15 | a non-empty header that does not start with `Bearer` gives exactly one `next(UnauthorizedError)`; `req.user` is untouched and the verifier is not called |
| `Auth.VerifierArguments` | backend/middlewares/auth.js:17-23 | the verifier is called if and only if the header passes both checks. Its arguments are the extracted token and the secret: `JWT_SECRET` in production, `'dev-secret'` otherwise |
| `Auth.VerifiedRequestProceeds` | backend/middlewares/auth.js:20-28 | when the verifier returns a payload, `req.user` is that payload and `next()` is called once with no error |
| `Auth.RejectedTokenStillProceeds` | backend/middlewares/auth.js:24-28 | when verification fails, the code calls `next(UnauthorizedError)`, then sets `req.user` to `undefined` and calls `next()` again |
| `Auth.SingleOutcomeIff` | backend/middlewares/auth.js:9-28 | `next` is called once or twice. It is called exactly once if and only if the header is rejected or the token is verified |
| `Auth.UniformRejection` | backend/middlewares/auth.js:6-28 | every forwarded error is the same 401 `UnauthorizedError` with the message `'Необходима авторизация'`; `req.user` is only ever assigned what the verifier returned for an accepted header |
| `Auth.LooseSchemeCallsNextTwice` | backend/middlewares/auth.js:13-28 | for the header `BearerXYZ`, whatever the verifier and the environment, the verifier gets no token, `req.user` becomes `undefined`, and `next` is called twice: once with the error, once without |
| `Auth.AuthCorrected` | backend/middlewares/auth.js:6-29 | the corrected handler appends the calls given by `AuthEffectCorrected`, updates `req.user` as that function says, and never touches the response |
| `Auth.CorrectedExactlyOneOutcome` | backend/middlewares/auth.js:19-28 | in the corrected handler `next` is called exactly once. It is `next()` with the verified payload in `req.user` if and only if the token verifies; otherwise it is the single rejection and `req.user` is untouched |
| `Auth.CorrectedAgreesOffFailurePath` | backend/middlewares/auth.js:19-28 | the correction behaves differently from the code as written if and only if an accepted header carries a token that fails verification |
| `Auth.CorrectedLooseSchemeRejectedOnce` | backend/middlewares/auth.js:13-28 | the corrected handler rejects `BearerXYZ` with a single `next(UnauthorizedError)` and leaves `req.user` untouched |
| `WrongRequestsRouter.WrongRequestHandler` | backend/routes/wrong-requests-router.js:4-6 | the handler makes exactly one `next` call. It forwards a `NotFoundError` with status 404 and the message `'Запрошенной страницы не существует'`, and it reads and changes neither `req` nor `res` |
| `WrongRequestsRouter.HandlerIgnoresRequest` | backend/routes/wrong-requests-router.js:4-6 | the outcome is the same for every request and response, whatever the method or path |

## Findings

| source | as written | input that shows it | evidently intended | confidence | as-written member | corrected member |
|---|---|---|---|---|---|---|
| backend/middlewares/auth.js:24-28 | the `catch` block calls `next(err)` without `return`, so control falls through to `req.user = payload; return next();` | the header `BearerXYZ`: it passes the prefix check, gives an `undefined` token, so verification fails, and `next` is called a second time with no error | `return next(err)`: a rejected token ends the request with one rejection and `req.user` untouched | not executed | `Auth.LooseSchemeCallsNextTwice` | `Auth.CorrectedExactlyOneOutcome` |

## Left out

- The internals of `jwt.verify` are a foreign cryptographic library: signature checking, expiry and decoding. The verifier is an arbitrary function. The only fact built in is jsonwebtoken's rejection of a missing or empty token.
- Reading `process.env` is I/O. `NODE_ENV` and `JWT_SECRET` are parameters.
- Express's dispatch is framework behaviour whose source is not part of this model: route matching, the meaning of `use('*')`, and registration order. The catch-all handler is modelled from the point where it is invoked.
- Two observable side effects of that dispatch are not modelled. When `next` is called twice, `next()` may run the next handler after the error responder. `next(err)` skips the remaining non-error handlers.
- The centralised error responder is not part of this model, and neither are the `unauthorized-error`, `not-found-error` and `constants/http-status` files. `UnauthorizedError` and `NotFoundError` are variants of the same datatype. The status constants take the conventional values 400, 401 and 404.
- The commented-out cookie-based `auth` in `backend/middlewares/auth.js` is dead code.
- `frontend/src/components/App.js` is React view state and asynchronous API plumbing, outside the authorisation gate.
- Only `req.headers.authorization` is modelled out of the header map.
- A header value that Node delivers as an array is not modelled.
- `JsStrings.Split` is defined only for a non-empty separator. JavaScript's character-by-character split on `''` is not modelled; the middleware only splits on `'Bearer '`.
- `req.user` being absent and `req.user` holding `undefined` are both `None`. "Untouched" means the value after the call equals the value before.
- `Auth.Auth` does not expose the arguments passed to `jwt.verify`. Those are stated only on `AuthEffectOf`, in `Auth.VerifierArguments`.
