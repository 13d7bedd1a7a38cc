/**
 * The `auth` middleware of the backend: it reads the `Authorization` header,
 * rejects a missing header or one that does not start with the scheme name,
 * cuts the token out of the header, verifies it under the secret the
 * environment selects, stores the decoded payload in `req.user` and calls
 * `next`. The scheme is the Bearer scheme of RFC 6750, section 2.1; the code
 * matches the scheme name case-sensitively and without the space that
 * follows it.
 *
 * `AuthEffectOf` is what the middleware does as written, `Auth` the handler
 * proved against it. On a token that fails verification the written code
 * forwards the error and then carries on: it clears `req.user` and calls
 * `next()` a second time. `AuthEffectCorrected` and `AuthCorrected` return
 * after forwarding the error instead.
 */
module Auth {
  import opened Wrappers
  import opened HttpErrors
  import opened JsStrings
  import opened Express

  /** The message of every rejection ("authorisation required"). */
  const AUTH_REQUIRED_MESSAGE: string := "Необходима авторизация"
  /** What the header must start with. */
  const SCHEME_PREFIX: string := "Bearer"
  /** What the header is split on to find the token. */
  const TOKEN_SEPARATOR: string := "Bearer "
  const PRODUCTION: string := "production"
  /** The secret used whenever NODE_ENV is not "production". */
  const DEV_SECRET: string := "dev-secret"

  /** The error every rejection forwards. */
  const REJECTION: NextCall := Forward(UnauthorizedError(AUTH_REQUIRED_MESSAGE))

  /** `NODE_ENV` and `JWT_SECRET`, read once from the process environment; either may be unset. */
  datatype Env = Env(nodeEnv: Option<string>, jwtSecret: Option<string>)

  /**
   * `jwt.verify(token, secret)` for a present, non-empty token: the decoded
   * payload, or `None` when it throws. Signature, structure and expiry are
   * checked inside; here it is an arbitrary function.
   */
  type Verifier = (string, Option<string>) -> Option<Claims>

  /** A header value JavaScript treats as false: absent or empty. */
  predicate Falsy(authorization: Option<string>) {
    authorization.None? || authorization.value == ""
  }

  /** The secret passed to the verifier. */
  function SelectSecret(env: Env): (secret: Option<string>)
    ensures env.nodeEnv == Some(PRODUCTION) ==> secret == env.jwtSecret
    ensures env.nodeEnv != Some(PRODUCTION) ==> secret == Some(DEV_SECRET)
  {
    if env.nodeEnv == Some(PRODUCTION) then env.jwtSecret else Some(DEV_SECRET)
  }

  /** `authorization.split('Bearer ')[1]`: `None` when the split yields a single piece. */
  function ExtractToken(authorization: string): (token: Option<string>) {
    var parts := Split(authorization, TOKEN_SEPARATOR);
    if |parts| > 1 then Some(parts[1]) else None
  }

  /**
   * The call of `jwt.verify` the middleware makes. A missing or empty token is
   * rejected by jsonwebtoken before any decoding; any other token is left to
   * the verifier.
   */
  function JwtVerify(verify: Verifier, token: Option<string>, secret: Option<string>): (payload: Option<Claims>) {
    if token.None? || token.value == "" then None else verify(token.value, secret)
  }

  /** The header passes both checks and reaches the verifier. */
  predicate HeaderAccepted(authorization: Option<string>) {
    !Falsy(authorization) && StartsWith(authorization.value, SCHEME_PREFIX)
  }

  /** What the verifier returns for an accepted header. */
  function VerifiedClaims(authorization: Option<string>, env: Env, verify: Verifier): (payload: Option<Claims>)
    requires HeaderAccepted(authorization)
  {
    JwtVerify(verify, ExtractToken(authorization.value), SelectSecret(env))
  }

  /** The arguments `jwt.verify` is called with. */
  datatype JwtCall = JwtCall(token: Option<string>, secret: Option<string>)

  /** What happens to `req.user`. */
  datatype UserWrite = Untouched | Assigned(user: Option<Claims>)

  /** Everything one run of the middleware does that anyone can observe. */
  datatype AuthEffect = AuthEffect(jwtCall: Option<JwtCall>, userWrite: UserWrite, calls: seq<NextCall>)

  // ---------------------------------------------------------------------------
  // Token extraction

  /** Prefixing `pre` shifts every occurrence of `sep` by `|pre|`. */
  lemma OccursShifted(pre: string, t: string, sep: string, i: nat)
    ensures OccursAt(pre + t, sep, |pre| + i) <==> OccursAt(t, sep, i)
  {
  }

  /** There is no token exactly when `'Bearer '` occurs nowhere in the header. */
  lemma ExtractTokenNoneIff(authorization: string)
    ensures ExtractToken(authorization).None? <==> Free(authorization, TOKEN_SEPARATOR)
  {
    SplitJoin(authorization, TOKEN_SEPARATOR);
    SplitSingleIff(authorization, TOKEN_SEPARATOR);
  }

  /**
   * With `i` the first occurrence of `'Bearer '`, the token is the text that
   * follows it up to the next occurrence, or up to the end of the header when
   * there is none.
   */
  lemma ExtractTokenBetweenOccurrences(authorization: string, i: nat)
    requires OccursAt(authorization, TOKEN_SEPARATOR, i)
    requires forall k: nat :: k < i ==> !OccursAt(authorization, TOKEN_SEPARATOR, k)
    ensures ExtractToken(authorization).Some?
    ensures var t := ExtractToken(authorization).value;
            var start := i + |TOKEN_SEPARATOR|;
            && start + |t| <= |authorization|
            && t == authorization[start..start + |t|]
            && (forall k: nat :: start <= k < start + |t| ==> !OccursAt(authorization, TOKEN_SEPARATOR, k))
            && (start + |t| == |authorization| || OccursAt(authorization, TOKEN_SEPARATOR, start + |t|))
  {
    var h, sep := authorization, TOKEN_SEPARATOR;
    var start := i + |sep|;
    assert IndexOf(h, sep, 0) == Some(i);
    var rest := SplitFrom(h, sep, start);
    assert Split(h, sep) == [h[0..i]] + rest;
    SplitFromJoin(h, sep, start);
    assert ExtractToken(h) == Some(rest[0]);
    match IndexOf(h, sep, start)
    case None =>
      assert rest[0] == h[start..];
    case Some(j) =>
      assert rest[0] == h[start..j];
  }

  /** `'Bearer ' + t` yields exactly `t` precisely when `t` holds no further `'Bearer '`. */
  lemma ExtractTokenAfterScheme(t: string)
    ensures ExtractToken(TOKEN_SEPARATOR + t) == Some(t) <==> Free(t, TOKEN_SEPARATOR)
  {
    var sep := TOKEN_SEPARATOR;
    var h := sep + t;
    assert h[0..|sep|] == sep;
    ExtractTokenBetweenOccurrences(h, 0);
    var t' := ExtractToken(h).value;
    if t' == t {
      forall i | 0 <= i <= |t| && OccursAt(t, sep, i)
        ensures false
      {
        OccursShifted(sep, t, sep, i);
      }
    }
    if Free(t, sep) {
      if |sep| + |t'| < |h| {
        OccursShifted(sep, t, sep, |t'|);
        assert false;
      }
      assert t' == h[|sep|..];
    }
  }

  /** `BearerXYZ` passes the prefix check, yet no token can be cut out of it. */
  lemma LooseSchemePrefixGivesNoToken()
    ensures StartsWith("BearerXYZ", SCHEME_PREFIX)
    ensures ExtractToken("BearerXYZ") == None
  {
    var h := "BearerXYZ";
    forall i | 0 <= i <= |h|
      ensures !OccursAt(h, TOKEN_SEPARATOR, i)
    {
      if i + |TOKEN_SEPARATOR| <= |h| {
        assert h[i..i + |TOKEN_SEPARATOR|][6 - i] == h[6] == 'X';
      }
    }
    ExtractTokenNoneIff(h);
  }

  /** The scheme name is compared case-sensitively: a lower-case `bearer` header fails the check. */
  lemma SchemeIsCaseSensitive(authorization: string)
    requires StartsWith(authorization, "bearer")
    ensures !StartsWith(authorization, SCHEME_PREFIX)
  {
  }

  // ---------------------------------------------------------------------------
  // The middleware as written

  /** One run of the middleware on a request whose header is `authorization`. */
  function AuthEffectOf(authorization: Option<string>, env: Env, verify: Verifier): (effect: AuthEffect) {
    if Falsy(authorization) then AuthEffect(None, Untouched, [REJECTION])
    else if !StartsWith(authorization.value, SCHEME_PREFIX) then AuthEffect(None, Untouched, [REJECTION])
    else
      var token := ExtractToken(authorization.value);
      var secret := SelectSecret(env);
      var payload := JwtVerify(verify, token, secret);
      AuthEffect(Some(JwtCall(token, secret)), Assigned(payload),
                 if payload.Some? then [Continue] else [REJECTION, Continue])
  }

  /** The middleware itself, over a request object and the `next` callback. */
  method Auth(req: Request, res: Response, next: NextCallback, env: Env, verify: Verifier)
    modifies req`user, next
    ensures var e := AuthEffectOf(req.authorization, env, verify);
            && next.calls == old(next.calls) + e.calls
            && req.user == (if e.userWrite.Assigned? then e.userWrite.user else old(req.user))
    ensures unchanged(res)
  {
    var authorization := req.authorization;
    if Falsy(authorization) {
      next.Invoke(Forward(UnauthorizedError(AUTH_REQUIRED_MESSAGE)));
      return;
    }
    if !Falsy(authorization) && !StartsWith(authorization.value, SCHEME_PREFIX) {
      next.Invoke(Forward(UnauthorizedError(AUTH_REQUIRED_MESSAGE)));
      return;
    }
    var token := ExtractToken(authorization.value);
    var payload: Option<Claims> := None;
    var verified := JwtVerify(verify, token, SelectSecret(env));
    if verified.Some? {
      payload := verified;
    } else {
      next.Invoke(Forward(UnauthorizedError(AUTH_REQUIRED_MESSAGE)));
    }
    req.user := payload;
    next.Invoke(Continue);
  }

  /** An absent or empty header: one rejection, `req.user` untouched, the verifier never called. */
  lemma FalsyHeaderRejected(authorization: Option<string>, env: Env, verify: Verifier)
    requires Falsy(authorization)
    ensures AuthEffectOf(authorization, env, verify) == AuthEffect(None, Untouched, [REJECTION])
  {
  }

  /** A header that does not start with `Bearer`: one rejection, `req.user` untouched. */
  lemma WrongSchemeRejected(authorization: string, env: Env, verify: Verifier)
    requires authorization != "" && !StartsWith(authorization, SCHEME_PREFIX)
    ensures AuthEffectOf(Some(authorization), env, verify) == AuthEffect(None, Untouched, [REJECTION])
  {
  }

  /**
   * The verifier is called exactly when the header is accepted, with the
   * extracted token and with `JWT_SECRET` in production and `'dev-secret'`
   * otherwise.
   */
  lemma VerifierArguments(authorization: Option<string>, env: Env, verify: Verifier)
    ensures AuthEffectOf(authorization, env, verify).jwtCall.Some? <==> HeaderAccepted(authorization)
    ensures HeaderAccepted(authorization) ==>
              var call := AuthEffectOf(authorization, env, verify).jwtCall.value;
              && call.token == ExtractToken(authorization.value)
              && (env.nodeEnv == Some(PRODUCTION) ==> call.secret == env.jwtSecret)
              && (env.nodeEnv != Some(PRODUCTION) ==> call.secret == Some(DEV_SECRET))
  {
  }

  /** A verified token: `req.user` is its payload and `next()` is called once, without an error. */
  lemma VerifiedRequestProceeds(authorization: Option<string>, env: Env, verify: Verifier, claims: Claims)
    requires HeaderAccepted(authorization) && VerifiedClaims(authorization, env, verify) == Some(claims)
    ensures AuthEffectOf(authorization, env, verify).userWrite == Assigned(Some(claims))
    ensures AuthEffectOf(authorization, env, verify).calls == [Continue]
  {
  }

  /**
   * A token that fails verification: the error is forwarded, then `req.user`
   * is set to `undefined` and `next()` is called a second time.
   */
  lemma RejectedTokenStillProceeds(authorization: Option<string>, env: Env, verify: Verifier)
    requires HeaderAccepted(authorization) && VerifiedClaims(authorization, env, verify).None?
    ensures AuthEffectOf(authorization, env, verify).userWrite == Assigned(None)
    ensures AuthEffectOf(authorization, env, verify).calls == [REJECTION, Continue]
  {
  }

  /**
   * `next` is called once or twice, and exactly once precisely when the
   * header is rejected or the token is verified.
   */
  lemma SingleOutcomeIff(authorization: Option<string>, env: Env, verify: Verifier)
    ensures 1 <= |AuthEffectOf(authorization, env, verify).calls| <= 2
    ensures |AuthEffectOf(authorization, env, verify).calls| == 1 <==>
              !HeaderAccepted(authorization) || VerifiedClaims(authorization, env, verify).Some?
  {
  }

  /**
   * Every error forwarded is the same 401 error with the same message, and
   * `req.user` only ever receives a payload the verifier returned.
   */
  lemma UniformRejection(authorization: Option<string>, env: Env, verify: Verifier)
    ensures forall c :: c in AuthEffectOf(authorization, env, verify).calls && c.Forward? ==>
              c.error == UnauthorizedError(AUTH_REQUIRED_MESSAGE) && c.error.StatusCode() == STATUS_UNAUTHORIZED
    ensures AuthEffectOf(authorization, env, verify).userWrite.Assigned? ==>
              && HeaderAccepted(authorization)
              && AuthEffectOf(authorization, env, verify).userWrite.user == VerifiedClaims(authorization, env, verify)
  {
  }

  /** `BearerXYZ` reaches the verifier without a token and so calls `next` twice, whatever the verifier. */
  lemma LooseSchemeCallsNextTwice(env: Env, verify: Verifier)
    ensures AuthEffectOf(Some("BearerXYZ"), env, verify)
            == AuthEffect(Some(JwtCall(None, SelectSecret(env))), Assigned(None), [REJECTION, Continue])
  {
    LooseSchemePrefixGivesNoToken();
  }

  // ---------------------------------------------------------------------------
  // The middleware with `return next(err)` in the catch block

  /** One run of the corrected middleware. */
  function AuthEffectCorrected(authorization: Option<string>, env: Env, verify: Verifier): (effect: AuthEffect) {
    if Falsy(authorization) then AuthEffect(None, Untouched, [REJECTION])
    else if !StartsWith(authorization.value, SCHEME_PREFIX) then AuthEffect(None, Untouched, [REJECTION])
    else
      var token := ExtractToken(authorization.value);
      var secret := SelectSecret(env);
      var payload := JwtVerify(verify, token, secret);
      if payload.Some? then AuthEffect(Some(JwtCall(token, secret)), Assigned(payload), [Continue])
      else AuthEffect(Some(JwtCall(token, secret)), Untouched, [REJECTION])
  }

  /** The corrected middleware over a request object and the `next` callback. */
  method AuthCorrected(req: Request, res: Response, next: NextCallback, env: Env, verify: Verifier)
    modifies req`user, next
    ensures var e := AuthEffectCorrected(req.authorization, env, verify);
            && next.calls == old(next.calls) + e.calls
            && req.user == (if e.userWrite.Assigned? then e.userWrite.user else old(req.user))
    ensures unchanged(res)
  {
    var authorization := req.authorization;
    if Falsy(authorization) || !StartsWith(authorization.value, SCHEME_PREFIX) {
      next.Invoke(Forward(UnauthorizedError(AUTH_REQUIRED_MESSAGE)));
      return;
    }
    var token := ExtractToken(authorization.value);
    var payload := JwtVerify(verify, token, SelectSecret(env));
    if payload.None? {
      next.Invoke(Forward(UnauthorizedError(AUTH_REQUIRED_MESSAGE)));
      return;
    }
    req.user := payload;
    next.Invoke(Continue);
  }

  /**
   * The corrected middleware always ends in exactly one outcome: `next()` and
   * a verified payload in `req.user`, or one rejection and `req.user` untouched.
   */
  lemma CorrectedExactlyOneOutcome(authorization: Option<string>, env: Env, verify: Verifier)
    ensures |AuthEffectCorrected(authorization, env, verify).calls| == 1
    ensures var e := AuthEffectCorrected(authorization, env, verify);
            var verified := HeaderAccepted(authorization) && VerifiedClaims(authorization, env, verify).Some?;
            && (e.calls[0] == Continue <==> verified)
            && (e.calls[0] == REJECTION <==> !verified)
            && (e.userWrite.Assigned? <==> verified)
            && (verified ==> e.userWrite.user == VerifiedClaims(authorization, env, verify))
  {
  }

  /** The correction changes nothing except on a token that fails verification. */
  lemma CorrectedAgreesOffFailurePath(authorization: Option<string>, env: Env, verify: Verifier)
    ensures AuthEffectCorrected(authorization, env, verify) == AuthEffectOf(authorization, env, verify) <==>
              !HeaderAccepted(authorization) || VerifiedClaims(authorization, env, verify).Some?
  {
  }

  /** The corrected middleware rejects `BearerXYZ` once. */
  lemma CorrectedLooseSchemeRejectedOnce(env: Env, verify: Verifier)
    ensures AuthEffectCorrected(Some("BearerXYZ"), env, verify)
            == AuthEffect(Some(JwtCall(None, SelectSecret(env))), Untouched, [REJECTION])
  {
    LooseSchemePrefixGivesNoToken();
  }
}
