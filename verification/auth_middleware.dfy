/**
 * The request guards: `authenticate` (a bearer token that verifies, for a user who still exists and
 * is active), `authorize` (a role list) and `optionalAuth` (attach a user when possible, never
 * reject). Signature checking is a parameter of the model.
 */
module AuthMiddleware {
  import opened Wrappers
  import opened Text
  import opened Domain

  /** What a signed token carries. */
  datatype Payload = Payload(userId: nat, email: string, role: Role)

  /**
   * The outcome of `jwt.verify(token, secret)`: the payload, an expired token, or any other
   * verification failure (bad signature, malformed token, not yet valid).
   */
  datatype Verdict = Valid(payload: Payload) | Expired | Invalid

  /** The signature check, left uninterpreted: the verdict for a token under a secret. */
  type Verifier = (string, string) -> Verdict

  /**
   * A secret the guards can use: an unset variable and an empty one both count as missing, since
   * the source tests `!secret` and the token library refuses an empty key.
   */
  predicate SecretSet(secret: Option<string>) {
    secret.Some? && secret.value != ""
  }

  /** The scheme prefix of the `Authorization` header. */
  const BearerPrefix: string := "Bearer "

  /** The token a header carries: everything after `Bearer `, if it starts so. */
  function BearerToken(header: Option<string>): (r: Option<string>)
    ensures r.Some? <==> header.Some? && StartsWith(header.value, BearerPrefix)
    ensures r.Some? ==> header.value == BearerPrefix + r.value
  {
    if header.Some? && StartsWith(header.value, BearerPrefix) then
      assert header.value == header.value[..7] + header.value[7..];
      Some(header.value[7..])
    else None
  }

  /** The header a client builds from a token gives that token back. */
  lemma BearerTokenRoundTrip(token: string)
    ensures BearerToken(Some(BearerPrefix + token)) == Some(token)
  {
    assert (BearerPrefix + token)[..7] == BearerPrefix;
    assert (BearerPrefix + token)[7..] == token;
  }

  /**
   * `authenticate`: the payload to attach, or the rejection; a missing secret is a server error. `active` holds the `isActive` flag of
   * every stored user.
   */
  function Authenticate(header: Option<string>, secret: Option<string>, verify: Verifier, active: map<nat, bool>): (r: Result<Payload, Rejection>)
    ensures BearerToken(header).None? ==> r == Err(Rejection(401, NoToken))
    ensures BearerToken(header).Some? && !SecretSet(secret) ==> r == Err(Rejection(500, AuthError))
    ensures BearerToken(header).Some? && SecretSet(secret) ==>
      match verify(BearerToken(header).value, secret.value)
      case Expired => r == Err(Rejection(401, TokenExpired))
      case Invalid => r == Err(Rejection(401, InvalidToken))
      case Valid(p) =>
        && (p.userId !in active ==> r == Err(Rejection(401, UserNotFound)))
        && (p.userId in active && !active[p.userId] ==> r == Err(Rejection(403, AccountInactive)))
        && (p.userId in active && active[p.userId] ==> r == Ok(p))
  {
    match BearerToken(header)
    case None => Err(Rejection(401, NoToken))
    case Some(token) =>
      if !SecretSet(secret) then Err(Rejection(500, AuthError))
      else match verify(token, secret.value)
        case Expired => Err(Rejection(401, TokenExpired))
        case Invalid => Err(Rejection(401, InvalidToken))
        case Valid(p) =>
          if p.userId !in active then Err(Rejection(401, UserNotFound))
          else if !active[p.userId] then Err(Rejection(403, AccountInactive))
          else Ok(p)
  }

  /** A request passes `authenticate` exactly when its token verifies for an existing, active user. */
  lemma AuthenticateAccepts(header: Option<string>, secret: Option<string>, verify: Verifier, active: map<nat, bool>)
    ensures Authenticate(header, secret, verify, active).Ok? <==>
      && BearerToken(header).Some? && SecretSet(secret)
      && verify(BearerToken(header).value, secret.value).Valid?
      && var p := verify(BearerToken(header).value, secret.value).payload;
         p.userId in active && active[p.userId]
    ensures Authenticate(header, secret, verify, active).Ok? ==>
      Authenticate(header, secret, verify, active).value == verify(BearerToken(header).value, secret.value).payload
  {
  }

  /** Every rejection of `authenticate` is one of its six, with its status. */
  lemma AuthenticateRejections(header: Option<string>, secret: Option<string>, verify: Verifier, active: map<nat, bool>)
    ensures var r := Authenticate(header, secret, verify, active);
      r.Err? ==> r.error in {
        Rejection(401, NoToken), Rejection(500, AuthError), Rejection(401, TokenExpired),
        Rejection(401, InvalidToken), Rejection(401, UserNotFound), Rejection(403, AccountInactive) }
  {
  }

  /**
   * `authorize(...roles)`: nothing when the request may proceed, otherwise the rejection: no user
   * is AUTH_REQUIRED, an unlisted role is FORBIDDEN.
   */
  function Authorize(user: Option<Payload>, roles: seq<Role>): (r: Option<Rejection>)
    ensures r.None? <==> user.Some? && user.value.role in roles
    ensures user.None? ==> r == Some(Rejection(401, AuthRequired))
    ensures user.Some? && user.value.role !in roles ==> r == Some(Rejection(403, Forbidden))
  {
    if user.None? then Some(Rejection(401, AuthRequired))
    else if user.value.role !in roles then Some(Rejection(403, Forbidden))
    else None
  }

  /**
   * `optionalAuth`: the payload of a bearer token that verifies, else no user. It never rejects and
   * does not look the user up.
   */
  function OptionalAuth(header: Option<string>, secret: Option<string>, verify: Verifier): (r: Option<Payload>)
    ensures r.Some? <==>
      BearerToken(header).Some? && SecretSet(secret) && verify(BearerToken(header).value, secret.value).Valid?
    ensures r.Some? ==> r.value == verify(BearerToken(header).value, secret.value).payload
  {
    match BearerToken(header)
    case None => None
    case Some(token) =>
      if !SecretSet(secret) then None
      else match verify(token, secret.value)
        case Valid(p) => Some(p)
        case _ => None
  }

  /** Whoever `authenticate` admits, `optionalAuth` attaches too, with the same payload. */
  lemma OptionalAuthAdmitsAuthenticated(header: Option<string>, secret: Option<string>, verify: Verifier, active: map<nat, bool>)
    requires Authenticate(header, secret, verify, active).Ok?
    ensures OptionalAuth(header, secret, verify) == Some(Authenticate(header, secret, verify, active).value)
  {
    AuthenticateAccepts(header, secret, verify, active);
  }

  /**
   * `optionalAuth` does not check the account: a deactivated (or deleted) user's valid token is
   * refused by `authenticate` and still attached by `optionalAuth`.
   */
  lemma OptionalAuthIgnoresDeactivation(header: Option<string>, secret: Option<string>, verify: Verifier, active: map<nat, bool>)
    requires BearerToken(header).Some? && SecretSet(secret)
    requires verify(BearerToken(header).value, secret.value).Valid?
    requires var p := verify(BearerToken(header).value, secret.value).payload;
             p.userId !in active || !active[p.userId]
    ensures Authenticate(header, secret, verify, active).Err?
    ensures OptionalAuth(header, secret, verify) == Some(verify(BearerToken(header).value, secret.value).payload)
  {
  }

  /** An empty secret acts as no secret at all: `authenticate` fails with a server error and `optionalAuth` attaches nobody. */
  lemma EmptySecretIsMissing(header: Option<string>, verify: Verifier, active: map<nat, bool>)
    ensures Authenticate(header, Some(""), verify, active) == Authenticate(header, None, verify, active)
    ensures BearerToken(header).Some? ==> Authenticate(header, Some(""), verify, active) == Err(Rejection(500, AuthError))
    ensures OptionalAuth(header, Some(""), verify).None?
  {
  }
}
