/**
 * Admin access control: the password check of `POST /api/admin/login` and the bearer
 * token extraction of `authMiddleware`. Signing and verifying the JSON Web Token belong
 * to a library; verification is a predicate the caller supplies.
 */
module Auth {
  import opened Wrappers
  import opened Strings
  import opened Config
  import opened Http

  const BearerPrefix: string := "Bearer "

  /** The password is supplied, non-empty and equal to `ADMIN_PASSWORD`. */
  predicate PasswordMatches(env: Env, password: Option<string>) {
    IsSet(password) && password == env.adminPassword
  }

  /**
   * `POST /api/admin/login`: a supplied, non-empty password equal to `ADMIN_PASSWORD`
   * gets a token signed with `ADMIN_TOKEN_SECRET`; anything else is 401 "Invalid
   * password". `jwt.sign` refuses an empty key and throws, so with the secret unset or
   * empty a correct password ends in Express's default 500 instead.
   */
  function Login(env: Env, password: Option<string>): (r: Response)
    ensures r.TokenIssued? <==> PasswordMatches(env, password) && IsSet(env.adminTokenSecret)
    ensures r.TokenIssued? ==> IsSet(env.adminPassword)
    ensures r.TokenIssued? ==> r.claims == TokenClaims("admin", env.adminTokenSecret.value, "12h")
    ensures r == Failure(401, "Invalid password") <==> !PasswordMatches(env, password)
    ensures r == InternalError <==> PasswordMatches(env, password) && !IsSet(env.adminTokenSecret)
  {
    if !IsSet(password) || password != env.adminPassword then Failure(401, "Invalid password")
    else if !IsSet(env.adminTokenSecret) then InternalError
    else TokenIssued(TokenClaims("admin", env.adminTokenSecret.value, "12h"))
  }

  /** Without a signing secret even the right password gets no token: the answer is 500. */
  lemma NoSecretNoToken(env: Env)
    requires IsSet(env.adminPassword) && !IsSet(env.adminTokenSecret)
    ensures Login(env, env.adminPassword) == InternalError
    ensures forall password :: !Login(env, password).TokenIssued?
  {
  }

  /** Without a configured password no login ever succeeds. */
  lemma NoPasswordNoLogin(env: Env, password: Option<string>)
    requires !IsSet(env.adminPassword)
    ensures Login(env, password) == Failure(401, "Invalid password")
  {
  }

  /**
   * `(req.headers.authorization || "").replace("Bearer ", "")`: the header with its FIRST
   * "Bearer " removed, wherever it occurs; the header itself when it has none.
   */
  function BearerToken(authorization: Option<string>): (token: string)
    ensures |token| <= |authorization.GetOr("")|
  {
    ReplaceFirst(authorization.GetOr(""), BearerPrefix, "")
  }

  /**
   * `authMiddleware`: an empty token is refused before verification; otherwise the token
   * must verify against `ADMIN_TOKEN_SECRET || ""`. Refusal is 401 "Unauthorized".
   */
  predicate Authorized(env: Env, authorization: Option<string>, verify: (string, string) -> bool) {
    var token := BearerToken(authorization);
    token != [] && verify(token, env.adminTokenSecret.GetOr(""))
  }

  /** The usual header `Bearer <t>` yields `<t>`. */
  lemma {:induction false} BearerPrefixStripped(t: string)
    ensures BearerToken(Some(BearerPrefix + t)) == t
  {
    var h := BearerPrefix + t;
    assert h[0..|BearerPrefix|] == BearerPrefix;
    assert IndexOfFrom(h, BearerPrefix, 0) == Some(0);
    assert h[|BearerPrefix|..] == t;
  }

  /** A header without "Bearer " is taken whole as the token. */
  lemma NoBearerTakenWhole(h: string)
    requires forall i :: !OccursAt(h, BearerPrefix, i)
    ensures BearerToken(Some(h)) == h
  {
  }

  /**
   * The replacement is not anchored: wherever "Bearer " first occurs, after some `x`,
   * the token is the header with just that occurrence cut out (so "xBearer y" gives "xy").
   */
  lemma {:induction false} BearerReplacedInside(x: string, y: string)
    requires forall i :: 0 <= i < |x| ==> !OccursAt(x + BearerPrefix + y, BearerPrefix, i)
    ensures BearerToken(Some(x + BearerPrefix + y)) == x + y
  {
    var h := x + BearerPrefix + y;
    assert h[|x|..|x| + |BearerPrefix|] == BearerPrefix;
    assert OccursAt(h, BearerPrefix, |x|);
    assert IndexOfFrom(h, BearerPrefix, 0) == Some(|x|);
    assert h[..|x|] == x && h[|x| + |BearerPrefix|..] == y;
  }

  /** A well-formed header `Bearer <t>` passes exactly when `t` is non-empty and verifies. */
  lemma AuthorizedBearer(env: Env, t: string, verify: (string, string) -> bool)
    ensures Authorized(env, Some(BearerPrefix + t), verify) <==>
              t != [] && verify(t, env.adminTokenSecret.GetOr(""))
  {
    BearerPrefixStripped(t);
  }

  /** No header, an empty header and a bare "Bearer " are refused whatever the verifier says. */
  lemma {:induction false} EmptyTokenRefused(env: Env, verify: (string, string) -> bool)
    ensures !Authorized(env, None, verify)
    ensures !Authorized(env, Some(""), verify)
    ensures !Authorized(env, Some(BearerPrefix), verify)
  {
    BearerPrefixStripped("");
    assert BearerPrefix + "" == BearerPrefix;
  }
}
