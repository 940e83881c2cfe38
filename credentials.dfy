/** Who may call the blob service (`UserRepository`): a password login that
    issues a signed bearer token naming the user, and the check of such a
    token on every request. Nothing here changes the users table. */
module Credentials {
  import opened Wrappers

  /** A row of the users table. */
  datatype User = User(username: string, passwordHash: string)

  /** The users table, looked up by username. */
  type Users = map<string, User>

  datatype ClaimValue = Text(text: string) | Instant(seconds: int)

  /** The payload of a token. */
  type Claims = map<string, ClaimValue>

  /** The token library with the configured secret and algorithm, as an
      opaque pair: `decode` answers `None` for a token whose signature does
      not verify or that does not parse. */
  datatype Jwt = Jwt(encode: Claims -> string, decode: string -> Option<Claims>)

  /** Decoding gives back exactly the claims that were encoded. */
  ghost predicate RoundTrips(jwt: Jwt) {
    forall c :: jwt.decode(jwt.encode(c)) == Some(c)
  }

  /** The OAuth2 password form. */
  datatype LoginForm = LoginForm(username: string, password: string)

  /** The body `login` answers with. */
  datatype AccessToken = AccessToken(accessToken: string, tokenType: string)

  datatype AuthError = UserCredentialsError

  /** The lifetime of a token issued without a (non-zero) lifetime: 15 minutes. */
  const DefaultLifetime: int := 15 * 60

  /** Every user is stored under its own username. */
  ghost predicate Keyed(users: Users) {
    forall u :: u in users ==> users[u].username == u
  }

  /** `_get_user`: the user with that username, or `UserCredentialsError`. */
  function GetUser(users: Users, username: string): (r: Result<User, AuthError>)
    ensures r.Ok? <==> username in users
    ensures r.Ok? ==> r.value == users[username]
    ensures r.Err? ==> r.error == UserCredentialsError
  {
    if username in users then Ok(users[username]) else Err(UserCredentialsError)
  }

  /** The `exp` claim of a token issued at `now`; times are in seconds. A
      lifetime of zero is falsy, so it falls back to the default just as a
      missing one does. */
  function ExpiresAt(now: int, lifetime: Option<int>): (exp: int)
    ensures lifetime.Some? && lifetime.value != 0 ==> exp == now + lifetime.value
    ensures lifetime.None? || lifetime.value == 0 ==> exp == now + DefaultLifetime
  {
    if lifetime.Some? && lifetime.value != 0 then now + lifetime.value else now + DefaultLifetime
  }

  /** `_create_access_token`: sign a copy of `data` with `exp` set. */
  function CreateAccessToken(jwt: Jwt, data: Claims, lifetime: Option<int>, now: int): (token: string)
    ensures RoundTrips(jwt) ==> jwt.decode(token) == Some(data["exp" := Instant(ExpiresAt(now, lifetime))])
  {
    var toEncode := data["exp" := Instant(ExpiresAt(now, lifetime))];
    jwt.encode(toEncode)
  }

  /** The registered claims the token library checks while decoding: an
      `exp` that has not passed (a token expires once `now` is beyond it)
      and a `sub` that is a string. */
  predicate ClaimsValid(c: Claims, now: int) {
    && ("exp" in c ==> c["exp"].Instant? && now <= c["exp"].seconds)
    && ("sub" in c ==> c["sub"].Text?)
  }

  /** `jwt.decode`: the claims of a token that verifies and whose registered
      claims are valid at `now`; `None` where the library raises. */
  function Decode(jwt: Jwt, token: string, now: int): (r: Option<Claims>)
    ensures r.Some? <==> jwt.decode(token).Some? && ClaimsValid(jwt.decode(token).value, now)
    ensures r.Some? ==> r == jwt.decode(token)
  {
    match jwt.decode(token)
    case None => None
    case Some(c) => if ClaimsValid(c, now) then Some(c) else None
  }

  /** The username a token names, if it decodes and carries a `sub`. */
  function Subject(jwt: Jwt, token: string, now: int): (r: Option<string>)
    ensures r.Some? <==> Decode(jwt, token, now).Some? && "sub" in Decode(jwt, token, now).value
    ensures r.Some? ==> Decode(jwt, token, now).value["sub"] == Text(r.value)
  {
    match Decode(jwt, token, now)
    case None => None
    case Some(c) => if "sub" in c then Some(c["sub"].text) else None
  }

  /** `get`: the user a token names. A token that does not decode, names no
      one, or names a user who is not stored raises `UserCredentialsError`. */
  function Get(jwt: Jwt, users: Users, token: string, now: int): (r: Result<User, AuthError>)
    ensures r.Ok? <==> Subject(jwt, token, now).Some? && Subject(jwt, token, now).value in users
    ensures r.Ok? ==> r.value == users[Subject(jwt, token, now).value]
    ensures r.Err? ==> r.error == UserCredentialsError
  {
    match Subject(jwt, token, now)
    case None => Err(UserCredentialsError)
    case Some(username) => GetUser(users, username)
  }

  /** `login`: a token naming the user, valid for `lifetimeMinutes`, when the
      username is stored and its password verifies; `UserCredentialsError`
      otherwise. */
  function Login(jwt: Jwt, users: Users, verifyPassword: (User, string) -> bool, lifetimeMinutes: int, form: LoginForm, now: int)
    : (r: Result<AccessToken, AuthError>)
    ensures r.Ok? <==> form.username in users && verifyPassword(users[form.username], form.password)
    ensures r.Err? ==> r.error == UserCredentialsError
    ensures r.Ok? ==> r.value.tokenType == "bearer"
    ensures r.Ok? && RoundTrips(jwt) ==>
      jwt.decode(r.value.accessToken) == Some(map["sub" := Text(users[form.username].username),
                                                   "exp" := Instant(ExpiresAt(now, Some(lifetimeMinutes * 60)))])
  {
    if form.username in users && verifyPassword(users[form.username], form.password) then
      var user := users[form.username];
      var token := CreateAccessToken(jwt, map["sub" := Text(user.username)], Some(lifetimeMinutes * 60), now);
      Ok(AccessToken(token, "bearer"))
    else
      Err(UserCredentialsError)
  }

  /** A token issued by a successful login identifies the same user for as
      long as it has not expired. */
  lemma LoginThenGet(jwt: Jwt, users: Users, verifyPassword: (User, string) -> bool, lifetimeMinutes: int,
                     form: LoginForm, issuedAt: int, now: int)
    requires RoundTrips(jwt) && Keyed(users)
    requires Login(jwt, users, verifyPassword, lifetimeMinutes, form, issuedAt).Ok?
    requires now <= ExpiresAt(issuedAt, Some(lifetimeMinutes * 60))
    ensures Get(jwt, users, Login(jwt, users, verifyPassword, lifetimeMinutes, form, issuedAt).value.accessToken, now)
            == Ok(users[form.username])
  {
  }

  /** Once past its `exp`, the same token identifies no one. */
  lemma ExpiredLoginTokenRejected(jwt: Jwt, users: Users, verifyPassword: (User, string) -> bool, lifetimeMinutes: int,
                                  form: LoginForm, issuedAt: int, now: int)
    requires RoundTrips(jwt)
    requires Login(jwt, users, verifyPassword, lifetimeMinutes, form, issuedAt).Ok?
    requires now > ExpiresAt(issuedAt, Some(lifetimeMinutes * 60))
    ensures Get(jwt, users, Login(jwt, users, verifyPassword, lifetimeMinutes, form, issuedAt).value.accessToken, now)
            == Err(UserCredentialsError)
  {
  }
}
