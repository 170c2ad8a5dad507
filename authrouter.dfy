/** The authentication endpoints: login, refresh and logout with their guard
    order and their effect on the refresh-token store, plus the two read-only
    endpoints. Minting and decoding tokens and checking a password against
    its hash are parameters. */
module AuthRouter {
  import opened Common
  import opened Accounts
  import opened AuthDeps

  /** The claims a login or refresh puts into both new tokens. */
  datatype Payload = Payload(sub: string, userId: int, role: string)

  /** The token functions: minting from a payload, decoding to claims. */
  datatype Jwt = Jwt(
    createAccess: Payload -> string,
    createRefresh: Payload -> string,
    decodeAccess: string -> Option<TokenData>,
    decodeRefresh: string -> Option<TokenData>)

  datatype TokenResponse = TokenResponse(accessToken: string, refreshToken: string, tokenType: string)

  datatype DemoCredential = DemoCredential(email: string, password: string, role: string)

  const BadCredentials := HttpError(401, "Incorrect email or password", false)
  const InactiveAccount := HttpError(403, "User account is inactive", false)
  const RevokedToken := HttpError(401, "Invalid or revoked refresh token", false)
  const UndecodableToken := HttpError(401, "Invalid refresh token", false)
  const NoActiveUser := HttpError(401, "User not found or inactive", false)

  function PayloadOf(u: StoredUser): (p: Payload)
    ensures p.sub == u.email && p.userId == u.id && p.role == u.role
  {
    Payload(u.email, u.id, u.role)
  }

  /** The response of a successful login or refresh: both tokens minted from
      the same payload. */
  function Tokens(jwt: Jwt, p: Payload): TokenResponse {
    TokenResponse(jwt.createAccess(p), jwt.createRefresh(p), "bearer")
  }

  /** The guards of `login` in their order: an unknown email and a wrong
      password give the same 401; an inactive account gives 403, and only once
      the password has matched. */
  function CheckLogin(found: Option<StoredUser>, password: string, verify: (string, string) -> bool)
    : (r: Result<StoredUser, HttpError>)
    ensures found.None? ==> r == Err(BadCredentials)
    ensures found.Some? && !verify(password, found.value.hashedPassword) ==> r == Err(BadCredentials)
    ensures r == Err(InactiveAccount) <==> found.Some? && verify(password, found.value.hashedPassword) && !found.value.isActive
    ensures r.Ok? <==> found.Some? && verify(password, found.value.hashedPassword) && found.value.isActive
    ensures r.Ok? ==> r.value == found.value
  {
    if found.None? then Err(BadCredentials)
    else if !verify(password, found.value.hashedPassword) then Err(BadCredentials)
    else if !found.value.isActive then Err(InactiveAccount)
    else Ok(found.value)
  }

  /** The guards of `refresh_token` in their order. A token missing from the
      store is refused before it is decoded; every refusal is a 401. */
  function CheckRefresh(stored: bool, decoded: Option<TokenData>, users: map<string, StoredUser>)
    : (r: Result<StoredUser, HttpError>)
    ensures !stored ==> r == Err(RevokedToken)
    ensures stored && decoded.None? ==> r == Err(UndecodableToken)
    ensures r.Ok? <==> stored && decoded.Some? && decoded.value.sub in users && users[decoded.value.sub].isActive
    ensures r.Err? ==> r.error.status == 401
    ensures r.Ok? ==> r.value == users[decoded.value.sub]
  {
    if !stored then Err(RevokedToken)
    else if decoded.None? then Err(UndecodableToken)
    else if decoded.value.sub !in users || !users[decoded.value.sub].isActive then Err(NoActiveUser)
    else Ok(users[decoded.value.sub])
  }

  /** `login`: on success both tokens carry the user's email, id and role,
      and the refresh token is stored for the user's id; on failure the token
      store is untouched. */
  method Login(email: string, password: string, users: UserStore, store: RefreshTokenStore, jwt: Jwt,
               verify: (string, string) -> bool)
    returns (r: Result<TokenResponse, HttpError>)
    modifies store
    ensures CheckLogin(users.GetUserByEmail(email), password, verify).Err? ==>
              r == Err(CheckLogin(users.GetUserByEmail(email), password, verify).error)
              && store.tokens == old(store.tokens)
    ensures CheckLogin(users.GetUserByEmail(email), password, verify).Ok? ==>
              var user := users.GetUserByEmail(email).value;
              r == Ok(Tokens(jwt, PayloadOf(user)))
              && store.tokens == old(store.tokens)[r.value.refreshToken := user.id]
  {
    var check := CheckLogin(users.GetUserByEmail(email), password, verify);
    if check.Err? {
      return Err(check.error);
    }
    var user := check.value;
    var response := Tokens(jwt, PayloadOf(user));
    store.StoreToken(response.refreshToken, user.id);
    return Ok(response);
  }

  /** `refresh_token`: on success the presented token is revoked and the new
      refresh token stored for the same user; on failure nothing changes. */
  method Refresh(token: string, users: UserStore, store: RefreshTokenStore, jwt: Jwt)
    returns (r: Result<TokenResponse, HttpError>)
    modifies store
    ensures CheckRefresh(token in old(store.tokens), jwt.decodeRefresh(token), users.users).Err? ==>
              r == Err(CheckRefresh(token in old(store.tokens), jwt.decodeRefresh(token), users.users).error)
              && store.tokens == old(store.tokens)
    ensures CheckRefresh(token in old(store.tokens), jwt.decodeRefresh(token), users.users).Ok? ==>
              var user := CheckRefresh(token in old(store.tokens), jwt.decodeRefresh(token), users.users).value;
              r == Ok(Tokens(jwt, PayloadOf(user)))
              && store.tokens == (old(store.tokens) - {token})[r.value.refreshToken := user.id]
    ensures r.Ok? && r.value.refreshToken != token ==> !store.IsValid(token)
  {
    if !store.IsValid(token) {
      return Err(RevokedToken);
    }
    var decoded := jwt.decodeRefresh(token);
    var check := CheckRefresh(true, decoded, users.users);
    if check.Err? {
      return Err(check.error);
    }
    var user := check.value;
    store.RevokeToken(token);
    var response := Tokens(jwt, PayloadOf(user));
    store.StoreToken(response.refreshToken, user.id);
    return Ok(response);
  }

  /** `logout`: once the access token names an active user, the presented
      refresh token is revoked, whichever user it belongs to. */
  method Logout(accessToken: string, refreshToken: string, users: UserStore, store: RefreshTokenStore, jwt: Jwt)
    returns (r: Result<string, HttpError>)
    modifies store
    ensures GetCurrentUser(accessToken, jwt.decodeAccess, users.users).Err? ==>
              r == Err(GetCurrentUser(accessToken, jwt.decodeAccess, users.users).error)
              && store.tokens == old(store.tokens)
    ensures GetCurrentUser(accessToken, jwt.decodeAccess, users.users).Ok? ==>
              r == Ok("Successfully logged out") && store.tokens == old(store.tokens) - {refreshToken}
  {
    var current := GetCurrentUser(accessToken, jwt.decodeAccess, users.users);
    if current.Err? {
      return Err(current.error);
    }
    store.RevokeToken(refreshToken);
    return Ok("Successfully logged out");
  }

  /** `get_current_user_info`: the user the dependency authenticated, which is
      always an active one. */
  function GetCurrentUserInfo(accessToken: string, jwt: Jwt, users: map<string, StoredUser>)
    : (r: Result<UserAuth, HttpError>)
    ensures r == GetCurrentUser(accessToken, jwt.decodeAccess, users)
    ensures r.Ok? ==> r.value.isActive
  {
    GetCurrentUser(accessToken, jwt.decodeAccess, users)
  }

  /** `get_demo_users`: the published credentials, one per seeded demo user. */
  function GetDemoUsers(): (r: seq<DemoCredential>)
    ensures |r| == |DemoUsers|
    ensures forall i :: 0 <= i < |r| ==>
              r[i].email == DemoUsers[i].email && r[i].password == DemoUsers[i].password && r[i].role == DemoUsers[i].role
  {
    [DemoCredential("admin@example.com", "admin123", "admin"),
     DemoCredential("user@example.com", "user123", "user"),
     DemoCredential("viewer@example.com", "viewer123", "viewer")]
  }

  /** Each published demo credential logs in to a freshly seeded store, as
      the user with the published role, provided the password check accepts
      a password against its own hash. */
  lemma DemoCredentialsLogIn(hash: string -> string, verify: (string, string) -> bool, i: nat)
    requires i < |DemoUsers|
    requires verify(GetDemoUsers()[i].password, hash(GetDemoUsers()[i].password))
    ensures GetDemoUsers()[i].email in SeedUpTo(hash, 3)
    ensures CheckLogin(Some(SeedUpTo(hash, 3)[GetDemoUsers()[i].email]), GetDemoUsers()[i].password, verify).Ok?
    ensures CheckLogin(Some(SeedUpTo(hash, 3)[GetDemoUsers()[i].email]), GetDemoUsers()[i].password, verify).value.role
              == GetDemoUsers()[i].role
  {
    SeedContents(hash);
  }
}
