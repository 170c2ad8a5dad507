/** The request-level credential checks: the current user behind a bearer
    access token, the same check made optional, and the active-user guard.
    Decoding a token is a parameter; the user store is read, never changed. */
module AuthDeps {
  import opened Common
  import opened Text
  import opened Accounts

  /** The claims a decoded token carries. */
  datatype TokenData = TokenData(sub: string, userId: int, role: string, kind: string)

  /** The authenticated user handed to the endpoints. */
  datatype UserAuth = UserAuth(id: int, email: string, username: string, fullName: string, role: string, isActive: bool)

  const CredentialsError := HttpError(401, "Could not validate credentials", true)
  const UnknownUserError := HttpError(401, "User not found", true)
  const InactiveError := HttpError(403, "Inactive user", false)
  const BearerPrefix := "Bearer "

  /** The fields of a stored user that the endpoints see. */
  function ToUserAuth(u: StoredUser): (a: UserAuth)
    ensures a.id == u.id && a.email == u.email && a.username == u.username
    ensures a.fullName == u.fullName && a.role == u.role && a.isActive == u.isActive
  {
    UserAuth(u.id, u.email, u.username, u.fullName, u.role, u.isActive)
  }

  /** `get_current_user`: a token that does not decode gives 401 with the
      bearer challenge, an unknown subject 401, an inactive user 403;
      otherwise the stored user's fields. */
  function GetCurrentUser(token: string, decode: string -> Option<TokenData>, users: map<string, StoredUser>)
    : (r: Result<UserAuth, HttpError>)
    ensures decode(token).None? ==> r == Err(CredentialsError)
    ensures decode(token).Some? && decode(token).value.sub !in users ==> r == Err(UnknownUserError)
    ensures (decode(token).Some? && decode(token).value.sub in users && !users[decode(token).value.sub].isActive)
              ==> r == Err(InactiveError)
    ensures r.Ok? <==> decode(token).Some? && decode(token).value.sub in users && users[decode(token).value.sub].isActive
    ensures r.Ok? ==> r.value == ToUserAuth(users[decode(token).value.sub]) && r.value.isActive
  {
    match decode(token)
    case None => Err(CredentialsError)
    case Some(data) =>
      if data.sub !in users then Err(UnknownUserError)
      else if !users[data.sub].isActive then Err(InactiveError)
      else Ok(ToUserAuth(users[data.sub]))
  }

  /** `get_current_active_user`: 403 exactly for an inactive user, otherwise
      the user unchanged. */
  function GetCurrentActiveUser(current: UserAuth): (r: Result<UserAuth, HttpError>)
    ensures r.Err? <==> !current.isActive
    ensures r.Err? ==> r.error == InactiveError
    ensures r.Ok? ==> r.value == current
  {
    if !current.isActive then Err(InactiveError) else Ok(current)
  }

  /** Stacked on `get_current_user`, the active-user guard never fires: an
      inactive user has already been refused. */
  lemma ActiveGuardIsRedundant(token: string, decode: string -> Option<TokenData>, users: map<string, StoredUser>)
    requires GetCurrentUser(token, decode, users).Ok?
    ensures GetCurrentActiveUser(GetCurrentUser(token, decode, users).value) == GetCurrentUser(token, decode, users)
  {
  }

  /** The token `get_optional_current_user` decodes: the header with every
      occurrence of the scheme prefix removed. */
  function OptionalToken(header: string): string {
    ReplaceAll(header, BearerPrefix, "")
  }

  /** `get_optional_current_user`: never fails; `None` without a header that
      starts with the bearer prefix, and otherwise whatever the strict check
      accepts for the stripped token. */
  function GetOptionalCurrentUser(header: Option<string>, decode: string -> Option<TokenData>, users: map<string, StoredUser>)
    : (r: Option<UserAuth>)
    ensures header.None? || !(BearerPrefix <= header.value) ==> r.None?
    ensures header.Some? && BearerPrefix <= header.value ==>
              (r.Some? <==> GetCurrentUser(OptionalToken(header.value), decode, users).Ok?)
    ensures r.Some? ==> Ok(r.value) == GetCurrentUser(OptionalToken(header.value), decode, users)
  {
    if header.None? || header.value == [] || !(BearerPrefix <= header.value) then None
    else
      match decode(OptionalToken(header.value))
      case None => None
      case Some(data) =>
        if data.sub !in users || !users[data.sub].isActive then None
        else Some(ToUserAuth(users[data.sub]))
  }

  /** For a header made of the prefix and a token that does not itself contain
      the prefix, the optional check decodes exactly that token, so it accepts
      the same user the strict check does. */
  lemma OptionalAgreesWithStrict(t: string, decode: string -> Option<TokenData>, users: map<string, StoredUser>)
    requires !Contains(t, BearerPrefix)
    ensures OptionalToken(BearerPrefix + t) == t
    ensures GetOptionalCurrentUser(Some(BearerPrefix + t), decode, users).Some? <==> GetCurrentUser(t, decode, users).Ok?
  {
    var h := BearerPrefix + t;
    assert BearerPrefix <= h;
    assert h[|BearerPrefix|..] == t;
    ReplaceAbsent(t, BearerPrefix, "");
  }
}
