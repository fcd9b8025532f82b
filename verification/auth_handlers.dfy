/**
 * The authentication endpoints and gates (internal/auth/auth_handler.go,
 * auth_helpers.go, token_helpers.go) as functions of the request, the
 * credential tables and the instant now. A request body is given already
 * decoded (None when it is not valid JSON); a refresh cookie is given as the
 * token decoding reads its value. The handlers are built on the corrected
 * halves of two defects: tokens are issued by the corrected GenerateTokens,
 * and the sharing gateway checks the cookie with the corrected
 * CookieHasAccess. The as-written halves stand beside them.
 */
module AuthHandlers {
  import opened Wrappers
  import opened Text
  import opened Digests
  import opened Access
  import opened Tokens
  import opened Stores
  import opened Http

  /** The server's configured token lifetimes, time.Durations in nanoseconds. */
  datatype JwtConfig = JwtConfig(accessExpiry: int, refreshExpiry: int)

  /** ACCESS_TOKEN_EXP and REFRESH_TOKEN_EXP when the environment leaves them unset: 15m and 720h. */
  const DefaultConfig := JwtConfig(15 * 60 * NanosPerSecond, 720 * Hour)

  /** The lifetime of the access token a share link hands out: 5 minutes. */
  const ShareAccessExpiry: int := 5 * 60 * NanosPerSecond

  datatype Credentials = Credentials(username: string, password: string)
  datatype SharingCredentials = SharingCredentials(linkUrl: string, otp: string)

  /** The refresh_token cookie of a request: absent, or its value as the token decoding reads it. */
  datatype RefreshCookie = NoCookie | Cookie(decoded: Option<Token>)

  /** A Set-Cookie for refresh_token: value None is the empty value. */
  datatype SetCookie = SetCookie(value: Option<Token>, expires: int)

  /**
   * A handler's outcome: a refusal, or the JSON reply (access token, and the
   * folder id for a share) with the refresh cookie it sets, if any.
   */
  datatype Reply =
    | Refused(rejection: Rejection)
    | Issued(accessToken: Option<Token>, folderId: Option<string>, cookie: Option<SetCookie>)

  // ---------------------------------------------------------------------
  // Credentials
  // ---------------------------------------------------------------------

  /** Authenticate: the lookup's "user not found", or "invalid credentials" on a hash mismatch. */
  function Authenticate(users: UserTable, sha256: Sha256, creds: Credentials): (r: Result<User, string>)
    ensures r.Success? <==>
      creds.username in users
      && HashPassword(sha256, creds.password, users[creds.username].salt) == users[creds.username].passwordHash
    ensures r.Success? ==> r.value == users[creds.username]
    ensures r.Failure? ==> r.error == (if creds.username in users then "invalid credentials" else "user not found")
  {
    match GetUserByUsername(users, creds.username)
    case Failure(_) => Failure("user not found")
    case Success(user) =>
      if HashPassword(sha256, creds.password, user.salt) != user.passwordHash then Failure("invalid credentials")
      else Success(user)
  }

  /**
   * AuthenticateSharing, whose body is not part of this model: the link's
   * row, checked against the one-time password the way Authenticate checks
   * a password, with the messages the gateway's callers expect.
   */
  function AuthenticateSharing(shares: SharingTable, sha256: Sha256, creds: SharingCredentials): (r: Result<SharingUser, string>)
    ensures r.Success? <==>
      creds.linkUrl in shares
      && HashPassword(sha256, creds.otp, shares[creds.linkUrl].salt) == shares[creds.linkUrl].otpHash
    ensures r.Success? ==> r.value == shares[creds.linkUrl]
    ensures r.Failure? ==> r.error == (if creds.linkUrl in shares then "invalid credentials" else "user not found")
  {
    match GetSharingUser(shares, creds.linkUrl)
    case Failure(_) => Failure("user not found")
    case Success(share) =>
      if HashPassword(sha256, creds.otp, share.salt) != share.otpHash then Failure("invalid credentials")
      else Success(share)
  }

  // ---------------------------------------------------------------------
  // Gates
  // ---------------------------------------------------------------------

  /**
   * AuthMiddleware on the Authorization header ("" when absent): the claims
   * handed to the next handler, or the 401 it writes.
   */
  function AuthMiddleware(header: string, decode: TokenDecoder, now: int): (r: Result<Claims, Rejection>)
    ensures header == "" ==> r == Failure(Rejection(Unauthorized, "Missing token"))
    ensures header != "" && BearerToken(header).None? ==>
      r == Failure(Rejection(Unauthorized, "Invalid authorization header"))
    ensures r.Success? <==>
      header != "" && BearerToken(header).Some? && Parse(decode(BearerToken(header).value), true, now).Success?
    ensures r.Success? ==> r.value == decode(BearerToken(header).value).value.claims
    ensures r.Failure? ==> r.error.status == Unauthorized
  {
    if header == "" then Failure(Rejection(Unauthorized, "Missing token"))
    else match BearerToken(header)
      case None => Failure(Rejection(Unauthorized, "Invalid authorization header"))
      case Some(token) =>
        match Parse(decode(token), true, now)
        case Failure(_) => Failure(Rejection(Unauthorized, "Unauthorized"))
        case Success(c) => Success(c)
  }

  /** RefreshAuthMiddleware: the refresh cookie, parsed without the method check. */
  function RefreshAuthMiddleware(cookie: RefreshCookie, now: int): (r: Result<Claims, Rejection>)
    ensures cookie.NoCookie? ==> r == Failure(Rejection(Unauthorized, "Unauthorized: No refresh token provided"))
    ensures r.Success? <==> cookie.Cookie? && Parse(cookie.decoded, false, now).Success?
    ensures r.Success? ==> r.value == cookie.decoded.value.claims
    ensures r.Failure? ==> r.error.status == Unauthorized
  {
    match cookie
    case NoCookie => Failure(Rejection(Unauthorized, "Unauthorized: No refresh token provided"))
    case Cookie(decoded) =>
      match Parse(decoded, false, now)
      case Failure(_) => Failure(Rejection(Unauthorized, "Unauthorized: Invalid refresh token"))
      case Success(c) => Success(c)
  }

  /**
   * CookieHasAccess as written: the claims' own folder_id and access replace
   * the arguments before HasAccess is asked, so it only asks whether the
   * cookie grants its own folder at its own level.
   */
  function CookieHasAccessAsWritten(cookie: RefreshCookie, folderId: string, access: string, now: int): (b: bool)
    ensures b <==>
      && cookie.Cookie? && Parse(cookie.decoded, false, now).Success?
      && var c := cookie.decoded.value.claims;
         WellFormed(c) && Allowed(c, c["folder_id"].s, c["access"].s)
  {
    match cookie
    case NoCookie => false
    case Cookie(decoded) =>
      match Parse(decoded, false, now)
      case Failure(_) => false
      case Success(c) =>
        if !WellFormed(c) then false
        else Allowed(c, ClaimString(c, "folder_id").value, ClaimString(c, "access").value)
  }

  /** CookieHasAccess as intended: the cookie grants the folder and level asked about. */
  function CookieHasAccess(cookie: RefreshCookie, folderId: string, access: string, now: int): (b: bool)
    ensures b <==>
      && cookie.Cookie? && Parse(cookie.decoded, false, now).Success?
      && WellFormed(cookie.decoded.value.claims) && Allowed(cookie.decoded.value.claims, folderId, access)
  {
    match cookie
    case NoCookie => false
    case Cookie(decoded) =>
      match Parse(decoded, false, now)
      case Failure(_) => false
      case Success(c) => WellFormed(c) && Allowed(c, folderId, access)
  }

  // ---------------------------------------------------------------------
  // Handlers
  // ---------------------------------------------------------------------

  /** LoginHandler: both tokens for the user, scoped to every folder with rw. */
  function Login(users: UserTable, sha256: Sha256, body: Option<Credentials>, cfg: JwtConfig, now: int): (r: Reply)
    ensures body.None? ==> r == Refused(Rejection(BadRequest, "Invalid request payload"))
    ensures body.Some? && Authenticate(users, sha256, body.value).Failure? ==>
      r == Refused(Rejection(Forbidden, "Forbidden: " + Authenticate(users, sha256, body.value).error))
    ensures r.Issued? <==> body.Some? && Authenticate(users, sha256, body.value).Success?
    ensures r.Issued? ==>
      && r.accessToken.Some? && r.folderId.None? && r.cookie.Some? && r.cookie.value.value.Some?
      && r.cookie.value.expires == now + cfg.refreshExpiry
      && var a, rt := r.accessToken.value, r.cookie.value.value.value;
         && ClaimString(a.claims, "user_id") == Some(body.value.username)
         && ClaimString(rt.claims, "user_id") == Some(body.value.username)
         && ClaimString(a.claims, "folder_id") == Some("/") && ClaimString(a.claims, "access") == Some("rw")
         && ClaimString(rt.claims, "folder_id") == Some("/") && ClaimString(rt.claims, "access") == Some("rw")
         && (Parse(Some(a), true, now).Success? <==> Unexpired(Expiry(now, cfg.accessExpiry), now))
         && (Parse(Some(rt), true, now).Success? <==> Unexpired(Expiry(now, cfg.refreshExpiry), now))
  {
    match body
    case None => Refused(Rejection(BadRequest, "Invalid request payload"))
    case Some(creds) =>
      match Authenticate(users, sha256, creds)
      case Failure(e) => Refused(Rejection(Forbidden, "Forbidden: " + e))
      case Success(_) =>
        var access := TokenParameters(creds.username, cfg.accessExpiry, "/", "rw");
        var refresh := TokenParameters(creds.username, cfg.refreshExpiry, "/", "rw");
        var tokens := GenerateTokens(access, refresh, now);
        Issued(Some(tokens.0), None, Some(SetCookie(Some(tokens.1), now + cfg.refreshExpiry)))
  }

  /** RefreshHandler: a new access token with exactly the refresh token's user, folder and level. */
  function Refresh(cookie: RefreshCookie, cfg: JwtConfig, now: int): (r: Reply)
    ensures cookie.NoCookie? ==> r == Refused(Rejection(Unauthorized, "Unauthorized: No refresh token provided"))
    ensures cookie.Cookie? && Parse(cookie.decoded, false, now).Failure? ==>
      r == Refused(Rejection(Unauthorized, "Unauthorized: Invalid refresh token"))
    ensures cookie.Cookie? && Parse(cookie.decoded, false, now).Success? && !WellFormed(cookie.decoded.value.claims) ==>
      r == Refused(Rejection(Unauthorized, "Unauthorized: Malformed token"))
    ensures r.Issued? <==>
      cookie.Cookie? && Parse(cookie.decoded, false, now).Success? && WellFormed(cookie.decoded.value.claims)
    ensures r.Issued? ==>
      && r.accessToken.Some? && r.folderId.None? && r.cookie.None?
      && var c, a := cookie.decoded.value.claims, r.accessToken.value.claims;
         && ClaimString(a, "user_id") == ClaimString(c, "user_id")
         && ClaimString(a, "folder_id") == ClaimString(c, "folder_id")
         && ClaimString(a, "access") == ClaimString(c, "access")
  {
    match cookie
    case NoCookie => Refused(Rejection(Unauthorized, "Unauthorized: No refresh token provided"))
    case Cookie(decoded) =>
      match Parse(decoded, false, now)
      case Failure(_) => Refused(Rejection(Unauthorized, "Unauthorized: Invalid refresh token"))
      case Success(c) =>
        if !WellFormed(c) then Refused(Rejection(Unauthorized, "Unauthorized: Malformed token"))
        else
          var p := TokenParameters(ClaimString(c, "user_id").value, cfg.accessExpiry,
                                   ClaimString(c, "folder_id").value, ClaimString(c, "access").value);
          Issued(Some(GenerateTokens(p, p, now).0), None, None)
  }

  /** LogoutHandler: an empty access token and an empty refresh cookie expiring at the epoch. */
  function Logout(): (r: Reply)
    ensures r.Issued? && r.accessToken.None? && r.folderId.None?
    ensures r.cookie.Some? && r.cookie.value.value.None? && r.cookie.value.expires <= 0
  {
    Issued(None, None, Some(SetCookie(None, 0)))
  }

  /**
   * SharingGatewayHandler: a share's link and one-time password buy a
   * 5-minute access token and a refresh token lasting until the share
   * expires, both scoped to the share's folder and level. The refresh cookie
   * is set only when the request's cookie does not already grant that.
   */
  function SharingGateway(shares: SharingTable, sha256: Sha256, body: Option<SharingCredentials>,
                          cookie: RefreshCookie, now: int): (r: Reply)
    ensures body.None? ==> r == Refused(Rejection(BadRequest, "Invalid request payload"))
    ensures body.Some? && AuthenticateSharing(shares, sha256, body.value).Failure? ==>
      r == Refused(Rejection(Forbidden, "Forbidden: " + AuthenticateSharing(shares, sha256, body.value).error))
    ensures body.Some? && AuthenticateSharing(shares, sha256, body.value).Success?
            && now > shares[body.value.linkUrl].expiration ==>
      r == Refused(Rejection(Forbidden, "Token has expired"))
    ensures r.Issued? <==>
      body.Some? && AuthenticateSharing(shares, sha256, body.value).Success?
      && now <= shares[body.value.linkUrl].expiration
    ensures r.Issued? ==>
      var share := shares[body.value.linkUrl];
      && r.accessToken.Some? && r.folderId == Some(share.folderId)
      && ClaimString(r.accessToken.value.claims, "user_id") == Some(share.folderName)
      && ClaimString(r.accessToken.value.claims, "folder_id") == Some(share.folderId)
      && ClaimString(r.accessToken.value.claims, "access") == Some(share.access)
      && (r.cookie.None? <==> CookieHasAccess(cookie, share.folderId, share.access, now))
      && (r.cookie.Some? ==>
           && r.cookie.value.value.Some?
           && r.cookie.value.expires == now + Saturate64(share.expiration - now)
           && ClaimString(r.cookie.value.value.value.claims, "folder_id") == Some(share.folderId)
           && ClaimString(r.cookie.value.value.value.claims, "access") == Some(share.access))
  {
    match body
    case None => Refused(Rejection(BadRequest, "Invalid request payload"))
    case Some(creds) =>
      match AuthenticateSharing(shares, sha256, creds)
      case Failure(e) => Refused(Rejection(Forbidden, "Forbidden: " + e))
      case Success(share) =>
        if now > share.expiration then Refused(Rejection(Forbidden, "Token has expired"))
        else
          var left := Saturate64(share.expiration - now);
          var access := TokenParameters(share.folderName, ShareAccessExpiry, share.folderId, share.access);
          var refresh := TokenParameters(share.folderName, left, share.folderId, share.access);
          var tokens := GenerateTokens(access, refresh, now);
          var setCookie := if CookieHasAccess(cookie, share.folderId, share.access, now) then None
                           else Some(SetCookie(Some(tokens.1), now + left));
          Issued(Some(tokens.0), Some(share.folderId), setCookie)
  }

  // ---------------------------------------------------------------------
  // Properties
  // ---------------------------------------------------------------------

  /** The cookie a browser sends back later: none once it has expired, else its value. */
  function Resend(s: SetCookie, later: int): (c: RefreshCookie)
    ensures later >= s.expires ==> c == NoCookie
    ensures later < s.expires ==> c == Cookie(s.value)
  {
    if later >= s.expires then NoCookie else Cookie(s.value)
  }

  /** An admin created with a password can log in with it. */
  lemma AdminCanAuthenticate(users: UserTable, sha256: Sha256, saltRead: Result<SaltBytes, string>,
                             username: string, email: string, password: string)
    requires username !in users && saltRead.Success?
    ensures var (created, users') := CreateAdminUser(users, sha256, saltRead, username, email, password);
      created.Success? && Authenticate(users', sha256, Credentials(username, password)) == Success(created.value)
  {
  }

  /** A share's one-time password opens it, and that link and password alone. */
  lemma ShareCanAuthenticate(shares: SharingTable, sha256: Sha256, linkUrl: string, folderId: string,
                             folderName: string, salt: string, otp: string, access: string, expiration: int)
    requires linkUrl !in shares && ValidAccess(access)
    ensures var (created, shares') := CreateSharingUser(shares, sha256, linkUrl, folderId, folderName, salt, otp, access, expiration);
      created.Success? && AuthenticateSharing(shares', sha256, SharingCredentials(linkUrl, otp)) == Success(created.value)
  {
  }

  /**
   * The Bearer token a login returns passes AuthMiddleware until its expiry
   * second, and its claims then grant every folder at every level.
   */
  lemma LoginThenAuthorize(users: UserTable, sha256: Sha256, creds: Credentials, cfg: JwtConfig, now: int,
                           decode: TokenDecoder, scheme: string, token: string, later: int, folderId: string, level: string)
    requires Login(users, sha256, Some(creds), cfg, now).Issued?
    requires decode(token) == Login(users, sha256, Some(creds), cfg, now).accessToken
    requires IsBearer(scheme) && scheme != ""
    requires later < Expiry(now, cfg.accessExpiry) * NanosPerSecond
    requires level == "r" || level == "w" || level == "rw"
    ensures var r := AuthMiddleware(scheme + " " + token, decode, later);
      r.Success? && Allowed(r.value, folderId, level)
  {
    BearerTokenOf(scheme, token);
    var p := TokenParameters(creds.username, cfg.accessExpiry, "/", "rw");
    var q := TokenParameters(creds.username, cfg.refreshExpiry, "/", "rw");
    IssuedTokenLifetime(p, now, later);
    assert Login(users, sha256, Some(creds), cfg, now).accessToken == Some(GenerateTokens(p, q, now).0);
    assert GenerateTokens(p, q, now).0 == GenerateTokens(p, p, now).0;
  }

  /**
   * Refreshing with the cookie a login set, before it expires, yields an
   * access token with the login's scope: the user, every folder, rw.
   */
  lemma LoginThenRefresh(users: UserTable, sha256: Sha256, creds: Credentials, cfg: JwtConfig, now: int, later: int)
    requires Login(users, sha256, Some(creds), cfg, now).Issued?
    requires later < Expiry(now, cfg.refreshExpiry) * NanosPerSecond
    ensures var cookie := Login(users, sha256, Some(creds), cfg, now).cookie.value;
      var r := Refresh(Resend(cookie, later), cfg, later);
      later < cookie.expires ==>
        && r.Issued?
        && ClaimString(r.accessToken.value.claims, "user_id") == Some(creds.username)
        && ClaimString(r.accessToken.value.claims, "folder_id") == Some("/")
        && ClaimString(r.accessToken.value.claims, "access") == Some("rw")
  {
    var p := TokenParameters(creds.username, cfg.accessExpiry, "/", "rw");
    var q := TokenParameters(creds.username, cfg.refreshExpiry, "/", "rw");
    IssuedTokenLifetime(q, now, later);
    assert GenerateTokens(p, q, now).1 == GenerateTokens(q, q, now).0;
  }

  /** After a logout, whatever the browser sends back is refused by Refresh. */
  lemma LogoutEndsRefresh(cfg: JwtConfig, later: int)
    ensures Refresh(Resend(Logout().cookie.value, later), cfg, later).Refused?
  {
  }

  /**
   * Refresh never widens a token's scope: the new access token grants a
   * folder and level exactly when the refresh token did.
   */
  lemma RefreshKeepsScope(cookie: RefreshCookie, cfg: JwtConfig, now: int, folderId: string, level: string)
    requires Refresh(cookie, cfg, now).Issued?
    ensures Allowed(Refresh(cookie, cfg, now).accessToken.value.claims, folderId, level)
        <==> Allowed(cookie.decoded.value.claims, folderId, level)
  {
  }

  /**
   * CookieHasAccess as written does not depend on the folder and level it is
   * asked about.
   */
  lemma CookieArgumentsIgnored(cookie: RefreshCookie, f1: string, a1: string, f2: string, a2: string, now: int)
    ensures CookieHasAccessAsWritten(cookie, f1, a1, now) == CookieHasAccessAsWritten(cookie, f2, a2, now)
  {
  }

  /**
   * A client holding a valid refresh cookie for folder "A" with "r" is told
   * it already has access to folder "B" with "rw", so the gateway would not
   * hand it B's cookie; the intended check says it has not.
   */
  lemma CookieForOtherFolderCounted(now: int, exp: int)
    requires now < exp * NanosPerSecond
    ensures var c := map["user_id" := JString("u"), "folder_id" := JString("A"), "access" := JString("r"), "exp" := JNumber(exp)];
      var cookie := Cookie(Some(Token(Hmac, c, true)));
      CookieHasAccessAsWritten(cookie, "B", "rw", now) && !CookieHasAccess(cookie, "B", "rw", now)
  {
    var c := map["user_id" := JString("u"), "folder_id" := JString("A"), "access" := JString("r"), "exp" := JNumber(exp)];
    assert ClaimString(c, "folder_id") == Some("A") && ClaimString(c, "access") == Some("r");
    assert Grants("r", "r");
  }

  /**
   * After the gateway admits a stored share, the refresh cookie the client
   * holds (the one it sent, or the one just set) grants the share's folder
   * at the share's level.
   */
  lemma GatewayLeavesCoveringCookie(shares: SharingTable, sha256: Sha256, creds: SharingCredentials,
                                    cookie: RefreshCookie, now: int)
    requires SharingTableOk(shares)
    requires SharingGateway(shares, sha256, Some(creds), cookie, now).Issued?
    ensures var r := SharingGateway(shares, sha256, Some(creds), cookie, now);
      var share := shares[creds.linkUrl];
      if r.cookie.Some? then Allowed(r.cookie.value.value.value.claims, share.folderId, share.access)
      else Allowed(cookie.decoded.value.claims, share.folderId, share.access)
  {
  }
}
