/**
 * JSON web tokens as the server issues and checks them
 * (internal/auth/token_helpers.go, and the jwt.Parse calls of
 * internal/auth/auth_helpers.go). A token's wire form (base64url, JSON) and
 * its HMAC-SHA-256 signature (RFC 7519, RFC 7518 section 3.2) are abstract:
 * the caller supplies the decoding of a token string, and a decoded token
 * records its signing method and whether its signature verifies under the
 * server's secret. Instants are Unix nanoseconds; "exp" is whole seconds.
 */
module Tokens {
  import opened Wrappers
  import opened Text
  import opened Access

  const NanosPerSecond: int := 1_000_000_000
  /** time.Hour in nanoseconds. */
  const Hour: int := 3_600_000_000_000

  /** The signing method a token's header names: one of the HMAC family, or anything else ("none", RS256, ...). */
  datatype SigningMethod = Hmac | NotHmac(alg: string)

  datatype Token = Token(signing: SigningMethod, claims: Claims, signatureValid: bool)

  /** The wire decoding of a token string: None when it is not three well-formed segments. */
  type TokenDecoder = string -> Option<Token>

  /** Why jwt.Parse refused a token. */
  datatype ParseError =
    | Malformed
    | UnexpectedSigningMethod(alg: string)
    | KeyTypeInvalid
    | SignatureInvalid
    | BadExpiry
    | Expired
    | BadNotBefore
    | NotValidYet

  /**
   * Whether a token whose "exp" is Unix second exp is still live at now.
   * jwt v5 reads a numeric date of 0 as no date at all (parseNumericDate),
   * so an "exp" of 0 never expires.
   */
  predicate Unexpired(exp: int, now: int)
  {
    exp == 0 || now < exp * NanosPerSecond
  }

  /**
   * The claims checks of jwt v5 on claims decoded from JSON: "exp", when
   * present, must be a number and the token unexpired; "nbf", when present,
   * a number that is 0 (read as absent) or not after now.
   */
  function ValidateClaims(c: Claims, now: int): (r: Option<ParseError>)
    ensures r.None? <==>
      && ("exp" in c ==> c["exp"].JNumber? && Unexpired(c["exp"].n, now))
      && ("nbf" in c ==> c["nbf"].JNumber? && (c["nbf"].n == 0 || now >= c["nbf"].n * NanosPerSecond))
  {
    if "exp" in c && !c["exp"].JNumber? then Some(BadExpiry)
    else if "exp" in c && c["exp"].n != 0 && !(now < c["exp"].n * NanosPerSecond) then Some(Expired)
    else if "nbf" in c && !c["nbf"].JNumber? then Some(BadNotBefore)
    else if "nbf" in c && c["nbf"].n != 0 && now < c["nbf"].n * NanosPerSecond then Some(NotValidYet)
    else None
  }

  /** A numeric "exp" or "nbf" of 0 is checked exactly as if the claim were missing. */
  lemma {:induction false} ZeroDateIsAbsent(c: Claims, now: int)
    ensures ValidateClaims(c["exp" := JNumber(0)], now) == ValidateClaims(c - {"exp"}, now)
    ensures ValidateClaims(c["nbf" := JNumber(0)], now) == ValidateClaims(c - {"nbf"}, now)
  {
  }

  /**
   * jwt.Parse with a key function returning the server secret as bytes;
   * checkMethod adds the key function's refusal of non-HMAC methods. A
   * non-HMAC token cannot verify under a byte-slice key in any case.
   */
  function Parse(decoded: Option<Token>, checkMethod: bool, now: int): (r: Result<Claims, ParseError>)
    ensures r.Success? <==>
      && decoded.Some? && decoded.value.signing == Hmac && decoded.value.signatureValid
      && ValidateClaims(decoded.value.claims, now).None?
    ensures r.Success? ==> r.value == decoded.value.claims
  {
    match decoded
    case None => Failure(Malformed)
    case Some(t) =>
      if checkMethod && t.signing.NotHmac? then Failure(UnexpectedSigningMethod(t.signing.alg))
      else if t.signing.NotHmac? then Failure(KeyTypeInvalid)
      else if !t.signatureValid then Failure(SignatureInvalid)
      else match ValidateClaims(t.claims, now)
        case Some(e) => Failure(e)
        case None => Success(t.claims)
  }

  // ---------------------------------------------------------------------
  // GenerateTokens
  // ---------------------------------------------------------------------

  /** TokenParameters: expiry is a time.Duration, nanoseconds. */
  datatype TokenParameters = TokenParameters(userId: string, expiry: int, folderId: string, access: string)

  /** The claims of an issued token expiring at Unix second exp. */
  function ClaimsFor(p: TokenParameters, exp: int): (c: Claims)
    ensures WellFormed(c)
    ensures ClaimString(c, "user_id") == Some(p.userId)
    ensures ClaimString(c, "folder_id") == Some(p.folderId)
    ensures ClaimString(c, "access") == Some(p.access)
    ensures "exp" in c && c["exp"] == JNumber(exp) && "nbf" !in c
  {
    map["user_id" := JString(p.userId), "folder_id" := JString(p.folderId),
        "access" := JString(p.access), "exp" := JNumber(exp)]
  }

  /**
   * The "exp" GenerateTokens writes, as written: time.Now().Add(expiry *
   * time.Hour).Unix(). The product of two Durations is an int64 product and
   * wraps; Unix() rounds towards the past.
   */
  function ExpiryAsWritten(now: int, expiry: int): (exp: int)
    ensures exp * NanosPerSecond <= now + Wrap64(expiry * Hour) < (exp + 1) * NanosPerSecond
  {
    (now + Wrap64(expiry * Hour)) / NanosPerSecond
  }

  /** The "exp" intended: now plus the duration itself, already in nanoseconds. */
  function Expiry(now: int, expiry: int): (exp: int)
    ensures exp * NanosPerSecond <= now + expiry < (exp + 1) * NanosPerSecond
  {
    (now + expiry) / NanosPerSecond
  }

  /** An HS256 token signed with the server secret. */
  function Signed(c: Claims): (t: Token)
    ensures t.signing == Hmac && t.signatureValid && t.claims == c
  {
    Token(Hmac, c, true)
  }

  /** GenerateTokens as written: access and refresh tokens from their parameters. */
  function GenerateTokensAsWritten(access: TokenParameters, refresh: TokenParameters, now: int): (r: (Token, Token))
    ensures Parse(Some(r.0), true, now).Success? <==> Unexpired(ExpiryAsWritten(now, access.expiry), now)
    ensures Parse(Some(r.1), true, now).Success? <==> Unexpired(ExpiryAsWritten(now, refresh.expiry), now)
    ensures ClaimString(r.0.claims, "folder_id") == Some(access.folderId)
    ensures ClaimString(r.0.claims, "access") == Some(access.access)
    ensures ClaimString(r.1.claims, "folder_id") == Some(refresh.folderId)
    ensures ClaimString(r.1.claims, "access") == Some(refresh.access)
  {
    (Signed(ClaimsFor(access, ExpiryAsWritten(now, access.expiry))),
     Signed(ClaimsFor(refresh, ExpiryAsWritten(now, refresh.expiry))))
  }

  /** GenerateTokens with the expiry read as the duration it is. */
  function GenerateTokens(access: TokenParameters, refresh: TokenParameters, now: int): (r: (Token, Token))
    ensures Parse(Some(r.0), true, now).Success? <==> Unexpired(Expiry(now, access.expiry), now)
    ensures Parse(Some(r.1), true, now).Success? <==> Unexpired(Expiry(now, refresh.expiry), now)
    ensures ClaimString(r.0.claims, "folder_id") == Some(access.folderId)
    ensures ClaimString(r.0.claims, "access") == Some(access.access)
    ensures ClaimString(r.1.claims, "folder_id") == Some(refresh.folderId)
    ensures ClaimString(r.1.claims, "access") == Some(refresh.access)
  {
    (Signed(ClaimsFor(access, Expiry(now, access.expiry))),
     Signed(ClaimsFor(refresh, Expiry(now, refresh.expiry))))
  }

  // ---------------------------------------------------------------------
  // DecodeToken
  // ---------------------------------------------------------------------

  /** time.Duration arithmetic saturates at the ends of int64 (Time.Sub). */
  function Saturate64(x: int): (d: int)
    ensures MinInt64 <= d <= MaxInt64
    ensures MinInt64 <= x <= MaxInt64 ==> d == x
    ensures x > MaxInt64 ==> d == MaxInt64
    ensures x < MinInt64 ==> d == MinInt64
  {
    if x > MaxInt64 then MaxInt64 else if x < MinInt64 then MinInt64 else x
  }

  /** A string claim, or "" when it is missing or not a string. */
  function StringOrEmpty(c: Claims, name: string): (s: string)
    ensures ClaimString(c, name).Some? ==> s == c[name].s
    ensures ClaimString(c, name).None? ==> s == ""
  {
    match ClaimString(c, name)
    case Some(v) => v
    case None => ""
  }

  /**
   * DecodeToken: the HMAC-only parse, then the claims read leniently: a
   * missing or non-string field stays empty, and the expiry becomes the time
   * left until "exp" (zero without one). An "exp" of 0 passes the parse and
   * still gives time.Until of the epoch, which is negative after 1970.
   */
  function DecodeToken(decoded: Option<Token>, now: int): (r: Result<TokenParameters, ParseError>)
    ensures r.Success? <==> Parse(decoded, true, now).Success?
    ensures r.Failure? ==> r.error == Parse(decoded, true, now).error
    ensures r.Success? ==>
      var c := decoded.value.claims;
      && r.value.userId == StringOrEmpty(c, "user_id")
      && r.value.folderId == StringOrEmpty(c, "folder_id")
      && r.value.access == StringOrEmpty(c, "access")
      && ("exp" in c ==> r.value.expiry == Saturate64(c["exp"].n * NanosPerSecond - now))
      && ("exp" in c && c["exp"].n != 0 ==> r.value.expiry > 0)
      && ("exp" !in c ==> r.value.expiry == 0)
  {
    match Parse(decoded, true, now)
    case Failure(e) => Failure(e)
    case Success(c) =>
      var expiry := if "exp" in c && c["exp"].JNumber? then Saturate64(c["exp"].n * NanosPerSecond - now) else 0;
      Success(TokenParameters(StringOrEmpty(c, "user_id"), expiry,
                              StringOrEmpty(c, "folder_id"), StringOrEmpty(c, "access")))
  }

  // ---------------------------------------------------------------------
  // Properties
  // ---------------------------------------------------------------------

  /** The method check of AuthMiddleware changes no outcome's success: non-HMAC tokens fail either way. */
  lemma MethodCheckRedundant(decoded: Option<Token>, now: int)
    ensures Parse(decoded, true, now).Success? <==> Parse(decoded, false, now).Success?
    ensures Parse(decoded, true, now).Success? ==> Parse(decoded, true, now) == Parse(decoded, false, now)
  {
  }

  /**
   * An issued token is accepted until its expiry second, whatever its scope;
   * one whose expiry second is 0 (issued within a second of the epoch) is
   * accepted at every instant.
   */
  lemma IssuedTokenLifetime(p: TokenParameters, now: int, later: int)
    ensures var t := GenerateTokens(p, p, now).0;
      Parse(Some(t), true, later).Success? <==>
        (Expiry(now, p.expiry) != 0 ==> later < Expiry(now, p.expiry) * NanosPerSecond)
  {
  }

  /** DecodeToken reads back the scope GenerateTokens wrote, and a positive time left. */
  lemma DecodeIssued(access: TokenParameters, refresh: TokenParameters, now: int, later: int)
    requires later < Expiry(now, access.expiry) * NanosPerSecond
    ensures var r := DecodeToken(Some(GenerateTokens(access, refresh, now).0), later);
      && r.Success?
      && r.value.userId == access.userId && r.value.folderId == access.folderId && r.value.access == access.access
      && r.value.expiry > 0
  {
    var c := ClaimsFor(access, Expiry(now, access.expiry));
    assert GenerateTokens(access, refresh, now).0 == Signed(c);
    if Expiry(now, access.expiry) == 0 {
      // time.Until of the epoch, from an instant before it
      assert later < 0;
    }
  }

  /**
   * A zero expiry gives "exp" = now's second, so the token is refused at
   * once, except within the first second after the epoch, where "exp" is 0.
   */
  lemma ZeroExpiryRefused(p: TokenParameters, now: int)
    requires p.expiry == 0
    ensures Parse(Some(GenerateTokensAsWritten(p, p, now).0), true, now).Success? <==> 0 <= now < NanosPerSecond
    ensures Parse(Some(GenerateTokens(p, p, now).0), true, now).Success? <==> 0 <= now < NanosPerSecond
  {
    assert Wrap64(0 * Hour) == 0;
  }

  /** The hour scaling stays within int64 exactly for expiry parameters up to 2,562,047. */
  lemma HourScalingRange(expiry: nat)
    ensures expiry * Hour <= MaxInt64 <==> expiry <= 2_562_047
  {
    if expiry >= 2_562_048 {
      assert expiry * Hour >= 2_562_048 * Hour;
    }
  }

  /**
   * With the default access expiry of 15 minutes, the token GenerateTokens
   * writes has already expired when it is issued: 15m times time.Hour wraps
   * to about minus 145 years. The one exception is the second, in 2115,
   * at which the wrapped "exp" is 0: a token issued then never expires.
   */
  lemma DefaultAccessExpiryWraps(p: TokenParameters)
    requires p.expiry == 15 * 60 * NanosPerSecond
    ensures Wrap64(p.expiry * Hour) == -4_575_850_419_355_385_856
    ensures forall now :: Parse(Some(GenerateTokensAsWritten(p, p, now).0), true, now).Success? <==>
      4_575_850_419_355_385_856 <= now < 4_575_850_419_355_385_856 + NanosPerSecond
    ensures forall now, later :: 4_575_850_419_355_385_856 <= now < 4_575_850_419_355_385_856 + NanosPerSecond ==>
      Parse(Some(GenerateTokensAsWritten(p, p, now).0), true, later).Success?
  {
    WrapOf(p.expiry * Hour, -4_575_850_419_355_385_856, 175_641);
    WrappedLifetime(p, -4_575_850_419_355_385_856);
  }

  /**
   * The same for the 5-minute access token of a share link: it is accepted
   * only if issued in one second of May 2018, and then for ever.
   */
  lemma ShareAccessExpiryWraps(p: TokenParameters)
    requires p.expiry == 5 * 60 * NanosPerSecond
    ensures Wrap64(p.expiry * Hour) == -1_525_283_473_118_461_952
    ensures forall now :: Parse(Some(GenerateTokensAsWritten(p, p, now).0), true, now).Success? <==>
      1_525_283_473_118_461_952 <= now < 1_525_283_473_118_461_952 + NanosPerSecond
    ensures forall now, later :: 1_525_283_473_118_461_952 <= now < 1_525_283_473_118_461_952 + NanosPerSecond ==>
      Parse(Some(GenerateTokensAsWritten(p, p, now).0), true, later).Success?
  {
    WrapOf(p.expiry * Hour, -1_525_283_473_118_461_952, 58_547);
    WrappedLifetime(p, -1_525_283_473_118_461_952);
  }

  /**
   * When the scaled expiry wraps to a negative w, the token is live at its
   * issue exactly when its "exp" is 0, and such a token stays live.
   */
  lemma WrappedLifetime(p: TokenParameters, w: int)
    requires w < 0 && Wrap64(p.expiry * Hour) == w
    ensures forall now :: Parse(Some(GenerateTokensAsWritten(p, p, now).0), true, now).Success? <==>
      -w <= now < -w + NanosPerSecond
    ensures forall now, later :: -w <= now < -w + NanosPerSecond ==>
      Parse(Some(GenerateTokensAsWritten(p, p, now).0), true, later).Success?
  {
    forall now
      ensures Parse(Some(GenerateTokensAsWritten(p, p, now).0), true, now).Success? <==>
        -w <= now < -w + NanosPerSecond
    {
      var e := ExpiryAsWritten(now, p.expiry);
      assert e == 0 <==> -w <= now < -w + NanosPerSecond;
    }
    forall now, later | -w <= now < -w + NanosPerSecond
      ensures Parse(Some(GenerateTokensAsWritten(p, p, now).0), true, later).Success?
    {
      var e := ExpiryAsWritten(now, p.expiry);
      assert e == 0;
      assert GenerateTokensAsWritten(p, p, now).0 == Signed(ClaimsFor(p, 0));
    }
  }

  /** Wrap64 of x is w when x - w is k multiples of 2^64 and w fits. */
  lemma WrapOf(x: int, w: int, k: int)
    requires MinInt64 <= w <= MaxInt64 && x == w + k * (2 * TwoTo63)
    ensures Wrap64(x) == w
  {
    var y := Wrap64(x);
    assert (y - x) % (2 * TwoTo63) == 0;
    assert (y - w) % (2 * TwoTo63) == 0 by {
      assert y - w == (y - x) + k * (2 * TwoTo63);
    }
  }
}
