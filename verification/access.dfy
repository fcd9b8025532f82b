/**
 * Token claims and the folder/level rule every handler applies
 * (auth.HasAccess), and the Authorization header that carries the access
 * token (internal/auth/auth_helpers.go).
 *
 * HasAccess's own body is not part of this model: the rule below is
 * reconstructed from what its callers' tests expect. A claim for folder "/"
 * covers every folder; any other claim covers only the folder it names; the
 * level "rw" satisfies every requirement, "r" and "w" only themselves.
 */
module Access {
  import opened Wrappers
  import opened Text

  /** A JSON value in a token's claims: numbers are whole (Unix seconds). */
  datatype Json = JString(s: string) | JNumber(n: int) | JOther

  /** jwt.MapClaims. */
  type Claims = map<string, Json>

  /** The string held under a claim name, if the claim is a string. */
  function ClaimString(c: Claims, name: string): (r: Option<string>)
    ensures r.Some? <==> name in c && c[name].JString?
    ensures r.Some? ==> r.value == c[name].s
  {
    if name in c && c[name].JString? then Some(c[name].s) else None
  }

  /** The claims a handler relies on: user, folder and level, all strings. */
  predicate WellFormed(c: Claims) {
    ClaimString(c, "user_id").Some? && ClaimString(c, "folder_id").Some? && ClaimString(c, "access").Some?
  }

  /** A level held satisfies a level required: "rw" both, "r" and "w" only themselves. */
  predicate Grants(held: string, required: string) {
    if required == "r" then held == "r" || held == "rw"
    else if required == "w" then held == "w" || held == "rw"
    else if required == "rw" then held == "rw"
    else false
  }

  /** Why HasAccess could not decide: a claim it needs is missing or not a string. */
  datatype AccessError = MissingFolderClaim | MissingAccessClaim

  /** auth.HasAccess(claims, folderId, required). */
  function HasAccess(c: Claims, folderId: string, required: string): (r: Result<bool, AccessError>)
    ensures r.Failure? <==> ClaimString(c, "folder_id").None? || ClaimString(c, "access").None?
    ensures r == Success(true) <==>
      && ClaimString(c, "folder_id").Some? && ClaimString(c, "access").Some?
      && (c["folder_id"].s == "/" || c["folder_id"].s == folderId)
      && Grants(c["access"].s, required)
  {
    match ClaimString(c, "folder_id")
    case None => Failure(MissingFolderClaim)
    case Some(folder) =>
      match ClaimString(c, "access")
      case None => Failure(MissingAccessClaim)
      case Some(held) => Success((folder == "/" || folder == folderId) && Grants(held, required))
  }

  /** What the handlers do with HasAccess: an error counts as a refusal. */
  predicate Allowed(c: Claims, folderId: string, required: string) {
    HasAccess(c, folderId, required) == Success(true)
  }

  // ---------------------------------------------------------------------
  // Authorization: Bearer <token>
  // ---------------------------------------------------------------------

  /**
   * strings.SplitN(header, " ", 2) followed by the length check: the text
   * before the first space and the rest, or None when there is no space.
   */
  function SplitAtSpace(header: string): (r: Option<(string, string)>)
    ensures r.None? <==> ' ' !in header
    ensures r.Some? ==> header == r.value.0 + " " + r.value.1 && ' ' !in r.value.0
  {
    if ' ' !in header then None
    else
      var i := IndexOf(header, ' ');
      assert header == header[..i] + " " + header[i + 1..];
      Some((header[..i], header[i + 1..]))
  }

  /** strings.EqualFold(word, "Bearer"): the letters of "Bearer" have no case variants outside ASCII. */
  predicate IsBearer(word: string) {
    ToLower(word) == "bearer"
  }

  /** The token text of an Authorization header, or None when the header is not "Bearer <token>". */
  function BearerToken(header: string): (r: Option<string>)
    ensures r.Some? ==> exists scheme :: IsBearer(scheme) && header == scheme + " " + r.value
  {
    match SplitAtSpace(header)
    case None => None
    case Some((scheme, token)) => if IsBearer(scheme) then Some(token) else None
  }

  // ---------------------------------------------------------------------
  // Properties
  // ---------------------------------------------------------------------

  /** A root claim reaches every folder at exactly the level it holds. */
  lemma RootReachesEveryFolder(c: Claims, folderId: string, required: string)
    requires ClaimString(c, "folder_id") == Some("/") && ClaimString(c, "access").Some?
    ensures HasAccess(c, folderId, required) == Success(Grants(c["access"].s, required))
  {
  }

  /** A claim for one folder is refused on every other folder, whatever its level. */
  lemma OtherFolderRefused(c: Claims, folderId: string, required: string)
    requires ClaimString(c, "folder_id").Some? && ClaimString(c, "access").Some?
    requires c["folder_id"].s != "/" && c["folder_id"].s != folderId
    ensures HasAccess(c, folderId, required) == Success(false)
  {
  }

  /** "r" does not give "w", "w" does not give "r", "rw" gives both; nothing else gives either. */
  lemma LevelLattice(held: string)
    ensures !Grants("r", "w") && !Grants("w", "r")
    ensures Grants("rw", "r") && Grants("rw", "w") && Grants("rw", "rw")
    ensures Grants(held, "rw") <==> Grants(held, "r") && Grants(held, "w")
    ensures Grants(held, "r") || Grants(held, "w") <==> held in {"r", "w", "rw"}
  {
  }

  /** A header with a case-insensitive "Bearer", one space and the token yields that token. */
  lemma BearerTokenOf(scheme: string, token: string)
    requires IsBearer(scheme)
    ensures BearerToken(scheme + " " + token) == Some(token)
  {
    var header := scheme + " " + token;
    assert ' ' !in scheme by {
      forall k | 0 <= k < |scheme|
        ensures scheme[k] != ' '
      {
        assert ToLower(scheme)[k] == ToLowerChar(scheme[k]);
      }
    }
    assert header[|scheme|] == ' ' && header[..|scheme|] == scheme;
    IndexOfUnique(header, ' ', |scheme|);
    assert header[|scheme| + 1..] == token;
  }
}
