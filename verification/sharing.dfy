/**
 * The sharing endpoints (internal/sharing/sharing_handler.go): creating a
 * share (a folder named after its expiry plus a credential row), uploading
 * into a shared folder, and listing a shared folder. Each handler is modelled
 * as the order of its checks and the effect it has once they pass. Reading
 * the JSON body, parsing the RFC 3339 expiration and the file system's
 * answers are inputs.
 */
module Sharing {
  import opened Wrappers
  import opened Text
  import opened Hex
  import opened Digests
  import opened Access
  import opened Stores
  import opened Http
  import opened Clock
  import opened Durations
  import opened SharedFolders
  import opened Jobs
  import opened Upload
  import Tokens
  import AuthHandlers

  /** The JSON body of a share request. */
  datatype SharingDetails = SharingDetails(access: string, folderName: string, otp: string, expirationDate: string)

  /** The JSON reply to a share request. */
  datatype SharingResponse = SharingResponse(linkUrl: string, folderId: string)

  /** The text a failed insert reports. */
  function StoreErrorText(e: StoreError): string {
    match e
    case UserNotFound => "user not found"
    case AccessCheckViolated => "pq: new row for relation \"sharing_users\" violates check constraint \"sharing_users_access_check\""
    case SaltFailed(msg) => msg
  }

  /** time.Now().UTC().Truncate(time.Second): the whole second at or before now. */
  function TruncateToSecond(now: int): (t: int)
    ensures t <= now < t + NanosPerSecond
    ensures t % NanosPerSecond == 0
  {
    now - now % NanosPerSecond
  }

  // ---------------------------------------------------------------------
  // SharingHandler
  // ---------------------------------------------------------------------

  /**
   * SharingHandler for the link linkUrl with the server's salt, given the
   * request's claims, the decoded body, the RFC 3339 parse of a date into
   * Unix nanoseconds, the instant now, the clock reading the folder name is
   * stamped with, whether creating the folder fails, the set of shared
   * folders and the credential table. Only an administrator (rw on "/") may
   * share; an expiration before the current second is refused; the folder is
   * created before the credential row is inserted.
   */
  function SharingHandler(verb: Verb, claims: Option<Claims>, body: Result<SharingDetails, string>,
                          parseTime: string -> Result<int, string>, now: int, clock: DateTime,
                          salt: string, linkUrl: string, sha256: Sha256, mkdirFails: bool,
                          folders: set<string>, shares: SharingTable)
    : (r: (Result<SharingResponse, Rejection>, set<string>, SharingTable))
    requires Valid(clock)
    ensures verb != Post ==> r.0 == Failure(Rejection(MethodNotAllowed, "Method not allowed"))
    ensures verb == Post && claims.None? ==> r.0 == Failure(Rejection(Unauthorized, "Invalid token claims"))
    ensures verb == Post && claims.Some? && !Allowed(claims.value, "/", "rw") ==>
      r.0 == Failure(Rejection(Forbidden, "Forbidden: insufficient permissions"))
    ensures verb == Post && claims.Some? && Allowed(claims.value, "/", "rw") && body.Failure? ==>
      r.0 == Failure(Rejection(BadRequest, "Unable to parse sharing parameters"))
    ensures verb == Post && claims.Some? && Allowed(claims.value, "/", "rw") && body.Success? ==>
      var details := body.value;
      match parseTime(details.expirationDate)
      case Failure(e) => r == (Failure(Rejection(InternalServerError, "Error parsing time: " + e)), folders, shares)
      case Success(exp) =>
        if TruncateToSecond(now) > exp then r == (Failure(Rejection(Forbidden, "Token has expired")), folders, shares)
        else r == CreateShare(details, exp, TruncateToSecond(now), clock, salt, linkUrl, sha256, mkdirFails, folders, shares)
    ensures r.0.Failure? ==> r.2 == shares
  {
    if verb != Post then (Failure(Rejection(MethodNotAllowed, "Method not allowed")), folders, shares)
    else if claims.None? then (Failure(Rejection(Unauthorized, "Invalid token claims")), folders, shares)
    else if !Allowed(claims.value, "/", "rw") then
      (Failure(Rejection(Forbidden, "Forbidden: insufficient permissions")), folders, shares)
    else if body.Failure? then (Failure(Rejection(BadRequest, "Unable to parse sharing parameters")), folders, shares)
    else
      var details := body.value;
      match parseTime(details.expirationDate)
      case Failure(e) => (Failure(Rejection(InternalServerError, "Error parsing time: " + e)), folders, shares)
      case Success(exp) =>
        var second := TruncateToSecond(now);
        if second > exp then (Failure(Rejection(Forbidden, "Token has expired")), folders, shares)
        else CreateShare(details, exp, second, clock, salt, linkUrl, sha256, mkdirFails, folders, shares)
  }

  /**
   * What SharingHandler does once the expiration is known not to be past:
   * the folder named after the time left is created, then the credential
   * row is inserted; a failed insert leaves the folder in place.
   */
  function CreateShare(details: SharingDetails, exp: int, second: int, clock: DateTime, salt: string,
                       linkUrl: string, sha256: Sha256, mkdirFails: bool, folders: set<string>, shares: SharingTable)
    : (r: (Result<SharingResponse, Rejection>, set<string>, SharingTable))
    requires Valid(clock)
    ensures var id := GenerateFolderName(clock, Tokens.Saturate64(exp - second), linkUrl);
      var (created, shares') :=
        CreateSharingUser(shares, sha256, linkUrl, id, details.folderName, salt, details.otp, details.access, exp);
      && (mkdirFails ==> r == (Failure(Rejection(InternalServerError, "Error while creating folder")), folders, shares))
      && (!mkdirFails && created.Failure? ==>
            r == (Failure(Rejection(InternalServerError, "Error while creating user: " + StoreErrorText(created.error))),
                  folders + {id}, shares))
      && (!mkdirFails && created.Success? ==> r == (Success(SharingResponse(linkUrl, id)), folders + {id}, shares'))
  {
    var id := GenerateFolderName(clock, Tokens.Saturate64(exp - second), linkUrl);
    if mkdirFails then (Failure(Rejection(InternalServerError, "Error while creating folder")), folders, shares)
    else
      var (created, shares') :=
        CreateSharingUser(shares, sha256, linkUrl, id, details.folderName, salt, details.otp, details.access, exp);
      match created
      case Failure(e) =>
        (Failure(Rejection(InternalServerError, "Error while creating user: " + StoreErrorText(e))),
         folders + {id}, shares)
      case Success(_) => (Success(SharingResponse(linkUrl, id)), folders + {id}, shares')
  }

  /**
   * A share under a fresh link can be entered with its one-time password
   * until its expiration: the gateway issues an access token for exactly the
   * folder the share reply named, at the level requested, and refuses it
   * afterwards.
   */
  lemma ShareThenGateway(claims: Claims, details: SharingDetails, parseTime: string -> Result<int, string>,
                         now: int, clock: DateTime, salt: string, linkUrl: string, sha256: Sha256,
                         folders: set<string>, shares: SharingTable, cookie: AuthHandlers.RefreshCookie, later: int)
    requires Valid(clock) && linkUrl !in shares
    requires SharingHandler(Post, Some(claims), Success(details), parseTime, now, clock, salt, linkUrl, sha256,
                            false, folders, shares).0.Success?
    ensures var (r, _, shares') := SharingHandler(Post, Some(claims), Success(details), parseTime, now, clock,
                                                  salt, linkUrl, sha256, false, folders, shares);
      var exp := parseTime(details.expirationDate).value;
      var reply := AuthHandlers.SharingGateway(shares', sha256, Some(AuthHandlers.SharingCredentials(linkUrl, details.otp)),
                                               cookie, later);
      && (later <= exp ==>
            && reply.Issued?
            && reply.folderId == Some(r.value.folderId)
            && ClaimString(reply.accessToken.value.claims, "folder_id") == Some(r.value.folderId)
            && ClaimString(reply.accessToken.value.claims, "access") == Some(details.access))
      && (later > exp ==> reply == AuthHandlers.Refused(Rejection(Forbidden, "Token has expired")))
  {
    assert parseTime(details.expirationDate).Success? && Allowed(claims, "/", "rw");
    HandlerCreates(claims, details, parseTime, now, clock, salt, linkUrl, sha256, false, folders, shares);
  }

  /**
   * The folder is made before the row is inserted: when the insert fails the
   * folder stays behind with no credential that reaches it.
   */
  lemma FolderOutlivesFailedInsert(claims: Claims, details: SharingDetails, parseTime: string -> Result<int, string>,
                                   now: int, clock: DateTime, salt: string, linkUrl: string, sha256: Sha256,
                                   folders: set<string>, shares: SharingTable)
    requires Valid(clock) && Allowed(claims, "/", "rw")
    requires parseTime(details.expirationDate).Success?
    requires TruncateToSecond(now) <= parseTime(details.expirationDate).value
    requires !ValidAccess(details.access)
    ensures var r := SharingHandler(Post, Some(claims), Success(details), parseTime, now,
                                    clock, salt, linkUrl, sha256, false, folders, shares);
      var exp := parseTime(details.expirationDate).value;
      && r.0.Failure? && r.0.error.status == InternalServerError
      && r.1 == folders + {GenerateFolderName(clock, Tokens.Saturate64(exp - TruncateToSecond(now)), linkUrl)}
      && r.2 == shares
  {
    var exp := parseTime(details.expirationDate).value;
    HandlerCreates(claims, details, parseTime, now, clock, salt, linkUrl, sha256, false, folders, shares);
    FailedInsertKeepsFolder(details, exp, TruncateToSecond(now), clock, salt, linkUrl, sha256, folders, shares);
  }

  /**
   * A share is created exactly when every check passes: an administrator
   * posting a well-formed body whose expiration parses and is not before the
   * current second, the folder being made, and a valid access mode. The reply
   * then names the new folder, which is the one added to the shared folders.
   */
  lemma ShareOnlyWhenEveryCheckPasses(verb: Verb, claims: Option<Claims>, body: Result<SharingDetails, string>,
                                      parseTime: string -> Result<int, string>, now: int, clock: DateTime,
                                      salt: string, linkUrl: string, sha256: Sha256, mkdirFails: bool,
                                      folders: set<string>, shares: SharingTable)
    requires Valid(clock)
    ensures var r := SharingHandler(verb, claims, body, parseTime, now, clock, salt, linkUrl, sha256,
                                    mkdirFails, folders, shares);
      r.0.Success? <==>
        && verb == Post && claims.Some? && Allowed(claims.value, "/", "rw") && body.Success?
        && parseTime(body.value.expirationDate).Success?
        && TruncateToSecond(now) <= parseTime(body.value.expirationDate).value
        && !mkdirFails && ValidAccess(body.value.access)
    ensures var r := SharingHandler(verb, claims, body, parseTime, now, clock, salt, linkUrl, sha256,
                                    mkdirFails, folders, shares);
      r.0.Success? ==>
        var exp := parseTime(body.value.expirationDate).value;
        var id := GenerateFolderName(clock, Tokens.Saturate64(exp - TruncateToSecond(now)), linkUrl);
        r.0.value == SharingResponse(linkUrl, id) && r.1 == folders + {id}
  {
    if verb == Post && claims.Some? && Allowed(claims.value, "/", "rw") && body.Success?
       && parseTime(body.value.expirationDate).Success?
       && TruncateToSecond(now) <= parseTime(body.value.expirationDate).value {
      HandlerCreates(claims.value, body.value, parseTime, now, clock, salt, linkUrl, sha256, mkdirFails, folders, shares);
    }
  }

  /** A request that passes every check before the folder is made reaches CreateShare. */
  lemma HandlerCreates(claims: Claims, details: SharingDetails, parseTime: string -> Result<int, string>,
                       now: int, clock: DateTime, salt: string, linkUrl: string, sha256: Sha256, mkdirFails: bool,
                       folders: set<string>, shares: SharingTable)
    requires Valid(clock) && Allowed(claims, "/", "rw")
    requires parseTime(details.expirationDate).Success?
    requires TruncateToSecond(now) <= parseTime(details.expirationDate).value
    ensures SharingHandler(Post, Some(claims), Success(details), parseTime, now,
                           clock, salt, linkUrl, sha256, mkdirFails, folders, shares)
         == CreateShare(details, parseTime(details.expirationDate).value, TruncateToSecond(now), clock, salt,
                        linkUrl, sha256, mkdirFails, folders, shares)
  {
  }

  /** An invalid access mode fails the insert after the folder was made. */
  lemma FailedInsertKeepsFolder(details: SharingDetails, exp: int, second: int, clock: DateTime, salt: string,
                                linkUrl: string, sha256: Sha256, folders: set<string>, shares: SharingTable)
    requires Valid(clock) && !ValidAccess(details.access)
    ensures var r := CreateShare(details, exp, second, clock, salt, linkUrl, sha256, false, folders, shares);
      && r.0.Failure? && r.0.error.status == InternalServerError
      && r.1 == folders + {GenerateFolderName(clock, Tokens.Saturate64(exp - second), linkUrl)}
      && r.2 == shares
  {
    var id := GenerateFolderName(clock, Tokens.Saturate64(exp - second), linkUrl);
    assert CreateSharingUser(shares, sha256, linkUrl, id, details.folderName, salt, details.otp, details.access, exp).0.Failure?;
  }

  /**
   * An expiration in the current second is accepted with a zero duration, so
   * the folder's name says it lasts "0s".
   */
  lemma ExpiryThisSecondAccepted(claims: Claims, details: SharingDetails, parseTime: string -> Result<int, string>,
                                 now: int, clock: DateTime, salt: string, linkUrl: string, sha256: Sha256,
                                 folders: set<string>, shares: SharingTable)
    requires Valid(clock) && Allowed(claims, "/", "rw") && ValidAccess(details.access)
    requires parseTime(details.expirationDate) == Success(TruncateToSecond(now))
    ensures var r := SharingHandler(Post, Some(claims), Success(details), parseTime, now, clock, salt, linkUrl,
                                    sha256, false, folders, shares).0;
      r == Success(SharingResponse(linkUrl, GenerateFolderName(clock, 0, linkUrl)))
  {
  }

  // ---------------------------------------------------------------------
  // AddSharingFilesHandler
  // ---------------------------------------------------------------------

  /** What os.Stat says of the shared folder. */
  datatype Stat = Exists | NotExist | StatFailed(message: string)

  /**
   * The checks AddSharingFilesHandler makes before handing the request to
   * the upload handler: the method, the Folder-Id header, the claims, write
   * access to that folder, and only then the folder's existence.
   */
  function AddSharingFilesGate(verb: Verb, folderId: string, claims: Option<Claims>, stat: Stat)
    : (r: Result<Claims, Rejection>)
    ensures verb != Post ==> r == Failure(Rejection(MethodNotAllowed, "Method not allowed"))
    ensures verb == Post && folderId == "" ==> r == Failure(Rejection(BadRequest, "Folder-Id header field is required"))
    ensures verb == Post && folderId != "" && claims.None? ==> r == Failure(Rejection(Unauthorized, "Invalid token claims"))
    ensures verb == Post && folderId != "" && claims.Some? && !Allowed(claims.value, folderId, "w") ==>
      r == Failure(Rejection(Forbidden, "Forbidden: insufficient permissions"))
    ensures r.Success? <==> verb == Post && folderId != "" && claims.Some? && Allowed(claims.value, folderId, "w") && stat.Exists?
    ensures r.Success? ==> r.value == claims.value
    ensures r == Failure(Rejection(NotFound, "Folder not found")) <==>
      verb == Post && folderId != "" && claims.Some? && Allowed(claims.value, folderId, "w") && stat.NotExist?
  {
    if verb != Post then Failure(Rejection(MethodNotAllowed, "Method not allowed"))
    else if folderId == "" then Failure(Rejection(BadRequest, "Folder-Id header field is required"))
    else if claims.None? then Failure(Rejection(Unauthorized, "Invalid token claims"))
    else if !Allowed(claims.value, folderId, "w") then Failure(Rejection(Forbidden, "Forbidden: insufficient permissions"))
    else match stat
      case NotExist => Failure(Rejection(NotFound, "Folder not found"))
      case StatFailed(message) => Failure(Rejection(InternalServerError, "Error checking folder: " + message))
      case Exists => Success(claims.value)
  }

  /**
   * AddSharingFilesHandler over the shared folders (each a Folder of files
   * and staged chunks): the gate, then the upload handler on the folder the
   * header names. Nothing outside that folder changes.
   */
  method AddSharingFilesHandler(verb: Verb, folderId: string, claims: Option<Claims>,
                                shared: map<string, Folder>, statFails: Option<string>,
                                form: Result<Form, string>, isUuid: string -> bool, registry: Registry,
                                now: int, md5: Md5, createFails: bool)
    returns (r: Result<Option<AssembleOutcome>, Rejection>, shared': map<string, Folder>, registry': Registry)
    ensures var stat := if statFails.Some? then StatFailed(statFails.value)
                        else if folderId in shared then Exists else NotExist;
      AddSharingFilesGate(verb, folderId, claims, stat).Failure? ==>
        r == Failure(AddSharingFilesGate(verb, folderId, claims, stat).error) && shared' == shared && registry' == registry
    ensures r.Success? <==>
      && verb == Post && folderId != "" && claims.Some? && Allowed(claims.value, folderId, "w")
      && statFails.None? && folderId in shared && ParseForm(form, isUuid).Success?
    ensures r.Failure? ==> shared' == shared && registry' == registry
    ensures shared'.Keys == shared.Keys
    ensures forall other :: other in shared && other != folderId ==> shared'[other] == shared[other]
  {
    var stat := if statFails.Some? then StatFailed(statFails.value)
                else if folderId in shared then Exists else NotExist;
    var gate := AddSharingFilesGate(verb, folderId, claims, stat);
    if gate.Failure? {
      return Failure(gate.error), shared, registry;
    }
    var folder';
    r, folder', registry' := UploadHandler(verb, claims, folderId, form, isUuid, shared[folderId], registry,
                                           now, md5, createFails);
    shared' := shared[folderId := folder'];
  }

  /** A caller without write access learns nothing of whether the folder exists. */
  lemma ForbiddenBeforeExistence(folderId: string, claims: Claims, stat: Stat, stat2: Stat)
    requires folderId != "" && !Allowed(claims, folderId, "w")
    ensures AddSharingFilesGate(Post, folderId, Some(claims), stat) == AddSharingFilesGate(Post, folderId, Some(claims), stat2)
  {
  }

  // ---------------------------------------------------------------------
  // GetSharingFilesHandler
  // ---------------------------------------------------------------------

  /** A directory entry: its name, whether it is a directory, and its size (None when Info fails). */
  datatype DirEntry = DirEntry(name: string, isDir: bool, size: Option<nat>)

  /** One file of a listing: the name split at its extension, and the size in decimal. */
  datatype SharingFileItem = SharingFileItem(fileName: string, fileExtension: string, fileSize: string)

  /** Which entries a listing reports: regular files whose Info succeeds. */
  predicate Listed(e: DirEntry) {
    !e.isDir && e.size.Some?
  }

  /** The item a listed entry becomes. */
  function Item(e: DirEntry): (item: SharingFileItem)
    requires Listed(e)
    ensures item.fileName + item.fileExtension == e.name
    ensures item.fileExtension == Ext(e.name)
  {
    var ext := Ext(e.name);
    ExtShape(e.name);
    SharingFileItem(TrimSuffix(e.name, ext), ext, NatToString(e.size.value))
  }

  /** The listing of a folder's entries, in their order. */
  function Listing(entries: seq<DirEntry>): (items: seq<SharingFileItem>)
    ensures |items| <= |entries|
    ensures forall e :: e in entries && Listed(e) ==> Item(e) in items
    ensures forall item :: item in items ==> exists e :: e in entries && Listed(e) && item == Item(e)
  {
    if entries == [] then []
    else
      var rest := Listing(entries[1..]);
      if Listed(entries[0]) then [Item(entries[0])] + rest else rest
  }

  /**
   * GetSharingFilesHandler given the folder_id query value, the claims and
   * the outcome of reading that folder: missing id, then read access, then an
   * unreadable folder, then the listing.
   */
  function GetSharingFilesHandler(verb: Verb, folderId: string, claims: Option<Claims>,
                                  readDir: Result<seq<DirEntry>, string>): (r: Result<seq<SharingFileItem>, Rejection>)
    ensures verb != Get ==> r == Failure(Rejection(MethodNotAllowed, "Method not allowed"))
    ensures verb == Get && folderId == "" ==> r == Failure(Rejection(BadRequest, "Missing folder_id parameter"))
    ensures verb == Get && folderId != "" && claims.None? ==> r == Failure(Rejection(Unauthorized, "Invalid token claims"))
    ensures verb == Get && folderId != "" && claims.Some? && !Allowed(claims.value, folderId, "r") ==>
      r == Failure(Rejection(Forbidden, "Forbidden: insufficient permissions"))
    ensures verb == Get && folderId != "" && claims.Some? && Allowed(claims.value, folderId, "r") && readDir.Failure? ==>
      r == Failure(Rejection(BadRequest, "Folder does not exist"))
    ensures r.Success? <==>
      verb == Get && folderId != "" && claims.Some? && Allowed(claims.value, folderId, "r") && readDir.Success?
    ensures r.Success? ==> r.value == Listing(readDir.value)
  {
    if verb != Get then Failure(Rejection(MethodNotAllowed, "Method not allowed"))
    else if folderId == "" then Failure(Rejection(BadRequest, "Missing folder_id parameter"))
    else if claims.None? then Failure(Rejection(Unauthorized, "Invalid token claims"))
    else if !Allowed(claims.value, folderId, "r") then Failure(Rejection(Forbidden, "Forbidden: insufficient permissions"))
    else match readDir
      case Failure(_) => Failure(Rejection(BadRequest, "Folder does not exist"))
      case Success(entries) => Success(Listing(entries))
  }

  /**
   * Each listed item splits its file's name at the extension: the extension
   * is empty or starts at the last '.', and holds no other '.'.
   */
  lemma ItemSplitsName(e: DirEntry)
    requires Listed(e) && '/' !in e.name
    ensures var item := Item(e);
      && item.fileName + item.fileExtension == e.name
      && (item.fileExtension == [] <==> '.' !in e.name)
      && (item.fileExtension != [] ==> item.fileExtension[0] == '.' && '.' !in item.fileExtension[1..])
      && DigitsValue(item.fileSize, 0) == e.size.value
  {
    ExtShape(e.name);
    NatToStringValue(e.size.value);
    var ext := Ext(e.name);
    if ext == [] {
      assert e.name == TrimSuffix(e.name, ext);
    } else {
      assert ext[0] == '.';
      assert ext == e.name[|e.name| - |ext|..];
      assert e.name[|e.name| - |ext|] == '.';
      assert '.' in e.name;
    }
  }
}
