/**
 * The download endpoints (internal/downloader/download_handler.go): the
 * order of their checks, DownloadHandler's reply, and DownloadAvailable's
 * probe of the job registry. The file system's answer for the requested file
 * is an input.
 */
module Download {
  import opened Wrappers
  import opened Access
  import opened Http
  import opened Jobs

  /** What opening and then stat-ing the requested file gives. */
  datatype Probe = Missing | Unstattable | Present(size: nat)

  /** How DownloadHandler ends. */
  datatype DownloadReply =
    | Refused(rejection: Rejection)
    /** The file is served as an attachment of this many bytes. */
    | Served(size: nat)
    /** The handler dereferenced a nil FileInfo after writing this status. */
    | Panicked(written: Rejection)

  /**
   * The checks both endpoints make, in order: the method, the file
   * parameter, the folder_id parameter, the claims, read access to the folder.
   */
  function Gate(verb: Verb, fileName: string, folderId: string, claims: Option<Claims>): (r: Option<Rejection>)
    ensures verb != Get ==> r == Some(Rejection(MethodNotAllowed, "Method not allowed"))
    ensures verb == Get && fileName == "" ==> r == Some(Rejection(BadRequest, "Missing file parameter"))
    ensures verb == Get && fileName != "" && folderId == "" ==> r == Some(Rejection(BadRequest, "Missing folder_id parameter"))
    ensures verb == Get && fileName != "" && folderId != "" && claims.None? ==>
      r == Some(Rejection(Unauthorized, "Invalid token claims"))
    ensures r.None? <==> verb == Get && fileName != "" && folderId != "" && claims.Some? && Allowed(claims.value, folderId, "r")
    ensures r.Some? && verb == Get && fileName != "" && folderId != "" && claims.Some? ==>
      r.value == Rejection(Forbidden, "Forbidden: insufficient permissions")
  {
    if verb != Get then Some(Rejection(MethodNotAllowed, "Method not allowed"))
    else if fileName == "" then Some(Rejection(BadRequest, "Missing file parameter"))
    else if folderId == "" then Some(Rejection(BadRequest, "Missing folder_id parameter"))
    else if claims.None? then Some(Rejection(Unauthorized, "Invalid token claims"))
    else if !Allowed(claims.value, folderId, "r") then Some(Rejection(Forbidden, "Forbidden: insufficient permissions"))
    else None
  }

  /**
   * DownloadHandler as written: after a failed Stat it writes the 500 but
   * does not return, and the next line reads the size of a nil FileInfo.
   */
  function DownloadHandlerAsWritten(verb: Verb, fileName: string, folderId: string, claims: Option<Claims>,
                                    probe: Probe): (r: DownloadReply)
    ensures Gate(verb, fileName, folderId, claims).Some? ==> r == Refused(Gate(verb, fileName, folderId, claims).value)
    ensures Gate(verb, fileName, folderId, claims).None? ==>
      match probe
      case Missing => r == Refused(Rejection(NotFound, "File not found"))
      case Unstattable => r == Panicked(Rejection(InternalServerError, "Error reading file"))
      case Present(size) => r == Served(size)
  {
    match Gate(verb, fileName, folderId, claims)
    case Some(rejection) => Refused(rejection)
    case None =>
      match probe
      case Missing => Refused(Rejection(NotFound, "File not found"))
      case Unstattable => Panicked(Rejection(InternalServerError, "Error reading file"))
      case Present(size) => Served(size)
  }

  /** DownloadHandler with a return after the failed Stat's 500. */
  function DownloadHandler(verb: Verb, fileName: string, folderId: string, claims: Option<Claims>,
                           probe: Probe): (r: DownloadReply)
    ensures !r.Panicked?
    ensures Gate(verb, fileName, folderId, claims).Some? ==> r == Refused(Gate(verb, fileName, folderId, claims).value)
    ensures r.Served? <==> Gate(verb, fileName, folderId, claims).None? && probe.Present?
    ensures r.Served? ==> r.size == probe.size
    ensures Gate(verb, fileName, folderId, claims).None? && probe.Missing? ==> r == Refused(Rejection(NotFound, "File not found"))
    ensures Gate(verb, fileName, folderId, claims).None? && probe.Unstattable? ==>
      r == Refused(Rejection(InternalServerError, "Error reading file"))
  {
    match Gate(verb, fileName, folderId, claims)
    case Some(rejection) => Refused(rejection)
    case None =>
      match probe
      case Missing => Refused(Rejection(NotFound, "File not found"))
      case Unstattable => Refused(Rejection(InternalServerError, "Error reading file"))
      case Present(size) => Served(size)
  }

  /**
   * The two agree everywhere except on a file that opens but cannot be
   * stat-ed, where the handler as written panics.
   */
  lemma StatFailurePanics(verb: Verb, fileName: string, folderId: string, claims: Option<Claims>, probe: Probe)
    ensures DownloadHandlerAsWritten(verb, fileName, folderId, claims, probe).Panicked? <==>
      Gate(verb, fileName, folderId, claims).None? && probe.Unstattable?
    ensures !DownloadHandlerAsWritten(verb, fileName, folderId, claims, probe).Panicked? ==>
      DownloadHandlerAsWritten(verb, fileName, folderId, claims, probe) == DownloadHandler(verb, fileName, folderId, claims, probe)
  {
  }

  /** No file is opened for a caller without read access, whatever is on disk. */
  lemma AccessBeforeOpen(fileName: string, folderId: string, claims: Claims, probe: Probe, probe2: Probe)
    requires fileName != "" && folderId != "" && !Allowed(claims, folderId, "r")
    ensures DownloadHandler(Get, fileName, folderId, Some(claims), probe)
         == DownloadHandler(Get, fileName, folderId, Some(claims), probe2)
         == Refused(Rejection(Forbidden, "Forbidden: insufficient permissions"))
  {
  }

  /**
   * DownloadAvailableHandler: after the gate, the file name is tried as a job
   * key. A held key gives 503 "File currently processing" and stays held with
   * its last access refreshed; a free key is acquired and released at once.
   * Then the file is opened and stat-ed; success writes nothing.
   */
  function DownloadAvailableHandler(verb: Verb, fileName: string, folderId: string, claims: Option<Claims>,
                                    registry: Registry, now: int, probe: Probe)
    : (r: (Option<Rejection>, Registry))
    ensures Gate(verb, fileName, folderId, claims).Some? ==>
      r == (Gate(verb, fileName, folderId, claims), registry)
    ensures Gate(verb, fileName, folderId, claims).None? && Held(registry, fileName) ==>
      && r.0 == Some(Rejection(ServiceUnavailable, "File currently processing"))
      && r.1 == Acquire(registry, fileName, now).1
    ensures Gate(verb, fileName, folderId, claims).None? && !Held(registry, fileName) ==>
      && r.1 == registry
      && r.0 == match probe
                case Missing => Some(Rejection(NotFound, "File not found"))
                case Unstattable => Some(Rejection(InternalServerError, "Error reading file"))
                case Present(_) => None
  {
    match Gate(verb, fileName, folderId, claims)
    case Some(rejection) => (Some(rejection), registry)
    case None =>
      var (acquired, held) := Acquire(registry, fileName, now);
      if !acquired then (Some(Rejection(ServiceUnavailable, "File currently processing")), held)
      else
        var released := Release(held, fileName);
        assert released.jobs == registry.jobs;
        match probe
        case Missing => (Some(Rejection(NotFound, "File not found")), released)
        case Unstattable => (Some(Rejection(InternalServerError, "Error reading file")), released)
        case Present(_) => (None, released)
  }

  /**
   * The probe never takes a key for itself: the set of held keys is the same
   * before and after, and a held key stays held.
   */
  lemma ProbeKeepsKeys(verb: Verb, fileName: string, folderId: string, claims: Option<Claims>,
                       registry: Registry, now: int, probe: Probe, key: string)
    ensures Held(DownloadAvailableHandler(verb, fileName, folderId, claims, registry, now, probe).1, key)
        <==> Held(registry, key)
  {
  }
}
