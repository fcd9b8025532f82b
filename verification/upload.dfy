/**
 * The upload side of the chunked transfer (internal/uploader/upload_handler.go):
 * validating one chunk's multipart form, staging the chunk under its file id,
 * and, once every chunk is staged, assembling the file in index order and
 * keeping it only when its MD5 matches the digest the client declared.
 *
 * A folder is its regular files (name to bytes) and its staging area (file
 * id to the chunks received, by index). The goroutine that assembles a file
 * is run to completion inside the request that starts it.
 */
module Upload {
  import opened Wrappers
  import opened Text
  import opened Hex
  import opened Digests
  import opened Access
  import opened Jobs
  import opened Http

  // ---------------------------------------------------------------------
  // getUniqueFileName
  // ---------------------------------------------------------------------

  /** The k-th alternative name: "<base> (k)<ext>". */
  function Candidate(base: string, ext: string, k: nat): string {
    base + " (" + NatToString(k) + ")" + ext
  }

  /** Different counters give different names. */
  lemma CandidateInjective(base: string, ext: string, j: nat, k: nat)
    requires Candidate(base, ext, j) == Candidate(base, ext, k)
    ensures j == k
  {
    MiddleInjective(base + " (", NatToString(j), NatToString(k), ")", ext);
    NatToStringInjective(j, k);
  }

  lemma MiddleInjective<T>(p: seq<T>, a: seq<T>, b: seq<T>, q: seq<T>, e: seq<T>)
    requires p + a + q + e == p + b + q + e
    ensures a == b
  {
    assert a == (p + a + q + e)[|p|..|p| + |a|];
    assert b == (p + b + q + e)[|p|..|p| + |b|];
  }

  /** The candidates "<base> (1)<ext>" up to "<base> (n)<ext>". */
  function Candidates(base: string, ext: string, n: nat): set<string> {
    if n == 0 then {} else Candidates(base, ext, n - 1) + {Candidate(base, ext, n)}
  }

  /** A later candidate is none of the earlier ones. */
  lemma {:induction false} CandidateNotBelow(base: string, ext: string, n: nat, m: nat)
    requires n < m
    ensures Candidate(base, ext, m) !in Candidates(base, ext, n)
  {
    if n > 0 {
      CandidateNotBelow(base, ext, n - 1, m);
      if Candidate(base, ext, m) == Candidate(base, ext, n) {
        CandidateInjective(base, ext, m, n);
      }
    }
  }

  /** There are n different candidates up to n, and they are in taken when each one is. */
  lemma {:induction false} CandidatesCount(base: string, ext: string, n: nat, taken: set<string>)
    requires forall j: nat :: 1 <= j <= n ==> Candidate(base, ext, j) in taken
    ensures |Candidates(base, ext, n)| == n
    ensures Candidates(base, ext, n) <= taken
  {
    if n > 0 {
      CandidatesCount(base, ext, n - 1, taken);
      CandidateNotBelow(base, ext, n - 1, n);
    }
  }

  /**
   * What getUniqueFileName promises of its answer: the name itself when it
   * is free, else the first free "<base> (k)<ext>" counting from 1, where
   * ext is the name's extension and base what precedes it.
   */
  ghost predicate UniqueChoice(name: string, taken: set<string>, unique: string) {
    && unique !in taken
    && (name !in taken ==> unique == name)
    && (name in taken ==>
          var ext := Ext(name);
          var base := TrimSuffix(name, ext);
          exists k: nat :: (1 <= k && unique == Candidate(base, ext, k)
            && forall j: nat :: 1 <= j < k ==> Candidate(base, ext, j) in taken))
  }

  /**
   * getUniqueFileName within one directory, whose entries are taken. The
   * candidates are all different, so at most |taken| of them can be in use.
   */
  method GetUniqueFileName(name: string, taken: set<string>) returns (unique: string)
    ensures UniqueChoice(name, taken, unique)
  {
    if name !in taken {
      return name;
    }
    var ext := Ext(name);
    var base := TrimSuffix(name, ext);
    var k: nat := 1;
    while Candidate(base, ext, k) in taken
      invariant 1 <= k && k - 1 <= |taken|
      invariant forall j: nat :: 1 <= j < k ==> Candidate(base, ext, j) in taken
      decreases |taken| - (k - 1)
    {
      CandidatesCount(base, ext, k, taken);
      SubsetSize(Candidates(base, ext, k), taken);
      k := k + 1;
    }
    unique := Candidate(base, ext, k);
  }

  // ---------------------------------------------------------------------
  // ParseForm
  // ---------------------------------------------------------------------

  /** A multipart form as parsed: its text values and the files sent as "chunk", in order. */
  datatype Form = Form(values: map<string, string>, chunks: seq<Bytes>)

  /** r.FormValue: "" for a missing key. */
  function FormValue(f: Form, key: string): string {
    if key in f.values then f.values[key] else ""
  }

  /** The text fields ParseForm requires, in the order it checks them. */
  const RequiredFields: seq<string> := ["fileId", "fileName", "fileExtension", "md5Hash", "chunkIndex", "totalChunks"]

  /** The first of fields whose value is empty. */
  function FirstEmpty(f: Form, fields: seq<string>): (r: Option<string>)
    ensures r.None? <==> forall i :: 0 <= i < |fields| ==> FormValue(f, fields[i]) != ""
    ensures r.Some? ==> exists i :: (0 <= i < |fields| && fields[i] == r.value && FormValue(f, fields[i]) == ""
      && forall j :: 0 <= j < i ==> FormValue(f, fields[j]) != "")
  {
    FirstEmptyFrom(f, fields, 0)
  }

  function FirstEmptyFrom(f: Form, fields: seq<string>, k: nat): (r: Option<string>)
    requires k <= |fields| && forall j :: 0 <= j < k ==> FormValue(f, fields[j]) != ""
    ensures r.None? <==> forall i :: 0 <= i < |fields| ==> FormValue(f, fields[i]) != ""
    ensures r.Some? ==> exists i :: (k <= i < |fields| && fields[i] == r.value && FormValue(f, fields[i]) == ""
      && forall j :: 0 <= j < i ==> FormValue(f, fields[j]) != "")
    decreases |fields| - k
  {
    if k == |fields| then None
    else if FormValue(f, fields[k]) == "" then Some(fields[k])
    else FirstEmptyFrom(f, fields, k + 1)
  }

  /** The chunk's metadata as ParseForm returns it. */
  datatype ChunkMeta = ChunkMeta(fileId: string, fileName: string, fileExtension: string,
                                 md5Hash: string, chunkIndex: int, totalChunks: int)

  /** Why ParseForm refused a form. */
  datatype FormError =
    | Unparsable(reason: string)
    | Missing(field: string)
    | ChunkMissing
    | ChunkEmpty
    | BadChunkNumber
    | BadChunkCount
    | BadChunkIndex(index: int)
    | BadFileName(name: string)
    | BadExtension(ext: string)
    | BadUuid

  /** The text the handler sends with its 400; the wrapped library errors are not modelled. */
  function Message(e: FormError): string {
    match e
    case Unparsable(reason) => "unable to parse form: " + reason
    case Missing(field) => field + " is required"
    case ChunkMissing => "chunk file is required"
    case ChunkEmpty => "chunk file is empty"
    case BadChunkNumber => "invalid chunk number"
    case BadChunkCount => "invalid number of chunks"
    case BadChunkIndex(i) => "invalid chunk index: " + IntToString(i)
    case BadFileName(name) => "invalid file name format: " + name
    case BadExtension(ext) => "invalid file extension: " + ext
    case BadUuid => "invalid UUID format"
  }

  /**
   * The index guard as written: chunkIndex > totalChunks-1 is computed in
   * int, which wraps when totalChunks is the least int64.
   */
  function IndexInRangeAsWritten(index: int, total: int): (ok: bool)
    requires MinInt64 <= total <= MaxInt64
    ensures total != MinInt64 ==> (ok <==> 0 <= index < total)
    ensures total == MinInt64 ==> (ok <==> 0 <= index <= MaxInt64)
  {
    !(index > Wrap64(total - 1) || index < 0)
  }

  /** The index guard as intended: 0 <= chunkIndex < totalChunks. */
  function IndexInRange(index: int, total: int): (ok: bool)
    ensures ok <==> 0 <= index && index + 1 <= total
  {
    !(index > total - 1 || index < 0)
  }

  /** One character of ^[a-zA-Z0-9._ -\(\)]+$: the class holds the range ' '..'(' and ')'. */
  predicate FileNameChar(c: char) {
    ('a' <= c <= 'z') || ('A' <= c <= 'Z') || ('0' <= c <= '9')
    || c == '.' || c == '_' || (' ' <= c <= '(') || c == ')'
  }

  predicate ValidFileName(name: string) {
    |name| > 0 && forall i :: 0 <= i < |name| ==> FileNameChar(name[i])
  }

  /** The extensions ^\.(jpe?g|png|gif|bmp|tiff?|webp|mp4|mkv|mov|avi|flv|wmv|txt)$ spells out. */
  const AllowedExtensions: set<string> :=
    {".jpg", ".jpeg", ".png", ".gif", ".bmp", ".tif", ".tiff", ".webp",
     ".mp4", ".mkv", ".mov", ".avi", ".flv", ".wmv", ".txt"}

  predicate ValidExtension(ext: string) {
    ToLower(ext) in AllowedExtensions
  }

  /** Everything ParseForm demands of a form, stated without its order. */
  predicate Acceptable(f: Form, isUuid: string -> bool) {
    && (forall i :: 0 <= i < |RequiredFields| ==> FormValue(f, RequiredFields[i]) != "")
    && |f.chunks| > 0 && f.chunks[0] != []
    && Atoi(FormValue(f, "chunkIndex")).Some? && Atoi(FormValue(f, "totalChunks")).Some?
    && 0 <= Atoi(FormValue(f, "chunkIndex")).value < Atoi(FormValue(f, "totalChunks")).value
    && ValidFileName(FormValue(f, "fileName"))
    && ValidExtension(FormValue(f, "fileExtension"))
    && isUuid(FormValue(f, "fileId"))
  }

  /**
   * ParseForm, given the outcome of parsing the multipart body and
   * uuid.Parse's verdict: the metadata and the first "chunk" file, or the
   * first check that failed.
   */
  function ParseForm(form: Result<Form, string>, isUuid: string -> bool): (r: Result<(ChunkMeta, Bytes), FormError>)
    ensures form.Failure? ==> r == Failure(Unparsable(form.error))
    ensures form.Success? && FirstEmpty(form.value, RequiredFields).Some? ==>
      r == Failure(Missing(FirstEmpty(form.value, RequiredFields).value))
    ensures r.Success? <==> form.Success? && Acceptable(form.value, isUuid)
    ensures r.Success? ==>
      var (meta, chunk) := r.value;
      && meta.fileId == FormValue(form.value, "fileId")
      && meta.fileName == FormValue(form.value, "fileName")
      && meta.fileExtension == FormValue(form.value, "fileExtension")
      && meta.md5Hash == FormValue(form.value, "md5Hash")
      && Atoi(FormValue(form.value, "chunkIndex")) == Some(meta.chunkIndex)
      && Atoi(FormValue(form.value, "totalChunks")) == Some(meta.totalChunks)
      && 0 <= meta.chunkIndex < meta.totalChunks
      && chunk == form.value.chunks[0] && chunk != []
    ensures r.Failure? && (r.error.ChunkMissing? || r.error.ChunkEmpty?) ==> FirstEmpty(form.value, RequiredFields).None?
    ensures r.Failure? && r.error.BadExtension? ==> ValidFileName(FormValue(form.value, "fileName"))
    ensures r.Failure? && r.error.BadUuid? ==>
      ValidFileName(FormValue(form.value, "fileName")) && ValidExtension(FormValue(form.value, "fileExtension"))
  {
    match form
    case Failure(e) => Failure(Unparsable(e))
    case Success(f) =>
      match FirstEmpty(f, RequiredFields)
      case Some(field) => Failure(Missing(field))
      case None =>
        if |f.chunks| == 0 then Failure(ChunkMissing)
        else if f.chunks[0] == [] then Failure(ChunkEmpty)
        else match Atoi(FormValue(f, "chunkIndex"))
          case None => Failure(BadChunkNumber)
          case Some(index) =>
            match Atoi(FormValue(f, "totalChunks"))
            case None => Failure(BadChunkCount)
            case Some(total) =>
              if !IndexInRange(index, total) then Failure(BadChunkIndex(index))
              else
                var meta := ChunkMeta(FormValue(f, "fileId"), FormValue(f, "fileName"), FormValue(f, "fileExtension"),
                                      FormValue(f, "md5Hash"), index, total);
                if !ValidFileName(meta.fileName) then Failure(BadFileName(meta.fileName))
                else if !ValidExtension(meta.fileExtension) then Failure(BadExtension(meta.fileExtension))
                else if !isUuid(meta.fileId) then Failure(BadUuid)
                else Success((meta, f.chunks[0]))
  }

  /**
   * ParseFormFileId: the same body limit and multipart parse as ParseForm,
   * then only the fileId field, which must not be empty.
   */
  function ParseFormFileId(form: Result<Form, string>): (r: Result<string, FormError>)
    ensures form.Failure? ==> r == Failure(Unparsable(form.error))
    ensures r.Success? <==> form.Success? && FormValue(form.value, "fileId") != ""
    ensures r.Success? ==> r.value == FormValue(form.value, "fileId")
    ensures form.Success? && r.Failure? ==> r.error == Missing("fileId")
  {
    match form
    case Failure(e) => Failure(Unparsable(e))
    case Success(f) =>
      if FormValue(f, "fileId") == "" then Failure(Missing("fileId"))
      else Success(FormValue(f, "fileId"))
  }

  /** A form ParseForm accepts yields the same file id from ParseFormFileId. */
  lemma FileIdAgrees(form: Result<Form, string>, isUuid: string -> bool)
    requires form.Success? && Acceptable(form.value, isUuid)
    ensures ParseForm(form, isUuid).Success? && ParseFormFileId(form) == Success(ParseForm(form, isUuid).value.0.fileId)
  {
    assert RequiredFields[0] == "fileId";
  }

  // ---------------------------------------------------------------------
  // ChunkAssemble
  // ---------------------------------------------------------------------

  /** A folder: its files, and the chunks staged per file id under the chunks directory. */
  datatype Folder = Folder(files: map<string, Bytes>, staging: map<string, map<int, Bytes>>)

  /** Chunks 0..n-1 written one after another. */
  function Joined(chunks: map<int, Bytes>, n: nat): (content: Bytes)
    requires forall i :: 0 <= i < n ==> i in chunks
  {
    if n == 0 then [] else Joined(chunks, n - 1) + chunks[n - 1]
  }

  /** The first index below total with no staged chunk. */
  function FirstAbsent(chunks: map<int, Bytes>, total: int): (r: Option<nat>)
    ensures r.None? <==> forall i :: 0 <= i < total ==> i in chunks
    ensures r.Some? ==> r.value < total && r.value !in chunks && forall i :: 0 <= i < r.value ==> i in chunks
  {
    FirstAbsentFrom(chunks, total, 0)
  }

  function FirstAbsentFrom(chunks: map<int, Bytes>, total: int, k: nat): (r: Option<nat>)
    requires forall i :: 0 <= i < k ==> i in chunks
    ensures r.None? <==> forall i :: 0 <= i < total ==> i in chunks
    ensures r.Some? ==> k <= r.value < total && r.value !in chunks && forall i :: 0 <= i < r.value ==> i in chunks
    decreases total - k
  {
    if k >= total then None
    else if k !in chunks then Some(k)
    else FirstAbsentFrom(chunks, total, k + 1)
  }

  /** The hex MD5 of the content equals the declared digest, trimmed and lower-cased. */
  predicate HashMatches(md5: Md5, content: Bytes, declared: string) {
    Encode(md5(content)) == ToLower(TrimSpace(declared))
  }

  /**
   * The copy loop of ChunkAssemble: chunks 0, 1, ... are appended in order
   * until the first one missing below total. The bytes copied so far are
   * returned with it.
   */
  method CopyChunks(chunks: map<int, Bytes>, total: int) returns (missing: Option<nat>, content: Bytes)
    ensures missing == FirstAbsent(chunks, total)
    ensures missing.Some? ==> content == Joined(chunks, missing.value)
    ensures missing.None? ==> content == Joined(chunks, if total < 0 then 0 else total)
  {
    content := [];
    var i: nat := 0;
    while i < total
      invariant i <= total || (total < 0 && i == 0)
      invariant forall j :: 0 <= j < i ==> j in chunks
      invariant content == Joined(chunks, i)
      invariant FirstAbsent(chunks, total) == FirstAbsentFrom(chunks, total, i)
    {
      if i !in chunks {
        return Some(i), content;
      }
      content := content + chunks[i];
      i := i + 1;
    }
    return None, content;
  }

  /** How one assembly ended; name is the file it created. */
  datatype AssembleOutcome =
    | NoStaging
    | CreateFailed(name: string)
    | MissingChunk(name: string, index: nat)
    | HashMismatch(name: string)
    | Assembled(name: string)

  /**
   * ChunkAssemble. The job on the file id is released on every path. With
   * no staging directory nothing else happens; otherwise the staging
   * directory is removed on every path, and the output goes to a fresh name.
   * A missing chunk stops the copy and leaves the part written; a complete
   * copy is kept exactly when its digest matches. createFails is whether
   * os.Create fails.
   */
  method ChunkAssemble(meta: ChunkMeta, folder: Folder, registry: Registry, md5: Md5, createFails: bool)
    returns (outcome: AssembleOutcome, folder': Folder, registry': Registry)
    ensures registry' == Release(registry, meta.fileId)
    ensures meta.fileId !in folder.staging ==> outcome == NoStaging && folder' == folder
    ensures meta.fileId in folder.staging ==>
      && !outcome.NoStaging?
      && folder'.staging == folder.staging - {meta.fileId}
      && UniqueChoice(meta.fileName + meta.fileExtension, folder.files.Keys, outcome.name)
    ensures outcome.CreateFailed? <==> meta.fileId in folder.staging && createFails
    ensures outcome.CreateFailed? || outcome.HashMismatch? ==> folder'.files == folder.files
    ensures meta.fileId in folder.staging && !createFails ==>
      var chunks := folder.staging[meta.fileId];
      match FirstAbsent(chunks, meta.totalChunks)
      case Some(i) =>
        outcome == MissingChunk(outcome.name, i) && folder'.files == folder.files[outcome.name := Joined(chunks, i)]
      case None =>
        var content := Joined(chunks, if meta.totalChunks < 0 then 0 else meta.totalChunks);
        if HashMatches(md5, content, meta.md5Hash) then
          outcome == Assembled(outcome.name) && folder'.files == folder.files[outcome.name := content]
        else outcome == HashMismatch(outcome.name)
  {
    registry' := Release(registry, meta.fileId);
    if meta.fileId !in folder.staging {
      return NoStaging, folder, registry';
    }
    var chunks := folder.staging[meta.fileId];
    var staging' := folder.staging - {meta.fileId};
    var name := GetUniqueFileName(meta.fileName + meta.fileExtension, folder.files.Keys);
    if createFails {
      return CreateFailed(name), Folder(folder.files, staging'), registry';
    }
    var missing, content := CopyChunks(chunks, meta.totalChunks);
    if missing.Some? {
      return MissingChunk(name, missing.value), Folder(folder.files[name := content], staging'), registry';
    }
    if HashMatches(md5, content, meta.md5Hash) {
      outcome := Assembled(name);
      folder' := Folder(folder.files[name := content], staging');
    } else {
      outcome := HashMismatch(name);
      folder' := Folder(folder.files, staging');
    }
  }

  // ---------------------------------------------------------------------
  // UploadHandler
  // ---------------------------------------------------------------------

  /** The chunks of a file id after storing one more under its index. */
  function Staged(folder: Folder, meta: ChunkMeta, chunk: Bytes): (chunks: map<int, Bytes>)
    ensures meta.chunkIndex in chunks && chunks[meta.chunkIndex] == chunk
    ensures meta.fileId in folder.staging ==> chunks.Keys == folder.staging[meta.fileId].Keys + {meta.chunkIndex}
    ensures meta.fileId !in folder.staging ==> chunks.Keys == {meta.chunkIndex}
  {
    var old_ := if meta.fileId in folder.staging then folder.staging[meta.fileId] else map[];
    old_[meta.chunkIndex := chunk]
  }

  /** Every staged index is a valid index of its file. */
  predicate StagingInRange(staging: map<int, Bytes>, total: int) {
    forall i :: i in staging ==> 0 <= i < total
  }

  /**
   * UploadHandler for the folder named folderId, with the request's claims
   * (None when they are not a claims map). On success the chunk is staged;
   * when that makes the directory hold totalChunks entries, the job on the
   * file id is acquired and, if it was free, the file is assembled at once.
   * The reply carries that assembly's outcome, if one ran. The failures of
   * creating the directory and writing the chunk are not modelled.
   */
  method UploadHandler(verb: Verb, claims: Option<Claims>, folderId: string, form: Result<Form, string>,
                       isUuid: string -> bool, folder: Folder, registry: Registry, now: int,
                       md5: Md5, createFails: bool)
    returns (r: Result<Option<AssembleOutcome>, Rejection>, folder': Folder, registry': Registry)
    ensures verb != Post ==> r == Failure(Rejection(MethodNotAllowed, "Method not allowed"))
    ensures verb == Post && claims.None? ==> r == Failure(Rejection(Unauthorized, "Invalid token claims"))
    ensures verb == Post && claims.Some? && !Allowed(claims.value, folderId, "w") ==>
      r == Failure(Rejection(Forbidden, "Forbidden: insufficient permissions"))
    ensures verb == Post && claims.Some? && Allowed(claims.value, folderId, "w") && ParseForm(form, isUuid).Failure? ==>
      r == Failure(Rejection(BadRequest, Message(ParseForm(form, isUuid).error)))
    ensures r.Failure? ==> folder' == folder && registry' == registry
    ensures r.Success? <==>
      verb == Post && claims.Some? && Allowed(claims.value, folderId, "w") && ParseForm(form, isUuid).Success?
    ensures r.Success? ==>
      var (meta, chunk) := ParseForm(form, isUuid).value;
      var chunks := Staged(folder, meta, chunk);
      var complete := |chunks.Keys| == meta.totalChunks;
      && (r.value.Some? <==> complete && !Held(registry, meta.fileId))
      && (r.value.None? ==>
            && folder' == folder.(staging := folder.staging[meta.fileId := chunks])
            && registry' == (if complete then Acquire(registry, meta.fileId, now).1 else registry))
      && (r.value.Some? ==>
            && folder'.staging == folder.staging - {meta.fileId}
            && registry' == Release(Acquire(registry, meta.fileId, now).1, meta.fileId)
            && !Held(registry', meta.fileId)
            && !r.value.value.NoStaging?
            && UniqueChoice(meta.fileName + meta.fileExtension, folder.files.Keys, r.value.value.name)
            && (!createFails && FirstAbsent(chunks, meta.totalChunks).None?
                && HashMatches(md5, Joined(chunks, meta.totalChunks), meta.md5Hash) ==>
                  r.value.value.Assembled?
                  && folder'.files == folder.files[r.value.value.name := Joined(chunks, meta.totalChunks)]))
  {
    folder', registry' := folder, registry;
    if verb != Post {
      return Failure(Rejection(MethodNotAllowed, "Method not allowed")), folder', registry';
    }
    if claims.None? {
      return Failure(Rejection(Unauthorized, "Invalid token claims")), folder', registry';
    }
    if !Allowed(claims.value, folderId, "w") {
      return Failure(Rejection(Forbidden, "Forbidden: insufficient permissions")), folder', registry';
    }
    var parsed := ParseForm(form, isUuid);
    if parsed.Failure? {
      return Failure(Rejection(BadRequest, Message(parsed.error))), folder', registry';
    }
    var (meta, chunk) := parsed.value;
    var outcome;
    outcome, folder', registry' := StageChunk(meta, chunk, folder, registry, now, md5, createFails);
    r := Success(outcome);
  }

  /**
   * The part of UploadHandler after the form is accepted: the chunk is
   * staged, and a staging area now holding totalChunks entries whose job is
   * free is assembled at once.
   */
  method StageChunk(meta: ChunkMeta, chunk: Bytes, folder: Folder, registry: Registry, now: int,
                    md5: Md5, createFails: bool)
    returns (r: Option<AssembleOutcome>, folder': Folder, registry': Registry)
    ensures
      var chunks := Staged(folder, meta, chunk);
      var complete := |chunks.Keys| == meta.totalChunks;
      && (r.Some? <==> complete && !Held(registry, meta.fileId))
      && (r.None? ==>
            && folder' == folder.(staging := folder.staging[meta.fileId := chunks])
            && registry' == (if complete then Acquire(registry, meta.fileId, now).1 else registry))
      && (r.Some? ==>
            && folder'.staging == folder.staging - {meta.fileId}
            && registry' == Release(Acquire(registry, meta.fileId, now).1, meta.fileId)
            && !Held(registry', meta.fileId)
            && !r.value.NoStaging?
            && UniqueChoice(meta.fileName + meta.fileExtension, folder.files.Keys, r.value.name)
            && (!createFails && FirstAbsent(chunks, meta.totalChunks).None?
                && HashMatches(md5, Joined(chunks, meta.totalChunks), meta.md5Hash) ==>
                  r.value.Assembled?
                  && folder'.files == folder.files[r.value.name := Joined(chunks, meta.totalChunks)]))
  {
    var chunks := Staged(folder, meta, chunk);
    folder' := folder.(staging := folder.staging[meta.fileId := chunks]);
    registry' := registry;
    if |chunks.Keys| != meta.totalChunks {
      return None, folder', registry';
    }
    if Held(registry, meta.fileId) {
      return None, folder', Acquire(registry, meta.fileId, now).1;
    }
    var outcome;
    outcome, folder', registry' := AssembleStaged(meta, chunks, folder, registry, now, md5, createFails);
    r := Some(outcome);
  }

  /** The assembly StageChunk starts once the job on the file id was free and is now taken. */
  method AssembleStaged(meta: ChunkMeta, chunks: map<int, Bytes>, folder: Folder, registry: Registry, now: int,
                        md5: Md5, createFails: bool)
    returns (outcome: AssembleOutcome, folder': Folder, registry': Registry)
    requires !Held(registry, meta.fileId) && |chunks.Keys| == meta.totalChunks
    ensures folder'.staging == folder.staging - {meta.fileId}
    ensures registry' == Release(Acquire(registry, meta.fileId, now).1, meta.fileId)
    ensures !Held(registry', meta.fileId)
    ensures !outcome.NoStaging?
    ensures UniqueChoice(meta.fileName + meta.fileExtension, folder.files.Keys, outcome.name)
    ensures !createFails && FirstAbsent(chunks, meta.totalChunks).None?
            && HashMatches(md5, Joined(chunks, meta.totalChunks), meta.md5Hash) ==>
              outcome.Assembled? && folder'.files == folder.files[outcome.name := Joined(chunks, meta.totalChunks)]
  {
    var staged := folder.(staging := folder.staging[meta.fileId := chunks]);
    outcome, folder', registry' := ChunkAssemble(meta, staged, Acquire(registry, meta.fileId, now).1, md5, createFails);
    UpdateThenRemove(folder.staging, meta.fileId, chunks);
  }

  lemma UpdateThenRemove<K, V>(m: map<K, V>, k: K, v: V)
    ensures m[k := v] - {k} == m - {k}
  {
  }

  // ---------------------------------------------------------------------
  // Properties
  // ---------------------------------------------------------------------

  /** A digest's own hex text survives the trimming and lower-casing of the declared digest. */
  lemma HexIsNormalized(s: string)
    requires IsLowerHex(s)
    ensures ToLower(TrimSpace(s)) == s
  {
    if s != [] {
      assert !IsSpace(s[0]) && !IsSpace(s[|s| - 1]);
    }
    assert TrimLeft(s) == s;
    assert TrimRight(s) == s;
  }

  /** A declared digest matches content exactly when it is the content's MD5 hex, up to case and spaces. */
  lemma HashOfContentMatches(md5: Md5, content: Bytes)
    ensures HashMatches(md5, content, Encode(md5(content)))
  {
    HexIsNormalized(Encode(md5(content)));
  }

  /**
   * The comparison accepts exactly a declared digest that, once trimmed,
   * spells the content's hex MD5 with any of its letters in upper case (or
   * written as a character that lowers to that letter).
   */
  lemma HashMatchesExactly(md5: Md5, content: Bytes, declared: string)
    ensures var hex := Encode(md5(content));
      var trimmed := TrimSpace(declared);
      HashMatches(md5, content, declared) <==>
        |trimmed| == |hex| && forall i :: 0 <= i < |trimmed| ==> LowersTo(trimmed[i], hex[i])
  {
    var hex := Encode(md5(content));
    forall i | 0 <= i < |hex|
      ensures IsLower(hex[i])
    {
      assert IsLowerHexChar(hex[i]);
    }
    ToLowerMatches(TrimSpace(declared), hex);
  }

  /** The indices 0..n-1. */
  function Indices(n: nat): (s: set<int>)
    ensures forall i :: i in s <==> 0 <= i < n
    ensures |s| == n
  {
    if n == 0 then {} else Indices(n - 1) + {n - 1}
  }

  lemma SubsetSize<T>(a: set<T>, b: set<T>)
    requires a <= b
    ensures |a| <= |b|
    ensures |a| == |b| ==> a == b
  {
    assert b == a + (b - a);
    assert a * (b - a) == {};
    if |a| == |b| {
      assert b - a == {};
    }
  }

  /** A staging area holding totalChunks distinct in-range indices holds every index. */
  lemma FullStagingComplete(chunks: map<int, Bytes>, total: nat)
    requires StagingInRange(chunks, total) && |chunks.Keys| == total
    ensures forall i :: 0 <= i < total ==> i in chunks
  {
    SubsetSize(chunks.Keys, Indices(total));
  }

  /**
   * With the intended guard, no index passes when totalChunks <= 0; as
   * written, index 0 passes with totalChunks the least int64, since
   * totalChunks-1 wraps to the greatest.
   */
  lemma IndexGuardWraps()
    ensures forall index, total :: total <= 0 ==> !IndexInRange(index, total)
    ensures forall index :: 0 <= index <= MaxInt64 ==>
      IndexInRangeAsWritten(index, MinInt64) && !IndexInRange(index, MinInt64)
  {
    assert Wrap64(MinInt64 - 1) == MaxInt64 by {
      assert MinInt64 - 1 == MaxInt64 - 2 * TwoTo63;
    }
  }

  /** The name check runs before the extension check, and both before the UUID check. */
  lemma CheckOrder(f: Form, isUuid: string -> bool)
    requires FirstEmpty(f, RequiredFields).None? && |f.chunks| > 0 && f.chunks[0] != []
    requires Atoi(FormValue(f, "chunkIndex")).Some? && Atoi(FormValue(f, "totalChunks")).Some?
    requires 0 <= Atoi(FormValue(f, "chunkIndex")).value < Atoi(FormValue(f, "totalChunks")).value
    requires !ValidFileName(FormValue(f, "fileName"))
    ensures ParseForm(Success(f), isUuid) == Failure(BadFileName(FormValue(f, "fileName")))
  {
  }
}
