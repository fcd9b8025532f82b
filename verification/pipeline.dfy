/**
 * The browser and the server together: the chunk forms createChunk builds
 * pass ParseForm, the chunks staged from them join back into the file, the
 * digest the browser declares matches what is assembled, and posting every
 * form in order to UploadHandler leaves exactly the original bytes in the
 * folder.
 */
module Pipeline {
  import opened Wrappers
  import opened Text
  import opened Hex
  import opened Digests
  import opened Slicing
  import opened Access
  import opened Http
  import opened Jobs
  import opened Upload
  import opened ClientChunks

  /** Metadata the server accepts: every field present, a valid name, an allowed extension, a UUID. */
  predicate Describes(meta: FileMeta, isUuid: string -> bool) {
    && ValidFileName(meta.fileName)
    && ValidExtension(meta.fileExtension)
    && meta.md5Hash != ""
    && isUuid(meta.fileId) && meta.fileId != ""
  }

  /**
   * Every chunk form of a file the server accepts a description of passes
   * ParseForm, which reads back the browser's metadata, index, count and bytes.
   */
  lemma ClientFormAccepted(file: Bytes, meta: FileMeta, i: nat, isUuid: string -> bool)
    requires Describes(meta, isUuid)
    requires i < TotalChunks(file) <= MaxInt64
    ensures ParseForm(Success(ChunkForm(file, meta, i)), isUuid) ==
      Success((ChunkMeta(meta.fileId, meta.fileName, meta.fileExtension, meta.md5Hash, i, TotalChunks(file)),
               Slice(file, ChunkSize, i)))
  {
    var f := ChunkForm(file, meta, i);
    ChunkFormReadBack(file, meta, i);
    assert FormValue(f, "fileId") == meta.fileId;
    assert FormValue(f, "fileName") == meta.fileName;
    assert FormValue(f, "fileExtension") == meta.fileExtension;
    assert FormValue(f, "md5Hash") == meta.md5Hash;
    assert FormValue(f, "chunkIndex") == NatToString(i);
    assert FormValue(f, "totalChunks") == NatToString(TotalChunks(file));
    assert Acceptable(f, isUuid);
  }

  /** Chunks 0..k-1 of the file, staged under their indices. */
  function StagedSlices(file: Bytes, k: nat): (chunks: map<int, Bytes>)
    ensures chunks.Keys == Indices(k)
    ensures forall i :: 0 <= i < k ==> chunks[i] == Slice(file, ChunkSize, i)
  {
    map i: int | 0 <= i < k :: Slice(file, ChunkSize, i)
  }

  /** Joining staged chunks that are the pieces 0..n-1 writes the pieces one after another. */
  lemma {:induction false} JoinedConcat(chunks: map<int, Bytes>, pieces: seq<Bytes>, n: nat)
    requires n <= |pieces|
    requires forall i :: 0 <= i < n ==> i in chunks && chunks[i] == pieces[i]
    ensures Joined(chunks, n) == Concat(pieces[..n])
  {
    if n > 0 {
      JoinedConcat(chunks, pieces, n - 1);
      assert pieces[..n][..n - 1] == pieces[..n - 1];
    }
  }

  /** The server's assembly of every chunk the browser cut gives back the file. */
  lemma StagedSlicesJoin(file: Bytes)
    ensures Joined(StagedSlices(file, TotalChunks(file)), TotalChunks(file)) == file
  {
    var n := TotalChunks(file);
    var pieces := Slices(file, ChunkSize, n);
    JoinedConcat(StagedSlices(file, n), pieces, n);
    assert pieces[..n] == pieces;
    SlicesTile(file, ChunkSize);
  }

  /** The digest the browser declares for the whole file matches the assembled bytes. */
  lemma DeclaredDigestMatches(file: Bytes, md5: Md5)
    ensures HashMatches(md5, Joined(StagedSlices(file, TotalChunks(file)), TotalChunks(file)), Encode(md5(file)))
  {
    StagedSlicesJoin(file);
    HashOfContentMatches(md5, file);
  }

  /** The metadata ParseForm reads from chunk i of the file. */
  function MetaOf(file: Bytes, meta: FileMeta, i: nat): ChunkMeta {
    ChunkMeta(meta.fileId, meta.fileName, meta.fileExtension, meta.md5Hash, i, TotalChunks(file))
  }

  /** What the folder stages for the file id once chunks 0..i-1 have arrived. */
  function StagingAfter(staging: map<string, map<int, Bytes>>, fileId: string, file: Bytes, i: nat)
    : map<string, map<int, Bytes>>
  {
    if i == 0 then staging else staging[fileId := StagedSlices(file, i)]
  }

  /** A second update of the same key overrides the first. */
  lemma UpdateTwice<K, V>(m: map<K, V>, k: K, a: V, b: V)
    ensures m[k := a][k := b] == m[k := b]
  {
  }

  /** Staging chunk i on top of chunks 0..i-1 gives chunks 0..i. */
  lemma StageNext(folder: Folder, staging: map<string, map<int, Bytes>>, file: Bytes, meta: FileMeta, i: nat)
    requires meta.fileId !in staging
    requires folder.staging == StagingAfter(staging, meta.fileId, file, i)
    ensures Staged(folder, MetaOf(file, meta, i), Slice(file, ChunkSize, i)) == StagedSlices(file, i + 1)
    ensures |StagedSlices(file, i + 1).Keys| == i + 1
    ensures folder.staging[meta.fileId := StagedSlices(file, i + 1)] == StagingAfter(staging, meta.fileId, file, i + 1)
  {
    if i > 0 {
      UpdateTwice(staging, meta.fileId, StagedSlices(file, i), StagedSlices(file, i + 1));
    }
    var chunks := Staged(folder, MetaOf(file, meta, i), Slice(file, ChunkSize, i));
    assert chunks.Keys == Indices(i + 1);
  }

  /** Removing the file id's staging area undoes every chunk staged for it. */
  lemma StagingRestored(staging: map<string, map<int, Bytes>>, fileId: string, file: Bytes, i: nat)
    requires fileId !in staging
    ensures StagingAfter(staging, fileId, file, i) - {fileId} == staging
  {
    assert staging - {fileId} == staging;
    assert staging[fileId := StagedSlices(file, i)] - {fileId} == staging;
  }

  /**
   * UploadHandler on a form ParseForm accepts, posted with write access: the
   * chunk is staged and, while the set is incomplete, nothing else happens;
   * the post that completes it with the job free assembles the file.
   */
  method PostChunk(form: Form, m: ChunkMeta, chunk: Bytes, claims: Claims, folderId: string, isUuid: string -> bool,
                   folder: Folder, registry: Registry, now: int, md5: Md5)
    returns (outcome: Option<AssembleOutcome>, folder': Folder, registry': Registry)
    requires Allowed(claims, folderId, "w")
    requires ParseForm(Success(form), isUuid) == Success((m, chunk))
    ensures |Staged(folder, m, chunk).Keys| != m.totalChunks ==>
      && outcome.None?
      && folder' == folder.(staging := folder.staging[m.fileId := Staged(folder, m, chunk)])
      && registry' == registry
    ensures |Staged(folder, m, chunk).Keys| == m.totalChunks && !Held(registry, m.fileId) ==>
      var chunks := Staged(folder, m, chunk);
      && outcome.Some?
      && folder'.staging == folder.staging - {m.fileId}
      && registry' == Release(Acquire(registry, m.fileId, now).1, m.fileId)
      && (FirstAbsent(chunks, m.totalChunks).None? && HashMatches(md5, Joined(chunks, m.totalChunks), m.md5Hash) ==>
            && outcome.value.Assembled?
            && outcome.value.name !in folder.files
            && folder'.files == folder.files[outcome.value.name := Joined(chunks, m.totalChunks)])
  {
    var r;
    r, folder', registry' := UploadHandler(Post, Some(claims), folderId, Success(form), isUuid,
                                           folder, registry, now, md5, false);
    outcome := r.value;
  }

  /** Posting chunk i of a file with more than i+1 chunks stages it and does nothing else. */
  method PostStaging(file: Bytes, meta: FileMeta, claims: Claims, folderId: string, isUuid: string -> bool,
                     folder: Folder, staging: map<string, map<int, Bytes>>, registry: Registry, now: int, md5: Md5,
                     i: nat)
    returns (folder': Folder, registry': Registry)
    requires i + 1 < TotalChunks(file) <= MaxInt64
    requires Describes(meta, isUuid)
    requires Allowed(claims, folderId, "w")
    requires meta.fileId !in staging && folder.staging == StagingAfter(staging, meta.fileId, file, i)
    ensures folder' == folder.(staging := StagingAfter(staging, meta.fileId, file, i + 1))
    ensures registry' == registry
  {
    ClientFormAccepted(file, meta, i, isUuid);
    StageNext(folder, staging, file, meta, i);
    var outcome;
    outcome, folder', registry' := PostChunk(ChunkForm(file, meta, i), MetaOf(file, meta, i), Slice(file, ChunkSize, i),
                                             claims, folderId, isUuid, folder, registry, now, md5);
  }

  /**
   * Posting chunks 0..n-1 of a file with more than n chunks only stages them:
   * no assembly starts, the files and the registry are untouched.
   */
  method StageChunks(file: Bytes, meta: FileMeta, claims: Claims, folderId: string, isUuid: string -> bool,
                     folder: Folder, registry: Registry, now: int, md5: Md5, n: nat)
    returns (folder': Folder, registry': Registry)
    requires n < TotalChunks(file) <= MaxInt64
    requires Describes(meta, isUuid)
    requires Allowed(claims, folderId, "w")
    requires meta.fileId !in folder.staging
    ensures folder'.files == folder.files
    ensures folder'.staging == StagingAfter(folder.staging, meta.fileId, file, n)
    ensures registry' == registry
  {
    folder', registry' := folder, registry;
    var i: nat := 0;
    while i < n
      invariant i <= n
      invariant folder' == folder.(staging := StagingAfter(folder.staging, meta.fileId, file, i))
      invariant registry' == registry
    {
      folder', registry' := PostStaging(file, meta, claims, folderId, isUuid, folder', folder.staging, registry', now, md5, i);
      i := i + 1;
    }
  }

  /**
   * Posting the last chunk of a file whose other chunks are staged, with the
   * job free, assembles exactly the file under a fresh name, removes its
   * staging area and frees the job again.
   */
  method PostLast(file: Bytes, meta: FileMeta, claims: Claims, folderId: string, isUuid: string -> bool,
                  folder: Folder, staging: map<string, map<int, Bytes>>, registry: Registry, now: int, md5: Md5)
    returns (outcome: AssembleOutcome, folder': Folder, registry': Registry)
    requires 0 < TotalChunks(file) <= MaxInt64
    requires Describes(meta, isUuid) && meta.md5Hash == Encode(md5(file))
    requires Allowed(claims, folderId, "w")
    requires meta.fileId !in staging && folder.staging == StagingAfter(staging, meta.fileId, file, TotalChunks(file) - 1)
    requires !Held(registry, meta.fileId)
    ensures outcome.Assembled? && outcome.name !in folder.files
    ensures folder'.files == folder.files[outcome.name := file]
    ensures folder'.staging == staging
    ensures registry' == registry
  {
    AcquireReleaseRestores(registry, meta.fileId, now);
    StagingRestored(staging, meta.fileId, file, TotalChunks(file) - 1);
    outcome, folder', registry' := PostLastChunk(file, meta, claims, folderId, isUuid, folder, staging, registry, now, md5);
  }

  /** PostChunk on the last chunk's form, in the state PostLast starts from. */
  method PostLastChunk(file: Bytes, meta: FileMeta, claims: Claims, folderId: string, isUuid: string -> bool,
                       folder: Folder, staging: map<string, map<int, Bytes>>, registry: Registry, now: int, md5: Md5)
    returns (outcome: AssembleOutcome, folder': Folder, registry': Registry)
    requires 0 < TotalChunks(file) <= MaxInt64
    requires Describes(meta, isUuid) && meta.md5Hash == Encode(md5(file))
    requires Allowed(claims, folderId, "w")
    requires meta.fileId !in staging && folder.staging == StagingAfter(staging, meta.fileId, file, TotalChunks(file) - 1)
    requires !Held(registry, meta.fileId)
    ensures outcome.Assembled? && outcome.name !in folder.files
    ensures folder'.files == folder.files[outcome.name := file]
    ensures folder'.staging == folder.staging - {meta.fileId}
    ensures registry' == Release(Acquire(registry, meta.fileId, now).1, meta.fileId)
  {
    var last: nat := TotalChunks(file) - 1;
    ClientFormAccepted(file, meta, last, isUuid);
    StageNext(folder, staging, file, meta, last);
    AllStaged(file);
    DeclaredDigestMatches(file, md5);
    StagedSlicesJoin(file);
    var result;
    result, folder', registry' := PostChunk(ChunkForm(file, meta, last), MetaOf(file, meta, last),
                                            Slice(file, ChunkSize, last), claims, folderId, isUuid,
                                            folder, registry, now, md5);
    outcome := result.value;
  }

  /** Every index below the chunk count is staged once all chunks have arrived. */
  lemma AllStaged(file: Bytes)
    ensures FirstAbsent(StagedSlices(file, TotalChunks(file)), TotalChunks(file)).None?
  {
  }

  /**
   * One upload end to end: the browser's forms for a non-empty file are
   * posted in index order by a caller with write access, to a folder with
   * nothing staged for the file id and a free job on it. Every post but the
   * last only stages its chunk; the last completes the set and the file is
   * assembled under a fresh name with exactly the original bytes, its
   * staging area removed and the job released.
   */
  method UploadFile(file: Bytes, meta: FileMeta, claims: Claims, folderId: string, isUuid: string -> bool,
                    folder: Folder, registry: Registry, now: int, md5: Md5)
    returns (outcome: AssembleOutcome, folder': Folder, registry': Registry)
    requires 0 < |file| && TotalChunks(file) <= MaxInt64
    requires Describes(meta, isUuid) && meta.md5Hash == Encode(md5(file))
    requires Allowed(claims, folderId, "w")
    requires meta.fileId !in folder.staging && !Held(registry, meta.fileId)
    ensures outcome.Assembled?
    ensures outcome.name !in folder.files
    ensures folder'.files == folder.files[outcome.name := file]
    ensures folder'.staging == folder.staging
    ensures registry' == registry
  {
    var staged, held := StageChunks(file, meta, claims, folderId, isUuid, folder, registry, now, md5, TotalChunks(file) - 1);
    outcome, folder', registry' := PostLast(file, meta, claims, folderId, isUuid, staged, folder.staging, held, now, md5);
  }
}
