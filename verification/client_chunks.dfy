/**
 * The browser's side of an upload (web-interface/src/services/chunkFile.ts):
 * cutting the file into 5 MiB chunk forms, posting one chunk with bounded
 * retries, and posting all chunks in batches. The network is a parameter:
 * outcome(k) says how attempt k of a post ended.
 */
module ClientChunks {
  import opened Wrappers
  import opened Text
  import opened Hex
  import opened Slicing
  import opened Upload

  /** MAX_CHUNK_SIZE_MB * 1024 * 1024. */
  const ChunkSize: nat := 5 * 1024 * 1024
  const MaxChunkRetries: nat := 5
  const MaxConcurrentChunks: nat := 6

  /** What the page knows of a file before it is sent. */
  datatype FileMeta = FileMeta(fileId: string, fileName: string, fileExtension: string, md5Hash: string)

  /** The chunk count a file of this size is announced with: Math.ceil(size / CHUNK_SIZE). */
  function TotalChunks(file: Bytes): nat {
    ChunkCount(|file|, ChunkSize)
  }

  /** The form createChunk builds for chunk i, its fields in the order they are appended. */
  function ChunkForm(file: Bytes, meta: FileMeta, i: nat): Form {
    Form(map["fileId" := meta.fileId, "fileName" := meta.fileName, "fileExtension" := meta.fileExtension,
             "md5Hash" := meta.md5Hash, "chunkIndex" := NatToString(i),
             "totalChunks" := NatToString(TotalChunks(file))],
         [Slice(file, ChunkSize, i)])
  }

  /** The server reads the chunk form's numbers back as the values the browser wrote. */
  lemma ChunkFormReadBack(file: Bytes, meta: FileMeta, i: nat)
    ensures i <= MaxInt64 ==> Atoi(FormValue(ChunkForm(file, meta, i), "chunkIndex")) == Some(i)
    ensures TotalChunks(file) <= MaxInt64 ==> Atoi(FormValue(ChunkForm(file, meta, i), "totalChunks")) == Some(TotalChunks(file))
  {
    if i <= MaxInt64 {
      AtoiNatToString(i);
    }
    if TotalChunks(file) <= MaxInt64 {
      AtoiNatToString(TotalChunks(file));
    }
  }

  /**
   * createChunk: "Invalid file" without a file, "Invalid chunk number" for a
   * negative index, otherwise a form carrying the file's metadata, the index,
   * the chunk count and bytes [i*S, min(i*S + S, size)).
   */
  function CreateChunk(file: Option<Bytes>, meta: FileMeta, chunkIndex: int): (r: Result<Form, string>)
    ensures file.None? ==> r == Failure("Invalid file")
    ensures file.Some? && chunkIndex < 0 ==> r == Failure("Invalid chunk number")
    ensures r.Success? <==> file.Some? && chunkIndex >= 0
    ensures r.Success? ==>
      && FormValue(r.value, "fileId") == meta.fileId
      && FormValue(r.value, "fileName") == meta.fileName
      && FormValue(r.value, "fileExtension") == meta.fileExtension
      && FormValue(r.value, "md5Hash") == meta.md5Hash
      && (chunkIndex <= MaxInt64 ==> Atoi(FormValue(r.value, "chunkIndex")) == Some(chunkIndex))
      && (TotalChunks(file.value) <= MaxInt64 ==> Atoi(FormValue(r.value, "totalChunks")) == Some(TotalChunks(file.value)))
      && |r.value.chunks| == 1
      && r.value.chunks[0] == file.value[Min(chunkIndex * ChunkSize, |file.value|)..Min(chunkIndex * ChunkSize + ChunkSize, |file.value|)]
  {
    if file.None? then Failure("Invalid file")
    else if chunkIndex < 0 then Failure("Invalid chunk number")
    else
      ChunkFormReadBack(file.value, meta, chunkIndex);
      Success(ChunkForm(file.value, meta, chunkIndex))
  }

  // ---------------------------------------------------------------------
  // uploadChunk
  // ---------------------------------------------------------------------

  /** What uploadChunk resolves to. */
  datatype UploadResponse = UploadResponse(success: bool, error: Option<string>)

  /** One uploadChunk call: its response, how many posts it made and how often it reported progress. */
  datatype Posting = Posting(response: UploadResponse, attempts: nat, progressCalls: nat)

  /**
   * uploadChunk from retry on: post; on an ok response report progress once
   * and succeed; on a failure give up with "Max retries exceeded: <message>"
   * once retry has reached MAX_CHUNK_RETRIES, else post again. outcome(k) is
   * None for an ok response to attempt k and the error message otherwise.
   */
  function UploadChunk(outcome: nat -> Option<string>, retry: nat): (p: Posting)
    ensures 1 <= p.attempts
    ensures retry <= MaxChunkRetries ==> p.attempts <= MaxChunkRetries + 1 - retry
    ensures retry > MaxChunkRetries ==> p.attempts == 1
    ensures p.progressCalls == if p.response.success then 1 else 0
    ensures forall k :: retry <= k < retry + p.attempts - 1 ==> outcome(k).Some?
    ensures p.response.success <==> outcome(retry + p.attempts - 1).None?
    ensures p.response.success ==> p.response.error.None?
    ensures !p.response.success ==>
      && retry + p.attempts - 1 >= MaxChunkRetries
      && p.response.error == Some("Max retries exceeded: " + outcome(retry + p.attempts - 1).value)
    decreases if retry < MaxChunkRetries then MaxChunkRetries - retry else 0
  {
    match outcome(retry)
    case None => Posting(UploadResponse(true, None), 1, 1)
    case Some(message) =>
      if retry >= MaxChunkRetries then Posting(UploadResponse(false, Some("Max retries exceeded: " + message)), 1, 0)
      else
        var p := UploadChunk(outcome, retry + 1);
        p.(attempts := p.attempts + 1)
  }

  /** Whether some attempt from retry up to the last one allowed succeeds. */
  predicate SomeAttemptSucceeds(outcome: nat -> Option<string>, retry: nat) {
    exists k :: retry <= k <= (if retry < MaxChunkRetries then MaxChunkRetries else retry) && outcome(k).None?
  }

  /** A post succeeds exactly when one of the at most six attempts does. */
  lemma {:induction false} UploadChunkSucceeds(outcome: nat -> Option<string>, retry: nat)
    ensures UploadChunk(outcome, retry).response.success <==> SomeAttemptSucceeds(outcome, retry)
    decreases if retry < MaxChunkRetries then MaxChunkRetries - retry else 0
  {
    if outcome(retry).Some? && retry < MaxChunkRetries {
      UploadChunkSucceeds(outcome, retry + 1);
      if SomeAttemptSucceeds(outcome, retry) {
        var k :| retry <= k <= MaxChunkRetries && outcome(k).None?;
        assert k != retry;
      }
    }
  }

  // ---------------------------------------------------------------------
  // chunkAndUpload
  // ---------------------------------------------------------------------

  /** Whether the post of chunk i succeeds; outcomes(i) is the network's answer to its attempts. */
  predicate Delivered(outcomes: nat -> nat -> Option<string>, i: nat) {
    UploadChunk(outcomes(i), 0).response.success
  }

  /** The first index of the batch of MAX_CONCURRENT_CHUNKS that index n falls in. */
  function BatchStart(n: nat): (start: nat)
    ensures start % MaxConcurrentChunks == 0 && start <= n < start + MaxConcurrentChunks
  {
    n / MaxConcurrentChunks * MaxConcurrentChunks
  }

  /** A batch boundary at or below n and within one batch of it is n's batch start. */
  lemma BatchStartUnique(start: nat, n: nat)
    requires start % MaxConcurrentChunks == 0 && start <= n < start + MaxConcurrentChunks
    ensures BatchStart(n) == start
  {
  }

  /** Batch boundaries up to n stay at or below n's batch start. */
  lemma BatchStartBound(b: nat, n: nat)
    requires MaxConcurrentChunks * b <= n
    ensures MaxConcurrentChunks * b <= BatchStart(n)
  {
  }

  /**
   * How many chunks have their results awaited before success is reported,
   * when a batch is awaited once it holds MAX_CONCURRENT_CHUNKS posts or
   * right after the post of chunk flushIndex.
   */
  function Checked(total: nat, flushIndex: int): (n: nat)
    requires flushIndex == total || flushIndex == total - 1
    ensures n <= total
    ensures flushIndex == total ==> n % MaxConcurrentChunks == 0 && total - n < MaxConcurrentChunks
    ensures flushIndex == total - 1 ==> n == total
  {
    if flushIndex == total - 1 then total else BatchStart(total)
  }

  /**
   * The batching loop of chunkAndUpload over total chunks, given whether
   * each chunk's post succeeds and the index after whose post a partial batch
   * is awaited. It posts chunks in index order and stops at the first awaited
   * batch holding a failed post; posted counts the chunks it posted.
   */
  method PostBatches(total: nat, delivered: nat -> bool, flushIndex: int)
    returns (r: UploadResponse, posted: nat)
    requires flushIndex == total || flushIndex == total - 1
    ensures posted <= total
    ensures r.success <==> forall i :: 0 <= i < Checked(total, flushIndex) ==> delivered(i)
    ensures r.success ==> r.error.None? && posted == total
    ensures !r.success ==>
      && r.error == Some("Chunk upload failed")
      && 0 < posted && (posted % MaxConcurrentChunks == 0 || posted - 1 == flushIndex)
      && (forall i :: 0 <= i < BatchStart(posted - 1) ==> delivered(i))
      && (exists i :: BatchStart(posted - 1) <= i < posted && !delivered(i))
  {
    var pending: seq<bool> := [];
    ghost var start: nat := 0;
    ghost var batches: nat := 0;
    var i: nat := 0;
    while i < total
      invariant i <= total
      invariant start <= i < start + MaxConcurrentChunks
      invariant i <= flushIndex ==> start == MaxConcurrentChunks * batches
      invariant i > flushIndex ==> start == i
      invariant |pending| == i - start
      invariant forall k :: 0 <= k < |pending| ==> pending[k] == delivered(start + k)
      invariant forall j :: 0 <= j < start ==> delivered(j)
    {
      pending := pending + [delivered(i)];
      if |pending| >= MaxConcurrentChunks || i == flushIndex {
        if false in pending {
          var k :| 0 <= k < |pending| && !pending[k];
          BatchStartUnique(start, i);
          assert !delivered(start + k);
          if i != flushIndex {
            BatchStartBound(batches + 1, total);
          }
          return UploadResponse(false, Some("Chunk upload failed")), i + 1;
        }
        forall j | start <= j <= i
          ensures delivered(j)
        {
          assert pending[j - start];
        }
        pending := [];
        start := i + 1;
        batches := batches + 1;
      }
      i := i + 1;
    }
    if flushIndex == total {
      BatchStartUnique(start, total);
    }
    return UploadResponse(true, None), total;
  }

  /** The forms of chunks 0..n-1, in the order they are posted. */
  function Forms(file: Bytes, meta: FileMeta, n: nat): (forms: seq<Form>)
    ensures |forms| == n && forall i :: 0 <= i < n ==> forms[i] == ChunkForm(file, meta, i)
  {
    seq(n, i requires 0 <= i < n => ChunkForm(file, meta, i))
  }

  /**
   * chunkAndUpload as written: "No file provided" without a file; otherwise
   * the batches are awaited when full or when chunkIndex === totalChunks,
   * which never holds inside the loop, so the trailing partial batch is never
   * awaited.
   */
  method ChunkAndUploadAsWritten(file: Option<Bytes>, meta: FileMeta, outcomes: nat -> nat -> Option<string>)
    returns (r: UploadResponse, sent: seq<Form>)
    ensures file.None? ==> r == UploadResponse(false, Some("No file provided")) && sent == []
    ensures file == Some([]) ==> r == UploadResponse(true, None) && sent == []
    ensures file.Some? ==>
      var total := TotalChunks(file.value);
      && (r.success <==> forall i :: 0 <= i < Checked(total, total) ==> Delivered(outcomes, i))
      && (r.success ==> |sent| == total)
      && (forall i :: 0 <= i < |sent| ==> sent[i] == ChunkForm(file.value, meta, i))
  {
    if file.None? {
      return UploadResponse(false, Some("No file provided")), [];
    }
    var total := TotalChunks(file.value);
    var delivered := (i: nat) => Delivered(outcomes, i);
    var posted;
    r, posted := PostBatches(total, delivered, total);
    forall i: nat ensures delivered(i) == Delivered(outcomes, i) {
    }
    sent := Forms(file.value, meta, posted);
  }

  /**
   * chunkAndUpload with the last batch awaited after the post of chunk
   * totalChunks - 1: success now means every chunk was delivered.
   */
  method ChunkAndUpload(file: Option<Bytes>, meta: FileMeta, outcomes: nat -> nat -> Option<string>)
    returns (r: UploadResponse, sent: seq<Form>)
    ensures file.None? ==> r == UploadResponse(false, Some("No file provided")) && sent == []
    ensures file == Some([]) ==> r == UploadResponse(true, None) && sent == []
    ensures file.Some? ==>
      var total := TotalChunks(file.value);
      && (r.success <==> forall i :: 0 <= i < total ==> Delivered(outcomes, i))
      && (r.success ==> |sent| == total)
      && (forall i :: 0 <= i < |sent| ==> sent[i] == ChunkForm(file.value, meta, i))
      && (!r.success ==> r.error == Some("Chunk upload failed"))
  {
    if file.None? {
      return UploadResponse(false, Some("No file provided")), [];
    }
    var total := TotalChunks(file.value);
    var delivered := (i: nat) => Delivered(outcomes, i);
    var posted;
    r, posted := PostBatches(total, delivered, total as int - 1);
    forall i: nat ensures delivered(i) == Delivered(outcomes, i) {
    }
    sent := Forms(file.value, meta, posted);
  }

  /** A non-empty file of at most CHUNK_SIZE bytes is one chunk. */
  lemma OneChunk(file: Bytes)
    requires 0 < |file| <= ChunkSize
    ensures TotalChunks(file) == 1
  {
    var n := TotalChunks(file);
    if n >= 2 {
      MulMonotone(1, n - 1, ChunkSize);
    }
  }

  /** A network that answers every post of every chunk with a server error. */
  function ServerDown(i: nat): nat -> Option<string> {
    (k: nat) => Some("HTTP 500")
  }

  /** Against that network no chunk is delivered. */
  lemma ServerDownDelivers(i: nat)
    ensures !Delivered(ServerDown, i)
  {
    assert !SomeAttemptSucceeds(ServerDown(i), 0);
    UploadChunkSucceeds(ServerDown(i), 0);
  }

  /**
   * With fewer than MAX_CONCURRENT_CHUNKS chunks nothing is awaited as
   * written: a one-chunk file is reported as uploaded even when its post
   * fails, while awaiting the last batch reports the failure.
   */
  lemma TrailingBatchUnchecked(file: Bytes)
    requires 0 < |file| <= ChunkSize
    ensures !Delivered(ServerDown, 0)
    ensures Checked(TotalChunks(file), TotalChunks(file)) == 0
    ensures Checked(TotalChunks(file), TotalChunks(file) - 1) == 1
  {
    OneChunk(file);
    ServerDownDelivers(0);
  }
}
