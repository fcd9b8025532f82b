/**
 * The sequential server-side splitter (internal/downloader/chunk_handler.go,
 * ChunkFile). The file's content arrives as the outcome of opening and reading it; each
 * read fills the buffer with min(chunkSize, remaining) bytes, and whether the
 * read of step i or the create/write of chunk i fails is a parameter.
 */
module Splitter {
  import opened Wrappers
  import opened Text
  import opened Hex
  import opened Digests
  import opened Slicing

  /** ChunkMeta of the downloader package: where chunk i went and the MD5 of its bytes. */
  datatype ChunkRecord = ChunkRecord(fileName: string, md5Hash: string, index: nat)

  /** The "%s.chunk.%d" name of chunk i. */
  function ChunkName(filePath: string, i: nat): (name: string)
    ensures filePath <= name && |name| > |filePath| + |".chunk."|
  {
    filePath + ".chunk." + NatToString(i)
  }

  /** Different indices give different chunk files. */
  lemma ChunkNameInjective(filePath: string, i: nat, j: nat)
    requires ChunkName(filePath, i) == ChunkName(filePath, j)
    ensures i == j
  {
    var k := |filePath + ".chunk."|;
    assert ChunkName(filePath, i)[k..] == NatToString(i);
    assert ChunkName(filePath, j)[k..] == NatToString(j);
    NatToStringInjective(i, j);
  }

  /** The record the splitter appends for chunk i. */
  function Record(filePath: string, content: Bytes, chunkSize: nat, md5: Md5, i: nat): ChunkRecord
    requires chunkSize > 0
  {
    ChunkRecord(ChunkName(filePath, i), Encode(md5(Slice(content, chunkSize, i))), i)
  }

  /** The records of chunks 0..k-1. */
  function Records(filePath: string, content: Bytes, chunkSize: nat, md5: Md5, k: nat): (rs: seq<ChunkRecord>)
    requires chunkSize > 0
    ensures |rs| == k && forall i :: 0 <= i < k ==> rs[i] == Record(filePath, content, chunkSize, md5, i)
  {
    seq(k, i requires 0 <= i < k => Record(filePath, content, chunkSize, md5, i))
  }

  lemma RecordsSnoc(filePath: string, content: Bytes, chunkSize: nat, md5: Md5, k: nat)
    requires chunkSize > 0
    ensures Records(filePath, content, chunkSize, md5, k + 1)
         == Records(filePath, content, chunkSize, md5, k) + [Record(filePath, content, chunkSize, md5, k)]
  {
  }

  /** The chunk files after k chunks have been written: name of chunk i to piece i. */
  function Written(filePath: string, content: Bytes, chunkSize: nat, k: nat): (files: map<string, Bytes>)
    requires chunkSize > 0
    ensures forall name :: name in files ==> exists i :: 0 <= i < k && name == ChunkName(filePath, i)
  {
    if k == 0 then map[]
    else Written(filePath, content, chunkSize, k - 1)[ChunkName(filePath, k - 1) := Slice(content, chunkSize, k - 1)]
  }

  /** Every chunk below k is in the written files with exactly its own bytes. */
  lemma {:induction false} WrittenHolds(filePath: string, content: Bytes, chunkSize: nat, k: nat, i: nat)
    requires chunkSize > 0 && i < k
    ensures ChunkName(filePath, i) in Written(filePath, content, chunkSize, k)
    ensures Written(filePath, content, chunkSize, k)[ChunkName(filePath, i)] == Slice(content, chunkSize, i)
  {
    if i < k - 1 {
      WrittenHolds(filePath, content, chunkSize, k - 1, i);
      if ChunkName(filePath, k - 1) == ChunkName(filePath, i) {
        ChunkNameInjective(filePath, k - 1, i);
      }
    }
  }

  /**
   * The first failure of the steps from i on: step j reads (its error counts
   * even at j == count, the read that meets the end of the file) and, below
   * count, then creates and writes chunk j.
   */
  function FirstError(readError: nat -> Option<string>, writeError: nat -> Option<string>,
                      count: nat, i: nat): Option<string>
    requires i <= count
    decreases count - i
  {
    if readError(i).Some? then readError(i)
    else if i == count then None
    else if writeError(i).Some? then writeError(i)
    else FirstError(readError, writeError, count, i + 1)
  }

  /** FirstError finds nothing exactly when no step from i on fails. */
  lemma {:induction false} FirstErrorNone(readError: nat -> Option<string>, writeError: nat -> Option<string>,
                                          count: nat, i: nat)
    requires i <= count
    ensures FirstError(readError, writeError, count, i).None? <==>
      (forall j :: i <= j <= count ==> readError(j).None?) &&
      (forall j :: i <= j < count ==> writeError(j).None?)
    decreases count - i
  {
    if readError(i).None? && i < count && writeError(i).None? {
      FirstErrorNone(readError, writeError, count, i + 1);
    }
  }

  /**
   * ChunkFile: the open error, or one record per chunk in read order; chunk i
   * is written to its own file. A zero chunk size reads nothing and yields no
   * chunks. On a failure the chunks before it stay written.
   */
  method ChunkFile(filePath: string, file: Result<Bytes, string>, chunkSize: nat, md5: Md5,
                   readError: nat -> Option<string>, writeError: nat -> Option<string>)
    returns (r: Result<seq<ChunkRecord>, string>, written: map<string, Bytes>)
    ensures file.Failure? ==> r == Failure(file.error) && written == map[]
    ensures file.Success? && chunkSize == 0 ==> r == Success([]) && written == map[]
    ensures file == Success([]) && (chunkSize == 0 || readError(0).None?) ==> r == Success([]) && written == map[]
    ensures file.Success? && chunkSize > 0 ==>
      var content := file.value;
      var count := ChunkCount(|content|, chunkSize);
      var failure := FirstError(readError, writeError, count, 0);
      && (r.Success? <==> failure.None?)
      && (r.Failure? ==> r.error == failure.value)
      && (r.Success? ==>
            && |r.value| == count
            && (forall i :: 0 <= i < count ==> r.value[i] == Record(filePath, content, chunkSize, md5, i))
            && written == Written(filePath, content, chunkSize, count))
      && (exists k :: 0 <= k <= count && written == Written(filePath, content, chunkSize, k))
  {
    if file.Failure? {
      return Failure(file.error), map[];
    }
    var content := file.value;
    if chunkSize == 0 {
      return Success([]), map[];
    }
    var count := ChunkCount(|content|, chunkSize);
    var records: seq<ChunkRecord> := [];
    written := map[];
    var index: nat := 0;
    var offset: nat := 0;
    while true
      invariant index <= count
      invariant offset == Min(index * chunkSize, |content|)
      invariant records == Records(filePath, content, chunkSize, md5, index)
      invariant written == Written(filePath, content, chunkSize, index)
      invariant FirstError(readError, writeError, count, 0) == FirstError(readError, writeError, count, index)
      decreases count - index
    {
      if readError(index).Some? {
        return Failure(readError(index).value), written;
      }
      var bytesRead := content[offset..Min(offset + chunkSize, |content|)];
      assert bytesRead == Slice(content, chunkSize, index);
      if |bytesRead| == 0 {
        break;
      }
      var name := ChunkName(filePath, index);
      if writeError(index).Some? {
        return Failure(writeError(index).value), written;
      }
      written := written[name := bytesRead];
      var record := ChunkRecord(name, Encode(md5(bytesRead)), index);
      assert record == Record(filePath, content, chunkSize, md5, index);
      RecordsSnoc(filePath, content, chunkSize, md5, index);
      records := records + [record];
      assert (index + 1) * chunkSize == index * chunkSize + chunkSize;
      index := index + 1;
      offset := Min(index * chunkSize, |content|);
    }
    return Success(records), written;
  }

  /**
   * A successful split tiles the file: the written chunk files, read in the
   * records' order, spell the content; each record names its own file and
   * carries the MD5 of exactly those bytes; no chunk is empty and every chunk
   * but the last holds chunkSize bytes.
   */
  lemma SplitTiles(filePath: string, content: Bytes, chunkSize: nat, md5: Md5,
                   records: seq<ChunkRecord>, written: map<string, Bytes>)
    requires chunkSize > 0
    requires |records| == ChunkCount(|content|, chunkSize)
    requires forall i :: 0 <= i < |records| ==> records[i] == Record(filePath, content, chunkSize, md5, i)
    requires written == Written(filePath, content, chunkSize, |records|)
    ensures forall i :: 0 <= i < |records| ==> records[i].fileName in written && records[i].index == i
    ensures forall i :: 0 <= i < |records| ==>
      records[i].md5Hash == Encode(md5(written[records[i].fileName]))
    ensures forall i :: 0 <= i < |records| ==> 0 < |written[records[i].fileName]| <= chunkSize
    ensures forall i :: 0 <= i < |records| - 1 ==> |written[records[i].fileName]| == chunkSize
    ensures Concat(seq(|records|, i requires 0 <= i < |records| => written[records[i].fileName])) == content
  {
    ReadBackSlices(filePath, content, chunkSize, md5, records, written);
    var n := |records|;
    PiecesTile(content, chunkSize, seq(n, i requires 0 <= i < n => written[records[i].fileName]));
  }

  /** Each record's file holds exactly that record's piece. */
  lemma ReadBackSlices(filePath: string, content: Bytes, chunkSize: nat, md5: Md5,
                       records: seq<ChunkRecord>, written: map<string, Bytes>)
    requires chunkSize > 0
    requires forall i :: 0 <= i < |records| ==> records[i] == Record(filePath, content, chunkSize, md5, i)
    requires written == Written(filePath, content, chunkSize, |records|)
    ensures forall i :: 0 <= i < |records| ==>
      records[i].fileName in written && written[records[i].fileName] == Slice(content, chunkSize, i)
  {
    forall i | 0 <= i < |records|
      ensures records[i].fileName in written && written[records[i].fileName] == Slice(content, chunkSize, i)
    {
      WrittenHolds(filePath, content, chunkSize, |records|, i);
    }
  }

  /** Pieces that are the content's slices, as many as the chunk count, spell the content. */
  lemma PiecesTile(content: Bytes, chunkSize: nat, pieces: seq<Bytes>)
    requires chunkSize > 0 && |pieces| == ChunkCount(|content|, chunkSize)
    requires forall i :: 0 <= i < |pieces| ==> pieces[i] == Slice(content, chunkSize, i)
    ensures Concat(pieces) == content
  {
    assert pieces == Slices(content, chunkSize, |pieces|);
    SlicesTile(content, chunkSize);
  }
}
