/**
 * Cutting a byte string into fixed-width pieces: piece i covers
 * [i*width, min(i*width + width, size)). The browser's createChunk and the
 * server's ChunkFile both cut this way.
 */
module Slicing {
  import opened Hex

  function Min(a: int, b: int): int {
    if a < b then a else b
  }

  /** Math.ceil(size / width): the number of pieces. */
  function ChunkCount(size: nat, width: nat): (n: nat)
    requires width > 0
    ensures n * width >= size
    ensures n > 0 ==> (n - 1) * width < size
    ensures size == 0 <==> n == 0
  {
    var n := (size + width - 1) / width;
    var r := (size + width - 1) % width;
    assert size + width - 1 == n * width + r;
    assert (n - 1) * width == n * width - width;
    n
  }

  /** i * width grows with i. */
  lemma MulMonotone(i: nat, j: nat, width: nat)
    requires i <= j
    ensures i * width <= j * width
  {
  }

  /**
   * Piece i: the content between the offsets i*width and i*width + width,
   * both clamped to the size. It is empty beyond the end, at most width bytes,
   * and exactly width bytes before the last piece.
   */
  function Slice(content: Bytes, width: nat, i: nat): (piece: Bytes)
    requires width > 0
    ensures |piece| <= width
    ensures i < ChunkCount(|content|, width) ==> 0 < |piece|
    ensures i + 1 < ChunkCount(|content|, width) ==> |piece| == width
    ensures i >= ChunkCount(|content|, width) ==> piece == []
  {
    var lo, hi := Min(i * width, |content|), Min(i * width + width, |content|);
    SliceLength(|content|, width, i);
    content[lo..hi]
  }

  /** The clamped offsets of piece i against the piece count. */
  lemma SliceLength(n: nat, width: nat, i: nat)
    requires width > 0
    ensures var lo, hi := Min(i * width, n), Min(i * width + width, n);
      && lo <= hi
      && hi - lo <= width
      && (i < ChunkCount(n, width) ==> lo < hi)
      && (i + 1 < ChunkCount(n, width) ==> hi - lo == width)
      && (i >= ChunkCount(n, width) ==> lo == hi)
  {
    var count := ChunkCount(n, width);
    if i < count {
      MulMonotone(i, count - 1, width);
      if i + 1 < count {
        MulMonotone(i + 1, count - 1, width);
        assert (i + 1) * width == i * width + width;
      }
    } else {
      MulMonotone(count, i, width);
    }
  }

  /** Pieces written one after another. */
  function Concat(pieces: seq<Bytes>): (content: Bytes) {
    if pieces == [] then [] else Concat(pieces[..|pieces| - 1]) + pieces[|pieces| - 1]
  }

  /** The first k pieces. */
  function Slices(content: Bytes, width: nat, k: nat): (pieces: seq<Bytes>)
    requires width > 0
    ensures |pieces| == k && forall i :: 0 <= i < k ==> pieces[i] == Slice(content, width, i)
  {
    seq(k, i requires 0 <= i < k => Slice(content, width, i))
  }

  /** The first k pieces spell the content up to k*width. */
  lemma {:induction false} SlicesPrefix(content: Bytes, width: nat, k: nat)
    requires width > 0
    ensures Concat(Slices(content, width, k)) == content[..Min(k * width, |content|)]
  {
    if k > 0 {
      SlicesPrefix(content, width, k - 1);
      var lo := (k - 1) * width;
      assert lo + width == k * width;
      SliceSpan(content, width, k - 1, lo);
      SlicesStep(content, width, k, Min(lo, |content|), Min(lo + width, |content|));
    }
  }

  /** Appending piece k - 1, which spans [a, b), to a prefix ending at a gives the prefix ending at b. */
  lemma SlicesStep(content: Bytes, width: nat, k: nat, a: nat, b: nat)
    requires width > 0 && k > 0 && a <= b <= |content|
    requires Concat(Slices(content, width, k - 1)) == content[..a]
    requires Slice(content, width, k - 1) == content[a..b]
    ensures Concat(Slices(content, width, k)) == content[..b]
  {
    assert Slices(content, width, k)[..k - 1] == Slices(content, width, k - 1);
    PrefixThenSlice(content, a, b);
  }

  /** Piece i spans the clamped offsets lo and lo + width, where lo is i*width. */
  lemma SliceSpan(content: Bytes, width: nat, i: nat, lo: nat)
    requires width > 0 && lo == i * width
    ensures Slice(content, width, i) == content[Min(lo, |content|)..Min(lo + width, |content|)]
  {
  }

  lemma PrefixThenSlice<T>(s: seq<T>, a: nat, b: nat)
    requires a <= b <= |s|
    ensures s[..a] + s[a..b] == s[..b]
  {
  }

  /** The pieces tile the content: together, in order, they are exactly it. */
  lemma SlicesTile(content: Bytes, width: nat)
    requires width > 0
    ensures Concat(Slices(content, width, ChunkCount(|content|, width))) == content
  {
    SlicesPrefix(content, width, ChunkCount(|content|, width));
  }
}
