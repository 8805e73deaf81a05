/**
 * Segmentation of a burst payload into transfers of at most the burst chunk
 * size, as the loops of lgw_spi_wb and lgw_spi_rb perform it
 * (libloragw/src/loragw_spi.mpsse.c).
 */
module Chunking {

  /** One low-level transfer: `len` bytes starting at `offset` in the caller's buffer. */
  datatype Span = Span(offset: nat, len: nat) {
    function End(): nat { offset + len }
  }

  function Min(a: nat, b: nat): nat { if a < b then a else b }

  /** The chunks still to transfer when the loop has issued `i` chunks and
      `todo` bytes remain: each iteration takes min(todo, chunk) bytes at
      offset i * chunk. */
  function ChunksFrom(todo: nat, i: nat, chunk: nat): (r: seq<Span>)
    requires 0 < chunk
    ensures (r == []) == (todo == 0)
    decreases todo
  {
    if todo == 0 then []
    else
      var n := Min(todo, chunk);
      var rest := ChunksFrom(todo - n, i + 1, chunk);
      [Span(i * chunk, n)] + rest
  }

  /** Chunk k of ChunksFrom(todo, i, chunk) covers
      [(i + k) * chunk, min((i + k + 1) * chunk, i * chunk + todo)), is
      non-empty and no longer than chunk, and the last one ends at
      i * chunk + todo. */
  lemma {:induction false} ChunksFromShape(todo: nat, i: nat, chunk: nat)
    requires 0 < chunk
    ensures var r := ChunksFrom(todo, i, chunk);
      (forall k :: 0 <= k < |r| ==> r[k].offset == (i + k) * chunk) &&
      (forall k :: 0 <= k < |r| ==> 0 < r[k].len <= chunk) &&
      (forall k :: 0 <= k < |r| ==> r[k].End() == Min(r[k].offset + chunk, i * chunk + todo)) &&
      (r != [] ==> r[|r| - 1].End() == i * chunk + todo)
    decreases todo
  {
    if todo > 0 {
      var n := Min(todo, chunk);
      ChunksFromShape(todo - n, i + 1, chunk);
      MulSucc(i, chunk);
      var r := ChunksFrom(todo, i, chunk);
      forall k | 0 < k < |r| ensures r[k].offset == (i + k) * chunk {
        assert (i + 1) + (k - 1) == i + k;
      }
    }
  }

  /** The loop's byte count: after i chunks, min(i * chunk, size) bytes are
      done and todo remain; one more chunk of n = min(todo, chunk) keeps
      that so. */
  lemma DoneStep(i: nat, chunk: nat, size: nat, todo: nat, n: nat)
    requires 0 < chunk && 0 < todo && Min(i * chunk, size) + todo == size && n == Min(todo, chunk)
    ensures Min((i + 1) * chunk, size) + (todo - n) == size
  {
  }

  /** All chunks of a burst of `size` bytes. */
  function Chunks(size: nat, chunk: nat): seq<Span>
    requires 0 < chunk
  {
    ChunksFrom(size, 0, chunk)
  }

  lemma MulLe(a: nat, b: nat, d: nat)
    ensures a <= b ==> a * d <= b * d
  {
  }

  lemma MulSucc(a: nat, d: nat)
    ensures (a + 1) * d == a * d + d
  {
  }

  /** x / d and x % d are determined by any quotient/remainder pair. */
  lemma DivMod(x: nat, d: nat, q: nat, r: nat)
    requires 0 <= r < d && x == q * d + r
    ensures x / d == q && x % d == r
  {
    var q', r' := x / d, x % d;
    assert x == q' * d + r';
    MulLe(q' + 1, q, d);
    MulLe(q + 1, q', d);
    MulSucc(q', d);
    MulSucc(q, d);
  }

  /** Chunks tile [0, size): the first starts at 0, each starts where the
      previous one ends, the last ends at size, and none is longer than the
      chunk size or empty. */
  lemma ChunksTile(size: nat, chunk: nat)
    requires 0 < chunk
    ensures var r := Chunks(size, chunk);
      (size > 0 ==> r[0].offset == 0 && r[|r| - 1].End() == size) &&
      (forall k :: 0 <= k < |r| ==> r[k].offset == k * chunk && 0 < r[k].len <= chunk) &&
      (forall k :: 0 <= k < |r| ==> r[k].End() == Min(r[k].offset + chunk, size)) &&
      (forall k :: 0 < k < |r| ==> r[k].offset == r[k - 1].End())
  {
    var r := Chunks(size, chunk);
    ChunksFromShape(size, 0, chunk);
    forall k | 0 < k < |r| ensures r[k].offset == r[k - 1].End() {
      MulSucc(k - 1, chunk);
    }
  }

  /** Where the loop stands after i chunks, with todo bytes left: it goes
      on exactly while chunks remain, and the next chunk starts at
      i * chunk and takes min(todo, chunk) bytes. */
  lemma ChunkAt(size: nat, chunk: nat, i: nat, todo: nat)
    requires 0 < chunk && i <= |Chunks(size, chunk)| && Min(i * chunk, size) + todo == size
    ensures (i < |Chunks(size, chunk)|) == (todo > 0)
    ensures todo > 0 ==> Chunks(size, chunk)[i] == Span(i * chunk, Min(todo, chunk))
  {
    var r := Chunks(size, chunk);
    ChunksTile(size, chunk);
    if i < |r| {
      assert r[i].offset == i * chunk < r[i].End() <= size;
    } else if r != [] {
      MulSucc(i - 1, chunk);
    }
  }

  /** A burst of `size` bytes takes ceil(size / chunk) transfers. */
  lemma ChunkCount(size: nat, chunk: nat)
    requires 0 < chunk
    ensures |Chunks(size, chunk)| == (size + chunk - 1) / chunk
  {
    var r := Chunks(size, chunk);
    var n := |r|;
    ChunksTile(size, chunk);
    if n == 0 {
      DivMod(size + chunk - 1, chunk, 0, chunk - 1);
    } else {
      MulSucc(n - 1, chunk);
      DivMod(size + chunk - 1, chunk, n, size + chunk - 1 - n * chunk);
    }
  }

  /** Total length of a list of transfers. */
  function TotalLen(spans: seq<Span>): nat
  {
    if spans == [] then 0 else TotalLen(spans[..|spans| - 1]) + spans[|spans| - 1].len
  }

  /** The first m chunks carry exactly the bytes [0, min(m * chunk, size)). */
  lemma {:induction false} ChunksPrefixEnd(size: nat, chunk: nat, m: nat)
    requires 0 < chunk && m <= |Chunks(size, chunk)|
    ensures TotalLen(Chunks(size, chunk)[..m]) == Min(m * chunk, size)
    ensures m > 0 ==> Chunks(size, chunk)[m - 1].End() == Min(m * chunk, size)
  {
    var r := Chunks(size, chunk);
    if m > 0 {
      ChunksTile(size, chunk);
      ChunksPrefixEnd(size, chunk, m - 1);
      assert r[..m][..m - 1] == r[..m - 1];
      MulSucc(m - 1, chunk);
    }
  }

  /** The transfer lengths of a burst add up to its size. */
  lemma ChunksSum(size: nat, chunk: nat)
    requires 0 < chunk
    ensures TotalLen(Chunks(size, chunk)) == size
  {
    var r := Chunks(size, chunk);
    ChunksPrefixEnd(size, chunk, |r|);
    assert r[..|r|] == r;
    CoverBound(size, chunk);
  }

  /** The byte at position p of a burst travels in transfer p / chunk, at
      position p % chunk inside it. */
  lemma ChunkOf(size: nat, chunk: nat, p: nat)
    requires 0 < chunk && p < size
    ensures var r := Chunks(size, chunk);
      p / chunk < |r| &&
      r[p / chunk].offset <= p < r[p / chunk].End() &&
      p - r[p / chunk].offset == p % chunk
  {
    var q := p / chunk;
    ChunkIndex(size, chunk, p);
    ChunkAt(size, chunk, q, size - q * chunk);
  }

  /** Position p lies in chunk number p / chunk, which exists. */
  lemma ChunkIndex(size: nat, chunk: nat, p: nat)
    requires 0 < chunk && p < size
    ensures p / chunk * chunk <= p < p / chunk * chunk + chunk
    ensures p / chunk < |Chunks(size, chunk)|
  {
    var q := p / chunk;
    assert p == q * chunk + p % chunk;
    CoverBound(size, chunk);
    MulLe(|Chunks(size, chunk)|, q, chunk);
  }

  /** The chunks reach at least to size: size <= |Chunks| * chunk. */
  lemma CoverBound(size: nat, chunk: nat)
    requires 0 < chunk
    ensures size <= |Chunks(size, chunk)| * chunk
  {
    var r := Chunks(size, chunk);
    ChunksTile(size, chunk);
    if r != [] {
      MulSucc(|r| - 1, chunk);
      assert r[|r| - 1].End() == size;
    }
  }
}
