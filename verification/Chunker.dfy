/** Content-defined chunking (crates/openvault-core/src/incremental.rs). */
module Chunker {
  import opened Common

  const TWO32: nat := 0x1_0000_0000

  /** A u32 value. */
  type Word = h: nat | h < TWO32

  datatype Params = Params(minChunk: nat, maxChunk: nat, mask: Word, window: nat)

  /** The source only builds windows of 32, 48 and 64 bytes. */
  type Config = c: Params | c.window > 0 witness Params(4096, 1048576, 0x1FFF, 48)

  datatype Chunk = Chunk(hash: string, data: Bytes, offset: int, size: int)

  // ---------------------------------------------------------------- rolling hash

  /** Bitwise AND of two naturals. */
  function And(x: nat, y: nat): nat
    decreases x, 1
  {
    if x == 0 || y == 0 then 0 else LowBit(x, y)
  }

  /** The lowest bit and the others. */
  function LowBit(x: nat, y: nat): nat
    requires x > 0
    decreases x, 0
  {
    (if x % 2 == 1 && y % 2 == 1 then 1 else 0) + 2 * And(x / 2, y / 2)
  }

  /** What the update subtracts for an outgoing byte. The shift is an 8-bit wrapping
      one: its amount counts modulo 8, and the bits shifted out of the byte are lost. */
  function Removed(window: nat, b: Byte): Byte {
    b << (window % 8)
  }

  function WrappingSub(h: Word, b: Byte): Word {
    (h - b as int) % TWO32
  }

  /** wrapping_shl(1) followed by wrapping_add. */
  function Push(h: Word, b: Byte): Word {
    (h * 2 % TWO32 + b as int) % TWO32
  }

  /** The hash once the scan that began at `lo` has consumed the bytes before `hi`. */
  function RollHash(c: Config, data: Bytes, lo: nat, hi: nat): Word
    requires hi <= |data|
    decreases hi, 1
  {
    if hi <= lo then 0 else Rolled(c, data, lo, hi)
  }

  /** The hash after the byte before `hi`. */
  function Rolled(c: Config, data: Bytes, lo: nat, hi: nat): Word
    requires lo < hi <= |data|
    decreases hi, 0
  {
    var h := RollHash(c, data, lo, hi - 1);
    if hi - lo <= c.window then Push(h, data[hi - 1])
    else Push(WrappingSub(h, Removed(c.window, data[hi - 1 - c.window])), data[hi - 1])
  }

  /** The boundary test on a hash value. */
  predicate Marks(c: Config, h: Word) {
    And(h, c.mask) == c.mask
  }

  /** Whether a scan that began at `lo` may cut at `at`. */
  predicate Tested(c: Config, data: Bytes, lo: nat, at: nat)
    requires at <= |data|
  {
    Marks(c, RollHash(c, data, lo, at))
  }

  // ---------------------------------------------------------------- one boundary

  /** The least position in [at, limit) whose hash passes the test, or `limit`. */
  function FirstCut(c: Config, data: Bytes, lo: nat, at: nat, limit: nat): (e: nat)
    requires at <= limit <= |data|
    ensures at <= e <= limit
    decreases limit - at
  {
    if at == limit || Tested(c, data, lo, at) then at
    else FirstCut(c, data, lo, at + 1, limit)
  }

  /** How far past `start` a scan may run when `remaining` bytes follow. */
  function Reach(c: Config, remaining: nat): nat {
    Min(c.maxChunk, remaining)
  }

  /** How far past `start` the first tested position lies. */
  function FirstTested(c: Config, remaining: nat): nat {
    Min(c.minChunk + c.window, Reach(c, remaining))
  }

  function Boundary(c: Config, data: Bytes, start: nat): (e: nat)
    requires start <= |data|
    ensures e <= |data|
  {
    var remaining := |data| - start;
    if remaining <= c.minChunk then |data|
    else start + ScanFrom(c, data, start, FirstTested(c, remaining), Reach(c, remaining))
  }

  /** The first cut of the scan for a chunk begun at `start`, in distances from there. */
  function ScanFrom(c: Config, data: Bytes, start: nat, at: nat, limit: nat): (e: nat)
    requires at <= limit <= |data| - start
    ensures at <= e <= limit
  {
    FirstCut(c, data, start + c.minChunk, start + at, start + limit) - start
  }

  method FindBoundary(c: Config, data: Bytes, start: nat) returns (end: nat)
    requires start <= |data|
    ensures end == Boundary(c, data, start)
  {
    var remaining := |data| - start;
    if remaining <= c.minChunk {
      return |data|;
    }
    var scanStart := start + c.minChunk;
    var scanEnd := Min(start + c.maxChunk, |data|);
    var initEnd := Min(scanStart + c.window, scanEnd);
    ghost var goal := Boundary(c, data, start);
    assert goal == FirstCut(c, data, scanStart, initEnd, scanEnd);
    var hash := HashWindow(c, data, scanStart, initEnd);
    if And(hash, c.mask) == c.mask {
      return initEnd;
    }
    for i := initEnd to scanEnd
      invariant hash == RollHash(c, data, scanStart, i) && !Tested(c, data, scanStart, i)
      invariant goal == FirstCut(c, data, scanStart, i, scanEnd)
    {
      RollStep(c, data, scanStart, i);
      CutPast(c, data, scanStart, i, scanEnd);
      if i >= c.window {
        hash := WrappingSub(hash, Removed(c.window, data[i - c.window]));
      }
      hash := Push(hash, data[i]);
      if And(hash, c.mask) == c.mask {
        return i + 1;
      }
    }
    return scanEnd;
  }

  /** The loop over the first window, which subtracts nothing. */
  method HashWindow(c: Config, data: Bytes, scanStart: nat, initEnd: nat) returns (hash: Word)
    requires initEnd <= scanStart + c.window && initEnd <= |data|
    ensures hash == RollHash(c, data, scanStart, initEnd)
  {
    hash := 0;
    var j := scanStart;
    while j < initEnd
      invariant scanStart <= j && (j <= initEnd || j == scanStart)
      invariant hash == RollHash(c, data, scanStart, Min(j, initEnd))
    {
      hash := Push(hash, data[j]);
      j := j + 1;
    }
  }

  lemma CutPast(c: Config, data: Bytes, lo: nat, at: nat, limit: nat)
    requires at < limit <= |data| && !Tested(c, data, lo, at)
    ensures FirstCut(c, data, lo, at, limit) == FirstCut(c, data, lo, at + 1, limit)
    ensures Tested(c, data, lo, at + 1) ==> FirstCut(c, data, lo, at, limit) == at + 1
  {}

  /** A boundary past the minimum is the least tested position that passes the test, or
      the end of the scan when none does. */
  lemma BoundaryIsLeast(c: Config, data: Bytes, start: nat)
    requires start <= |data| && |data| - start > c.minChunk
    ensures var rem, e := |data| - start, Boundary(c, data, start);
      var lo, at, lim := start + c.minChunk, start + FirstTested(c, rem), start + Reach(c, rem);
      && at <= e <= lim
      && (e < lim ==> Marks(c, RollHash(c, data, lo, e)))
      && forall j :: at <= j < e ==> !Marks(c, RollHash(c, data, lo, j))
  {
    var rem := |data| - start;
    CutIsLeast(c, data, start + c.minChunk, start + FirstTested(c, rem), start + Reach(c, rem));
  }

  lemma {:induction false} CutIsLeast(c: Config, data: Bytes, lo: nat, at: nat, limit: nat)
    requires at <= limit <= |data|
    ensures var e := FirstCut(c, data, lo, at, limit);
      && (e < limit ==> Marks(c, RollHash(c, data, lo, e)))
      && forall j :: at <= j < e ==> !Marks(c, RollHash(c, data, lo, j))
    decreases limit - at
  {
    if at < limit && !Marks(c, RollHash(c, data, lo, at)) {
      CutIsLeast(c, data, lo, at + 1, limit);
    }
  }

  /** The loop over boundaries stands still exactly when nothing may be cut. */
  lemma StallsExactly(c: Config, data: Bytes, start: nat)
    requires start < |data|
    ensures Boundary(c, data, start) <= start <==> c.maxChunk == 0 && |data| - start > c.minChunk
  {}

  // ---------------------------------------------------------------- all boundaries

  /** When the chunking loop ends: every position cuts something, or one cut takes all. */
  predicate Chunkable(c: Config, size: int) {
    c.maxChunk >= 1 || size <= c.minChunk
  }

  function Piece(sha: Digest, data: Bytes, start: int, end: int): Chunk
    requires 0 <= start <= end <= |data|
  {
    Chunk(sha(data[start..end]), data[start..end], start, end - start)
  }

  /** The specification of `chunk_data`, from `start` on. */
  function ChunksFrom(sha: Digest, c: Config, data: Bytes, start: int): seq<Chunk>
    requires 0 <= start <= |data| && Chunkable(c, |data| - start)
    decreases |data| - start
  {
    if start == |data| then []
    else
      var end := Boundary(c, data, start);
      [Piece(sha, data, start, end)] + ChunksFrom(sha, c, data, end)
  }

  method ChunkData(sha: Digest, c: Config, data: Bytes) returns (chunks: seq<Chunk>)
    requires Chunkable(c, |data|)
    ensures chunks == ChunksFrom(sha, c, data, 0)
  {
    if data == [] {
      return [];
    }
    chunks := [];
    var start := 0;
    ghost var goal := ChunksFrom(sha, c, data, 0);
    while start < |data|
      invariant 0 <= start <= |data| && Chunkable(c, |data| - start)
      invariant chunks + ChunksFrom(sha, c, data, start) == goal
    {
      var end := FindBoundary(c, data, start);
      var piece := data[start..end];
      var chunk := Chunk(sha(piece), piece, start, end - start);
      ChunksStep(sha, c, data, start);
      ghost var rest := ChunksFrom(sha, c, data, end);
      assert chunk == Piece(sha, data, start, end);
      Reassociate(chunks, chunk, rest);
      assert chunks + [chunk] + rest == goal;
      chunks := chunks + [chunk];
      start := end;
    }
    assert chunks + [] == chunks;
  }

  lemma ChunksStep(sha: Digest, c: Config, data: Bytes, start: int)
    requires 0 <= start < |data| && Chunkable(c, |data| - start)
    ensures var end := Boundary(c, data, start);
      && start < end <= |data| && Chunkable(c, |data| - end)
      && ChunksFrom(sha, c, data, start) == [Piece(sha, data, start, end)] + ChunksFrom(sha, c, data, end)
  {}

  // ---------------------------------------------------------------- partition

  function Joined(chunks: seq<Chunk>): Bytes {
    if chunks == [] then [] else chunks[0].data + Joined(chunks[1..])
  }

  /** The chunks are consecutive non-empty stretches of `data` from `start` to its end,
      each with its own bytes and checksum. */
  ghost predicate Covers(sha: Digest, data: Bytes, start: int, chunks: seq<Chunk>)
    requires 0 <= start <= |data|
    decreases |chunks|
  {
    if chunks == [] then start == |data|
    else
      && start == chunks[0].offset < start + chunks[0].size <= |data|
      && chunks[0].data == data[start..start + chunks[0].size]
      && chunks[0].hash == sha(chunks[0].data)
      && Covers(sha, data, start + chunks[0].size, chunks[1..])
  }

  lemma {:induction false} Partition(sha: Digest, c: Config, data: Bytes, start: int)
    requires 0 <= start <= |data| && Chunkable(c, |data| - start)
    ensures Covers(sha, data, start, ChunksFrom(sha, c, data, start))
    ensures Joined(ChunksFrom(sha, c, data, start)) == data[start..]
    decreases |data| - start
  {
    if start < |data| {
      var end := Boundary(c, data, start);
      Partition(sha, c, data, end);
      ChunksStep(sha, c, data, start);
      CoversCons(sha, data, start, end, ChunksFrom(sha, c, data, end));
    }
  }

  lemma CoversCons(sha: Digest, data: Bytes, start: int, end: int, rest: seq<Chunk>)
    requires 0 <= start < end <= |data| && Covers(sha, data, end, rest) && Joined(rest) == data[end..]
    ensures Covers(sha, data, start, [Piece(sha, data, start, end)] + rest)
    ensures Joined([Piece(sha, data, start, end)] + rest) == data[start..]
  {
    var all := [Piece(sha, data, start, end)] + rest;
    assert all[0] == Piece(sha, data, start, end) && all[1..] == rest;
    assert data[start..] == data[start..end] + data[end..];
  }

  /** No chunk is longer than `max_chunk`, and none but the last shorter than `min_chunk`. */
  ghost predicate Sized(c: Config, chunks: seq<Chunk>) {
    chunks != [] ==>
      && chunks[0].size <= c.maxChunk
      && (|chunks| > 1 ==> c.minChunk <= chunks[0].size)
      && Sized(c, chunks[1..])
  }

  lemma {:induction false} SizeBounds(sha: Digest, c: Config, data: Bytes, start: int)
    requires 0 <= start <= |data| && 1 <= c.maxChunk && c.minChunk <= c.maxChunk
    ensures Sized(c, ChunksFrom(sha, c, data, start))
    decreases |data| - start
  {
    if start < |data| {
      var end := Boundary(c, data, start);
      var rest := ChunksFrom(sha, c, data, end);
      SizeBounds(sha, c, data, end);
      assert ([Piece(sha, data, start, end)] + rest)[1..] == rest;
    }
  }

  // ---------------------------------------------------------------- locality

  /** The hash looks at nothing but the bytes scanned, and not at where they lie. */
  lemma {:induction false} HashLocal(c: Config, d1: Bytes, s1: nat, d2: Bytes, s2: nat, lo: nat, hi: nat)
    requires s1 + hi <= |d1| && s2 + hi <= |d2|
    requires lo <= hi ==> d1[s1 + lo..s1 + hi] == d2[s2 + lo..s2 + hi]
    ensures RollHash(c, d1, s1 + lo, s1 + hi) == RollHash(c, d2, s2 + lo, s2 + hi)
    decreases hi
  {
    if lo < hi {
      SliceAgrees(d1, s1, d2, s2, lo, hi, hi - 1);
      if hi - lo > c.window {
        SliceAgrees(d1, s1, d2, s2, lo, hi, hi - 1 - c.window);
      }
      HashLocal(c, d1, s1, d2, s2, lo, hi - 1);
    }
  }

  lemma SliceAgrees(d1: Bytes, s1: nat, d2: Bytes, s2: nat, lo: nat, hi: nat, k: nat)
    requires s1 + hi <= |d1| && s2 + hi <= |d2|
    requires lo <= k < hi && d1[s1 + lo..s1 + hi] == d2[s2 + lo..s2 + hi]
    ensures d1[s1 + k] == d2[s2 + k]
    ensures d1[s1 + lo..s1 + k] == d2[s2 + lo..s2 + k]
  {
    SliceCut(d1, s1 + lo, s1 + hi, k - lo);
    SliceCut(d2, s2 + lo, s2 + hi, k - lo);
  }

  /** A slice cut at its byte `i`. */
  lemma SliceCut(d: Bytes, lo: int, hi: int, i: int)
    requires 0 <= lo && 0 <= i < hi - lo && hi <= |d|
    ensures d[lo..hi][i] == d[lo + i]
    ensures d[lo..hi][..i] == d[lo..lo + i]
    ensures d[lo..hi][i..] == d[lo + i..hi]
  {}

  /** Cuts found over the same bytes are found at the same distance. */
  lemma {:induction false} CutLocal(c: Config, d1: Bytes, s1: nat, d2: Bytes, s2: nat, lo: nat, at: nat, lim: nat)
    requires at <= lim && s1 + lim <= |d1| && s2 + lim <= |d2|
    requires lo <= lim ==> d1[s1 + lo..s1 + lim] == d2[s2 + lo..s2 + lim]
    ensures FirstCut(c, d1, s1 + lo, s1 + at, s1 + lim) - s1 == FirstCut(c, d2, s2 + lo, s2 + at, s2 + lim) - s2
    decreases lim - at
  {
    if lo <= at < lim {
      SliceAgrees(d1, s1, d2, s2, lo, lim, at);
    }
    HashLocal(c, d1, s1, d2, s2, lo, at);
    if at < lim {
      CutLocal(c, d1, s1, d2, s2, lo, at + 1, lim);
    }
  }

  /** A cut found below one limit is found below any later limit. */
  lemma {:induction false} CutBelowLimit(c: Config, data: Bytes, lo: nat, at: nat, lim1: nat, lim2: nat)
    requires at <= lim1 <= lim2 <= |data| && FirstCut(c, data, lo, at, lim1) < lim1
    ensures FirstCut(c, data, lo, at, lim2) == FirstCut(c, data, lo, at, lim1)
    decreases lim1 - at
  {
    if !Marks(c, RollHash(c, data, lo, at)) {
      CutBelowLimit(c, data, lo, at + 1, lim1, lim2);
    }
  }

  lemma SameSlices(d1: Bytes, s1: int, d2: Bytes, s2: int, lo: int, hi: int)
    requires 0 <= s1 <= |d1| && 0 <= s2 <= |d2| && d1[s1..] == d2[s2..]
    requires 0 <= lo <= hi <= |d1| - s1
    ensures |d1| - s1 == |d2| - s2
    ensures d1[s1 + lo..s1 + hi] == d2[s2 + lo..s2 + hi]
    ensures d1[s1 + lo..] == d2[s2 + lo..]
  {
    assert |d1[s1..]| == |d2[s2..]|;
    SliceOfDrop(d1, s1, lo, hi);
    SliceOfDrop(d2, s2, lo, hi);
  }

  lemma SliceOfDrop(d: Bytes, s: int, lo: int, hi: int)
    requires 0 <= s <= |d| && 0 <= lo <= hi <= |d| - s
    ensures d[s..][lo..hi] == d[s + lo..s + hi]
    ensures d[s..][lo..] == d[s + lo..]
  {}

  lemma BoundaryOfScanned(c: Config, d1: Bytes, s1: nat, d2: Bytes, s2: nat)
    requires s1 <= |d1| && s2 <= |d2| && |d1| - s1 == |d2| - s2
    requires var lim := Reach(c, |d1| - s1);
      c.minChunk <= lim ==> d1[s1 + c.minChunk..s1 + lim] == d2[s2 + c.minChunk..s2 + lim]
    ensures Boundary(c, d1, s1) - s1 == Boundary(c, d2, s2) - s2
  {
    var rem := |d1| - s1;
    if rem > c.minChunk {
      SameScan(c, d1, s1, d2, s2, FirstTested(c, rem), Reach(c, rem));
    }
  }

  lemma SameScan(c: Config, d1: Bytes, s1: nat, d2: Bytes, s2: nat, at: nat, lim: nat)
    requires at <= lim && s1 + lim <= |d1| && s2 + lim <= |d2|
    requires c.minChunk <= lim ==> d1[s1 + c.minChunk..s1 + lim] == d2[s2 + c.minChunk..s2 + lim]
    ensures ScanFrom(c, d1, s1, at, lim) == ScanFrom(c, d2, s2, at, lim)
  {
    CutLocal(c, d1, s1, d2, s2, c.minChunk, at, lim);
  }

  /** `find_boundary` reads nothing before `start`. */
  lemma BoundaryReadsForward(c: Config, d1: Bytes, s1: nat, d2: Bytes, s2: nat)
    requires s1 <= |d1| && s2 <= |d2| && d1[s1..] == d2[s2..]
    ensures |d1| - s1 == |d2| - s2
    ensures Boundary(c, d1, s1) - s1 == Boundary(c, d2, s2) - s2
  {
    SameSlices(d1, s1, d2, s2, 0, 0);
    var lim := Reach(c, |d1| - s1);
    if c.minChunk <= lim {
      SameSlices(d1, s1, d2, s2, c.minChunk, lim);
    }
    BoundaryOfScanned(c, d1, s1, d2, s2);
  }

  lemma ScanInPrefix(c: Config, data: Bytes, whole: Bytes, start: nat, at: nat, lim: nat, lim': nat)
    requires at <= lim <= lim' && start + lim <= |data| && data <= whole && start + lim' <= |whole|
    requires ScanFrom(c, data, start, at, lim) < lim || lim == lim'
    ensures ScanFrom(c, whole, start, at, lim') == ScanFrom(c, data, start, at, lim)
  {
    if c.minChunk <= lim {
      assert whole[start + c.minChunk..start + lim] == data[start + c.minChunk..start + lim];
    }
    SameScan(c, whole, start, data, start, at, lim);
    if lim < lim' {
      CutBelowLimit(c, whole, start + c.minChunk, start + at, start + lim, start + lim');
    }
  }

  /** More data moves the first tested position and the end of the scan only if the cut was
      at the end of the data. */
  lemma ReachGrows(c: Config, rem: nat, rem': nat, e: int)
    requires c.minChunk < rem <= rem' && FirstTested(c, rem) <= e <= Reach(c, rem) && e < rem
    ensures FirstTested(c, rem') == FirstTested(c, rem)
    ensures e < Reach(c, rem) <= Reach(c, rem') || Reach(c, rem) == Reach(c, rem')
  {}

  lemma BoundaryInPrefix(c: Config, data: Bytes, whole: Bytes, start: nat)
    requires data <= whole && start <= |data| && Boundary(c, data, start) < |data|
    ensures Boundary(c, whole, start) == Boundary(c, data, start)
  {
    var rem, rem' := |data| - start, |whole| - start;
    BoundaryUnfolds(c, data, start);
    BoundaryUnfolds(c, whole, start);
    ReachGrows(c, rem, rem', Boundary(c, data, start) - start);
    ScanInPrefix(c, data, whole, start, FirstTested(c, rem), Reach(c, rem), Reach(c, rem'));
  }

  /** A boundary strictly inside the data does not move when data is appended. */
  lemma BoundaryIgnoresSuffix(c: Config, data: Bytes, after: Bytes, start: nat)
    requires start <= |data| && Boundary(c, data, start) < |data|
    ensures Boundary(c, data + after, start) == Boundary(c, data, start)
  {
    BoundaryInPrefix(c, data, data + after, start);
  }

  lemma BoundaryUnfolds(c: Config, data: Bytes, start: nat)
    requires start <= |data| && (Boundary(c, data, start) < |data| || start + c.minChunk < |data|)
    ensures var rem := |data| - start;
      && rem > c.minChunk
      && Boundary(c, data, start) == start + ScanFrom(c, data, start, FirstTested(c, rem), Reach(c, rem))
  {}

  // ---------------------------------------------------------------- append stability

  function Front<T>(s: seq<T>): seq<T> {
    if s == [] then [] else s[..|s| - 1]
  }

  lemma FrontCons<T>(x: T, s: seq<T>, t: seq<T>)
    requires s != [] && Front(s) <= t
    ensures Front([x] + s) <= [x] + t
  {
    assert Front([x] + s) == [x] + Front(s);
  }

  /** All chunks but the last survive an append, checksums and offsets included. */
  lemma {:induction false} AppendStable(sha: Digest, c: Config, data: Bytes, after: Bytes, start: int)
    requires 0 <= start <= |data| && Chunkable(c, |data| + |after| - start)
    ensures Front(ChunksFrom(sha, c, data, start)) <= ChunksFrom(sha, c, data + after, start)
    decreases |data| - start
  {
    if start < |data| {
      var end := Boundary(c, data, start);
      ChunksStep(sha, c, data, start);
      if end < |data| {
        BoundaryIgnoresSuffix(c, data, after, start);
        AppendStable(sha, c, data, after, end);
        AppendStep(sha, c, data, data + after, start, end);
      } else {
        assert ChunksFrom(sha, c, data, end) == [];
      }
    }
  }

  lemma AppendStep(sha: Digest, c: Config, data: Bytes, whole: Bytes, start: int, end: int)
    requires 0 <= start < end < |data| && data <= whole && Chunkable(c, |whole| - start)
    requires end == Boundary(c, data, start) == Boundary(c, whole, start)
    requires Front(ChunksFrom(sha, c, data, end)) <= ChunksFrom(sha, c, whole, end)
    ensures Front(ChunksFrom(sha, c, data, start)) <= ChunksFrom(sha, c, whole, start)
  {
    ChunksStep(sha, c, data, start);
    ChunksStep(sha, c, whole, start);
    ChunksStep(sha, c, data, end);
    assert whole[start..end] == data[start..end];
    FrontCons(Piece(sha, data, start, end), ChunksFrom(sha, c, data, end), ChunksFrom(sha, c, whole, end));
  }

  // ---------------------------------------------------------------- resynchronisation

  /** A chunk without its place in the file. */
  datatype Body = Body(hash: string, data: Bytes, size: int)

  function Bodies(chunks: seq<Chunk>): seq<Body> {
    if chunks == [] then []
    else [Body(chunks[0].hash, chunks[0].data, chunks[0].size)] + Bodies(chunks[1..])
  }

  lemma BodiesCons(chunk: Chunk, rest: seq<Chunk>)
    ensures Bodies([chunk] + rest) == [Body(chunk.hash, chunk.data, chunk.size)] + Bodies(rest)
  {
    assert ([chunk] + rest)[1..] == rest;
  }

  /** The chunks from a position on depend on the bytes from there on alone. */
  lemma {:induction false} ChunksReadForward(sha: Digest, c: Config, d1: Bytes, s1: nat, d2: Bytes, s2: nat)
    requires s1 <= |d1| && s2 <= |d2| && d1[s1..] == d2[s2..]
    requires Chunkable(c, |d1| - s1)
    ensures |d1| - s1 == |d2| - s2
    ensures Bodies(ChunksFrom(sha, c, d1, s1)) == Bodies(ChunksFrom(sha, c, d2, s2))
    decreases |d1| - s1
  {
    SameSlices(d1, s1, d2, s2, 0, 0);
    if s1 < |d1| {
      ChunksStep(sha, c, d1, s1);
      ChunksStep(sha, c, d2, s2);
      var e1, e2 := Boundary(c, d1, s1), Boundary(c, d2, s2);
      var rest1, rest2 := ChunksFrom(sha, c, d1, e1), ChunksFrom(sha, c, d2, e2);
      BoundaryReadsForward(c, d1, s1, d2, s2);
      SameSlices(d1, s1, d2, s2, 0, e1 - s1);
      SameSlices(d1, s1, d2, s2, e1 - s1, e1 - s1);
      assert d1[s1..e1] == d2[s2..e2] && d1[e1..] == d2[e2..];
      ChunksReadForward(sha, c, d1, e1, d2, e2);
      var p1, p2 := Piece(sha, d1, s1, e1), Piece(sha, d2, s2, e2);
      BodiesCons(p1, rest1);
      BodiesCons(p2, rest2);
      assert Body(p1.hash, p1.data, p1.size) == Body(p2.hash, p2.data, p2.size);
    }
  }

  /** From any of its cuts on, a chunking is the chunking begun at that cut. */
  lemma {:induction false} RestartsAtCut(sha: Digest, c: Config, data: Bytes, start: int, i: int)
    requires 0 <= start <= |data| && Chunkable(c, |data| - start)
    requires 0 <= i < |ChunksFrom(sha, c, data, start)|
    ensures var chunks := ChunksFrom(sha, c, data, start);
      && start <= chunks[i].offset <= |data| && Chunkable(c, |data| - chunks[i].offset)
      && chunks[i..] == ChunksFrom(sha, c, data, chunks[i].offset)
    decreases |data| - start
  {
    if i > 0 {
      var end := Boundary(c, data, start);
      var rest := ChunksFrom(sha, c, data, end);
      RestartsAtCut(sha, c, data, end, i - 1);
      assert ([Piece(sha, data, start, end)] + rest)[i..] == rest[i - 1..];
    }
  }

  /** After a cut where `tail` begins, the chunks are those of `tail` alone. */
  lemma TailChunks(sha: Digest, c: Config, before: Bytes, tail: Bytes, i: int)
    requires Chunkable(c, |before| + |tail|)
    requires 0 <= i < |ChunksFrom(sha, c, before + tail, 0)|
    requires ChunksFrom(sha, c, before + tail, 0)[i].offset == |before|
    ensures Chunkable(c, |tail|)
    ensures Bodies(ChunksFrom(sha, c, before + tail, 0)[i..]) == Bodies(ChunksFrom(sha, c, tail, 0))
  {
    var whole := before + tail;
    RestartsAtCut(sha, c, whole, 0, i);
    assert whole[|before|..] == tail == tail[0..];
    ChunksReadForward(sha, c, whole, |before|, tail, 0);
  }

  /** Two files that end in the same bytes and are both cut where those bytes begin
      have the same chunks from there on, apart from their offsets. */
  lemma Resynchronised(sha: Digest, c: Config, a: Bytes, b: Bytes, tail: Bytes, i: int, j: int)
    requires Chunkable(c, |a| + |tail|) && Chunkable(c, |b| + |tail|)
    requires 0 <= i < |ChunksFrom(sha, c, a + tail, 0)| && 0 <= j < |ChunksFrom(sha, c, b + tail, 0)|
    requires ChunksFrom(sha, c, a + tail, 0)[i].offset == |a|
    requires ChunksFrom(sha, c, b + tail, 0)[j].offset == |b|
    ensures Bodies(ChunksFrom(sha, c, a + tail, 0)[i..]) == Bodies(ChunksFrom(sha, c, b + tail, 0)[j..])
  {
    TailChunks(sha, c, a, tail, i);
    TailChunks(sha, c, b, tail, j);
  }

  // ---------------------------------------------------------------- finite memory

  /** `x` and `y` have the same `k` low bits: they differ by `q` times 2^k. */
  ghost predicate Apart(x: int, y: int, q: int, k: nat) {
    x - y == q * Pow2(k)
  }

  ghost predicate SameLowBits(x: int, y: int, k: nat) {
    exists q :: Apart(x, y, q, k)
  }

  lemma {:induction false} Pow2Sum(j: nat, k: nat)
    ensures Pow2(j + k) == Pow2(j) * Pow2(k)
  {
    if j > 0 {
      Pow2Sum(j - 1, k);
      assert 2 * (Pow2(j - 1) * Pow2(k)) == 2 * Pow2(j - 1) * Pow2(k);
    }
  }

  lemma WordSize()
    ensures Pow2(32) == TWO32
  {
    Pow2Sum(16, 16);
    Pow2Sum(8, 8);
    Pow2Sum(4, 4);
    Pow2Sum(2, 2);
  }

  lemma RollIsModular(h: Word, r: Byte, b: Byte)
    ensures exists t: int :: Push(WrappingSub(h, r), b) == 2 * (h - r as int) + b as int - t * TWO32
  {
    var kept := WrappingSub(h, r);
    var t1 := if h - r as int < 0 then -1 else 0;
    var t2 := (kept * 2) / TWO32;
    var t3 := (kept * 2 % TWO32 + b as int) / TWO32;
    assert Push(kept, b) == 2 * (h - r as int) + b as int - (2 * t1 + t2 + t3) * TWO32;
  }

  /** One roll doubles the difference of two hashes fed the same bytes, so it makes them
      agree on one more low bit. */
  lemma RollGainsABit(x: Word, y: Word, r: Byte, b: Byte, k: nat)
    requires k < 32 && SameLowBits(x, y, k)
    ensures SameLowBits(Push(WrappingSub(x, r), b), Push(WrappingSub(y, r), b), k + 1)
  {
    var q :| Apart(x, y, q, k);
    RollIsModular(x, r, b);
    RollIsModular(y, r, b);
    var x', y' := Push(WrappingSub(x, r), b), Push(WrappingSub(y, r), b);
    var s: int :| x' == 2 * (x - r as int) + b as int - s * TWO32;
    var t: int :| y' == 2 * (y - r as int) + b as int - t * TWO32;
    DoubledDifference(x, y, q, x', y', t - s, k);
  }

  lemma DoubledDifference(x: int, y: int, q: int, x': int, y': int, u: int, k: nat)
    requires k < 32 && Apart(x, y, q, k) && x' - y' == 2 * (x - y) + u * TWO32
    ensures SameLowBits(x', y', k + 1)
  {
    WordSize();
    Pow2Sum(k + 1, 31 - k);
    Regroup(q, u, Pow2(k), Pow2(31 - k));
    assert Apart(x', y', q + u * Pow2(31 - k), k + 1);
  }

  lemma Regroup(q: int, u: int, p: int, w: int)
    ensures 2 * (q * p) + u * ((2 * p) * w) == (q + u * w) * (2 * p)
  {}

  /** A mask below 2^k sees the `k` low bits only. */
  lemma {:induction false} MaskSeesLowBits(x: nat, y: nat, mask: nat, k: nat)
    requires mask < Pow2(k) && SameLowBits(x, y, k)
    ensures And(x, mask) == And(y, mask)
    decreases k
  {
    if k > 0 {
      var q :| Apart(x, y, q, k);
      var d := q * Pow2(k - 1);
      assert x - y == 2 * d;
      assert Apart(x / 2, y / 2, q, k - 1);
      MaskSeesLowBits(x / 2, y / 2, mask / 2, k - 1);
      AndUnfolds(x, mask);
      AndUnfolds(y, mask);
    }
  }

  lemma AndUnfolds(x: nat, y: nat)
    ensures And(x, y) == (if x % 2 == 1 && y % 2 == 1 then 1 else 0) + 2 * And(x / 2, y / 2)
  {}

  /** Two scans over the same bytes, a window and `k` more, agree on `k` low bits, whatever
      they had read before. */
  lemma {:induction false} RollsForget(c: Config, d1: Bytes, lo1: nat, b1: nat, d2: Bytes, lo2: nat, b2: nat, k: nat)
    requires k <= 32 && lo1 <= b1 && lo2 <= b2
    requires var m := c.window + k;
      b1 + m <= |d1| && b2 + m <= |d2| && d1[b1..b1 + m] == d2[b2..b2 + m]
    ensures var m := c.window + k;
      SameLowBits(RollHash(c, d1, lo1, b1 + m), RollHash(c, d2, lo2, b2 + m), k)
    decreases k
  {
    var m := c.window + k;
    if k == 0 {
      AnyLowBits(RollHash(c, d1, lo1, b1 + m), RollHash(c, d2, lo2, b2 + m));
    } else {
      SameAround(d1, b1, d2, b2, m, k - 1);
      SameAround(d1, b1, d2, b2, m, m - 1);
      RollsForget(c, d1, lo1, b1, d2, lo2, b2, k - 1);
      RollBoth(c, d1, lo1, b1 + m - 1, d2, lo2, b2 + m - 1, k - 1);
    }
  }

  lemma AnyLowBits(x: int, y: int)
    ensures SameLowBits(x, y, 0)
  {
    assert Apart(x, y, x - y, 0);
  }

  /** One more roll over equal incoming and outgoing bytes gains a bit of agreement. */
  lemma RollBoth(c: Config, d1: Bytes, lo1: nat, n1: nat, d2: Bytes, lo2: nat, n2: nat, k: nat)
    requires k < 32 && lo1 + c.window <= n1 < |d1| && lo2 + c.window <= n2 < |d2|
    requires d1[n1] == d2[n2] && d1[n1 - c.window] == d2[n2 - c.window]
    requires SameLowBits(RollHash(c, d1, lo1, n1), RollHash(c, d2, lo2, n2), k)
    ensures SameLowBits(RollHash(c, d1, lo1, n1 + 1), RollHash(c, d2, lo2, n2 + 1), k + 1)
  {
    RollStep(c, d1, lo1, n1);
    RollStep(c, d2, lo2, n2);
    RollGainsABit(RollHash(c, d1, lo1, n1), RollHash(c, d2, lo2, n2),
                  Removed(c.window, d1[n1 - c.window]), d1[n1], k);
  }

  lemma RollStep(c: Config, data: Bytes, lo: nat, n: nat)
    requires lo + c.window <= n < |data|
    ensures RollHash(c, data, lo, n + 1)
         == Push(WrappingSub(RollHash(c, data, lo, n), Removed(c.window, data[n - c.window])), data[n])
  {}

  lemma SameAround(d1: Bytes, b1: nat, d2: Bytes, b2: nat, n: nat, i: nat)
    requires b1 + n <= |d1| && b2 + n <= |d2| && i < n && d1[b1..b1 + n] == d2[b2..b2 + n]
    ensures d1[b1 + i] == d2[b2 + i]
    ensures d1[b1..b1 + i] == d2[b2..b2 + i]
    ensures d1[b1 + i..b1 + n] == d2[b2 + i..b2 + n]
  {
    SliceCut(d1, b1, b1 + n, i);
    SliceCut(d2, b2, b2 + n, i);
  }

  /** Finite memory of the boundary test. With a mask below 2^k, once `k` bytes have been
      rolled in, the decision depends on the last `window + k` bytes alone: not on where
      the chunk began, nor on anything earlier. Every mask is below 2^32. */
  lemma BoundaryTestForgets(c: Config, d1: Bytes, lo1: nat, e1: nat, d2: Bytes, lo2: nat, e2: nat, k: nat)
    requires k <= 32 && c.mask < Pow2(k)
    requires lo1 + c.window + k <= e1 <= |d1| && lo2 + c.window + k <= e2 <= |d2|
    requires d1[e1 - c.window - k..e1] == d2[e2 - c.window - k..e2]
    ensures Tested(c, d1, lo1, e1) <==> Tested(c, d2, lo2, e2)
  {
    RollsForget(c, d1, lo1, e1 - c.window - k, d2, lo2, e2 - c.window - k, k);
    MaskSeesLowBits(RollHash(c, d1, lo1, e1), RollHash(c, d2, lo2, e2), c.mask, k);
  }

  /** Two scans that have both rolled in the same `window + k` bytes cut at the same
      distance as long as they go on reading the same bytes: after an edit, boundaries
      fall back into step at the first cut both scans can reach. */
  lemma {:induction false} NextCutCoincides(c: Config, d1: Bytes, lo1: nat, at1: nat, lim1: nat,
                                            d2: Bytes, lo2: nat, at2: nat, lim2: nat, k: nat, n: nat)
    requires k <= 32 && c.mask < Pow2(k)
    requires lo1 + c.window + k <= at1 && at1 + n <= lim1 <= |d1|
    requires lo2 + c.window + k <= at2 && at2 + n <= lim2 <= |d2|
    requires d1[at1 - c.window - k..at1 + n] == d2[at2 - c.window - k..at2 + n]
    ensures CutDistance(c, d1, lo1, at1, lim1, n) == CutDistance(c, d2, lo2, at2, lim2, n)
    decreases n
  {
    if n > 0 {
      TestCoincides(c, d1, lo1, at1, d2, lo2, at2, k, n);
      NextCutCoincides(c, d1, lo1, at1 + 1, lim1, d2, lo2, at2 + 1, lim2, k, n - 1);
      CutStep(c, d1, lo1, at1, lim1, n);
      CutStep(c, d2, lo2, at2, lim2, n);
    }
  }

  /** How far from `at` the first cut is, if that is less than `n`, and else `n`. */
  function CutDistance(c: Config, data: Bytes, lo: nat, at: nat, limit: nat, n: int): int
    requires at <= limit <= |data|
  {
    Min(FirstCut(c, data, lo, at, limit) - at, n)
  }

  lemma TestCoincides(c: Config, d1: Bytes, lo1: nat, at1: nat, d2: Bytes, lo2: nat, at2: nat, k: nat, n: nat)
    requires n > 0 && k <= 32 && c.mask < Pow2(k)
    requires lo1 + c.window + k <= at1 && at1 + n <= |d1|
    requires lo2 + c.window + k <= at2 && at2 + n <= |d2|
    requires d1[at1 - c.window - k..at1 + n] == d2[at2 - c.window - k..at2 + n]
    ensures Tested(c, d1, lo1, at1) == Tested(c, d2, lo2, at2)
    ensures d1[at1 + 1 - c.window - k..at1 + 1 + (n - 1)] == d2[at2 + 1 - c.window - k..at2 + 1 + (n - 1)]
  {
    SameFront(d1, at1, d2, at2, c.window + k, n);
    BoundaryTestForgets(c, d1, lo1, at1, d2, lo2, at2, k);
  }

  lemma SameFront(d1: Bytes, at1: nat, d2: Bytes, at2: nat, m: nat, n: nat)
    requires n > 0 && m > 0 && m <= at1 && at1 + n <= |d1| && m <= at2 && at2 + n <= |d2|
    requires d1[at1 - m..at1 + n] == d2[at2 - m..at2 + n]
    ensures d1[at1 - m..at1] == d2[at2 - m..at2]
    ensures d1[at1 + 1 - m..at1 + 1 + (n - 1)] == d2[at2 + 1 - m..at2 + 1 + (n - 1)]
  {
    SameAround(d1, at1 - m, d2, at2 - m, m + n, m);
    SameAround(d1, at1 - m, d2, at2 - m, m + n, 1);
  }

  lemma CutStep(c: Config, data: Bytes, lo: nat, at: nat, limit: nat, n: int)
    requires at < limit <= |data|
    ensures CutDistance(c, data, lo, at, limit, n)
         == if Tested(c, data, lo, at) then Min(0, n) else CutDistance(c, data, lo, at + 1, limit, n - 1) + 1
  {}

  // ---------------------------------------------------------------- after an edit

  /** A cut that lies at or after `mid` is the first one from `mid` on. */
  lemma {:induction false} CutFrom(c: Config, data: Bytes, lo: nat, at: nat, mid: nat, limit: nat)
    requires at <= mid <= limit <= |data| && mid <= FirstCut(c, data, lo, at, limit)
    ensures FirstCut(c, data, lo, at, limit) == FirstCut(c, data, lo, mid, limit)
    decreases mid - at
  {
    if at < mid {
      CutFrom(c, data, lo, at + 1, mid, limit);
    }
  }

  /** A position that may be cut bounds the first cut. */
  lemma {:induction false} CutByMark(c: Config, data: Bytes, lo: nat, at: nat, mark: nat, limit: nat)
    requires at <= mark <= limit <= |data| && Tested(c, data, lo, mark)
    ensures FirstCut(c, data, lo, at, limit) <= mark
    decreases mark - at
  {
    if at < mark {
      CutByMark(c, data, lo, at + 1, mark, limit);
    }
  }

  /** The chunk begun at `start` is still open at `mid`, has rolled in `window + k` bytes by
      then, and may go on to `mark`. */
  ghost predicate OpenAt(c: Config, data: Bytes, start: nat, mid: nat, mark: nat, k: nat) {
    && start + c.minChunk + c.window + k <= mid <= mark <= |data| && mark <= start + c.maxChunk
    && mid <= Boundary(c, data, start)
  }

  function LimitOf(c: Config, data: Bytes, start: nat): int
    requires start <= |data|
  {
    start + Reach(c, |data| - start)
  }

  lemma OpenLimit(c: Config, data: Bytes, start: nat, mid: nat, mark: nat, k: nat)
    requires OpenAt(c, data, start, mid, mark, k)
    ensures mark <= LimitOf(c, data, start) <= |data|
    ensures Ready(c, data, start + c.minChunk, mid, LimitOf(c, data, start), k, mark - mid)
  {}

  /** A scan from `lo` has rolled in a window and `k` more bytes by `mid`, and `n` more lie
      before its limit. */
  ghost predicate Ready(c: Config, data: Bytes, lo: int, mid: int, limit: int, k: int, n: int) {
    lo + c.window + k <= mid && mid + n <= limit <= |data|
  }

  lemma OpenCut(c: Config, data: Bytes, start: nat, mid: nat, mark: nat, k: nat)
    requires OpenAt(c, data, start, mid, mark, k)
    ensures mark <= LimitOf(c, data, start) <= |data|
    ensures Boundary(c, data, start) == FirstCut(c, data, start + c.minChunk, mid, LimitOf(c, data, start))
  {
    var rem := |data| - start;
    BoundaryUnfolds(c, data, start);
    CutFrom(c, data, start + c.minChunk, start + FirstTested(c, rem), mid, start + Reach(c, rem));
  }

  /** The `n` bytes from `b1` and from `b2` on are the same. */
  ghost predicate SameStretch(d1: Bytes, b1: int, d2: Bytes, b2: int, n: int) {
    && 0 <= n && 0 <= b1 && b1 + n <= |d1| && 0 <= b2 && b2 + n <= |d2|
    && d1[b1..b1 + n] == d2[b2..b2 + n]
  }

  /** Two scans that have rolled in the same bytes agree on the next `n` decisions. */
  lemma ScansAgree(c: Config, d1: Bytes, lo1: nat, mid1: nat, lim1: nat,
                   d2: Bytes, lo2: nat, mid2: nat, lim2: nat, k: nat, n: nat)
    requires k <= 32 && c.mask < Pow2(k)
    requires Ready(c, d1, lo1, mid1, lim1, k, n) && Ready(c, d2, lo2, mid2, lim2, k, n)
    requires SameStretch(d1, mid1 - c.window - k, d2, mid2 - c.window - k, c.window + k + n)
    ensures CutDistance(c, d1, lo1, mid1, lim1, n) == CutDistance(c, d2, lo2, mid2, lim2, n)
    ensures Tested(c, d1, lo1, mid1 + n) <==> Tested(c, d2, lo2, mid2 + n)
  {
    var b1, b2, m := mid1 - c.window - k, mid2 - c.window - k, c.window + k + n;
    assert b1 + m == mid1 + n && b2 + m == mid2 + n;
    NextCutCoincides(c, d1, lo1, mid1, lim1, d2, lo2, mid2, lim2, k, n);
    MarkCoincides(c, d1, lo1, b1, d2, lo2, b2, k, n);
  }

  lemma MarkCoincides(c: Config, d1: Bytes, lo1: nat, b1: nat, d2: Bytes, lo2: nat, b2: nat, k: nat, n: nat)
    requires k <= 32 && c.mask < Pow2(k) && lo1 <= b1 && lo2 <= b2
    requires SameStretch(d1, b1, d2, b2, c.window + k + n)
    ensures var m := c.window + k + n; Tested(c, d1, lo1, b1 + m) <==> Tested(c, d2, lo2, b2 + m)
  {
    var e1, e2 := b1 + (c.window + k + n), b2 + (c.window + k + n);
    SameEnd(d1, e1, d2, e2, c.window, k, n);
    BoundaryTestForgets(c, d1, lo1, e1, d2, lo2, e2, k);
  }

  lemma SameEnd(d1: Bytes, e1: int, d2: Bytes, e2: int, w: int, k: int, n: int)
    requires 0 < w && 0 <= k && 0 <= n && SameStretch(d1, e1 - (w + k + n), d2, e2 - (w + k + n), w + k + n)
    ensures d1[e1 - w - k..e1] == d2[e2 - w - k..e2]
  {
    SameAround(d1, e1 - (w + k + n), d2, e2 - (w + k + n), w + k + n, n);
  }

  /** How far from `mid` the chunk begun at `start` ends, if that is less than `n`, else `n`. */
  function EndDistance(c: Config, data: Bytes, start: nat, mid: nat, n: int): int
    requires start <= |data| && mid <= LimitOf(c, data, start) <= |data|
  {
    CutDistance(c, data, start + c.minChunk, mid, LimitOf(c, data, start), n)
  }

  lemma OpenDistance(c: Config, data: Bytes, start: nat, mid: nat, mark: nat, k: nat)
    requires OpenAt(c, data, start, mid, mark, k) && Tested(c, data, start + c.minChunk, mark)
    ensures mark <= LimitOf(c, data, start) <= |data|
    ensures Boundary(c, data, start) - mid == EndDistance(c, data, start, mid, mark - mid) <= mark - mid
  {
    OpenCut(c, data, start, mid, mark, k);
    CutByMark(c, data, start + c.minChunk, mid, mark, LimitOf(c, data, start));
  }

  lemma DistancesAgree(c: Config, d1: Bytes, s1: nat, mid1: nat, d2: Bytes, s2: nat, mid2: nat, k: nat, n: nat)
    requires k <= 32 && c.mask < Pow2(k)
    requires OpenAt(c, d1, s1, mid1, mid1 + n, k) && OpenAt(c, d2, s2, mid2, mid2 + n, k)
    requires SameStretch(d1, mid1 - c.window - k, d2, mid2 - c.window - k, c.window + k + n)
    ensures mid1 <= LimitOf(c, d1, s1) <= |d1| && mid2 <= LimitOf(c, d2, s2) <= |d2|
    ensures EndDistance(c, d1, s1, mid1, n) == EndDistance(c, d2, s2, mid2, n)
    ensures Tested(c, d1, s1 + c.minChunk, mid1 + n) <==> Tested(c, d2, s2 + c.minChunk, mid2 + n)
  {
    OpenLimit(c, d1, s1, mid1, mid1 + n, k);
    OpenLimit(c, d2, s2, mid2, mid2 + n, k);
    var lo1, lo2 := s1 + c.minChunk, s2 + c.minChunk;
    ScansAgree(c, d1, lo1, mid1, LimitOf(c, d1, s1), d2, lo2, mid2, LimitOf(c, d2, s2), k, n);
  }

  /** Two scans that are open over the same stretch of bytes end at the same place in it, if
      one of them may be cut at its end. */
  lemma CutsMeet(c: Config, d1: Bytes, s1: nat, mid1: nat, mark1: nat, d2: Bytes, s2: nat, mid2: nat, mark2: nat,
                 k: nat, n: nat)
    requires k <= 32 && c.mask < Pow2(k) && mark1 == mid1 + n && mark2 == mid2 + n
    requires OpenAt(c, d1, s1, mid1, mark1, k) && OpenAt(c, d2, s2, mid2, mark2, k)
    requires SameStretch(d1, mid1 - c.window - k, d2, mid2 - c.window - k, c.window + k + n)
    requires Tested(c, d1, s1 + c.minChunk, mark1)
    ensures Boundary(c, d1, s1) - mid1 == Boundary(c, d2, s2) - mid2 <= n
  {
    DistancesAgree(c, d1, s1, mid1, d2, s2, mid2, k, n);
    OpenDistance(c, d1, s1, mid1, mark1, k);
    OpenDistance(c, d2, s2, mid2, mark2, k);
  }

  /** From `x` and from `y` on, the two files are the same. */
  ghost predicate SameTail(d1: Bytes, x: int, d2: Bytes, y: int) {
    0 <= x <= |d1| && 0 <= y <= |d2| && d1[x..] == d2[y..]
  }

  lemma TailFrom(d1: Bytes, x: int, d2: Bytes, y: int, b1: int, b2: int)
    requires SameTail(d1, x, d2, y) && x <= b1 <= |d1| && b1 - x == b2 - y
    ensures SameTail(d1, b1, d2, b2)
  {
    SameSlices(d1, x, d2, y, b1 - x, b1 - x);
  }

  lemma TailStretch(d1: Bytes, x: int, d2: Bytes, y: int, b1: int, b2: int, n: int)
    requires SameTail(d1, x, d2, y) && x <= b1 && b1 - x == b2 - y && 0 <= n && b1 + n <= |d1|
    ensures SameStretch(d1, b1, d2, b2, n)
  {
    SameSlices(d1, x, d2, y, b1 - x, b1 - x + n);
  }

  lemma CutsMeetInTail(c: Config, d1: Bytes, x: nat, s1: nat, d2: Bytes, y: nat, s2: nat, k: nat, p: nat, q: nat)
    requires k <= 32 && c.mask < Pow2(k) && c.window + k <= p <= q
    requires SameTail(d1, x, d2, y) && x + q <= |d1| && y + q <= |d2|
    requires OpenAt(c, d1, s1, x + p, x + q, k) && OpenAt(c, d2, s2, y + p, y + q, k)
    requires Tested(c, d1, s1 + c.minChunk, x + q)
    ensures var e1, e2 := Boundary(c, d1, s1), Boundary(c, d2, s2);
      e1 - x == e2 - y <= q && SameTail(d1, e1, d2, e2)
  {
    TailStretch(d1, x, d2, y, x + p - c.window - k, y + p - c.window - k, c.window + k + (q - p));
    CutsMeet(c, d1, s1, x + p, x + q, d2, s2, y + p, y + q, k, q - p);
    TailFrom(d1, x, d2, y, Boundary(c, d1, s1), Boundary(c, d2, s2));
  }

  // The chunks of a whole file.

  function StartOf(sha: Digest, c: Config, data: Bytes, i: int): int
    requires Chunkable(c, |data|) && 0 <= i < |ChunksFrom(sha, c, data, 0)|
  {
    ChunksFrom(sha, c, data, 0)[i].offset
  }

  function EndOf(sha: Digest, c: Config, data: Bytes, i: int): int
    requires Chunkable(c, |data|) && 0 <= i < |ChunksFrom(sha, c, data, 0)|
  {
    ChunksFrom(sha, c, data, 0)[i].offset + ChunksFrom(sha, c, data, 0)[i].size
  }

  function BodiesAfter(sha: Digest, c: Config, data: Bytes, i: int): seq<Body>
    requires Chunkable(c, |data|) && 0 <= i < |ChunksFrom(sha, c, data, 0)|
  {
    Bodies(ChunksFrom(sha, c, data, 0)[i + 1..])
  }

  ghost predicate ChunkOpenAt(sha: Digest, c: Config, data: Bytes, i: int, mid: nat, mark: nat, k: nat)
    requires Chunkable(c, |data|) && 0 <= i < |ChunksFrom(sha, c, data, 0)|
  {
    0 <= StartOf(sha, c, data, i) && OpenAt(c, data, StartOf(sha, c, data, i), mid, mark, k)
  }

  /** The boundary test would end chunk `i` at `at`. */
  ghost predicate MayEndAt(sha: Digest, c: Config, data: Bytes, i: int, at: nat)
    requires Chunkable(c, |data|) && 0 <= i < |ChunksFrom(sha, c, data, 0)| && at <= |data|
  {
    0 <= StartOf(sha, c, data, i) && Tested(c, data, StartOf(sha, c, data, i) + c.minChunk, at)
  }

  /** Chunk `i` ends at the boundary found from its start, and the chunks after it are those
      from there on. */
  lemma ChunksAfter(sha: Digest, c: Config, data: Bytes, i: int)
    requires Chunkable(c, |data|) && 0 <= i < |ChunksFrom(sha, c, data, 0)|
    ensures var start, end := StartOf(sha, c, data, i), EndOf(sha, c, data, i);
      && 0 <= start < |data| && end == Boundary(c, data, start)
      && start < end <= |data| && Chunkable(c, |data| - end)
      && BodiesAfter(sha, c, data, i) == Bodies(ChunksFrom(sha, c, data, end))
  {
    var chunks := ChunksFrom(sha, c, data, 0);
    RestartsAtCut(sha, c, data, 0, i);
    var start := chunks[i].offset;
    assert chunks[i..] != [];
    ChunksStep(sha, c, data, start);
    var end := Boundary(c, data, start);
    assert chunks[i..][0] == chunks[i] && chunks[i..][0] == Piece(sha, data, start, end);
    assert chunks[i + 1..] == chunks[i..][1..];
  }

  lemma EndIsBoundary(sha: Digest, c: Config, data: Bytes, i: int)
    requires Chunkable(c, |data|) && 0 <= i < |ChunksFrom(sha, c, data, 0)|
    ensures var start := StartOf(sha, c, data, i);
      0 <= start < |data| && EndOf(sha, c, data, i) == Boundary(c, data, start)
  {
    ChunksAfter(sha, c, data, i);
  }

  lemma SameBodiesAfter(sha: Digest, c: Config, d1: Bytes, i: int, d2: Bytes, j: int)
    requires Chunkable(c, |d1|) && 0 <= i < |ChunksFrom(sha, c, d1, 0)|
    requires Chunkable(c, |d2|) && 0 <= j < |ChunksFrom(sha, c, d2, 0)|
    requires SameTail(d1, EndOf(sha, c, d1, i), d2, EndOf(sha, c, d2, j))
    ensures BodiesAfter(sha, c, d1, i) == BodiesAfter(sha, c, d2, j)
  {
    ChunksAfter(sha, c, d1, i);
    ChunksAfter(sha, c, d2, j);
    ChunksReadForward(sha, c, d1, EndOf(sha, c, d1, i), d2, EndOf(sha, c, d2, j));
  }

  ghost predicate InChunking(sha: Digest, c: Config, data: Bytes, i: int) {
    Chunkable(c, |data|) && 0 <= i < |ChunksFrom(sha, c, data, 0)|
  }

  /** The two files end in the same bytes, which begin at `x` in one and at `y` in the other.
      In each a chunk is open at the same place `p` of the common part, a window and `k` more
      of its bytes after the chunk's scan began, and may go on to a later place `q`. */
  ghost predicate BothOpen(sha: Digest, c: Config, d1: Bytes, x: nat, i: int, d2: Bytes, y: nat, j: int,
                           k: nat, p: nat, q: nat)
  {
    && InChunking(sha, c, d1, i) && InChunking(sha, c, d2, j)
    && c.window + k <= p <= q && x + q <= |d1| && y + q <= |d2| && SameTail(d1, x, d2, y)
    && ChunkOpenAt(sha, c, d1, i, x + p, x + q, k) && ChunkOpenAt(sha, c, d2, j, y + p, y + q, k)
  }

  lemma StartOpen(sha: Digest, c: Config, data: Bytes, i: int, mid: nat, mark: nat, k: nat) returns (start: nat)
    requires InChunking(sha, c, data, i) && mark <= |data| && ChunkOpenAt(sha, c, data, i, mid, mark, k)
    ensures OpenAt(c, data, start, mid, mark, k) && EndOf(sha, c, data, i) == Boundary(c, data, start)
    ensures MayEndAt(sha, c, data, i, mark) ==> Tested(c, data, start + c.minChunk, mark)
  {
    EndIsBoundary(sha, c, data, i);
    start := StartOf(sha, c, data, i);
  }

  /** The two chunks end at the same place, up to `q`. */
  ghost predicate EndsMeet(sha: Digest, c: Config, d1: Bytes, x: nat, i: int, d2: Bytes, y: nat, j: int, q: nat)
    requires InChunking(sha, c, d1, i) && InChunking(sha, c, d2, j)
  {
    var e1, e2 := EndOf(sha, c, d1, i), EndOf(sha, c, d2, j);
    e1 - x == e2 - y <= q && SameTail(d1, e1, d2, e2)
  }

  lemma OpenEndsMeet(sha: Digest, c: Config, d1: Bytes, x: nat, i: int, d2: Bytes, y: nat, j: int, k: nat, p: nat,
                     q: nat)
    requires BothOpen(sha, c, d1, x, i, d2, y, j, k, p, q) && k <= 32 && c.mask < Pow2(k)
    requires MayEndAt(sha, c, d1, i, x + q)
    ensures EndsMeet(sha, c, d1, x, i, d2, y, j, q)
  {
    var s1 := StartOpen(sha, c, d1, i, x + p, x + q, k);
    var s2 := StartOpen(sha, c, d2, j, y + p, y + q, k);
    CutsMeetInTail(c, d1, x, s1, d2, y, s2, k, p, q);
  }

  /** Chunks fall back into step after an edit. If in two files that end alike a chunk is open
      over the same stretch, and one of them may be cut at its end, then both are cut at the
      same place up to there, and all chunks from that place on are the same, apart from
      their offsets. */
  lemma ChunkingsResynchronise(sha: Digest, c: Config, d1: Bytes, x: nat, i: int, d2: Bytes, y: nat, j: int,
                               k: nat, p: nat, q: nat)
    requires BothOpen(sha, c, d1, x, i, d2, y, j, k, p, q) && k <= 32 && c.mask < Pow2(k)
    requires MayEndAt(sha, c, d1, i, x + q)
    ensures EndsMeet(sha, c, d1, x, i, d2, y, j, q)
    ensures BodiesAfter(sha, c, d1, i) == BodiesAfter(sha, c, d2, j)
  {
    OpenEndsMeet(sha, c, d1, x, i, d2, y, j, k, p, q);
    SameBodiesAfter(sha, c, d1, i, d2, j);
  }

  /** For the windows the source builds, the outgoing byte is subtracted unshifted. */
  lemma RemovedUnshifted(b: Byte)
    ensures Removed(32, b) == Removed(48, b) == Removed(64, b) == b
  {}
}
