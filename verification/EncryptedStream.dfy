/** Streaming encryption (crates/openvault-core/src/crypto.rs). */
module EncryptedStream {
  import opened Common

  const BLOCK := 65536
  const READ_SIZE := 65548
  const NONCE := 12
  const TAG := 16

  /** An authenticated cipher under some key: `seal` with a nonce, `open` with the same. */
  datatype Cipher = Cipher(seal: (Bytes, Bytes) -> Bytes, open: (Bytes, Bytes) -> Option<Bytes>)

  /** Decryption inverts encryption. */
  ghost predicate Inverts(c: Cipher) {
    forall n, p :: c.open(n, c.seal(n, p)) == Some(p)
  }

  /** A ciphertext is as long as its text and the 16-byte tag of AES-256-GCM (sections 5.1
      and 5.2 of RFC 5116). */
  ghost predicate Tagged(c: Cipher) {
    forall n, p :: |c.seal(n, p)| == |p| + TAG
  }

  /** The ciphertext of `block`, cut after `k` bytes, is not accepted. */
  predicate CutRejected(c: Cipher, nonce: Bytes, block: Bytes, k: int) {
    0 <= k <= |c.seal(nonce, block)| ==> c.open(nonce, c.seal(nonce, block)[..k]).None?
  }

  /** The nonces drawn, in order. */
  type Nonces = int -> Bytes

  ghost predicate NonceSized(nonces: Nonces) {
    forall i :: |nonces(i)| == NONCE
  }

  // ---------------------------------------------------------------- blocks

  /** The successive whole blocks of `data`. */
  function FullBlocks(data: Bytes): seq<Bytes> {
    if |data| < BLOCK then [] else [data[..BLOCK]] + FullBlocks(data[BLOCK..])
  }

  function Remainder(data: Bytes): (r: Bytes)
    ensures |r| < BLOCK
  {
    if |data| < BLOCK then data else Remainder(data[BLOCK..])
  }

  /** All blocks: the whole ones, and the remainder if there is one. */
  function AllBlocks(data: Bytes): seq<Bytes> {
    FullBlocks(data) + (if Remainder(data) == [] then [] else [Remainder(data)])
  }

  /** The blocks concatenate to the data, and each is 1 to 65536 bytes long. */
  lemma {:induction false} BlocksJoin(data: Bytes)
    ensures Concat(FullBlocks(data)) + Remainder(data) == data
    ensures |data| == 65536 * |FullBlocks(data)| + |Remainder(data)|
  {
    if |data| >= BLOCK {
      var first, rest := data[..BLOCK], data[BLOCK..];
      BlocksJoin(rest);
      ConcatCons(first, FullBlocks(rest));
      AppendAssociates(first, Concat(FullBlocks(rest)), Remainder(rest));
      assert data == first + rest;
    }
  }

  lemma AllBlocksJoin(data: Bytes)
    ensures Concat(AllBlocks(data)) == data
  {
    BlocksJoin(data);
    var full, last := FullBlocks(data), Remainder(data);
    if last == [] {
      assert full + [] == full && Concat(full) + [] == Concat(full);
    } else {
      ConcatSnoc(full, last);
    }
  }

  /** Blocks may be cut as the data arrives: what is left over is cut with what follows. */
  lemma {:induction false} BlocksContinue(a: Bytes, b: Bytes)
    ensures FullBlocks(a + b) == FullBlocks(a) + FullBlocks(Remainder(a) + b)
    ensures Remainder(a + b) == Remainder(Remainder(a) + b)
    decreases |a|
  {
    if |a| < BLOCK {
      assert [] + FullBlocks(a + b) == FullBlocks(a + b);
    } else {
      var first, rest := a[..BLOCK], a[BLOCK..];
      FirstOfBoth(a, b);
      BlocksContinue(rest, b);
      AppendAssociates([first], FullBlocks(rest), FullBlocks(Remainder(rest) + b));
    }
  }

  lemma FirstOfBoth(a: Bytes, b: Bytes)
    requires |a| >= BLOCK
    ensures FullBlocks(a) == [a[..BLOCK]] + FullBlocks(a[BLOCK..]) && Remainder(a) == Remainder(a[BLOCK..])
    ensures FullBlocks(a + b) == [a[..BLOCK]] + FullBlocks(a[BLOCK..] + b)
    ensures Remainder(a + b) == Remainder(a[BLOCK..] + b)
  {
    assert (a + b)[..BLOCK] == a[..BLOCK] && (a + b)[BLOCK..] == a[BLOCK..] + b;
  }

  /** Taking the first block off changes neither all the blocks nor the remainder. */
  lemma NextBlock(emitted: seq<Bytes>, buffer: Bytes)
    requires |buffer| >= BLOCK
    ensures (emitted + [buffer[..BLOCK]]) + FullBlocks(buffer[BLOCK..]) == emitted + FullBlocks(buffer)
    ensures Remainder(buffer[BLOCK..]) == Remainder(buffer)
  {
    AppendAssociates(emitted, [buffer[..BLOCK]], FullBlocks(buffer[BLOCK..]));
  }

  // ---------------------------------------------------------------- frames

  function Frame(c: Cipher, nonces: Nonces, i: int, block: Bytes): Bytes {
    nonces(i) + c.seal(nonces(i), block)
  }

  /** The frames of `blocks`, each under a nonce of its own. */
  function Frames(c: Cipher, nonces: Nonces, blocks: seq<Bytes>): Bytes {
    if blocks == [] then []
    else
      var n := |blocks| - 1;
      Frames(c, nonces, blocks[..n]) + Frame(c, nonces, n, blocks[n])
  }

  lemma FramesSnoc(c: Cipher, nonces: Nonces, blocks: seq<Bytes>, b: Bytes)
    ensures Frames(c, nonces, blocks + [b]) == Frames(c, nonces, blocks) + Frame(c, nonces, |blocks|, b)
  {
    assert (blocks + [b])[..|blocks|] == blocks;
  }

  // ---------------------------------------------------------------- the output, byte by byte

  /** The frame of a whole block: nonce, text and tag. */
  const FRAME := 65564

  /** Where the `i`-th block of `length` bytes ends. */
  function BlockEnd(length: int, i: int): int {
    Min(65536 * (i + 1), length)
  }

  ghost predicate AllButLastWhole(blocks: seq<Bytes>) {
    forall i :: 0 <= i < |blocks| - 1 ==> |blocks[i]| == BLOCK
  }

  lemma {:induction false} FullBlocksAt(data: Bytes, i: int)
    requires 0 <= i && 65536 * (i + 1) <= |data|
    ensures i < |FullBlocks(data)| && FullBlocks(data)[i] == data[65536 * i..65536 * (i + 1)]
    decreases i
  {
    if i > 0 {
      var rest := data[BLOCK..];
      FullBlocksAt(rest, i - 1);
      DropThenSlice(data, BLOCK, 65536 * (i - 1), 65536 * i);
      assert FullBlocks(data) == [data[..BLOCK]] + FullBlocks(rest);
    }
  }

  lemma DropThenSlice(s: Bytes, drop: int, from: int, end: int)
    requires 0 <= drop && 0 <= from <= end && drop + end <= |s|
    ensures s[drop..][from..end] == s[drop + from..drop + end]
    ensures s[drop..][from..] == s[drop + from..]
  {}

  lemma {:induction false} RemainderAt(data: Bytes, n: int)
    requires 0 <= n && 65536 * n <= |data| < 65536 * (n + 1)
    ensures |FullBlocks(data)| == n && Remainder(data) == data[65536 * n..]
    decreases n
  {
    if n > 0 {
      RemainderAt(data[BLOCK..], n - 1);
      DropThenSlice(data, BLOCK, 65536 * (n - 1), 65536 * (n - 1));
    }
  }

  /** `length` bytes make `n` blocks. */
  predicate Blocks(length: int, n: int) {
    0 <= n && 65536 * (n - 1) < length <= 65536 * n
  }

  lemma BlocksExist(length: nat) returns (n: int)
    ensures Blocks(length, n)
  {
    n := (length + BLOCK - 1) / BLOCK;
  }

  /** The `i`-th block holds the bytes from 65536 times `i` on. */
  lemma AllBlocksAt(data: Bytes, n: int, i: int)
    requires Blocks(|data|, n) && 0 <= i < n
    ensures |AllBlocks(data)| == n && AllBlocks(data)[i] == data[65536 * i..BlockEnd(|data|, i)]
  {
    BlockCount(data, n);
    if 65536 * (i + 1) <= |data| {
      FullBlocksAt(data, i);
    } else {
      RemainderAt(data, i);
    }
  }

  lemma BlockCount(data: Bytes, n: int)
    requires Blocks(|data|, n)
    ensures |AllBlocks(data)| == n
  {
    RemainderAt(data, if |data| == 65536 * n then n else n - 1);
  }

  lemma AllBlocksShape(data: Bytes, n: int)
    requires Blocks(|data|, n)
    ensures |AllBlocks(data)| == n && AllButLastWhole(AllBlocks(data))
  {
    BlockCount(data, n);
    forall i | 0 <= i < n - 1 ensures |AllBlocks(data)[i]| == BLOCK {
      AllBlocksAt(data, n, i);
    }
  }

  lemma {:induction false} WholeFrames(c: Cipher, nonces: Nonces, blocks: seq<Bytes>)
    requires Tagged(c) && NonceSized(nonces) && forall i :: 0 <= i < |blocks| ==> |blocks[i]| == BLOCK
    ensures |Frames(c, nonces, blocks)| == 65564 * |blocks|
    decreases |blocks|
  {
    if blocks != [] {
      var n := |blocks| - 1;
      WholeFrames(c, nonces, blocks[..n]);
      FrameLength(c, nonces, n, blocks[n]);
    }
  }

  lemma FrameLength(c: Cipher, nonces: Nonces, i: int, block: Bytes)
    requires Tagged(c) && NonceSized(nonces)
    ensures |Frame(c, nonces, i, block)| == 28 + |block|
  {}

  /** Where the `i`-th frame lies. */
  lemma {:induction false} FramesAt(c: Cipher, nonces: Nonces, blocks: seq<Bytes>, i: int)
    requires Tagged(c) && NonceSized(nonces) && AllButLastWhole(blocks) && 0 <= i < |blocks|
    ensures var stream, n := Frames(c, nonces, blocks), |blocks| - 1;
      && |stream| == 65564 * n + 28 + |blocks[n]|
      && 65564 * i + 28 + |blocks[i]| <= |stream|
      && stream[65564 * i..65564 * i + 28 + |blocks[i]|] == Frame(c, nonces, i, blocks[i])
    decreases |blocks|
  {
    var n := |blocks| - 1;
    var front, last := Frames(c, nonces, blocks[..n]), Frame(c, nonces, n, blocks[n]);
    WholeFrames(c, nonces, blocks[..n]);
    FrameLength(c, nonces, n, blocks[n]);
    if i < n {
      FramesAt(c, nonces, blocks[..n], i);
      InFront(front, last, 65564 * i, 65564 * i + 28 + |blocks[i]|);
    } else {
      InFront(front, last, 0, 0);
    }
  }

  lemma InFront(front: Bytes, last: Bytes, from: int, end: int)
    requires 0 <= from <= end <= |front|
    ensures (front + last)[from..end] == front[from..end]
    ensures (front + last)[|front|..|front| + |last|] == last
  {}

  lemma OpensTo(c: Cipher, nonces: Nonces, i: int, block: Bytes)
    requires Inverts(c) && Tagged(c) && NonceSized(nonces)
    ensures var frame := Frame(c, nonces, i, block);
      |frame| >= NONCE && frame[..NONCE] == nonces(i) && c.open(nonces(i), frame[NONCE..]) == Some(block)
  {
    assert Frame(c, nonces, i, block)[NONCE..] == c.seal(nonces(i), block);
  }

  /** Where the frame of the `i`-th of `length` bytes' blocks ends. */
  function FrameEnd(length: int, i: int): int {
    65564 * i + 28 + (BlockEnd(length, i) - 65536 * i)
  }

  /** The finished output, cut every 65564 bytes: its `i`-th piece is the `i`-th nonce drawn
      and a ciphertext that opens under that nonce to the `i`-th 65536 bytes of the data. */
  lemma FrameByFrame(c: Cipher, nonces: Nonces, data: Bytes, i: int)
    requires Inverts(c) && Tagged(c) && NonceSized(nonces) && 0 <= i && 65536 * i < |data|
    ensures var stream := Frames(c, nonces, AllBlocks(data));
      var from, end := 65564 * i, Min(65564 * (i + 1), |stream|);
      && end == FrameEnd(|data|, i) && from + NONCE <= end
      && stream[from..from + NONCE] == nonces(i)
      && c.open(nonces(i), stream[from + NONCE..end]) == Some(data[65536 * i..Min(65536 * (i + 1), |data|)])
  {
    var n := BlocksExist(|data|);
    FrameEnds(|data|, n, i);
    OutputLength(c, nonces, data, n);
    FrameAt(c, nonces, data, n, i);
    OpensTo(c, nonces, i, data[65536 * i..BlockEnd(|data|, i)]);
    SliceTwice(Frames(c, nonces, AllBlocks(data)), 65564 * i, FrameEnd(|data|, i), NONCE);
  }

  lemma FrameAt(c: Cipher, nonces: Nonces, data: Bytes, n: int, i: int)
    requires Tagged(c) && NonceSized(nonces) && Blocks(|data|, n)
    requires 0 <= i < n && 65536 * i < BlockEnd(|data|, i) <= |data|
    ensures var stream, end := Frames(c, nonces, AllBlocks(data)), FrameEnd(|data|, i);
      && 65564 * i <= end <= |stream|
      && stream[65564 * i..end] == Frame(c, nonces, i, data[65536 * i..BlockEnd(|data|, i)])
  {
    AllBlocksShape(data, n);
    AllBlocksAt(data, n, i);
    FrameOfBlock(c, nonces, AllBlocks(data), i, data[65536 * i..BlockEnd(|data|, i)], FrameEnd(|data|, i));
  }

  lemma FrameOfBlock(c: Cipher, nonces: Nonces, blocks: seq<Bytes>, i: int, block: Bytes, end: int)
    requires Tagged(c) && NonceSized(nonces) && AllButLastWhole(blocks) && 0 <= i < |blocks|
    requires blocks[i] == block && end == 65564 * i + 28 + |block|
    ensures var stream := Frames(c, nonces, blocks);
      65564 * i <= end <= |stream| && stream[65564 * i..end] == Frame(c, nonces, i, block)
  {
    FramesAt(c, nonces, blocks, i);
  }

  lemma FrameEnds(length: int, n: int, i: int)
    requires Blocks(length, n) && 0 <= i && 65536 * i < length
    ensures i < n && 65536 * i < BlockEnd(length, i) <= length
    ensures 65564 * i + NONCE <= FrameEnd(length, i) == Min(65564 * (i + 1), length + 28 * n)
  {}

  lemma SliceTwice(s: Bytes, from: int, end: int, k: int)
    requires 0 <= from && 0 <= k && from + k <= end <= |s|
    ensures s[from..end][..k] == s[from..from + k] && s[from..end][k..] == s[from + k..end]
  {}

  /** Nothing follows the last frame. */
  lemma OutputLength(c: Cipher, nonces: Nonces, data: Bytes, n: int)
    requires Tagged(c) && NonceSized(nonces) && Blocks(|data|, n)
    ensures |Frames(c, nonces, AllBlocks(data))| == |data| + 28 * n
  {
    AllBlocksShape(data, n);
    if n > 0 {
      AllBlocksAt(data, n, n - 1);
      FramesAt(c, nonces, AllBlocks(data), n - 1);
    }
  }

  /** No nonce is used twice, if those drawn are distinct. */
  lemma NoncesDiffer(c: Cipher, nonces: Nonces, data: Bytes, i: int, j: int)
    requires Inverts(c) && Tagged(c) && NonceSized(nonces)
    requires forall k, l :: 0 <= k < l ==> nonces(k) != nonces(l)
    requires 0 <= i < j && 65536 * j < |data|
    ensures var stream := Frames(c, nonces, AllBlocks(data));
      && 65564 * j + NONCE <= |stream|
      && stream[65564 * i..65564 * i + NONCE] != stream[65564 * j..65564 * j + NONCE]
  {
    FrameByFrame(c, nonces, data, i);
    FrameByFrame(c, nonces, data, j);
  }

  // ---------------------------------------------------------------- the writer

  class EncryptedWriter {
    const cipher: Cipher
    const nonces: Nonces
    var out: Bytes
    var buffer: Bytes
    var processed: int
    var sealedFrames: int

    ghost var written: Bytes

    /** Whatever the calls were, the state is that of the bytes written, taken together. */
    ghost predicate Valid()
      reads this
    {
      && buffer == Remainder(written)
      && sealedFrames == |FullBlocks(written)|
      && out == Frames(cipher, nonces, FullBlocks(written))
      && processed == 65536 * |FullBlocks(written)|
    }

    constructor (cipher: Cipher, nonces: Nonces)
      ensures Valid() && written == [] && this.cipher == cipher && this.nonces == nonces
    {
      this.cipher, this.nonces := cipher, nonces;
      out, buffer, processed, sealedFrames, written := [], [], 0, 0, [];
    }

    /** `write`. */
    method Write(buf: Bytes) returns (n: int)
      requires Valid()
      modifies this
      ensures Valid() && written == old(written) + buf && n == |buf|
      ensures processed + |buffer| == |written|
    {
      BlocksContinue(written, buf);
      BlocksJoin(written + buf);
      ghost var emitted, goal := FullBlocks(written), FullBlocks(written + buf);
      ghost var last := Remainder(written + buf);
      written := written + buf;
      buffer := buffer + buf;
      while |buffer| >= BLOCK
        invariant emitted + FullBlocks(buffer) == goal && Remainder(buffer) == last
        invariant sealedFrames == |emitted| && processed == 65536 * |emitted|
        invariant out == Frames(cipher, nonces, emitted)
        invariant written == old(written) + buf
        decreases |buffer|
      {
        var chunk := buffer[..BLOCK];
        NextBlock(emitted, buffer);
        FramesSnoc(cipher, nonces, emitted, chunk);
        buffer := buffer[BLOCK..];
        out := out + Frame(cipher, nonces, sealedFrames, chunk);
        sealedFrames := sealedFrames + 1;
        processed := processed + |chunk|;
        emitted := emitted + [chunk];
      }
      assert emitted + [] == emitted;
      return |buf|;
    }

    /** `finish`: the output is the frames of all blocks of what was written. */
    method Finish() returns (total: int)
      requires Valid()
      modifies this
      ensures out == Frames(cipher, nonces, AllBlocks(written)) && total == |written| && written == old(written)
    {
      BlocksJoin(written);
      if buffer != [] {
        FramesSnoc(cipher, nonces, FullBlocks(written), buffer);
        out := out + Frame(cipher, nonces, sealedFrames, buffer);
        processed := processed + |buffer|;
      } else {
        assert FullBlocks(written) + [] == FullBlocks(written);
      }
      return processed;
    }
  }

  // ---------------------------------------------------------------- the reader

  /** What a reader yields up to the end of `stream`, when the stream delivers as many bytes
      as are asked for: it asks for `size` at a time and opens each piece. None for a
      decryption error. */
  function ReadIn(c: Cipher, size: nat, stream: Bytes): Option<Bytes>
    requires size > 0
    decreases |stream|
  {
    if stream == [] then Some([])
    else
      var n := Min(size, |stream|);
      if n < NONCE then None
      else
        var piece := c.open(stream[..NONCE], stream[NONCE..n]);
        var rest := ReadIn(c, size, stream[n..]);
        if piece.None? || rest.None? then None else Some(piece.value + rest.value)
  }

  /** `DecryptedReader` asks for 65548 bytes at a time. */
  function ReadBack(c: Cipher, stream: Bytes): Option<Bytes> {
    ReadIn(c, READ_SIZE, stream)
  }

  lemma ReadsPiece(c: Cipher, size: nat, stream: Bytes, n: int, text: Bytes, rest: Bytes)
    requires n == Min(size, |stream|) && NONCE <= n
    requires c.open(stream[..NONCE], stream[NONCE..n]) == Some(text)
    requires ReadIn(c, size, stream[n..]) == Some(rest)
    ensures ReadIn(c, size, stream) == Some(text + rest)
  {}

  /** Between `from` and `end` of the stream lies a frame of the data between `start` and `e`. */
  ghost predicate FrameIs(c: Cipher, nonce: Bytes, stream: Bytes, from: int, end: int, data: Bytes, start: int, e: int)
  {
    && 0 <= from && from + NONCE <= end == Min(from + FRAME, |stream|) && 0 <= start <= e <= |data|
    && stream[from..from + NONCE] == nonce && c.open(nonce, stream[from + NONCE..end]) == Some(data[start..e])
  }

  /** Reading the stream from `from` on gives the data from `start` on. */
  ghost predicate ReadsOn(c: Cipher, stream: Bytes, from: int, data: Bytes, start: int) {
    0 <= from <= |stream| && 0 <= start <= |data| && ReadIn(c, FRAME, stream[from..]) == Some(data[start..])
  }

  lemma ReadsFrame(c: Cipher, nonce: Bytes, stream: Bytes, from: int, end: int, data: Bytes, start: int, e: int)
    requires FrameIs(c, nonce, stream, from, end, data, start, e) && ReadsOn(c, stream, end, data, e)
    ensures ReadsOn(c, stream, from, data, start)
  {
    SliceTail(stream, from, end, NONCE);
    ReadsPiece(c, FRAME, stream[from..], end - from, data[start..e], data[e..]);
    assert data[start..] == data[start..e] + data[e..];
  }

  /** Where the first `i` blocks end, in the data and in the output. */
  function DataAt(length: int, i: nat): int {
    if i == 0 then 0 else BlockEnd(length, i - 1)
  }

  function OutputAt(length: int, i: nat): int {
    if i == 0 then 0 else FrameEnd(length, i - 1)
  }

  lemma Positions(length: nat, n: int, i: nat)
    requires Blocks(length, n) && i <= n
    ensures if i < n then 65536 * i < length && DataAt(length, i) == 65536 * i && OutputAt(length, i) == 65564 * i
            else DataAt(length, i) == length && OutputAt(length, i) == length + 28 * n
  {}

  lemma FrameIsThere(c: Cipher, nonces: Nonces, data: Bytes, n: nat, i: nat)
    requires Inverts(c) && Tagged(c) && NonceSized(nonces) && Blocks(|data|, n) && i < n
    ensures FrameIs(c, nonces(i), Frames(c, nonces, AllBlocks(data)), OutputAt(|data|, i), OutputAt(|data|, i + 1),
                    data, DataAt(|data|, i), DataAt(|data|, i + 1))
  {
    Positions(|data|, n, i);
    FrameByFrame(c, nonces, data, i);
  }

  lemma ReadsTheEnd(c: Cipher, nonces: Nonces, data: Bytes, n: nat)
    requires Tagged(c) && NonceSized(nonces) && Blocks(|data|, n)
    ensures ReadsOn(c, Frames(c, nonces, AllBlocks(data)), OutputAt(|data|, n), data, DataAt(|data|, n))
  {
    var stream := Frames(c, nonces, AllBlocks(data));
    Positions(|data|, n, n);
    OutputLength(c, nonces, data, n);
    assert stream[|stream|..] == [] && data[|data|..] == [];
  }

  lemma {:induction false} ReadsOnFrom(c: Cipher, nonces: Nonces, data: Bytes, n: nat, i: nat)
    requires Inverts(c) && Tagged(c) && NonceSized(nonces) && Blocks(|data|, n) && i <= n
    ensures ReadsOn(c, Frames(c, nonces, AllBlocks(data)), OutputAt(|data|, i), data, DataAt(|data|, i))
    decreases n - i
  {
    if i < n {
      ReadsOnFrom(c, nonces, data, n, i + 1);
      FrameIsThere(c, nonces, data, n, i);
      ReadsFrame(c, nonces(i), Frames(c, nonces, AllBlocks(data)), OutputAt(|data|, i), OutputAt(|data|, i + 1), data,
                 DataAt(|data|, i), DataAt(|data|, i + 1));
    } else {
      ReadsTheEnd(c, nonces, data, n);
    }
  }

  lemma SliceTail(s: Bytes, from: int, end: int, k: int)
    requires 0 <= from && 0 <= k && from + k <= end <= |s|
    ensures s[from..][..k] == s[from..from + k] && s[from..][k..end - from] == s[from + k..end]
    ensures s[from..][end - from..] == s[end..]
  {}

  /** A reader that asked for 65564 bytes at a time would give back the data, however long. */
  lemma FrameReaderReadsAll(c: Cipher, nonces: Nonces, data: Bytes)
    requires Inverts(c) && Tagged(c) && NonceSized(nonces)
    ensures ReadIn(c, FRAME, Frames(c, nonces, AllBlocks(data))) == Some(data)
  {
    var n := BlocksExist(|data|);
    ReadsOnFrom(c, nonces, data, n, 0);
    var stream := Frames(c, nonces, AllBlocks(data));
    assert stream[0..] == stream && data[0..] == data;
  }

  lemma {:induction false} FirstFrame(c: Cipher, nonces: Nonces, blocks: seq<Bytes>)
    requires blocks != []
    ensures Frame(c, nonces, 0, blocks[0]) <= Frames(c, nonces, blocks)
    ensures |blocks| == 1 ==> Frames(c, nonces, blocks) == Frame(c, nonces, 0, blocks[0])
  {
    var n := |blocks| - 1;
    if n > 0 {
      FirstFrame(c, nonces, blocks[..n]);
    } else {
      assert blocks[..0] == [] && Frames(c, nonces, []) == [];
    }
  }

  /** A frame longer than one read is cut short; if the piece is rejected, reading fails. */
  lemma LongFrameFails(c: Cipher, nonces: Nonces, block: Bytes, stream: Bytes)
    requires Tagged(c) && NonceSized(nonces) && Frame(c, nonces, 0, block) <= stream
    requires READ_SIZE - NONCE - TAG < |block| <= BLOCK
    requires CutRejected(c, nonces(0), block, READ_SIZE - NONCE)
    ensures ReadBack(c, stream).None?
  {
    var nonce, sealed := nonces(0), c.seal(nonces(0), block);
    var frame := nonce + sealed;
    assert |nonce| == NONCE && |sealed| == |block| + TAG;
    var k := READ_SIZE - NONCE;
    assert stream[..NONCE] == frame[..NONCE] == nonce;
    assert stream[NONCE..READ_SIZE] == frame[NONCE..READ_SIZE] == sealed[..k];
  }

  lemma ShortFrameOpens(c: Cipher, nonces: Nonces, block: Bytes)
    requires Inverts(c) && Tagged(c) && NonceSized(nonces) && |block| <= READ_SIZE - NONCE - TAG
    ensures ReadBack(c, Frame(c, nonces, 0, block)) == Some(block)
  {
    var nonce, sealed := nonces(0), c.seal(nonces(0), block);
    var frame := nonce + sealed;
    assert |nonce| == NONCE && |sealed| == |block| + TAG;
    assert frame[..NONCE] == nonce && frame[NONCE..|frame|] == sealed && frame[|frame|..] == [];
    ReadsPiece(c, READ_SIZE, frame, |frame|, block, []);
    assert block + [] == block;
  }

  /** The reader's first piece of a frame too long for it is rejected. */
  predicate FirstCutRejected(c: Cipher, nonces: Nonces, data: Bytes) {
    |data| > 65520 ==>
      var blocks := AllBlocks(data);
      blocks != [] ==> CutRejected(c, nonces(0), blocks[0], READ_SIZE - NONCE)
  }

  /** Reading back what was written gives the data exactly when it is at most 65520 bytes
      long. The reader asks for 65548 bytes, but the frame of a full block has 65564, so its
      first piece lacks the end of the tag. The cipher is relied on to notice that once. */
  lemma ReadsBackExactly(c: Cipher, nonces: Nonces, data: Bytes)
    requires Inverts(c) && Tagged(c) && NonceSized(nonces)
    requires FirstCutRejected(c, nonces, data)
    ensures ReadBack(c, Frames(c, nonces, AllBlocks(data))) == Some(data) <==> |data| <= 65520
    ensures |data| > 65520 ==> ReadBack(c, Frames(c, nonces, AllBlocks(data))).None?
  {
    var blocks := AllBlocks(data);
    var stream := Frames(c, nonces, blocks);
    if data == [] {
      assert blocks == [];
    } else {
      FirstBlock(data);
      FirstFrame(c, nonces, blocks);
      if |data| <= 65520 {
        ShortFrameOpens(c, nonces, data);
      } else {
        LongFrameFails(c, nonces, blocks[0], stream);
      }
    }
  }

  lemma FirstBlock(data: Bytes)
    requires data != []
    ensures var blocks := AllBlocks(data);
      blocks != [] && (if |data| < BLOCK then blocks == [data] else |blocks[0]| == BLOCK)
  {}

  // ---------------------------------------------------------------- counter mode

  /** The key stream of a nonce, and the tag of a nonce and a ciphertext. */
  datatype Key = Key(stream: (Bytes, int) -> Byte, tag: (Bytes, Bytes) -> Bytes)

  ghost predicate TagSized(key: Key) {
    forall n, text :: |key.tag(n, text)| == TAG
  }

  function Xor(b: Byte, mask: Byte): Byte {
    b ^ mask
  }

  /** Every byte of `text` combined with its byte of the key stream. */
  function Masked(key: Key, nonce: Bytes, text: Bytes): (r: Bytes)
    ensures |r| == |text|
  {
    if text == [] then []
    else
      var n := |text| - 1;
      Masked(key, nonce, text[..n]) + [Xor(text[n], key.stream(nonce, n))]
  }

  function Seal(key: Key, nonce: Bytes, text: Bytes): Bytes {
    Masked(key, nonce, text) + key.tag(nonce, Masked(key, nonce, text))
  }

  function Open(key: Key, nonce: Bytes, sealed: Bytes): Option<Bytes> {
    if |sealed| < TAG then None
    else
      var n := |sealed| - TAG;
      if key.tag(nonce, sealed[..n]) == sealed[n..] then Some(Masked(key, nonce, sealed[..n])) else None
  }

  /** The shape of AES-256-GCM: counter mode, with a tag over the ciphertext. */
  function CounterMode(key: Key): Cipher {
    Cipher((n, text) => Seal(key, n, text), (n, sealed) => Open(key, n, sealed))
  }

  lemma {:induction false} MaskedAt(key: Key, nonce: Bytes, text: Bytes, i: int)
    requires 0 <= i < |text|
    ensures Masked(key, nonce, text)[i] == Xor(text[i], key.stream(nonce, i))
  {
    var n := |text| - 1;
    if i < n {
      MaskedAt(key, nonce, text[..n], i);
    }
  }

  lemma MaskedTwice(key: Key, nonce: Bytes, text: Bytes)
    ensures Masked(key, nonce, Masked(key, nonce, text)) == text
  {
    var once := Masked(key, nonce, text);
    forall i | 0 <= i < |text| ensures Masked(key, nonce, once)[i] == text[i] {
      MaskedAt(key, nonce, text, i);
      MaskedAt(key, nonce, once, i);
      XorTwice(text[i], key.stream(nonce, i));
    }
  }

  lemma XorTwice(b: Byte, mask: Byte)
    ensures Xor(Xor(b, mask), mask) == b
  {}

  /** What is assumed of the cipher holds of counter mode under every key stream and tag. */
  lemma AssumptionsHold(key: Key)
    requires TagSized(key)
    ensures Inverts(CounterMode(key)) && Tagged(CounterMode(key))
  {
    var c := CounterMode(key);
    forall n, p ensures c.open(n, c.seal(n, p)) == Some(p) && |c.seal(n, p)| == |p| + TAG {
      var text := Masked(key, n, p);
      var sealed := text + key.tag(n, text);
      assert sealed[..|p|] == text && sealed[|p|..] == key.tag(n, text);
      MaskedTwice(key, n, p);
    }
  }

  lemma {:induction false} MaskedFront(key: Key, nonce: Bytes, text: Bytes, k: int)
    requires 0 <= k <= |text|
    ensures Masked(key, nonce, text)[..k] == Masked(key, nonce, text[..k])
  {
    var n := |text| - 1;
    if k <= n {
      MaskedFront(key, nonce, text[..n], k);
      assert text[..n][..k] == text[..k];
      assert Masked(key, nonce, text)[..k] == Masked(key, nonce, text[..n])[..k];
    } else {
      assert text[..k] == text;
    }
  }

  /** When the premise on the reader's first piece is met: a cut that keeps `m` bytes of the
      text and 16 more is accepted exactly if those 16 bytes are the tag of the `m`. */
  lemma CutRejectedExactly(key: Key, nonce: Bytes, block: Bytes, m: int)
    requires TagSized(key) && 0 <= m <= |block|
    ensures CutRejected(CounterMode(key), nonce, block, m + TAG)
      <==> Seal(key, nonce, block)[m..m + TAG] != key.tag(nonce, Masked(key, nonce, block[..m]))
  {
    var text := Masked(key, nonce, block);
    var sealed := text + key.tag(nonce, text);
    MaskedFront(key, nonce, block, m);
    assert |sealed| == |block| + TAG;
    assert sealed[..m + TAG][..m] == text[..m];
    assert sealed[..m + TAG][m..] == sealed[m..m + TAG];
  }

  /** The premise cannot be asked for every text: under any key, some 16 bytes of text have
      a ciphertext whose front is that of the empty text. */
  lemma SomeCutAccepted(key: Key, nonce: Bytes)
    requires TagSized(key)
    ensures var p := Masked(key, nonce, key.tag(nonce, []));
      |p| == TAG && !CutRejected(CounterMode(key), nonce, p, TAG)
  {
    var p := Masked(key, nonce, key.tag(nonce, []));
    MaskedTwice(key, nonce, key.tag(nonce, []));
    CutRejectedExactly(key, nonce, p, 0);
    var sealed := Seal(key, nonce, p);
    assert sealed[0..0 + TAG] == Masked(key, nonce, p);
    assert p[..0] == [];
  }
}
