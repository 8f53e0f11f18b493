/** Backing files up through the chunk store and restoring them from the manifest
    (crates/openvault-core/src/incremental.rs). */
module Backup {
  import opened Common
  import opened Storage
  import opened Chunker
  import opened ChunkStore

  // ---------------------------------------------------------------- the manifest

  datatype FileChunks = FileChunks(path: string, originalSize: int, fileHash: string,
                                   chunkHashes: seq<string>, chunkSizes: seq<int>)

  function HashList(chunks: seq<Chunk>): seq<string> {
    if chunks == [] then [] else [chunks[0].hash] + HashList(chunks[1..])
  }

  function SizeList(chunks: seq<Chunk>): seq<int> {
    if chunks == [] then [] else [chunks[0].size] + SizeList(chunks[1..])
  }

  function FromChunks(sha: Digest, path: string, data: Bytes, chunks: seq<Chunk>): FileChunks {
    FileChunks(path, |data|, sha(data), HashList(chunks), SizeList(chunks))
  }

  datatype Listing = Listing(files: map<string, FileChunks>, originalSize: int, storedSize: int,
                             newChunks: int, dupChunks: int)

  const EMPTY_LISTING := Listing(map[], 0, 0, 0, 0)

  function Added(m: Listing, fc: FileChunks, n: Counts, storedSize: int): Listing {
    Listing(m.files[fc.path := fc], m.originalSize + fc.originalSize, m.storedSize + storedSize,
            m.newChunks + n.added, m.dupChunks + n.dup)
  }

  class Manifest {
    var files: map<string, FileChunks>
    var totalOriginalSize: int
    var totalStoredSize: int
    var newChunkCount: int
    var duplicateChunkCount: int

    constructor ()
      ensures Value() == EMPTY_LISTING
    {
      files, totalOriginalSize, totalStoredSize := map[], 0, 0;
      newChunkCount, duplicateChunkCount := 0, 0;
    }

    ghost function Value(): Listing
      reads this
    {
      Listing(files, totalOriginalSize, totalStoredSize, newChunkCount, duplicateChunkCount)
    }

    method AddFile(fc: FileChunks, n: Counts)
      modifies this
      ensures Value() == Added(old(Value()), fc, n, 0)
    {
      totalOriginalSize := totalOriginalSize + fc.originalSize;
      newChunkCount := newChunkCount + n.added;
      duplicateChunkCount := duplicateChunkCount + n.dup;
      files := files[fc.path := fc];
    }
  }

  // ---------------------------------------------------------------- backing up

  datatype Setup = Setup(sha: Digest, config: Config, ns: string, snapshot: string)

  datatype SourceFile = SourceFile(path: string, data: Bytes)

  function ChunksOf(u: Setup, data: Bytes): seq<Chunk>
    requires Chunkable(u.config, |data|)
  {
    ChunksFrom(u.sha, u.config, data, 0)
  }

  /** What `backup_file` adds to `total_stored_size`: the sizes of the chunks whose hash is
      not in the index, looked up after storing. */
  function UnindexedSize(stored: set<string>, chunks: seq<Chunk>): int {
    if chunks == [] then 0
    else (if chunks[0].hash !in stored then chunks[0].size else 0) + UnindexedSize(stored, chunks[1..])
  }

  datatype Progress = Progress(store: State, listing: Listing)

  /** `backup_file`; the flag is false when it returned an error. */
  function BackedUp(plan: Plan, u: Setup, p: Progress, f: SourceFile): (Progress, bool)
    requires Chunkable(u.config, |f.data|)
  {
    var chunks := ChunksOf(u, f.data);
    var (s, n) := PutChunks(plan, u.ns, u.snapshot, p.store, chunks);
    if n.None? then (Progress(s, p.listing), false)
    else (Progress(s, Added(p.listing, FromChunks(u.sha, f.path, f.data, chunks), n.value,
                            UnindexedSize(s.meta.stored, chunks))), true)
  }

  predicate AllChunkable(u: Setup, files: seq<SourceFile>) {
    forall f :: f in files ==> Chunkable(u.config, |f.data|)
  }

  /** `backup_directory` on a flat directory. */
  function BackedUpAll(plan: Plan, u: Setup, p: Progress, files: seq<SourceFile>): (Progress, bool)
    requires AllChunkable(u, files)
    decreases |files|
  {
    if files == [] then (p, true)
    else
      var (q, ok) := BackedUp(plan, u, p, files[0]);
      if ok then BackedUpAll(plan, u, q, files[1..]) else (q, false)
  }

  method BackupFile(env: Env, u: Setup, store: ChunkStore, manifest: Manifest, f: SourceFile) returns (ok: bool)
    requires store.sha == u.sha && store.ns == u.ns && Chunkable(u.config, |f.data|)
    modifies store, store.vault`files, env`tick, manifest
    ensures (Progress(store.Now(env), manifest.Value()), ok)
         == BackedUp(env.plan, u, old(Progress(store.Now(env), manifest.Value())), f)
  {
    var chunks := ChunkData(u.sha, u.config, f.data);
    var n := store.StoreChunks(env, u.snapshot, chunks);
    if n.None? {
      return false;
    }
    var storedSize := 0;
    var i := 0;
    while i < |chunks|
      invariant 0 <= i <= |chunks|
      invariant storedSize + UnindexedSize(store.meta.stored, chunks[i..]) == UnindexedSize(store.meta.stored, chunks)
    {
      assert chunks[i..][0] == chunks[i] && chunks[i..][1..] == chunks[i + 1..];
      if chunks[i].hash !in store.meta.stored {
        storedSize := storedSize + chunks[i].size;
      }
      i := i + 1;
    }
    var fc := FromChunks(u.sha, f.path, f.data, chunks);
    manifest.AddFile(fc, n.value);
    manifest.totalStoredSize := manifest.totalStoredSize + storedSize;
    return true;
  }

  method BackupDirectory(env: Env, u: Setup, store: ChunkStore, manifest: Manifest, files: seq<SourceFile>)
    returns (ok: bool)
    requires store.sha == u.sha && store.ns == u.ns && AllChunkable(u, files)
    modifies store, store.vault`files, env`tick, manifest
    ensures (Progress(store.Now(env), manifest.Value()), ok)
         == BackedUpAll(env.plan, u, old(Progress(store.Now(env), manifest.Value())), files)
  {
    ghost var goal := BackedUpAll(env.plan, u, Progress(store.Now(env), manifest.Value()), files);
    var i := 0;
    while i < |files|
      invariant 0 <= i <= |files|
      invariant goal == BackedUpAll(env.plan, u, Progress(store.Now(env), manifest.Value()), files[i..])
    {
      assert files[i..][0] == files[i] && files[i..][1..] == files[i + 1..];
      ok := BackupFile(env, u, store, manifest, files[i]);
      if !ok {
        return false;
      }
      i := i + 1;
    }
    return true;
  }

  // ---------------------------------------------------------------- restoring

  datatype RestoreError = ChunkNotFound(hash: string) | HashMismatch

  /** The bytes found under the keys of `hashes`, in order. */
  function Assembled(ns: string, snapshot: string, files: Files, hashes: seq<string>): Result<Bytes, RestoreError> {
    if hashes == [] then Ok([])
    else if ChunkKey(ns, snapshot, hashes[0]) !in files then Err(ChunkNotFound(hashes[0]))
    else
      var rest := Assembled(ns, snapshot, files, hashes[1..]);
      if rest.Err? then rest else Ok(files[ChunkKey(ns, snapshot, hashes[0])] + rest.value)
  }

  /** `restore_file` when every read succeeds. */
  function Restored(u: Setup, files: Files, fc: FileChunks): Result<Bytes, RestoreError> {
    var data := Assembled(u.ns, u.snapshot, files, fc.chunkHashes);
    if data.Err? then data
    else if u.sha(data.value) != fc.fileHash then Err(HashMismatch)
    else data
  }

  ghost function After(data: Bytes, rest: Result<Bytes, RestoreError>): Result<Bytes, RestoreError> {
    if rest.Err? then rest else Ok(data + rest.value)
  }

  method RestoreFile(env: Env, u: Setup, vault: Vault, fc: FileChunks, target: Folder)
    returns (r: Result<int, RestoreError>)
    modifies env`tick, target
    ensures r.Ok? ==>
      && Restored(u, vault.files, fc).Ok? && r.value == |Restored(u, vault.files, fc).value|
      && target.tree == old(target.tree)[fc.path := Restored(u, vault.files, fc).value]
    ensures r.Err? ==> target.tree == old(target.tree)
    ensures Reliable(env.plan) && r.Err? ==> Restored(u, vault.files, fc) == Err(r.error)
  {
    var data: Bytes := [];
    var i := 0;
    ghost var goal := Assembled(u.ns, u.snapshot, vault.files, fc.chunkHashes);
    assert goal.Ok? ==> [] + goal.value == goal.value;
    while i < |fc.chunkHashes|
      invariant 0 <= i <= |fc.chunkHashes|
      invariant goal == After(data, Assembled(u.ns, u.snapshot, vault.files, fc.chunkHashes[i..]))
      invariant target.tree == old(target.tree)
    {
      assert fc.chunkHashes[i..][0] == fc.chunkHashes[i] && fc.chunkHashes[i..][1..] == fc.chunkHashes[i + 1..];
      var key := ChunkKey(u.ns, u.snapshot, fc.chunkHashes[i]);
      var piece := vault.RetrieveFile(env, key.snapshot, key.path);
      if piece.None? {
        return Err(ChunkNotFound(fc.chunkHashes[i]));
      }
      ghost var rest := Assembled(u.ns, u.snapshot, vault.files, fc.chunkHashes[i + 1..]);
      assert rest.Ok? ==> data + (piece.value + rest.value) == (data + piece.value) + rest.value;
      data := data + piece.value;
      i := i + 1;
    }
    assert fc.chunkHashes[i..] == [] && data + [] == data;
    assert goal == Ok(data);
    if u.sha(data) != fc.fileHash {
      return Err(HashMismatch);
    }
    target.tree := target.tree[fc.path := data];
    return Ok(|data|);
  }

  // ---------------------------------------------------------------- one file

  lemma {:induction false} HashesListed(chunks: seq<Chunk>, h: string)
    ensures h in HashList(chunks) <==> h in Hashes(chunks)
  {
    if chunks != [] {
      HashesListed(chunks[1..], h);
    }
  }

  /** The key of `c` holds the bytes of `c`. */
  predicate Held(u: Setup, files: Files, c: Chunk) {
    var k := ChunkKey(u.ns, u.snapshot, c.hash);
    k in files && files[k] == c.data
  }

  /** The key of `c` holds no more bytes than `c` has, if it exists. */
  predicate NotLonger(u: Setup, files: Files, c: Chunk) {
    var k := ChunkKey(u.ns, u.snapshot, c.hash);
    k in files ==> |files[k]| <= |c.data|
  }

  predicate AllHeld(u: Setup, files: Files, chunks: seq<Chunk>) {
    forall c :: c in chunks ==> Held(u, files, c)
  }

  /** Reassembly gives the chunks' bytes back exactly when each chunk is there: one that is
      missing, cut short or overwritten cannot be made up for by the others. */
  lemma {:induction false} AssembledExactly(u: Setup, files: Files, chunks: seq<Chunk>)
    requires forall c :: c in chunks ==> NotLonger(u, files, c)
    ensures var got := Assembled(u.ns, u.snapshot, files, HashList(chunks));
      && (got.Ok? ==> |got.value| <= |Joined(chunks)|)
      && (got == Ok(Joined(chunks)) <==> AllHeld(u, files, chunks))
  {
    if chunks != [] {
      var head, tail := chunks[0], chunks[1..];
      var k := ChunkKey(u.ns, u.snapshot, head.hash);
      AssembledExactly(u, files, tail);
      var rest := Assembled(u.ns, u.snapshot, files, HashList(tail));
      assert HashList(chunks)[1..] == HashList(tail);
      assert head in chunks && forall c :: c in chunks ==> c == head || c in tail;
      if rest.Ok? && k in files {
        PiecesTell(files[k], rest.value, head.data, Joined(tail));
      }
    }
  }

  lemma PiecesTell(a: Bytes, x: Bytes, b: Bytes, y: Bytes)
    requires |a| <= |b| && |x| <= |y|
    ensures a + x == b + y <==> a == b && x == y
  {
    if a + x == b + y {
      assert |a + x| == |b + y|;
      assert a == (a + x)[..|a|] && b == (b + y)[..|a|];
      assert x == (a + x)[|a|..] && y == (b + y)[|a|..];
    }
  }

  lemma {:induction false} CoversGenuine(sha: Digest, data: Bytes, start: int, chunks: seq<Chunk>)
    requires 0 <= start <= |data| && Covers(sha, data, start, chunks)
    ensures forall c :: c in chunks ==> c.data != [] && sha(c.data) == c.hash
    decreases |chunks|
  {
    if chunks != [] {
      CoversGenuine(sha, data, start + chunks[0].size, chunks[1..]);
    }
  }

  /** The chunks of a file: genuine, and the file when joined. */
  lemma ChunksFacts(u: Setup, data: Bytes)
    requires Chunkable(u.config, |data|)
    ensures Joined(ChunksOf(u, data)) == data
    ensures forall c :: c in ChunksOf(u, data) ==> c.data != [] && u.sha(c.data) == c.hash
  {
    Partition(u.sha, u.config, data, 0);
    CoversGenuine(u.sha, data, 0, ChunksOf(u, data));
    assert data[0..] == data;
  }

  function Sum(sizes: seq<int>): int {
    if sizes == [] then 0 else sizes[0] + Sum(sizes[1..])
  }

  /** The chunk sizes a manifest lists for a file add up to its size. */
  lemma {:induction false} SizesAddUp(sha: Digest, data: Bytes, start: int, chunks: seq<Chunk>)
    requires 0 <= start <= |data| && Covers(sha, data, start, chunks)
    ensures |SizeList(chunks)| == |HashList(chunks)| == |chunks| && Sum(SizeList(chunks)) == |data| - start
    decreases |chunks|
  {
    if chunks != [] {
      SizesAddUp(sha, data, start + chunks[0].size, chunks[1..]);
      assert SizeList(chunks)[1..] == SizeList(chunks[1..]);
    }
  }

  /** The hash and the size a manifest lists in each place are those of the chunk there. */
  lemma {:induction false} ListedInPlace(chunks: seq<Chunk>, i: int)
    requires 0 <= i < |chunks|
    ensures |HashList(chunks)| == |SizeList(chunks)| == |chunks|
    ensures HashList(chunks)[i] == chunks[i].hash && SizeList(chunks)[i] == chunks[i].size
  {
    if i > 0 {
      ListedInPlace(chunks[1..], i - 1);
    } else if |chunks| > 1 {
      ListedInPlace(chunks[1..], 0);
    }
  }

  /** A directory backup fails exactly if that of some file does, and then with what the files
      before it and the failing one have left; no later file is touched. */
  lemma {:induction false} StopsAtFirstError(plan: Plan, u: Setup, p: Progress, files: seq<SourceFile>)
    requires AllChunkable(u, files)
    ensures !BackedUpAll(plan, u, p, files).1 <==> exists i :: FailsAt(plan, u, p, files, i)
    ensures forall i :: FailsAt(plan, u, p, files, i) ==>
      BackedUpAll(plan, u, p, files) == BackedUp(plan, u, BackedUpAll(plan, u, p, files[..i]).0, files[i])
    decreases |files|
  {
    if files != [] {
      var (q, ok) := BackedUp(plan, u, p, files[0]);
      assert files[..0] == [];
      if ok {
        StopsAtFirstError(plan, u, q, files[1..]);
        forall i ensures i >= 1 && FailsAt(plan, u, p, files, i) <==> i >= 1 && FailsAt(plan, u, q, files[1..], i - 1) {
          if 1 <= i < |files| {
            assert files[..i][0] == files[0] && files[..i][1..] == files[1..][..i - 1];
          }
        }
        forall i | FailsAt(plan, u, p, files, i)
          ensures BackedUpAll(plan, u, p, files) == BackedUp(plan, u, BackedUpAll(plan, u, p, files[..i]).0, files[i])
        {
          assert i >= 1 && FailsAt(plan, u, q, files[1..], i - 1);
          assert files[..i][0] == files[0] && files[..i][1..] == files[1..][..i - 1];
        }
        if !BackedUpAll(plan, u, q, files[1..]).1 {
          var i :| FailsAt(plan, u, q, files[1..], i);
          assert FailsAt(plan, u, p, files, i + 1);
        }
      } else {
        assert FailsAt(plan, u, p, files, 0);
        forall i | 1 <= i <= |files| ensures !BackedUpAll(plan, u, p, files[..i]).1 {
          assert files[..i][0] == files[0];
        }
      }
    }
  }

  /** The files before `i` are backed up, and file `i` fails. */
  predicate FailsAt(plan: Plan, u: Setup, p: Progress, files: seq<SourceFile>, i: int)
    requires AllChunkable(u, files)
  {
    && 0 <= i < |files| && BackedUpAll(plan, u, p, files[..i]).1
    && !BackedUp(plan, u, BackedUpAll(plan, u, p, files[..i]).0, files[i]).1
  }

  predicate InUniverse(u: Setup, universe: set<Bytes>, data: Bytes)
    requires Chunkable(u.config, |data|)
  {
    forall c :: c in ChunksOf(u, data) ==> c.data in universe
  }

  /** The round trip of one file, exactly. When storing completed, what is restored is the
      file if and only if every chunk taken for a duplicate had its bytes under this snapshot
      already. The index knows nothing of snapshots, so the other branch is reachable: see
      DedupAcrossSnapshots, TornThenDuplicate and StaleIndex. */
  lemma RoundTripExactly(universe: set<Bytes>, plan: Plan, u: Setup, p: Progress, f: SourceFile)
    requires Honest(plan) && CollisionFree(u.sha, universe)
    requires Chunkable(u.config, |f.data|) && InUniverse(u, universe, f.data)
    requires BackedUp(plan, u, p, f).1
    requires forall c :: c in ChunksOf(u, f.data) && c.hash in p.store.meta.stored ==>
      NotLonger(u, p.store.files, c)
    ensures var q := BackedUp(plan, u, p, f).0;
      Restored(u, q.store.files, q.listing.files[f.path]) == Ok(f.data)
      <==>
      forall c :: c in ChunksOf(u, f.data) && c.hash in p.store.meta.stored ==> Held(u, p.store.files, c)
  {
    var chunks := ChunksOf(u, f.data);
    ChunksFacts(u, f.data);
    var s := PutChunks(plan, u.ns, u.snapshot, p.store, chunks).0;
    NewlyStoredIntact(u.sha, universe, plan, u.ns, u.snapshot, p.store, chunks);
    PutFrame(plan, u.ns, u.snapshot, p.store, chunks);
    forall c | c in chunks
      ensures c.hash in s.meta.stored
      ensures c.hash in p.store.meta.stored ==>
        SameAt(p.store.files, s.files, ChunkKey(u.ns, u.snapshot, c.hash))
      ensures c.hash !in p.store.meta.stored ==> Held(u, s.files, c)
    {
      HashOfMember(chunks, c);
      if c.hash in p.store.meta.stored {
        PutKeepsIndexed(plan, u.ns, u.snapshot, p.store, chunks, c.hash);
      }
    }
    AssembledExactly(u, s.files, chunks);
  }
}
