/** The deduplicating chunk store, the backup manifest and restore from it
    (crates/openvault-core/src/incremental.rs). */
module ChunkStore {
  import opened Common
  import opened Storage
  import opened Chunker

  // ---------------------------------------------------------------- storing chunks

  datatype Meta = Meta(stored: set<string>, totalChunks: int, totalBytes: int, duplicates: int)

  const EMPTY_META := Meta({}, 0, 0, 0)

  /** The store's whole state: the backend's files, its own counters and the number of
      storage operations issued so far. */
  datatype State = State(files: Files, meta: Meta, tick: int)

  function ChunkKey(ns: string, snapshot: string, hash: string): Key {
    Key(snapshot, "__chunks__/" + ns + "/" + hash)
  }

  lemma ChunkKeyInjective(ns: string, s1: string, h1: string, s2: string, h2: string)
    requires ChunkKey(ns, s1, h1) == ChunkKey(ns, s2, h2)
    ensures s1 == s2 && h1 == h2
  {
    var stem := "__chunks__/" + ns + "/";
    assert h1 == (stem + h1)[|stem|..] == (stem + h2)[|stem|..] == h2;
  }

  predicate NoSlash(hash: string) {
    forall i :: 0 <= i < |hash| ==> hash[i] != '/'
  }

  /** Stores of different namespaces never share a key, for hashes without a slash, as
      hexadecimal ones are; and a chunk's key is never the path of a file elsewhere. */
  lemma ChunkKeysApart(s1: string, ns1: string, h1: string, s2: string, ns2: string, h2: string, path: string)
    requires NoSlash(h1) && NoSlash(h2)
    ensures ChunkKey(ns1, s1, h1) == ChunkKey(ns2, s2, h2) <==> s1 == s2 && ns1 == ns2 && h1 == h2
    ensures !("__chunks__/" <= path) ==> ChunkKey(ns1, s1, h1) != Key(s1, path)
  {
    var stem1, stem2 := "__chunks__/" + ns1, "__chunks__/" + ns2;
    LastSlash(stem1, h1);
    LastSlash(stem2, h2);
    assert "__chunks__/" <= stem1 + "/" + h1;
    if stem1 + "/" + h1 == stem2 + "/" + h2 {
      assert stem1[11..] == ns1 && stem2[11..] == ns2;
    }
  }

  lemma LastSlash(stem: string, h: string)
    requires NoSlash(h)
    ensures var p := stem + "/" + h;
      && p[|stem|] == '/' && p[..|stem|] == stem && p[|stem| + 1..] == h
      && forall i :: |stem| < i < |p| ==> p[i] != '/'
  {}

  /** The outcome of a `store_chunk`: an error, or whether the chunk was new. */
  function PutChunk(plan: Plan, ns: string, snapshot: string, s: State, c: Chunk): (State, Option<bool>) {
    if c.hash in s.meta.stored then
      (s.(meta := s.meta.(duplicates := s.meta.duplicates + 1)), Some(false))
    else
      var o := plan(s.tick);
      var files := Written(o, s.files, ChunkKey(ns, snapshot, c.hash), c.data);
      if !Accepted(o) then (State(files, s.meta, s.tick + 1), None)
      else
        var meta := Meta(s.meta.stored + {c.hash}, s.meta.totalChunks + 1,
                         s.meta.totalBytes + c.size, s.meta.duplicates);
        (State(files, meta, s.tick + 1), Some(true))
  }

  datatype Counts = Counts(added: int, dup: int)

  function Counted(isNew: bool, n: Counts): Counts {
    if isNew then Counts(n.added + 1, n.dup) else Counts(n.added, n.dup + 1)
  }

  function PutChunks(plan: Plan, ns: string, snapshot: string, s: State, chunks: seq<Chunk>): (State, Option<Counts>)
    decreases |chunks|
  {
    if chunks == [] then (s, Some(Counts(0, 0)))
    else
      var (s1, r1) := PutChunk(plan, ns, snapshot, s, chunks[0]);
      if r1.None? then (s1, None)
      else
        var (s2, r2) := PutChunks(plan, ns, snapshot, s1, chunks[1..]);
        (s2, if r2.None? then None else Some(Counted(r1.value, r2.value)))
  }

  predicate BlankAt(f: Files, k: Key) {
    k in f && f[k] == []
  }

  function KeysOf(ns: string, snapshot: string, hashes: set<string>): set<Key> {
    set h | h in hashes :: ChunkKey(ns, snapshot, h)
  }

  /** A `gc`: dead hashes leave the index, their files are blanked (or whatever a failing
      write makes of them) and nothing else changes. `total_bytes` stays. */
  ghost predicate Collected(plan: Plan, ns: string, snapshot: string, live: set<string>, s: State, s': State) {
    var dead := s.meta.stored - live;
    && s'.meta == s.meta.(stored := s.meta.stored * live, totalChunks := s.meta.totalChunks - |dead|)
    && (forall k :: k !in KeysOf(ns, snapshot, dead) ==> SameAt(s.files, s'.files, k))
    && (Reliable(plan) ==> forall h :: h in dead ==> BlankAt(s'.files, ChunkKey(ns, snapshot, h)))
  }

  /** Of the dead hashes, the files of `done` have been blanked, and no others written. */
  ghost predicate BlankedUpTo(plan: Plan, ns: string, snapshot: string, dead: set<string>, done: set<string>,
                              f: Files, f': Files)
  {
    && (forall k :: k !in KeysOf(ns, snapshot, dead) ==> SameAt(f, f', k))
    && (Reliable(plan) ==> forall h :: h in done ==> BlankAt(f', ChunkKey(ns, snapshot, h)))
  }

  lemma BlankOneMore(plan: Plan, ns: string, snapshot: string, dead: set<string>, done: set<string>,
                     f: Files, f': Files, o: Outcome, h: string)
    requires BlankedUpTo(plan, ns, snapshot, dead, done, f, f') && h in dead && (Reliable(plan) ==> o.Fine?)
    ensures BlankedUpTo(plan, ns, snapshot, dead, done + {h}, f, Written(o, f', ChunkKey(ns, snapshot, h), []))
  {
    assert ChunkKey(ns, snapshot, h) in KeysOf(ns, snapshot, dead);
  }

  class ChunkStore {
    const sha: Digest
    const vault: Vault
    const ns: string
    var meta: Meta

    constructor (sha: Digest, vault: Vault, ns: string)
      ensures this.sha == sha && this.vault == vault && this.ns == ns && meta == EMPTY_META
    {
      this.sha, this.vault, this.ns := sha, vault, ns;
      meta := EMPTY_META;
    }

    ghost function Now(env: Env): State
      reads this, vault, env
    {
      State(vault.files, meta, env.tick)
    }

    method StoreChunk(env: Env, snapshot: string, c: Chunk) returns (r: Option<bool>)
      modifies this, vault`files, env`tick
      ensures (Now(env), r) == PutChunk(env.plan, ns, snapshot, old(Now(env)), c)
    {
      if c.hash in meta.stored {
        meta := meta.(duplicates := meta.duplicates + 1);
        return Some(false);
      }
      var ok := vault.StoreFile(env, snapshot, ChunkKey(ns, snapshot, c.hash).path, c.data);
      if !ok {
        return None;
      }
      meta := Meta(meta.stored + {c.hash}, meta.totalChunks + 1, meta.totalBytes + c.size, meta.duplicates);
      return Some(true);
    }

    method StoreChunks(env: Env, snapshot: string, chunks: seq<Chunk>) returns (r: Option<Counts>)
      modifies this, vault`files, env`tick
      ensures (Now(env), r) == PutChunks(env.plan, ns, snapshot, old(Now(env)), chunks)
    {
      var n := Counts(0, 0);
      var i := 0;
      ghost var goal := PutChunks(env.plan, ns, snapshot, Now(env), chunks);
      while i < |chunks|
        invariant 0 <= i <= |chunks|
        invariant var (s, rest) := PutChunks(env.plan, ns, snapshot, Now(env), chunks[i..]);
          goal == (s, if rest.None? then None else Some(Counts(n.added + rest.value.added, n.dup + rest.value.dup)))
      {
        assert chunks[i..][0] == chunks[i] && chunks[i..][1..] == chunks[i + 1..];
        var stored := StoreChunk(env, snapshot, chunks[i]);
        if stored.None? {
          return None;
        }
        n := Counted(stored.value, n);
        i := i + 1;
      }
      return Some(n);
    }

    method Gc(env: Env, snapshot: string, live: set<string>) returns (removed: int)
      modifies this, vault`files, env`tick
      ensures Collected(env.plan, ns, snapshot, live, old(Now(env)), Now(env))
      ensures removed == |old(meta.stored) - live|
    {
      var dead := meta.stored - live;
      removed := |dead|;
      var todo := dead;
      ghost var was, plan := vault.files, env.plan;
      while todo != {}
        invariant todo <= dead
        invariant meta == old(meta).(stored := old(meta.stored) - (dead - todo))
        invariant BlankedUpTo(plan, ns, snapshot, dead, dead - todo, was, vault.files)
        decreases todo
      {
        var h :| h in todo;
        ghost var before, o := vault.files, plan(env.tick);
        var key := ChunkKey(ns, snapshot, h);
        var _ := vault.StoreFile(env, snapshot, key.path, []);
        BlankOneMore(plan, ns, snapshot, dead, dead - todo, was, before, o, h);
        assert dead - (todo - {h}) == (dead - todo) + {h};
        meta := meta.(stored := meta.stored - {h});
        todo := todo - {h};
      }
      assert dead - todo == dead;
      assert old(meta.stored) - dead == old(meta.stored) * live;
      meta := meta.(totalChunks := meta.totalChunks - removed);
    }
  }

  // ---------------------------------------------------------------- what storing does

  function Hashes(chunks: seq<Chunk>): set<string> {
    if chunks == [] then {} else {chunks[0].hash} + Hashes(chunks[1..])
  }

  lemma {:induction false} HashOfMember(chunks: seq<Chunk>, c: Chunk)
    requires c in chunks
    ensures c.hash in Hashes(chunks)
  {
    if c != chunks[0] {
      HashOfMember(chunks[1..], c);
    }
  }

  /** Storing chunks, completed or not, only adds to the index and writes at no key of a
      hash already in it. */
  lemma {:induction false} PutFrame(plan: Plan, ns: string, snapshot: string, s: State, chunks: seq<Chunk>)
    ensures var (s', r) := PutChunks(plan, ns, snapshot, s, chunks);
      && s.meta.stored <= s'.meta.stored <= s.meta.stored + Hashes(chunks)
      && (r.Some? ==> s'.meta.stored == s.meta.stored + Hashes(chunks))
      && forall k :: k !in KeysOf(ns, snapshot, Hashes(chunks) - s.meta.stored) ==> SameAt(s.files, s'.files, k)
    decreases |chunks|
  {
    if chunks != [] {
      var (s1, r1) := PutChunk(plan, ns, snapshot, s, chunks[0]);
      var h, fresh' := chunks[0].hash, Hashes(chunks) - s.meta.stored;
      if h !in s.meta.stored {
        assert h in fresh' && ChunkKey(ns, snapshot, h) in KeysOf(ns, snapshot, fresh');
      }
      if r1.Some? {
        PutFrame(plan, ns, snapshot, s1, chunks[1..]);
        KeysGrow(ns, snapshot, Hashes(chunks[1..]) - s1.meta.stored, fresh');
      }
    }
  }

  /** Storing chunks whose hashes are all indexed writes nothing, and so cannot fail. */
  lemma {:induction false} AllDuplicates(plan: Plan, ns: string, snapshot: string, s: State, chunks: seq<Chunk>)
    requires Hashes(chunks) <= s.meta.stored
    ensures var (s', r) := PutChunks(plan, ns, snapshot, s, chunks);
      r.Some? && s'.files == s.files
    decreases |chunks|
  {
    if chunks != [] {
      AllDuplicates(plan, ns, snapshot, PutChunk(plan, ns, snapshot, s, chunks[0]).0, chunks[1..]);
    }
  }

  lemma KeysGrow(ns: string, snapshot: string, a: set<string>, b: set<string>)
    requires a <= b
    ensures KeysOf(ns, snapshot, a) <= KeysOf(ns, snapshot, b)
  {}

  /** The counters: `total_chunks` moves with the index, and a completed call counts each
      distinct hash not yet present once and every other chunk as a duplicate. */
  lemma {:induction false} PutCounts(plan: Plan, ns: string, snapshot: string, s: State, chunks: seq<Chunk>)
    ensures var (s', r) := PutChunks(plan, ns, snapshot, s, chunks);
      && s'.meta.totalChunks - s.meta.totalChunks == |s'.meta.stored| - |s.meta.stored|
      && (r.Some? ==>
            && r.value.added == |Hashes(chunks) - s.meta.stored|
            && r.value.added + r.value.dup == |chunks|
            && s'.meta.duplicates == s.meta.duplicates + r.value.dup)
    decreases |chunks|
  {
    if chunks != [] {
      var h := chunks[0].hash;
      var (s1, r1) := PutChunk(plan, ns, snapshot, s, chunks[0]);
      if r1.Some? {
        PutCounts(plan, ns, snapshot, s1, chunks[1..]);
        OneMore(h, Hashes(chunks[1..]), s.meta.stored);
      }
    }
  }

  lemma OneMore(h: string, rest: set<string>, stored: set<string>)
    ensures h in stored ==> ({h} + rest) - stored == rest - stored
    ensures h !in stored ==> |({h} + rest) - stored| == 1 + |rest - (stored + {h})|
  {
    if h !in stored {
      assert ({h} + rest) - stored == {h} + (rest - (stored + {h}));
    }
  }

  /** The chunks a call stores: the first of each hash not yet in the index. */
  function NewOnes(stored: set<string>, chunks: seq<Chunk>): seq<Chunk>
    decreases |chunks|
  {
    if chunks == [] then []
    else if chunks[0].hash in stored then NewOnes(stored, chunks[1..])
    else [chunks[0]] + NewOnes(stored + {chunks[0].hash}, chunks[1..])
  }

  function TotalSize(chunks: seq<Chunk>): int {
    if chunks == [] then 0 else chunks[0].size + TotalSize(chunks[1..])
  }

  /** The chunks a call did store before it completed or failed. */
  function Landed(plan: Plan, ns: string, snapshot: string, s: State, chunks: seq<Chunk>): seq<Chunk>
    decreases |chunks|
  {
    if chunks == [] then []
    else
      var (s1, r1) := PutChunk(plan, ns, snapshot, s, chunks[0]);
      if r1.None? then []
      else (if r1.value then [chunks[0]] else []) + Landed(plan, ns, snapshot, s1, chunks[1..])
  }

  lemma {:induction false} SizesJoin(a: seq<Chunk>, b: seq<Chunk>)
    ensures TotalSize(a + b) == TotalSize(a) + TotalSize(b)
  {
    if a == [] {
      assert a + b == b;
    } else {
      assert (a + b)[0] == a[0] && (a + b)[1..] == a[1..] + b;
      SizesJoin(a[1..], b);
    }
  }

  /** `total_bytes` grows by the sizes of the chunks newly stored: those that a completed
      call has to store, or the first few of them if it fails. */
  lemma {:induction false} PutBytes(plan: Plan, ns: string, snapshot: string, s: State, chunks: seq<Chunk>)
    ensures var (s', r) := PutChunks(plan, ns, snapshot, s, chunks);
      var landed := Landed(plan, ns, snapshot, s, chunks);
      && s'.meta.totalBytes == s.meta.totalBytes + TotalSize(landed)
      && landed <= NewOnes(s.meta.stored, chunks)
      && (r.Some? ==> landed == NewOnes(s.meta.stored, chunks))
    decreases |chunks|
  {
    if chunks != [] {
      var (s1, r1) := PutChunk(plan, ns, snapshot, s, chunks[0]);
      if r1.Some? {
        var later := Landed(plan, ns, snapshot, s1, chunks[1..]);
        PutBytes(plan, ns, snapshot, s1, chunks[1..]);
        if r1.value {
          assert ([chunks[0]] + later)[1..] == later;
        } else {
          assert [] + later == later;
        }
      }
    }
  }

  // ---------------------------------------------------------------- intact chunks

  /** Key `k` holds a byte string of `universe` with checksum `h`. */
  predicate Intact(sha: Digest, universe: set<Bytes>, files: Files, k: Key, h: string) {
    k in files && files[k] in universe && sha(files[k]) == h
  }

  predicate Genuine(sha: Digest, universe: set<Bytes>, chunks: seq<Chunk>) {
    forall c :: c in chunks ==> c.data in universe && c.data != [] && sha(c.data) == c.hash
  }

  /** Every indexed hash has its bytes under `snapshot`, and `total_chunks` counts the index. */
  ghost predicate Sound(sha: Digest, universe: set<Bytes>, ns: string, snapshot: string, s: State) {
    && s.meta.totalChunks == |s.meta.stored|
    && forall h :: h in s.meta.stored ==> Intact(sha, universe, s.files, ChunkKey(ns, snapshot, h), h)
  }

  /** A hash that storing puts into the index has its bytes in storage. */
  lemma {:induction false} NewlyStoredIntact(sha: Digest, universe: set<Bytes>, plan: Plan, ns: string,
                                             snapshot: string, s: State, chunks: seq<Chunk>)
    requires Honest(plan) && Genuine(sha, universe, chunks)
    ensures var s' := PutChunks(plan, ns, snapshot, s, chunks).0;
      forall h :: h in s'.meta.stored - s.meta.stored ==>
        Intact(sha, universe, s'.files, ChunkKey(ns, snapshot, h), h)
    decreases |chunks|
  {
    if chunks != [] {
      var (s1, r1) := PutChunk(plan, ns, snapshot, s, chunks[0]);
      if r1.Some? {
        NewlyStoredIntact(sha, universe, plan, ns, snapshot, s1, chunks[1..]);
        PutKeepsIndexed(plan, ns, snapshot, s1, chunks[1..], chunks[0].hash);
        assert chunks[0] in chunks;
      }
    }
  }

  /** Storing leaves the file of an indexed hash alone. */
  lemma PutKeepsIndexed(plan: Plan, ns: string, snapshot: string, s: State, chunks: seq<Chunk>, h: string)
    requires h in s.meta.stored
    ensures var s' := PutChunks(plan, ns, snapshot, s, chunks).0;
      h in s'.meta.stored && forall sid :: SameAt(s.files, s'.files, ChunkKey(ns, sid, h))
  {
    PutFrame(plan, ns, snapshot, s, chunks);
    forall sid ensures ChunkKey(ns, sid, h) !in KeysOf(ns, snapshot, Hashes(chunks) - s.meta.stored) {
      forall g | g in Hashes(chunks) - s.meta.stored && ChunkKey(ns, sid, h) == ChunkKey(ns, snapshot, g)
        ensures false
      {
        ChunkKeyInjective(ns, sid, h, snapshot, g);
      }
    }
  }

  lemma PutKeepsSound(sha: Digest, universe: set<Bytes>, plan: Plan, ns: string,
                      snapshot: string, s: State, chunks: seq<Chunk>)
    requires Honest(plan) && Genuine(sha, universe, chunks) && Sound(sha, universe, ns, snapshot, s)
    ensures Sound(sha, universe, ns, snapshot, PutChunks(plan, ns, snapshot, s, chunks).0)
  {
    NewlyStoredIntact(sha, universe, plan, ns, snapshot, s, chunks);
    PutCounts(plan, ns, snapshot, s, chunks);
    forall h | h in s.meta.stored ensures
      SameAt(s.files, PutChunks(plan, ns, snapshot, s, chunks).0.files, ChunkKey(ns, snapshot, h)) {
      PutKeepsIndexed(plan, ns, snapshot, s, chunks, h);
    }
  }

  lemma CollectKeepsLive(plan: Plan, ns: string, snapshot: string, live: set<string>, s: State, s': State, h: string)
    requires Collected(plan, ns, snapshot, live, s, s') && (h in live || h !in s.meta.stored)
    ensures forall sid :: SameAt(s.files, s'.files, ChunkKey(ns, sid, h))
  {
    forall sid ensures ChunkKey(ns, sid, h) !in KeysOf(ns, snapshot, s.meta.stored - live) {
      forall g | g in s.meta.stored - live && ChunkKey(ns, sid, h) == ChunkKey(ns, snapshot, g)
        ensures false
      {
        ChunkKeyInjective(ns, sid, h, snapshot, g);
      }
    }
  }
}
