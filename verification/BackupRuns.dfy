/** Whole runs of the chunk store: what backing up, collecting garbage and reopening keep
    (crates/openvault-core/src/incremental.rs). */
module BackupRuns {
  import opened Common
  import opened Storage
  import opened Chunker
  import opened ChunkStore
  import opened Backup

  // ---------------------------------------------------------------- a directory

  /** The tree after writing `files` over `tree`, in order. */
  function TreeAfter(tree: map<string, Bytes>, files: seq<SourceFile>): map<string, Bytes>
    decreases |files|
  {
    if files == [] then tree
    else TreeAfter(tree[files[0].path := files[0].data], files[1..])
  }

  /** Every hash that `fc` names is indexed. */
  predicate Indexed(stored: set<string>, fc: FileChunks) {
    forall h :: h in fc.chunkHashes ==> h in stored
  }

  /** The manifest lists exactly the files of `tree`, each under its own path, with indexed
      chunks, and each restores to its bytes. */
  ghost predicate Restores(u: Setup, p: Progress, tree: map<string, Bytes>) {
    && p.listing.files.Keys == tree.Keys
    && forall path :: path in tree ==>
        var fc := p.listing.files[path];
        fc.path == path && Indexed(p.store.meta.stored, fc) && Restored(u, p.store.files, fc) == Ok(tree[path])
  }

  predicate AllInUniverse(u: Setup, universe: set<Bytes>, files: seq<SourceFile>)
    requires AllChunkable(u, files)
  {
    forall f :: f in files ==> InUniverse(u, universe, f.data)
  }

  lemma {:induction false} AssembledSame(u: Setup, f1: Files, f2: Files, hashes: seq<string>)
    requires forall h :: h in hashes ==> SameAt(f1, f2, ChunkKey(u.ns, u.snapshot, h))
    ensures Assembled(u.ns, u.snapshot, f1, hashes) == Assembled(u.ns, u.snapshot, f2, hashes)
  {
    if hashes != [] {
      assert hashes[0] in hashes;
      AssembledSame(u, f1, f2, hashes[1..]);
    }
  }

  lemma GenuineChunks(u: Setup, universe: set<Bytes>, data: Bytes)
    requires Chunkable(u.config, |data|) && InUniverse(u, universe, data)
    ensures Genuine(u.sha, universe, ChunksOf(u, data))
  {
    ChunksFacts(u, data);
  }

  /** One file backed up into a sound store: it restores, and so does all that did. */
  lemma FileBackedUp(universe: set<Bytes>, plan: Plan, u: Setup, p: Progress, f: SourceFile, tree: map<string, Bytes>)
    requires Honest(plan) && CollisionFree(u.sha, universe)
    requires Chunkable(u.config, |f.data|) && InUniverse(u, universe, f.data)
    requires Sound(u.sha, universe, u.ns, u.snapshot, p.store) && Restores(u, p, tree)
    ensures var (q, ok) := BackedUp(plan, u, p, f);
      && Sound(u.sha, universe, u.ns, u.snapshot, q.store)
      && (ok ==> Restores(u, q, tree[f.path := f.data]))
  {
    var chunks := ChunksOf(u, f.data);
    GenuineChunks(u, universe, f.data);
    PutKeepsSound(u.sha, universe, plan, u.ns, u.snapshot, p.store, chunks);
    var (q, ok) := BackedUp(plan, u, p, f);
    if ok {
      NewFileRestores(universe, plan, u, p, f);
      OldFilesRestore(plan, u, p, f, tree);
    }
  }

  lemma OldFilesRestore(plan: Plan, u: Setup, p: Progress, f: SourceFile, tree: map<string, Bytes>)
    requires Chunkable(u.config, |f.data|) && Restores(u, p, tree) && BackedUp(plan, u, p, f).1
    ensures var q := BackedUp(plan, u, p, f).0;
      forall path :: path in tree && path != f.path ==>
        && path in q.listing.files && q.listing.files[path].path == path
        && Indexed(q.store.meta.stored, q.listing.files[path])
        && Restored(u, q.store.files, q.listing.files[path]) == Ok(tree[path])
  {
    forall path | path in tree && path != f.path
      ensures var q, fc := BackedUp(plan, u, p, f).0, p.listing.files[path];
        Indexed(q.store.meta.stored, fc) && Restored(u, q.store.files, fc) == Ok(tree[path])
    {
      OldFileRestores(plan, u, p, f, p.listing.files[path]);
    }
  }

  lemma NewFileRestores(universe: set<Bytes>, plan: Plan, u: Setup, p: Progress, f: SourceFile)
    requires Honest(plan) && CollisionFree(u.sha, universe)
    requires Chunkable(u.config, |f.data|) && InUniverse(u, universe, f.data)
    requires Sound(u.sha, universe, u.ns, u.snapshot, p.store) && BackedUp(plan, u, p, f).1
    ensures var q := BackedUp(plan, u, p, f).0;
      var fc := q.listing.files[f.path];
      Indexed(q.store.meta.stored, fc) && Restored(u, q.store.files, fc) == Ok(f.data)
  {
    var chunks := ChunksOf(u, f.data);
    GenuineChunks(u, universe, f.data);
    ChunksFacts(u, f.data);
    var s := PutChunks(plan, u.ns, u.snapshot, p.store, chunks).0;
    PutKeepsSound(u.sha, universe, plan, u.ns, u.snapshot, p.store, chunks);
    PutFrame(plan, u.ns, u.snapshot, p.store, chunks);
    forall c | c in chunks ensures Held(u, s.files, c) {
      HashOfMember(chunks, c);
      assert Intact(u.sha, universe, s.files, ChunkKey(u.ns, u.snapshot, c.hash), c.hash);
    }
    forall h | h in HashList(chunks) ensures h in s.meta.stored {
      HashesListed(chunks, h);
    }
    AssembledExactly(u, s.files, chunks);
  }

  lemma OldFileRestores(plan: Plan, u: Setup, p: Progress, f: SourceFile, fc: FileChunks)
    requires Chunkable(u.config, |f.data|) && Indexed(p.store.meta.stored, fc)
    ensures var q := BackedUp(plan, u, p, f).0;
      Indexed(q.store.meta.stored, fc) && Restored(u, q.store.files, fc) == Restored(u, p.store.files, fc)
  {
    var chunks := ChunksOf(u, f.data);
    var s := PutChunks(plan, u.ns, u.snapshot, p.store, chunks).0;
    forall h | h in fc.chunkHashes
      ensures h in s.meta.stored && SameAt(p.store.files, s.files, ChunkKey(u.ns, u.snapshot, h))
    {
      PutKeepsIndexed(plan, u.ns, u.snapshot, p.store, chunks, h);
    }
    AssembledSame(u, p.store.files, s.files, fc.chunkHashes);
  }

  /** A completed directory backup into a sound store restores to exactly the directory. */
  lemma {:induction false} DirectoryBackedUp(universe: set<Bytes>, plan: Plan, u: Setup, p: Progress,
                                             files: seq<SourceFile>, tree: map<string, Bytes>)
    requires Honest(plan) && CollisionFree(u.sha, universe)
    requires AllChunkable(u, files) && AllInUniverse(u, universe, files)
    requires Sound(u.sha, universe, u.ns, u.snapshot, p.store) && Restores(u, p, tree)
    ensures var (q, ok) := BackedUpAll(plan, u, p, files);
      && Sound(u.sha, universe, u.ns, u.snapshot, q.store)
      && (ok ==> Restores(u, q, TreeAfter(tree, files)))
    decreases |files|
  {
    if files != [] {
      var f := files[0];
      assert f in files;
      FileBackedUp(universe, plan, u, p, f, tree);
      var (q, ok) := BackedUp(plan, u, p, f);
      if ok {
        DirectoryBackedUp(universe, plan, u, q, files[1..], tree[f.path := f.data]);
      }
    }
  }

  // ---------------------------------------------------------------- restoring all

  /** What restoring every listed file writes. */
  function AllRestored(u: Setup, files: Files, listed: map<string, FileChunks>): map<string, Bytes> {
    map path | path in listed && Restored(u, files, listed[path]).Ok? :: Restored(u, files, listed[path]).value
  }

  ghost predicate Keyed(listed: map<string, FileChunks>) {
    forall path :: path in listed ==> listed[path].path == path
  }

  /** `tree` is `base` with the files `done` of `all` written over it. */
  ghost predicate Overlaid(base: map<string, Bytes>, all: map<string, Bytes>, done: set<string>, tree: map<string,
                           Bytes>)
  {
    && done <= all.Keys
    && tree.Keys == base.Keys + done
    && forall path :: path in tree ==> tree[path] == if path in done then all[path] else base[path]
  }

  lemma OverlayOne(base: map<string, Bytes>, all: map<string, Bytes>, done: set<string>, tree: map<string, Bytes>,
                   path: string)
    requires Overlaid(base, all, done, tree) && path in all
    ensures Overlaid(base, all, done + {path}, tree[path := all[path]])
  {}

  /** `restore_all`: a file that fails is skipped. Whatever fails, a file written has the
      bytes of its manifest entry and every other file of the target is as before; when
      every read succeeds, all files that can be restored are. */
  method RestoreAll(env: Env, u: Setup, vault: Vault, listed: map<string, FileChunks>, target: Folder)
    returns (filesRestored: int, ghost done: set<string>)
    requires Keyed(listed)
    modifies env`tick, target
    ensures Overlaid(old(target.tree), AllRestored(u, vault.files, listed), done, target.tree)
    ensures filesRestored == |done|
    ensures Reliable(env.plan) ==> done == AllRestored(u, vault.files, listed).Keys
  {
    filesRestored, done := 0, {};
    var todo := listed.Keys;
    ghost var base, all, reliable := target.tree, AllRestored(u, vault.files, listed), Reliable(env.plan);
    ghost var files := vault.files;
    while todo != {}
      invariant vault.files == files && todo <= listed.Keys
      invariant Halfway(reliable, base, all, done, todo, target.tree, filesRestored)
      decreases todo
    {
      var path :| path in todo;
      ghost var tree := target.tree;
      RestoredIsListed(u, files, listed, path);
      var r := RestoreFile(env, u, vault, listed[path], target);
      HalfwayStep(reliable, base, all, done, todo, tree, filesRestored, path);
      todo := todo - {path};
      if r.Ok? {
        filesRestored := filesRestored + 1;
        done := done + {path};
      }
    }
  }

  /** The files of `done` are restored, those of `todo` have not been tried, others failed. */
  ghost predicate Halfway(reliable: bool, base: map<string, Bytes>, all: map<string, Bytes>, done: set<string>,
                          todo: set<string>, tree: map<string, Bytes>, count: int)
  {
    && done !! todo && count == |done| && Overlaid(base, all, done, tree)
    && (reliable ==> all.Keys <= done + todo)
  }

  lemma HalfwayStep(reliable: bool, base: map<string, Bytes>, all: map<string, Bytes>, done: set<string>,
                    todo: set<string>, tree: map<string, Bytes>, count: int, path: string)
    requires Halfway(reliable, base, all, done, todo, tree, count) && path in todo
    ensures path in all ==>
      Halfway(reliable, base, all, done + {path}, todo - {path}, tree[path := all[path]], count + 1)
    ensures !reliable || path !in all ==> Halfway(reliable, base, all, done, todo - {path}, tree, count)
  {
    if path in all {
      OverlayOne(base, all, done, tree, path);
      CountOne(done, path);
    }
  }

  lemma CountOne<T>(s: set<T>, x: T)
    requires x !in s
    ensures |s + {x}| == |s| + 1
  {}

  lemma RestoredIsListed(u: Setup, files: Files, listed: map<string, FileChunks>, path: string)
    requires path in listed
    ensures var all := AllRestored(u, files, listed);
      && (path in all <==> Restored(u, files, listed[path]).Ok?)
      && (path in all ==> all[path] == Restored(u, files, listed[path]).value)
  {}

  // ---------------------------------------------------------------- runs

  /** One thing that may happen to the store: chunks of some file are stored (perhaps in
      part), garbage is collected, the process starts afresh with an empty index, an index
      saved before is loaded, or files that are not chunks are written. */
  datatype Op =
    | Store(snapshot: string, chunks: seq<Chunk>)
    | Collect(snapshot: string, live: set<string>)
    | Reopen
    | Load(saved: Meta)
    | Other

  ghost predicate Step(plan: Plan, ns: string, op: Op, s: State, s': State) {
    match op
    case Store(snapshot, chunks) => s' == PutChunks(plan, ns, snapshot, s, chunks).0
    case Collect(snapshot, live) => Collected(plan, ns, snapshot, live, s, s')
    case Reopen => s'.files == s.files && s'.meta == EMPTY_META
    case Load(saved) => s'.files == s.files && s'.meta == saved
    case Other => s'.meta == s.meta && forall sid, h :: SameAt(s.files, s'.files, ChunkKey(ns, sid, h))
  }

  ghost predicate Run(plan: Plan, ns: string, ops: seq<Op>, states: seq<State>) {
    |states| == |ops| + 1 && forall i :: 0 <= i < |ops| ==> Step(plan, ns, ops[i], states[i], states[i + 1])
  }

  // ---------------------------------------------------------------- accounts

  /** An index that operation `n` loads is that of an earlier state. */
  ghost predicate LoadsSaved(ops: seq<Op>, states: seq<State>)
    requires |states| == |ops| + 1
  {
    forall n :: 0 <= n < |ops| && ops[n].Load? ==> exists k :: 0 <= k <= n && states[k].meta == ops[n].saved
  }

  /** The chunks newly stored up to state `n`, as far as the index in use remembers. */
  ghost function Ledger(plan: Plan, ns: string, ops: seq<Op>, states: seq<State>, n: int): seq<Chunk>
    requires |states| == |ops| + 1 && LoadsSaved(ops, states) && 0 <= n <= |ops|
    decreases n
  {
    if n == 0 then []
    else
      if ops[n - 1].Load? then
        var k :| 0 <= k <= n - 1 && states[k].meta == ops[n - 1].saved;
        Ledger(plan, ns, ops, states, k)
      else LedgerAfter(plan, ns, ops[n - 1], states[n - 1], Ledger(plan, ns, ops, states, n - 1))
  }

  function LedgerAfter(plan: Plan, ns: string, op: Op, s: State, ledger: seq<Chunk>): seq<Chunk> {
    match op
    case Store(snapshot, chunks) => ledger + Landed(plan, ns, snapshot, s, chunks)
    case Reopen => []
    case _ => ledger
  }

  ghost predicate Balanced(meta: Meta, ledger: seq<Chunk>) {
    meta.totalChunks == |meta.stored| && meta.totalBytes == TotalSize(ledger)
  }

  lemma StepBalances(plan: Plan, ns: string, op: Op, s: State, s': State, ledger: seq<Chunk>)
    requires Step(plan, ns, op, s, s') && !op.Load? && Balanced(s.meta, ledger)
    ensures Balanced(s'.meta, LedgerAfter(plan, ns, op, s, ledger))
  {
    match op
    case Store(snapshot, chunks) =>
      PutCounts(plan, ns, snapshot, s, chunks);
      PutBytes(plan, ns, snapshot, s, chunks);
      SizesJoin(ledger, Landed(plan, ns, snapshot, s, chunks));
    case Collect(_, live) => SplitByLive(s.meta.stored, live);
    case Reopen =>
    case Other =>
  }

  /** The accounts are right in every state of every run, under any snapshot ids and whatever
      fails: `total_chunks` is the size of the index, `total_bytes` the sizes of all chunks
      ever newly stored, collected ones included, and `gc` never subtracts too much. */
  lemma {:induction false} RunAccounts(plan: Plan, ns: string, ops: seq<Op>, states: seq<State>, n: int)
    requires Run(plan, ns, ops, states) && states[0].meta == EMPTY_META
    requires LoadsSaved(ops, states) && 0 <= n <= |ops|
    ensures Balanced(states[n].meta, Ledger(plan, ns, ops, states, n))
    ensures n < |ops| && ops[n].Collect? ==> |states[n].meta.stored - ops[n].live| <= states[n].meta.totalChunks
    decreases n
  {
    if n > 0 {
      assert Step(plan, ns, ops[n - 1], states[n - 1], states[n]);
      if ops[n - 1].Load? {
        var k :| 0 <= k <= n - 1 && states[k].meta == ops[n - 1].saved
          && Ledger(plan, ns, ops, states, n) == Ledger(plan, ns, ops, states, k);
        RunAccounts(plan, ns, ops, states, k);
      } else {
        RunAccounts(plan, ns, ops, states, n - 1);
        StepBalances(plan, ns, ops[n - 1], states[n - 1], states[n], Ledger(plan, ns, ops, states, n - 1));
      }
    }
    if n < |ops| && ops[n].Collect? {
      SplitByLive(states[n].meta.stored, ops[n].live);
    }
  }

  lemma SplitByLive(stored: set<string>, live: set<string>)
    ensures |stored| == |stored * live| + |stored - live|
  {
    assert stored == stored * live + (stored - live);
  }

  // ---------------------------------------------------------------- what runs keep

  /** `op` is one that cannot lose the chunks of `refs`: the index goes on naming them, and
      a collection counts them all as live. */
  predicate Sparing(refs: set<string>, op: Op) {
    && !op.Reopen?
    && (op.Load? ==> refs <= op.saved.stored)
    && (op.Collect? ==> refs <= op.live)
  }

  lemma StepSpares(plan: Plan, ns: string, op: Op, s: State, s': State, refs: set<string>, h: string)
    requires Step(plan, ns, op, s, s') && Sparing(refs, op) && h in refs && refs <= s.meta.stored
    ensures h in s'.meta.stored && forall sid :: SameAt(s.files, s'.files, ChunkKey(ns, sid, h))
  {
    match op
    case Store(snapshot, chunks) => PutKeepsIndexed(plan, ns, snapshot, s, chunks, h);
    case Collect(snapshot, live) => CollectKeepsLive(plan, ns, snapshot, live, s, s', h);
    case Load(_) =>
    case Other =>
  }

  /** Indexed chunks that every collection counts as live are never written again: whatever
      operations fail, under whatever snapshot ids. */
  lemma {:induction false} IndexedChunksStay(plan: Plan, ns: string, ops: seq<Op>, states: seq<State>,
                                             refs: set<string>)
    requires Run(plan, ns, ops, states) && (forall op :: op in ops ==> Sparing(refs, op))
    requires refs <= states[0].meta.stored
    ensures var last := states[|ops|];
      && refs <= last.meta.stored
      && forall h, sid :: h in refs ==> SameAt(states[0].files, last.files, ChunkKey(ns, sid, h))
    decreases |ops|
  {
    if ops != [] {
      var n := |ops| - 1;
      assert Run(plan, ns, ops[..n], states[..n + 1]);
      IndexedChunksStay(plan, ns, ops[..n], states[..n + 1], refs);
      assert ops[n] in ops;
      forall h | h in refs
        ensures h in states[n + 1].meta.stored
        ensures forall sid :: SameAt(states[n].files, states[n + 1].files, ChunkKey(ns, sid, h))
      {
        StepSpares(plan, ns, ops[n], states[n], states[n + 1], refs, h);
      }
    }
  }

  /** Every operation of the run is under one snapshot id and stores genuine chunks. */
  predicate OneSnapshot(sha: Digest, universe: set<Bytes>, snapshot: string, op: Op) {
    match op
    case Store(sid, chunks) => sid == snapshot && Genuine(sha, universe, chunks)
    case Collect(sid, _) => sid == snapshot
    case Reopen => true
    case Load(_) => true
    case Other => true
  }

  /** `op`, done in `s`, leaves the chunks of `refs` in storage: a collection counts them as
      live, and they are stored again only if the index does not know them, and then whole. */
  ghost predicate Keeping(plan: Plan, refs: set<string>, op: Op, s: State) {
    && (op.Collect? ==> refs <= op.live)
    && (op.Store? ==> Atomic(plan) || refs <= s.meta.stored)
  }

  ghost predicate KeptSince(plan: Plan, ops: seq<Op>, states: seq<State>, k: int, n: int, refs: set<string>)
    requires |states| == |ops| + 1 && 0 <= k <= n <= |ops|
  {
    forall m :: k <= m < n ==> Keeping(plan, refs, ops[m], states[m])
  }

  /** Every index that is loaded was saved, and its chunks were kept since. */
  ghost predicate LoadsKept(plan: Plan, ops: seq<Op>, states: seq<State>)
    requires |states| == |ops| + 1
  {
    forall n :: 0 <= n < |ops| && ops[n].Load? ==>
      exists k :: 0 <= k <= n && states[k].meta == ops[n].saved
        && KeptSince(plan, ops, states, k, n, ops[n].saved.stored)
  }

  /** With one snapshot id, the index is sound in every state a run reaches, broken writes,
      restarts and loading included, provided that what a loaded index names was kept since
      it was saved (StaleIndex shows why): it never names a chunk that is not there. */
  lemma {:induction false} RunStaysSound(sha: Digest, universe: set<Bytes>, plan: Plan, ns: string, snapshot: string,
                                         ops: seq<Op>, states: seq<State>, n: int)
    requires Honest(plan) && Run(plan, ns, ops, states) && LoadsKept(plan, ops, states)
    requires forall op :: op in ops ==> OneSnapshot(sha, universe, snapshot, op)
    requires Sound(sha, universe, ns, snapshot, states[0]) && 0 <= n <= |ops|
    ensures Sound(sha, universe, ns, snapshot, states[n]) && states[n].meta.totalChunks >= 0
    decreases n
  {
    if n > 0 {
      if ops[n - 1].Load? {
        var k := SavedAndKept(plan, ops, states, n - 1);
        RunStaysSound(sha, universe, plan, ns, snapshot, ops, states, k);
        LoadStaysSound(sha, universe, plan, ns, snapshot, ops, states, k, n - 1);
      } else {
        RunStaysSound(sha, universe, plan, ns, snapshot, ops, states, n - 1);
        assert ops[n - 1] in ops && Step(plan, ns, ops[n - 1], states[n - 1], states[n]);
        StepStaysSound(sha, universe, plan, ns, snapshot, ops[n - 1], states[n - 1], states[n]);
      }
    } else {
      assert states[n].meta.totalChunks == |states[n].meta.stored|;
    }
  }

  lemma SavedAndKept(plan: Plan, ops: seq<Op>, states: seq<State>, n: int) returns (k: int)
    requires |states| == |ops| + 1 && LoadsKept(plan, ops, states) && 0 <= n < |ops| && ops[n].Load?
    ensures 0 <= k <= n && states[k].meta == ops[n].saved
    ensures KeptSince(plan, ops, states, k, n, ops[n].saved.stored)
  {
    k :| 0 <= k <= n && states[k].meta == ops[n].saved && KeptSince(plan, ops, states, k, n, ops[n].saved.stored);
  }

  lemma LoadStaysSound(sha: Digest, universe: set<Bytes>, plan: Plan, ns: string, snapshot: string,
                       ops: seq<Op>, states: seq<State>, k: int, n: int)
    requires Run(plan, ns, ops, states) && 0 <= k <= n < |ops| && ops[n].Load?
    requires forall op :: op in ops ==> OneSnapshot(sha, universe, snapshot, op)
    requires Sound(sha, universe, ns, snapshot, states[k]) && states[k].meta == ops[n].saved
    requires KeptSince(plan, ops, states, k, n, ops[n].saved.stored)
    ensures Sound(sha, universe, ns, snapshot, states[n + 1])
  {
    assert Step(plan, ns, ops[n], states[n], states[n + 1]);
    KeptChunksIntact(sha, universe, plan, ns, snapshot, ops, states, k, n, ops[n].saved.stored);
    LoadedIsSound(sha, universe, ns, snapshot, states[k], states[n + 1]);
  }

  ghost predicate AllThere(sha: Digest, universe: set<Bytes>, ns: string, snapshot: string, files: Files,
                           refs: set<string>)
  {
    forall h :: h in refs ==> Intact(sha, universe, files, ChunkKey(ns, snapshot, h), h)
  }

  lemma LoadedIsSound(sha: Digest, universe: set<Bytes>, ns: string, snapshot: string, saved: State, s: State)
    requires Sound(sha, universe, ns, snapshot, saved) && s.meta == saved.meta
    requires AllThere(sha, universe, ns, snapshot, s.files, saved.meta.stored)
    ensures Sound(sha, universe, ns, snapshot, s)
  {}

  lemma {:induction false} KeptChunksIntact(sha: Digest, universe: set<Bytes>, plan: Plan, ns: string, snapshot: string,
                                            ops: seq<Op>, states: seq<State>, k: int, n: int, refs: set<string>)
    requires Run(plan, ns, ops, states) && 0 <= k <= n <= |ops|
    requires forall op :: op in ops ==> OneSnapshot(sha, universe, snapshot, op)
    requires KeptSince(plan, ops, states, k, n, refs)
    requires AllThere(sha, universe, ns, snapshot, states[k].files, refs)
    ensures AllThere(sha, universe, ns, snapshot, states[n].files, refs)
    decreases n
  {
    if k < n {
      KeptChunksIntact(sha, universe, plan, ns, snapshot, ops, states, k, n - 1, refs);
      assert ops[n - 1] in ops && Keeping(plan, refs, ops[n - 1], states[n - 1]);
      forall h | h in refs ensures Intact(sha, universe, states[n].files, ChunkKey(ns, snapshot, h), h) {
        StepKeepsKept(sha, universe, plan, ns, snapshot, ops[n - 1], states[n - 1], states[n], refs, h);
      }
    }
  }

  lemma StepKeepsKept(sha: Digest, universe: set<Bytes>, plan: Plan, ns: string, snapshot: string,
                      op: Op, s: State, s': State, refs: set<string>, h: string)
    requires Step(plan, ns, op, s, s') && OneSnapshot(sha, universe, snapshot, op) && Keeping(plan, refs, op, s)
    requires h in refs && Intact(sha, universe, s.files, ChunkKey(ns, snapshot, h), h)
    ensures Intact(sha, universe, s'.files, ChunkKey(ns, snapshot, h), h)
  {
    match op
    case Store(sid, chunks) =>
      if h in s.meta.stored {
        PutKeepsIndexed(plan, ns, snapshot, s, chunks, h);
        assert SameAt(s.files, s'.files, ChunkKey(ns, snapshot, h));
      } else {
        PutKeepsIntact(universe, sha, plan, ns, snapshot, sid, s, chunks, h);
      }
    case Collect(_, live) =>
      CollectKeepsLive(plan, ns, snapshot, live, s, s', h);
      assert SameAt(s.files, s'.files, ChunkKey(ns, snapshot, h));
    case Reopen =>
    case Load(_) =>
    case Other =>
      assert SameAt(s.files, s'.files, ChunkKey(ns, snapshot, h));
  }

  lemma StepStaysSound(sha: Digest, universe: set<Bytes>, plan: Plan, ns: string, snapshot: string,
                       op: Op, s: State, s': State)
    requires Honest(plan) && Step(plan, ns, op, s, s') && OneSnapshot(sha, universe, snapshot, op)
    requires Sound(sha, universe, ns, snapshot, s) && !op.Load?
    ensures Sound(sha, universe, ns, snapshot, s')
  {
    match op
    case Store(_, chunks) => PutKeepsSound(sha, universe, plan, ns, snapshot, s, chunks);
    case Collect(_, live) =>
      SplitByLive(s.meta.stored, live);
      forall h | h in s'.meta.stored ensures SameAt(s.files, s'.files, ChunkKey(ns, snapshot, h)) {
        CollectKeepsLive(plan, ns, snapshot, live, s, s', h);
      }
    case Reopen =>
    case Other =>
  }

  /** The hashes a manifest refers to. */
  ghost function Referenced(listed: map<string, FileChunks>): set<string> {
    set path, h | path in listed && h in listed[path].chunkHashes :: h
  }

  /** A listing whose files restored goes on restoring as long as its chunks are untouched. */
  lemma RestoresLater(u: Setup, q: Progress, tree: map<string, Bytes>, last: Files)
    requires Restores(u, q, tree)
    requires forall h :: h in Referenced(q.listing.files) ==> SameAt(q.store.files, last, ChunkKey(u.ns, u.snapshot, h))
    ensures Keyed(q.listing.files) && AllRestored(u, last, q.listing.files) == tree
  {
    forall path | path in tree ensures Restored(u, last, q.listing.files[path]) == Ok(tree[path]) {
      var fc := q.listing.files[path];
      assert forall h :: h in fc.chunkHashes ==> h in Referenced(q.listing.files);
      AssembledSame(u, q.store.files, last, fc.chunkHashes);
    }
    var got := AllRestored(u, last, q.listing.files);
    assert got.Keys == tree.Keys;
  }

  /** The round trip over whole runs. From any state that operations under one snapshot id
      reach, back up a directory to completion; let anything happen afterwards that counts
      the manifest's chunks as live; then restoring the manifest gives the directory. */
  lemma WholeRunRoundTrip(universe: set<Bytes>, plan: Plan, u: Setup,
                          before: seq<Op>, reached: seq<State>, files: seq<SourceFile>,
                          after: seq<Op>, later: seq<State>)
    requires Honest(plan) && CollisionFree(u.sha, universe)
    requires AllChunkable(u, files) && AllInUniverse(u, universe, files)
    requires Run(plan, u.ns, before, reached) && reached[0].meta == EMPTY_META && LoadsKept(plan, before, reached)
    requires forall op :: op in before ==> OneSnapshot(u.sha, universe, u.snapshot, op)
    requires var (q, ok) := BackedUpAll(plan, u, Progress(reached[|before|], EMPTY_LISTING), files);
      && ok && Run(plan, u.ns, after, later) && later[0] == q.store
      && forall op :: op in after ==> Sparing(Referenced(q.listing.files), op)
    ensures var q := BackedUpAll(plan, u, Progress(reached[|before|], EMPTY_LISTING), files).0;
      && Keyed(q.listing.files)
      && AllRestored(u, later[|after|].files, q.listing.files) == TreeAfter(map[], files)
  {
    var p := Progress(reached[|before|], EMPTY_LISTING);
    RunStaysSound(u.sha, universe, plan, u.ns, u.snapshot, before, reached, |before|);
    DirectoryBackedUp(universe, plan, u, p, files, map[]);
    var q := BackedUpAll(plan, u, p, files).0;
    IndexedChunksStay(plan, u.ns, after, later, Referenced(q.listing.files));
    RestoresLater(u, q, TreeAfter(map[], files), later[|after|].files);
  }

  // ---------------------------------------------------------------- restarts

  /** Afterwards, what is stored is genuine, and a collection under this snapshot id counts
      `refs` as live. Restarts and loads are free. */
  predicate Careful(sha: Digest, universe: set<Bytes>, snapshot: string, refs: set<string>, op: Op) {
    && (op.Store? ==> Genuine(sha, universe, op.chunks))
    && (op.Collect? && op.snapshot == snapshot ==> refs <= op.live)
  }

  /** What survives restarts. The index may be forgotten, or an older one loaded, so a chunk
      may be written again; as long as writes happen whole or not at all, what is written
      are the same bytes. */
  lemma {:induction false} ChunksSurviveRestarts(universe: set<Bytes>, sha: Digest, plan: Plan, ns: string,
                                                 snapshot: string, ops: seq<Op>, states: seq<State>, refs: set<string>)
    requires Atomic(plan) && CollisionFree(sha, universe) && Run(plan, ns, ops, states)
    requires forall op :: op in ops ==> Careful(sha, universe, snapshot, refs, op)
    requires AllThere(sha, universe, ns, snapshot, states[0].files, refs)
    ensures AllThere(sha, universe, ns, snapshot, states[|ops|].files, refs)
    ensures forall h :: h in refs ==> SameAt(states[0].files, states[|ops|].files, ChunkKey(ns, snapshot, h))
    decreases |ops|
  {
    if ops != [] {
      var n := |ops| - 1;
      assert Run(plan, ns, ops[..n], states[..n + 1]);
      ChunksSurviveRestarts(universe, sha, plan, ns, snapshot, ops[..n], states[..n + 1], refs);
      assert ops[n] in ops;
      forall h | h in refs
        ensures Intact(sha, universe, states[n + 1].files, ChunkKey(ns, snapshot, h), h)
      {
        StepKeepsIntact(universe, sha, plan, ns, snapshot, ops[n], states[n], states[n + 1], refs, h);
      }
    }
  }

  lemma StepKeepsIntact(universe: set<Bytes>, sha: Digest, plan: Plan, ns: string, snapshot: string,
                        op: Op, s: State, s': State, refs: set<string>, h: string)
    requires Atomic(plan) && Step(plan, ns, op, s, s') && Careful(sha, universe, snapshot, refs, op)
    requires h in refs && Intact(sha, universe, s.files, ChunkKey(ns, snapshot, h), h)
    ensures Intact(sha, universe, s'.files, ChunkKey(ns, snapshot, h), h)
  {
    var k := ChunkKey(ns, snapshot, h);
    match op
    case Store(sid, chunks) => PutKeepsIntact(universe, sha, plan, ns, snapshot, sid, s, chunks, h);
    case Collect(sid, live) =>
      if sid == snapshot {
        CollectKeepsLive(plan, ns, sid, live, s, s', h);
      } else {
        assert k !in KeysOf(ns, sid, s.meta.stored - live);
      }
    case Reopen =>
    case Load(_) =>
    case Other =>
  }

  lemma {:induction false} PutKeepsIntact(universe: set<Bytes>, sha: Digest, plan: Plan, ns: string, snapshot: string,
                                          sid: string, s: State, chunks: seq<Chunk>, h: string)
    requires Atomic(plan) && Genuine(sha, universe, chunks)
    requires Intact(sha, universe, s.files, ChunkKey(ns, snapshot, h), h)
    ensures Intact(sha, universe, PutChunks(plan, ns, sid, s, chunks).0.files, ChunkKey(ns, snapshot, h), h)
    decreases |chunks|
  {
    if chunks != [] {
      var c := chunks[0];
      assert c in chunks;
      var (s1, r1) := PutChunk(plan, ns, sid, s, c);
      if ChunkKey(ns, sid, c.hash) == ChunkKey(ns, snapshot, h) {
        ChunkKeyInjective(ns, sid, c.hash, snapshot, h);
      }
      if r1.Some? {
        PutKeepsIntact(universe, sha, plan, ns, snapshot, sid, s1, chunks[1..], h);
      }
    }
  }

  /** The same for a whole backup: with writes that happen whole or not at all, the manifest
      restores to the directory after any restarts and loads of any index, other snapshot
      ids included, as long as collections under its own id count its chunks as live. */
  lemma BackupSurvivesRestarts(universe: set<Bytes>, plan: Plan, u: Setup,
                               before: seq<Op>, reached: seq<State>, files: seq<SourceFile>,
                               after: seq<Op>, later: seq<State>)
    requires Atomic(plan) && CollisionFree(u.sha, universe)
    requires AllChunkable(u, files) && AllInUniverse(u, universe, files)
    requires Run(plan, u.ns, before, reached) && reached[0].meta == EMPTY_META && LoadsKept(plan, before, reached)
    requires forall op :: op in before ==> OneSnapshot(u.sha, universe, u.snapshot, op)
    requires var (q, ok) := BackedUpAll(plan, u, Progress(reached[|before|], EMPTY_LISTING), files);
      && ok && Run(plan, u.ns, after, later) && later[0] == q.store
      && forall op :: op in after ==> Careful(u.sha, universe, u.snapshot, Referenced(q.listing.files), op)
    ensures var q := BackedUpAll(plan, u, Progress(reached[|before|], EMPTY_LISTING), files).0;
      AllRestored(u, later[|after|].files, q.listing.files) == TreeAfter(map[], files)
  {
    var p := Progress(reached[|before|], EMPTY_LISTING);
    RunStaysSound(u.sha, universe, plan, u.ns, u.snapshot, before, reached, |before|);
    DirectoryBackedUp(universe, plan, u, p, files, map[]);
    var q := BackedUpAll(plan, u, p, files).0;
    ListedAreThere(universe, u, q, TreeAfter(map[], files));
    ChunksSurviveRestarts(universe, u.sha, plan, u.ns, u.snapshot, after, later, Referenced(q.listing.files));
    RestoresLater(u, q, TreeAfter(map[], files), later[|after|].files);
  }

  lemma ListedAreThere(universe: set<Bytes>, u: Setup, q: Progress, tree: map<string, Bytes>)
    requires Restores(u, q, tree) && Sound(u.sha, universe, u.ns, u.snapshot, q.store)
    ensures AllThere(u.sha, universe, u.ns, u.snapshot, q.store.files, Referenced(q.listing.files))
  {
    forall path, h | path in q.listing.files && h in q.listing.files[path].chunkHashes
      ensures h in q.store.meta.stored
    {
      assert path in tree;
    }
  }

  // ---------------------------------------------------------------- where it fails

  /** A file of at most `min_chunk` bytes is one chunk. */
  lemma SmallFile(plan: Plan, u: Setup, p: Progress, f: SourceFile)
    requires f.data != [] && |f.data| <= u.config.minChunk
    ensures var h := u.sha(f.data);
            var c := Chunk(h, f.data, 0, |f.data|);
            var (s, r) := PutChunk(plan, u.ns, u.snapshot, p.store, c);
      && ChunksOf(u, f.data) == [c]
      && BackedUp(plan, u, p, f).0.store == s
      && BackedUp(plan, u, p, f).1 == r.Some?
      && (r.Some? ==> var files := BackedUp(plan, u, p, f).0.listing.files;
            f.path in files && files[f.path].chunkHashes == [h])
  {
    assert f.data[0..|f.data|] == f.data;
    assert ChunksFrom(u.sha, u.config, f.data, |f.data|) == [];
    var c := Chunk(u.sha(f.data), f.data, 0, |f.data|);
    assert ChunksOf(u, f.data) == [c];
    var (s, r) := PutChunk(plan, u.ns, u.snapshot, p.store, c);
    assert PutChunks(plan, u.ns, u.snapshot, s, [c][1..]) == (s, Some(Counts(0, 0)));
    assert PutChunks(plan, u.ns, u.snapshot, p.store, [c]).0 == s;
    assert HashList([c]) == [c.hash] + HashList([]);
  }

  /** The index ignores snapshot ids, the keys do not: a file backed up under one id and
      then under another completes, whatever fails, and cannot be restored under the second. */
  lemma DedupAcrossSnapshots(plan: Plan, u: Setup, other: string, f: SourceFile, p: Progress)
    requires other != u.snapshot && f.data != [] && Chunkable(u.config, |f.data|)
    requires forall h :: ChunkKey(u.ns, other, h) !in p.store.files
    requires BackedUp(plan, u, p, f).1
    ensures var v := u.(snapshot := other);
            var (r, ok) := BackedUp(plan, v, BackedUp(plan, u, p, f).0, f);
      && ok && ChunksOf(v, f.data) != []
      && Restored(v, r.store.files, r.listing.files[f.path]) == Err(ChunkNotFound(ChunksOf(v, f.data)[0].hash))
  {
    var v, q, chunks := u.(snapshot := other), BackedUp(plan, u, p, f).0, ChunksOf(u, f.data);
    assert ChunksOf(v, f.data) == chunks;
    ChunksStep(u.sha, u.config, f.data, 0);
    PutFrame(plan, u.ns, u.snapshot, p.store, chunks);
    AllDuplicates(plan, v.ns, other, q.store, chunks);
    var k := ChunkKey(u.ns, other, chunks[0].hash);
    assert k !in KeysOf(u.ns, u.snapshot, Hashes(chunks) - p.store.meta.stored);
    assert SameAt(p.store.files, q.store.files, k);
    assert HashList(chunks)[0] == chunks[0].hash;
  }

  /** A chunk whose write broke off is not indexed, but what is left of it stays under its
      key. If a backup under another id then indexes the hash, a new backup under the first
      id takes it for a duplicate, completes, and restores to an error. */
  lemma TornThenDuplicate(plan: Plan, u: Setup, other: string, f: SourceFile, p: Progress)
    requires plan(0).Torn? && plan(1).Fine? && other != u.snapshot
    requires f.data != [] && |f.data| <= u.config.minChunk && u.sha(plan(0).left) != u.sha(f.data)
    requires p == Progress(State(map[], EMPTY_META, 0), EMPTY_LISTING)
    ensures var (q, ok1) := BackedUp(plan, u, p, f);
            var (r, ok2) := BackedUp(plan, u.(snapshot := other), q, f);
            var (s, ok3) := BackedUp(plan, u, r, f);
      && !ok1 && ok2 && ok3
      && Restored(u, s.store.files, s.listing.files[f.path]) == Err(HashMismatch)
  {
    var h := u.sha(f.data);
    var q := BackedUp(plan, u, p, f).0;
    var r := BackedUp(plan, u.(snapshot := other), q, f).0;
    SmallFile(plan, u, p, f);
    SmallFile(plan, u.(snapshot := other), q, f);
    SmallFile(plan, u, r, f);
    if ChunkKey(u.ns, other, h) == ChunkKey(u.ns, u.snapshot, h) {
      ChunkKeyInjective(u.ns, other, h, u.snapshot, h);
    }
    OneChunkAssembled(u, r.store.files, h);
  }

  lemma OneChunkAssembled(u: Setup, files: Files, h: string)
    requires ChunkKey(u.ns, u.snapshot, h) in files
    ensures Assembled(u.ns, u.snapshot, files, [h]) == Ok(files[ChunkKey(u.ns, u.snapshot, h)])
  {
    var data := files[ChunkKey(u.ns, u.snapshot, h)];
    assert [h][1..] == [] && data + [] == data;
  }

  /** `gc` does not save the index. Reloading one saved before a collection of everything
      lets blanked chunks pass for duplicates: the new backup completes, and does not restore. */
  lemma StaleIndex(plan: Plan, u: Setup, f: SourceFile, p: Progress, collected: State)
    requires Reliable(plan) && f.data != [] && Chunkable(u.config, |f.data|)
    requires BackedUp(plan, u, p, f).1
    requires Collected(plan, u.ns, u.snapshot, {}, BackedUp(plan, u, p, f).0.store, collected)
    ensures var saved := BackedUp(plan, u, p, f).0.store.meta;
            var (r, ok) := BackedUp(plan, u, Progress(collected.(meta := saved), p.listing), f);
      ok && Restored(u, r.store.files, r.listing.files[f.path]) != Ok(f.data)
  {
    var chunks, saved := ChunksOf(u, f.data), BackedUp(plan, u, p, f).0.store.meta;
    PutFrame(plan, u.ns, u.snapshot, p.store, chunks);
    AllDuplicates(plan, u.ns, u.snapshot, collected.(meta := saved), chunks);
    forall h | h in HashList(chunks) ensures BlankAt(collected.files, ChunkKey(u.ns, u.snapshot, h)) {
      HashesListed(chunks, h);
      assert h in saved.stored - {};
    }
    BlanksAssembled(u, collected.files, HashList(chunks));
  }

  lemma {:induction false} BlanksAssembled(u: Setup, files: Files, hashes: seq<string>)
    requires forall h :: h in hashes ==> BlankAt(files, ChunkKey(u.ns, u.snapshot, h))
    ensures Assembled(u.ns, u.snapshot, files, hashes) == Ok([])
  {
    if hashes != [] {
      assert hashes[0] in hashes;
      BlanksAssembled(u, files, hashes[1..]);
      var nothing: Bytes := [];
      assert nothing + nothing == nothing;
    }
  }

  // ---------------------------------------------------------------- the report

  lemma {:induction false} NothingUnindexed(stored: set<string>, chunks: seq<Chunk>)
    requires Hashes(chunks) <= stored
    ensures UnindexedSize(stored, chunks) == 0
  {
    if chunks != [] {
      NothingUnindexed(stored, chunks[1..]);
    }
  }

  /** What the manifest's totals say. Sizes add up, and new and duplicate chunks add up to the chunks listed.
      `total_stored_size`, documented as the size of the chunks stored, never moves: "new"
      is looked up after storing, when every chunk is indexed. */
  lemma ManifestTotals(plan: Plan, u: Setup, p: Progress, f: SourceFile)
    requires Chunkable(u.config, |f.data|) && BackedUp(plan, u, p, f).1
    ensures var q := BackedUp(plan, u, p, f).0;
      && q.listing.originalSize == p.listing.originalSize + |f.data|
      && q.listing.files[f.path].originalSize == |f.data| == Sum(q.listing.files[f.path].chunkSizes)
      && q.listing.storedSize == p.listing.storedSize
      && q.listing.newChunks == p.listing.newChunks + |Hashes(ChunksOf(u, f.data)) - p.store.meta.stored|
      && q.listing.newChunks + q.listing.dupChunks
           == p.listing.newChunks + p.listing.dupChunks + |q.listing.files[f.path].chunkHashes|
  {
    var chunks := ChunksOf(u, f.data);
    PutFrame(plan, u.ns, u.snapshot, p.store, chunks);
    PutCounts(plan, u.ns, u.snapshot, p.store, chunks);
    NothingUnindexed(PutChunks(plan, u.ns, u.snapshot, p.store, chunks).0.meta.stored, chunks);
    Partition(u.sha, u.config, f.data, 0);
    SizesAddUp(u.sha, f.data, 0, chunks);
  }
}
