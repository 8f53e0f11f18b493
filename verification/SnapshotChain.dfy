/** Full, incremental and differential backups of a changing source, and the chains they
    form (crates/openvault-core/src/strategy.rs). */
module SnapshotChain {
  import opened Common
  import opened Storage

  // ---------------------------------------------------------------- the source

  /** A file of the source: its bytes and its modification time. */
  datatype SourceFile = SourceFile(data: Bytes, mtime: int)

  /** The files of the source that are not excluded. */
  type Tree = map<string, SourceFile>

  // ---------------------------------------------------------------- entries

  type EntryMap = map<string, FileEntry>

  function MapOf(entries: seq<FileEntry>): EntryMap {
    if entries == [] then map[]
    else
      var n := |entries| - 1;
      MapOf(entries[..n])[entries[n].path := entries[n]]
  }

  function EntryOf(sha: Digest, path: string, f: SourceFile): FileEntry {
    FileEntry(path, |f.data|, f.mtime, sha(f.data))
  }

  predicate SameStamp(e: FileEntry, f: SourceFile) {
    e.mtime == f.mtime && e.size == |f.data|
  }

  /** The change test of `execute`. */
  predicate Changed(previous: EntryMap, path: string, f: SourceFile) {
    path in previous ==> !SameStamp(previous[path], f)
  }

  /** The files of `order` are those of `tree`, each once. */
  ghost predicate Lists(order: seq<string>, tree: Tree) {
    && (forall path :: path in order <==> path in tree)
    && forall i, j :: 0 <= i < j < |order| ==> order[i] != order[j]
  }

  /** The entries a backup makes, in the order in which the files are visited. */
  function ChangedEntries(sha: Digest, tree: Tree, order: seq<string>, previous: EntryMap): seq<FileEntry> {
    if order == [] then []
    else
      var n := |order| - 1;
      var front := ChangedEntries(sha, tree, order[..n], previous);
      if order[n] in tree && Changed(previous, order[n], tree[order[n]])
      then front + [EntryOf(sha, order[n], tree[order[n]])] else front
  }

  /** The backend's files once the files of `entries` are stored under `id`. */
  function StoredFiles(files: Files, id: string, tree: Tree, entries: seq<FileEntry>): Files {
    if entries == [] then files
    else
      var n := |entries| - 1;
      var front := StoredFiles(files, id, tree, entries[..n]);
      if entries[n].path in tree then front[Key(id, entries[n].path) := tree[entries[n].path].data] else front
  }

  lemma StoredOneMore(files: Files, id: string, tree: Tree, entries: seq<FileEntry>, e: FileEntry)
    requires e.path in tree
    ensures StoredFiles(files, id, tree, entries + [e])
         == StoredFiles(files, id, tree, entries)[Key(id, e.path) := tree[e.path].data]
  {
    assert (entries + [e])[..|entries|] == entries;
  }

  // ---------------------------------------------------------------- chains

  /** The walk from `s` along its parents meets a root or a missing parent within `n` steps. */
  predicate EndsWithin(dir: Directory, s: Snapshot, n: int)
    decreases n
  {
    || s.parent.None? || Lookup(dir, s.parent.value).None?
    || (n > 0 && EndsWithin(dir, Lookup(dir, s.parent.value).value, n - 1))
  }

  /** That walk ends. */
  ghost predicate Ends(dir: Directory, s: Snapshot) {
    exists n :: 0 <= n && EndsWithin(dir, s, n)
  }

  ghost predicate Acyclic(dir: Directory) {
    forall s :: s in dir ==> Ends(dir, s)
  }

  predicate IsLength(dir: Directory, s: Snapshot, n: int) {
    0 <= n && EndsWithin(dir, s, n) && (n == 0 || !EndsWithin(dir, s, n - 1))
  }

  lemma {:induction false} HasLength(dir: Directory, s: Snapshot, n: int)
    requires 0 <= n && EndsWithin(dir, s, n)
    ensures exists m :: 0 <= m <= n && IsLength(dir, s, m)
    decreases n
  {
    if n > 0 && EndsWithin(dir, s, n - 1) {
      HasLength(dir, s, n - 1);
    } else {
      assert IsLength(dir, s, n);
    }
  }

  /** The length of the walk. */
  ghost function Length(dir: Directory, s: Snapshot): (n: nat)
    requires Ends(dir, s)
    ensures IsLength(dir, s, n)
  {
    var n :| 0 <= n && EndsWithin(dir, s, n);
    HasLength(dir, s, n);
    var m :| 0 <= m && IsLength(dir, s, m);
    m
  }

  lemma {:induction false} EndsLater(dir: Directory, s: Snapshot, m: int, n: int)
    requires m <= n && EndsWithin(dir, s, m)
    ensures EndsWithin(dir, s, n)
    decreases n
  {
    if s.parent.Some? && Lookup(dir, s.parent.value).Some? {
      EndsLater(dir, Lookup(dir, s.parent.value).value, m - 1, n - 1);
    }
  }

  lemma ParentEnds(dir: Directory, s: Snapshot)
    requires Ends(dir, s) && s.parent.Some? && Lookup(dir, s.parent.value).Some?
    ensures var p := Lookup(dir, s.parent.value).value;
      Ends(dir, p) && Length(dir, p) < Length(dir, s)
  {
    var p, n := Lookup(dir, s.parent.value).value, Length(dir, s);
    assert EndsWithin(dir, p, n - 1);
    var m := Length(dir, p);
    if m > n - 1 {
      EndsLater(dir, p, n - 1, m - 1);
    }
  }

  /** Every parent that can be loaded is older. */
  ghost predicate Dated(dir: Directory) {
    forall s :: s in dir ==>
      && 0 <= s.createdAt
      && (s.parent.Some? && Lookup(dir, s.parent.value).Some? ==>
            Lookup(dir, s.parent.value).value.createdAt < s.createdAt)
  }

  lemma {:induction false} DatedEnds(dir: Directory, s: Snapshot, n: int)
    requires Dated(dir) && s in dir && s.createdAt <= n
    ensures EndsWithin(dir, s, n)
    decreases n
  {
    if s.parent.Some? && Lookup(dir, s.parent.value).Some? {
      FoundInDirectory(dir, s.parent.value);
      DatedEnds(dir, Lookup(dir, s.parent.value).value, n - 1);
    }
  }

  lemma DatedIsAcyclic(dir: Directory)
    requires Dated(dir)
    ensures Acyclic(dir)
  {
    forall s | s in dir ensures Ends(dir, s) {
      DatedEnds(dir, s, s.createdAt);
    }
  }

  lemma {:induction false} FoundInDirectory(dir: Directory, id: string)
    ensures Lookup(dir, id).Some? ==> Lookup(dir, id).value in dir && Lookup(dir, id).value.id == id
  {
    if dir != [] && dir[0].id != id {
      FoundInDirectory(dir[1..], id);
    }
  }

  /** `build_complete_file_map`: the entries along the chain of `s`, where those of an
      older snapshot replace those of a newer one; None when a parent is missing. */
  ghost function CompleteMap(dir: Directory, s: Snapshot): Option<EntryMap>
    requires Ends(dir, s)
    decreases Length(dir, s)
  {
    if s.parent.None? then Some(MapOf(s.entries))
    else
      var p := Lookup(dir, s.parent.value);
      if p.None? then None
      else
        ParentEnds(dir, s);
        var older := CompleteMap(dir, p.value);
        if older.None? then None else Some(MapOf(s.entries) + older.value)
  }

  /** The bytes stored for the entries of a snapshot. */
  function SnapshotData(files: Files, id: string, entries: seq<FileEntry>): map<string, Bytes> {
    map path | path in MapOf(entries) && Key(id, path) in files :: files[Key(id, path)]
  }

  /** What a restore of the chain of `s`, oldest snapshot first and overwriting, leaves in
      an empty directory. */
  ghost function Replayed(dir: Directory, files: Files, s: Snapshot): Option<map<string, Bytes>>
    requires Ends(dir, s)
    decreases Length(dir, s)
  {
    if s.parent.None? then Some(SnapshotData(files, s.id, s.entries))
    else
      var p := Lookup(dir, s.parent.value);
      if p.None? then None
      else
        ParentEnds(dir, s);
        var older := Replayed(dir, files, p.value);
        if older.None? then None else Some(older.value + SnapshotData(files, s.id, s.entries))
  }

  // ---------------------------------------------------------------- the engines

  method BuildCompleteFileMap(env: Env, storage: Vault, latest: Snapshot) returns (r: Option<EntryMap>)
    requires Ends(storage.dir, latest)
    modifies env`tick
    ensures r.Some? ==> r == CompleteMap(storage.dir, latest)
    ensures Reliable(env.plan) ==> r == CompleteMap(storage.dir, latest)
  {
    var files: EntryMap := map[];
    var current := latest;
    ghost var dir := storage.dir;
    ghost var goal := CompleteMap(dir, latest);
    assert goal.Some? ==> map[] + goal.value == goal.value;
    while true
      invariant storage.dir == dir && Ends(dir, current)
      invariant var older := CompleteMap(dir, current);
        goal == if older.None? then None else Some(files + older.value)
      decreases Length(dir, current)
    {
      ghost var newer := files;
      files := InsertAll(files, current.entries);
      if current.parent.None? {
        return Some(files);
      }
      var parent := storage.LoadSnapshot(env, current.parent.value);
      if parent.None? {
        return None;
      }
      ParentEnds(dir, current);
      ghost var older := CompleteMap(dir, parent.value);
      if older.Some? {
        MapsAssociate(newer, MapOf(current.entries), older.value);
      }
      current := parent.value;
    }
  }

  /** The overwriting inserts of one snapshot's entries. */
  method InsertAll(newer: EntryMap, entries: seq<FileEntry>) returns (files: EntryMap)
    ensures files == newer + MapOf(entries)
  {
    files := newer;
    var i := 0;
    while i < |entries|
      invariant 0 <= i <= |entries|
      invariant files == newer + MapOf(entries[..i])
    {
      assert entries[..i + 1][..i] == entries[..i];
      files := files[entries[i].path := entries[i]];
      i := i + 1;
    }
    assert entries[..i] == entries;
  }

  lemma MapsAssociate(a: EntryMap, b: EntryMap, c: EntryMap)
    ensures (a + b) + c == a + (b + c)
  {}

  lemma ChangedOneMore(sha: Digest, tree: Tree, order: seq<string>, i: int, previous: EntryMap)
    requires 0 <= i < |order| && order[i] in tree
    ensures ChangedEntries(sha, tree, order[..i + 1], previous)
         == ChangedEntries(sha, tree, order[..i], previous)
          + if Changed(previous, order[i], tree[order[i]]) then [EntryOf(sha, order[i], tree[order[i]])] else []
  {
    assert order[..i + 1][..i] == order[..i];
  }

  lemma KeptThenWritten(was: Files, files: Files, o: Outcome, id: string, path: string, data: Bytes)
    requires OthersKept(was, files, id)
    ensures OthersKept(was, Written(o, files, Key(id, path), data), id)
  {}

  /** The loop of `execute`: stores each changed file and makes its entry. */
  method CopyChanged(env: Env, sha: Digest, storage: Vault, id: string, tree: Tree, order: seq<string>,
                     previous: EntryMap)
    returns (r: Option<seq<FileEntry>>)
    requires forall path :: path in order ==> path in tree
    modifies storage`files, env`tick
    ensures OthersKept(old(storage.files), storage.files, id)
    ensures r.Some? ==> r.value == ChangedEntries(sha, tree, order, previous)
    ensures r.Some? && Honest(env.plan) ==> storage.files == StoredFiles(old(storage.files), id, tree, r.value)
    ensures Reliable(env.plan) ==> r.Some?
  {
    var entries: seq<FileEntry> := [];
    ghost var was := storage.files;
    var i := 0;
    while i < |order|
      invariant 0 <= i <= |order|
      invariant entries == ChangedEntries(sha, tree, order[..i], previous)
      invariant Honest(env.plan) ==> storage.files == StoredFiles(was, id, tree, entries)
      invariant OthersKept(was, storage.files, id)
    {
      ghost var before := storage.files;
      var path := order[i];
      assert path in order;
      ChangedOneMore(sha, tree, order, i, previous);
      if Changed(previous, path, tree[path]) {
        ghost var o := env.plan(env.tick);
        var entry := EntryOf(sha, path, tree[path]);
        var stored := storage.StoreFile(env, id, path, tree[path].data);
        KeptThenWritten(was, before, o, id, path, tree[path].data);
        if !stored {
          return None;
        }
        StoredOneMore(was, id, tree, entries, entry);
        entries := entries + [entry];
      }
      i := i + 1;
    }
    assert order[..i] == order;
    return Some(entries);
  }

  /** The snapshot a backup refers to: none, the latest, or the latest full one. */
  function ParentOf(dir: Directory, strategy: Strategy, source: string): Option<Snapshot> {
    match strategy
    case Full => None
    case Incremental => Latest(dir, source, false)
    case Differential => Latest(dir, source, true)
  }

  /** The chain that a backup has to walk ends; only an incremental one walks any. */
  ghost predicate WalkEnds(dir: Directory, strategy: Strategy, source: string) {
    strategy == Incremental && Latest(dir, source, false).Some? ==> Ends(dir, Latest(dir, source, false).value)
  }

  lemma AcyclicWalkEnds(dir: Directory, strategy: Strategy, source: string)
    requires Acyclic(dir)
    ensures WalkEnds(dir, strategy, source)
  {
    LatestIsLatest(dir, source, false);
  }

  /** The entries a backup compares the source with. */
  ghost function PreviousOf(dir: Directory, strategy: Strategy, source: string): Option<EntryMap>
    requires WalkEnds(dir, strategy, source)
  {
    var parent := ParentOf(dir, strategy, source);
    if parent.None? then Some(map[])
    else if strategy == Incremental then CompleteMap(dir, parent.value)
    else Some(MapOf(parent.value.entries))
  }

  function IdOf(s: Option<Snapshot>): Option<string> {
    if s.None? then None else Some(s.value.id)
  }

  datatype World = World(dir: Directory, files: Files)

  /** A backup of `tree` took `w` to `w'`, recording `snap`. */
  ghost predicate Taken(sha: Digest, w: World, w': World, snap: Snapshot, tree: Tree, order: seq<string>)
    requires WalkEnds(w.dir, snap.strategy, snap.source)
  {
    var previous := PreviousOf(w.dir, snap.strategy, snap.source);
    && previous.Some?
    && snap.parent == IdOf(ParentOf(w.dir, snap.strategy, snap.source))
    && snap.entries == ChangedEntries(sha, tree, order, previous.value)
    && w' == World(Without(w.dir, snap.id) + [snap], StoredFiles(w.files, snap.id, tree, snap.entries))
  }

  /** A backup under `id` that failed: at most files of that id, and no snapshot. */
  ghost predicate Aborted(w: World, w': World, id: string) {
    (w'.dir == w.dir || w'.dir == Without(w.dir, id)) && OthersKept(w.files, w'.files, id)
  }

  ghost predicate Executed(sha: Digest, w: World, w': World, id: string, now: int, strategy: Strategy, source: string,
                           tree: Tree, order: seq<string>, r: Option<Snapshot>)
    requires WalkEnds(w.dir, strategy, source)
  {
    if r.None? then Aborted(w, w', id)
    else
      var snap := r.value;
      && snap.id == id && snap.createdAt == now && snap.strategy == strategy && snap.source == source
      && Taken(sha, w, w', snap, tree, order)
  }

  ghost function WorldOf(v: Vault): World
    reads v
  {
    World(v.dir, v.files)
  }

  /** The copying and recording that end every `execute`. */
  method Finish(env: Env, sha: Digest, storage: Vault, snap: Snapshot, tree: Tree, order: seq<string>,
                previous: EntryMap)
    returns (r: Option<Snapshot>)
    requires forall path :: path in order ==> path in tree
    modifies storage, env`tick
    ensures r.None? ==> Aborted(old(WorldOf(storage)), WorldOf(storage), snap.id)
    ensures r.Some? ==> r.value == snap.(entries := ChangedEntries(sha, tree, order, previous))
    ensures r.Some? && Honest(env.plan) ==>
      WorldOf(storage) == World(Without(old(storage.dir), snap.id) + [r.value],
                                StoredFiles(old(storage.files), snap.id, tree, r.value.entries))
    ensures Reliable(env.plan) ==> r.Some?
  {
    var entries := CopyChanged(env, sha, storage, snap.id, tree, order, previous);
    if entries.None? {
      return None;
    }
    var full := snap.(entries := entries.value);
    var recorded := storage.StoreSnapshot(env, full);
    if !recorded {
      return None;
    }
    return Some(full);
  }

  method FullBackup(env: Env, sha: Digest, storage: Vault, source: string, tree: Tree, order: seq<string>,
                    id: string, now: int)
    returns (r: Option<Snapshot>)
    requires Lists(order, tree)
    modifies storage, env`tick
    ensures Honest(env.plan) ==>
      Executed(sha, old(WorldOf(storage)), WorldOf(storage), id, now, Full, source, tree, order, r)
    ensures Reliable(env.plan) ==> r.Some?
  {
    r := Finish(env, sha, storage, Snapshot(id, now, Full, source, [], None), tree, order, map[]);
  }

  method IncrementalBackup(env: Env, sha: Digest, storage: Vault, source: string, tree: Tree, order: seq<string>,
                           id: string, now: int)
    returns (r: Option<Snapshot>)
    requires WalkEnds(storage.dir, Incremental, source) && Lists(order, tree)
    modifies storage, env`tick
    ensures Honest(env.plan) ==>
      Executed(sha, old(WorldOf(storage)), WorldOf(storage), id, now, Incremental, source, tree, order, r)
    ensures Reliable(env.plan) ==> (r.Some? <==> PreviousOf(old(storage.dir), Incremental, source).Some?)
  {
    var parent := storage.LatestSnapshot(env, source, false);
    if parent.Err? {
      return None;
    }
    LatestIsLatest(storage.dir, source, false);
    var previous: EntryMap := map[];
    if parent.value.Some? {
      var built := BuildCompleteFileMap(env, storage, parent.value.value);
      if built.None? {
        return None;
      }
      previous := built.value;
    }
    var snap := Snapshot(id, now, Incremental, source, [], IdOf(parent.value));
    r := Finish(env, sha, storage, snap, tree, order, previous);
  }

  method DifferentialBackup(env: Env, sha: Digest, storage: Vault, source: string, tree: Tree, order: seq<string>,
                            id: string, now: int)
    returns (r: Option<Snapshot>)
    requires Lists(order, tree)
    modifies storage, env`tick
    ensures Honest(env.plan) ==>
      Executed(sha, old(WorldOf(storage)), WorldOf(storage), id, now, Differential, source, tree, order, r)
    ensures Reliable(env.plan) ==> r.Some?
  {
    var base := storage.LatestSnapshot(env, source, true);
    if base.Err? {
      return None;
    }
    var previous: EntryMap := if base.value.Some? then MapOf(base.value.value.entries) else map[];
    var snap := Snapshot(id, now, Differential, source, [], IdOf(base.value));
    r := Finish(env, sha, storage, snap, tree, order, previous);
  }
}
