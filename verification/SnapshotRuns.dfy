/** What any run of full, incremental and differential backups keeps, and when replaying a
    chain gives back the source (crates/openvault-core/src/strategy.rs). */
module SnapshotRuns {
  import opened Common
  import opened Storage
  import opened SnapshotChain

  /** The source trees that the snapshots were taken of, by snapshot id. */
  type History = map<string, Tree>

  // ---------------------------------------------------------------- the invariant

  /** The entries of `s` describe files of its tree, whose bytes are stored under its id. */
  ghost predicate Faithful(files: Files, tree: Tree, s: Snapshot) {
    forall path :: path in MapOf(s.entries) ==>
      && path in tree && SameStamp(MapOf(s.entries)[path], tree[path])
      && Key(s.id, path) in files && files[Key(s.id, path)] == tree[path].data
  }

  /** The parent of `s` is stored, of the same source and strictly older; a full snapshot
      has none, and a differential one has a full parent. */
  ghost predicate WellParented(dir: Directory, s: Snapshot) {
    && (s.strategy == Full ==> s.parent.None?)
    && (s.parent.Some? ==>
          var p := Lookup(dir, s.parent.value);
          && p.Some? && p.value.source == s.source && p.value.createdAt < s.createdAt
          && (s.strategy == Differential ==> p.value.strategy == Full))
  }

  /** A file of the tree that `s` left out has the stamp of the oldest entry for it. */
  ghost predicate Covered(dir: Directory, tree: Tree, s: Snapshot)
    requires Acyclic(dir) && s in dir && WellParented(dir, s)
  {
    forall path :: path in tree && path !in MapOf(s.entries) ==>
      s.parent.Some? &&
      (var p := Lookup(dir, s.parent.value).value;
       FoundInDirectory(dir, s.parent.value);
       var older := CompleteMap(dir, p);
       older.Some? && path in older.value && SameStamp(older.value[path], tree[path]))
  }

  ghost predicate OnRecord(w: World, hist: History, s: Snapshot)
    requires Acyclic(w.dir) && s in w.dir
  {
    && Lookup(w.dir, s.id) == Some(s) && s.id in hist
    && WellParented(w.dir, s) && Faithful(w.files, hist[s.id], s) && Covered(w.dir, hist[s.id], s)
  }

  ghost predicate Invariant(w: World, hist: History) {
    && Acyclic(w.dir) && Dated(w.dir)
    && forall s :: s in w.dir ==> OnRecord(w, hist, s)
  }

  // ---------------------------------------------------------------- entries

  lemma {:induction false} MapOfHas(entries: seq<FileEntry>)
    ensures forall path :: path in MapOf(entries) ==>
      MapOf(entries)[path] in entries && MapOf(entries)[path].path == path
    ensures forall e :: e in entries ==> e.path in MapOf(entries)
  {
    if entries != [] {
      var n := |entries| - 1;
      MapOfHas(entries[..n]);
      assert entries == entries[..n] + [entries[n]];
    }
  }

  lemma {:induction false} EntriesOfChanged(sha: Digest, tree: Tree, order: seq<string>, previous: EntryMap)
    ensures var entries := ChangedEntries(sha, tree, order, previous);
      && (forall e :: e in entries ==> e.path in tree && e == EntryOf(sha, e.path, tree[e.path]))
      && forall path :: path in order && path in tree && Changed(previous, path, tree[path]) ==>
           exists e :: e in entries && e.path == path
  {
    if order != [] {
      var n := |order| - 1;
      var front := ChangedEntries(sha, tree, order[..n], previous);
      EntriesOfChanged(sha, tree, order[..n], previous);
      assert order == order[..n] + [order[n]];
      if order[n] in tree && Changed(previous, order[n], tree[order[n]]) {
        var e := EntryOf(sha, order[n], tree[order[n]]);
        assert ChangedEntries(sha, tree, order, previous) == front + [e] && e in front + [e];
      }
    }
  }

  lemma {:induction false} StoredFilesHold(files: Files, id: string, tree: Tree, entries: seq<FileEntry>)
    ensures var f := StoredFiles(files, id, tree, entries);
      && OthersKept(files, f, id)
      && forall e :: e in entries && e.path in tree ==> Key(id, e.path) in f && f[Key(id, e.path)] == tree[e.path].data
  {
    if entries != [] {
      var n := |entries| - 1;
      StoredFilesHold(files, id, tree, entries[..n]);
      assert entries == entries[..n] + [entries[n]];
    }
  }

  lemma NewIsFaithful(sha: Digest, files: Files, tree: Tree, order: seq<string>, previous: EntryMap, s: Snapshot)
    requires s.entries == ChangedEntries(sha, tree, order, previous)
    ensures Faithful(StoredFiles(files, s.id, tree, s.entries), tree, s)
  {
    MapOfHas(s.entries);
    EntriesOfChanged(sha, tree, order, previous);
    StoredFilesHold(files, s.id, tree, s.entries);
  }

  // ---------------------------------------------------------------- appending

  lemma {:induction false} NotThere(dir: Directory, id: string)
    requires Lookup(dir, id).None?
    ensures Without(dir, id) == dir && forall s :: s in dir ==> s.id != id
  {
    if dir != [] {
      NotThere(dir[1..], id);
      assert dir == [dir[0]] + dir[1..];
    }
  }

  lemma {:induction false} LookupAppended(dir: Directory, s: Snapshot, id: string)
    ensures Lookup(dir + [s], id) ==
      if Lookup(dir, id).Some? then Lookup(dir, id) else if s.id == id then Some(s) else None
  {
    if dir == [] {
      assert [s][1..] == [];
    } else {
      assert (dir + [s])[0] == dir[0] && (dir + [s])[1..] == dir[1..] + [s];
      LookupAppended(dir[1..], s, id);
    }
  }

  /** Appending a snapshot changes no chain. */
  lemma {:induction false} ChainsStay(dir: Directory, s: Snapshot, x: Snapshot)
    requires Acyclic(dir) && Acyclic(dir + [s]) && x in dir
    requires forall y :: y in dir ==> WellParented(dir, y)
    ensures CompleteMap(dir + [s], x) == CompleteMap(dir, x)
    decreases Length(dir, x)
  {
    if x.parent.Some? {
      var p := Lookup(dir, x.parent.value);
      LookupAppended(dir, s, x.parent.value);
      FoundInDirectory(dir, x.parent.value);
      ParentEnds(dir, x);
      ChainsStay(dir, s, p.value);
    }
  }

  lemma AppendedAcyclic(dir: Directory, s: Snapshot)
    requires Dated(dir) && (forall y :: y in dir ==> WellParented(dir, y))
    requires 0 <= s.createdAt && Lookup(dir, s.id).None?
    requires s.parent.Some? ==>
      Lookup(dir, s.parent.value).Some? && Lookup(dir, s.parent.value).value.createdAt < s.createdAt
    ensures Dated(dir + [s]) && Acyclic(dir + [s])
  {
    forall x | x in dir + [s] && x.parent.Some?
      ensures Lookup(dir + [s], x.parent.value) == Lookup(dir, x.parent.value)
    {
      LookupAppended(dir, s, x.parent.value);
    }
    DatedIsAcyclic(dir + [s]);
  }

  // ---------------------------------------------------------------- the steps

  /** An id and a time no stored snapshot has reached. */
  ghost predicate New(dir: Directory, s: Snapshot) {
    Lookup(dir, s.id).None? && 0 <= s.createdAt && forall x :: x in dir ==> x.createdAt < s.createdAt
  }

  /** Every file of the chain's snapshots is on record. */
  lemma {:induction false} ChainIsComplete(w: World, hist: History, s: Snapshot)
    requires Invariant(w, hist) && s in w.dir
    ensures CompleteMap(w.dir, s).Some? && Replayed(w.dir, w.files, s).Some?
    decreases s.createdAt
  {
    assert OnRecord(w, hist, s);
    if s.parent.Some? {
      FoundInDirectory(w.dir, s.parent.value);
      ChainIsComplete(w, hist, Lookup(w.dir, s.parent.value).value);
    }
  }

  /** The parent a backup picks, as the invariant needs it. */
  lemma ParentPicked(w: World, hist: History, strategy: Strategy, source: string)
    requires Invariant(w, hist) && WalkEnds(w.dir, strategy, source)
    ensures var p := ParentOf(w.dir, strategy, source);
      && PreviousOf(w.dir, strategy, source).Some?
      && (p.Some? ==>
            && p.value in w.dir && p.value.source == source && Lookup(w.dir, p.value.id) == p
            && (strategy == Differential ==> p.value.strategy == Full)
            && CompleteMap(w.dir, p.value) == PreviousOf(w.dir, strategy, source))
  {
    LatestIsLatest(w.dir, source, false);
    LatestIsLatest(w.dir, source, true);
    var p := ParentOf(w.dir, strategy, source);
    if p.Some? {
      assert OnRecord(w, hist, p.value);
      ChainIsComplete(w, hist, p.value);
    }
  }

  /** A backup keeps the invariant. */
  lemma TakenKeepsInvariant(sha: Digest, w: World, hist: History, w': World, s: Snapshot, tree: Tree,
                            order: seq<string>)
    requires Invariant(w, hist) && New(w.dir, s) && Lists(order, tree)
    requires WalkEnds(w.dir, s.strategy, s.source) && Taken(sha, w, w', s, tree, order)
    ensures w'.dir == w.dir + [s] && Invariant(w', hist[s.id := tree])
  {
    var previous := PreviousOf(w.dir, s.strategy, s.source).value;
    NotThere(w.dir, s.id);
    ParentPicked(w, hist, s.strategy, s.source);
    forall y | y in w.dir ensures WellParented(w.dir, y) {
      assert OnRecord(w, hist, y);
    }
    AppendedAcyclic(w.dir, s);
    forall x | x in w'.dir ensures OnRecord(w', hist[s.id := tree], x) {
      if x in w.dir {
        OldStaysRecorded(w, hist, w', s, tree, x);
      } else {
        NewIsRecorded(sha, w, hist, w', s, tree, order);
      }
    }
  }

  lemma OldStaysRecorded(w: World, hist: History, w': World, s: Snapshot, tree: Tree, x: Snapshot)
    requires Invariant(w, hist) && Lookup(w.dir, s.id).None? && x in w.dir
    requires w'.dir == w.dir + [s] && Acyclic(w'.dir)
    requires w'.files == StoredFiles(w.files, s.id, tree, s.entries)
    ensures OnRecord(w', hist[s.id := tree], x)
  {
    assert OnRecord(w, hist, x);
    NotThere(w.dir, s.id);
    StoredFilesHold(w.files, s.id, tree, s.entries);
    LookupAppended(w.dir, s, x.id);
    assert Faithful(w'.files, hist[x.id], x) by {
      forall path | path in MapOf(x.entries) ensures SameAt(w.files, w'.files, Key(x.id, path)) {}
    }
    if x.parent.Some? {
      forall y | y in w.dir ensures WellParented(w.dir, y) {
        assert OnRecord(w, hist, y);
      }
      LookupAppended(w.dir, s, x.parent.value);
      FoundInDirectory(w.dir, x.parent.value);
      ChainsStay(w.dir, s, Lookup(w.dir, x.parent.value).value);
    }
  }

  lemma NewIsRecorded(sha: Digest, w: World, hist: History, w': World, s: Snapshot, tree: Tree, order: seq<string>)
    requires Invariant(w, hist) && New(w.dir, s) && Lists(order, tree)
    requires WalkEnds(w.dir, s.strategy, s.source) && Taken(sha, w, w', s, tree, order)
    requires w'.dir == w.dir + [s] && Acyclic(w'.dir)
    ensures OnRecord(w', hist[s.id := tree], s)
  {
    var previous := PreviousOf(w.dir, s.strategy, s.source).value;
    ParentPicked(w, hist, s.strategy, s.source);
    LookupAppended(w.dir, s, s.id);
    NewIsFaithful(sha, w.files, tree, order, previous, s);
    LeftOutUnchanged(sha, tree, order, previous, s);
    forall y | y in w.dir ensures WellParented(w.dir, y) {
      assert OnRecord(w, hist, y);
    }
    if s.parent.Some? {
      var p := ParentOf(w.dir, s.strategy, s.source).value;
      LookupAppended(w.dir, s, p.id);
      ChainsStay(w.dir, s, p);
      assert CompleteMap(w'.dir, p) == Some(previous);
    }
  }

  lemma LeftOutUnchanged(sha: Digest, tree: Tree, order: seq<string>, previous: EntryMap, s: Snapshot)
    requires s.entries == ChangedEntries(sha, tree, order, previous) && Lists(order, tree)
    ensures forall path :: path in tree && path !in MapOf(s.entries) ==>
      path in previous && SameStamp(previous[path], tree[path])
  {
    MapOfHas(s.entries);
    EntriesOfChanged(sha, tree, order, previous);
  }

  /** A failed backup keeps it too: it leaves at most files under an id that no snapshot has. */
  lemma AbortedKeepsInvariant(w: World, hist: History, w': World, id: string)
    requires Invariant(w, hist) && Lookup(w.dir, id).None? && Aborted(w, w', id)
    ensures w'.dir == w.dir && Invariant(w', hist)
  {
    NotThere(w.dir, id);
    forall s | s in w.dir ensures OnRecord(w', hist, s) {
      assert OnRecord(w, hist, s);
      forall path | path in MapOf(s.entries) ensures SameAt(w.files, w'.files, Key(s.id, path)) {}
    }
  }

  // ---------------------------------------------------------------- runs

  /** One attempt at a backup. */
  datatype Step =
    | Backup(snap: Snapshot, tree: Tree, order: seq<string>)
    | Failed(id: string)

  ghost predicate Stepped(sha: Digest, w: World, w': World, step: Step)
    requires Acyclic(w.dir)
  {
    match step
    case Backup(snap, tree, order) =>
      AcyclicWalkEnds(w.dir, snap.strategy, snap.source);
      New(w.dir, snap) && Lists(order, tree) && Taken(sha, w, w', snap, tree, order)
    case Failed(id) => Lookup(w.dir, id).None? && Aborted(w, w', id)
  }

  ghost predicate Run(sha: Digest, steps: seq<Step>, worlds: seq<World>) {
    && |worlds| == |steps| + 1 && worlds[0].dir == []
    && forall i :: 0 <= i < |steps| ==> Acyclic(worlds[i].dir) && Stepped(sha, worlds[i], worlds[i + 1], steps[i])
  }

  /** The trees backed up in a run. */
  function HistoryOf(steps: seq<Step>): History {
    if steps == [] then map[]
    else
      var n := |steps| - 1;
      var before := HistoryOf(steps[..n]);
      if steps[n].Backup? then before[steps[n].snap.id := steps[n].tree] else before
  }

  /** In every state that backups reach, completed or failed ones in any order and for any
      sources, each parent is stored, of the same source and strictly older, no chain lacks
      a link, and what a snapshot left out has the stamp of the oldest entry in its chain. */
  lemma {:induction false} RunKeepsInvariant(sha: Digest, steps: seq<Step>, worlds: seq<World>)
    requires Run(sha, steps, worlds)
    ensures Invariant(worlds[|steps|], HistoryOf(steps))
    ensures forall s :: s in worlds[|steps|].dir ==> CompleteMap(worlds[|steps|].dir, s).Some?
    decreases |steps|
  {
    var n := |steps| - 1;
    if steps != [] {
      assert Run(sha, steps[..n], worlds[..n + 1]);
      RunKeepsInvariant(sha, steps[..n], worlds[..n + 1]);
      var hist := HistoryOf(steps[..n]);
      match steps[n]
      case Backup(snap, tree, order) =>
        AcyclicWalkEnds(worlds[n].dir, snap.strategy, snap.source);
        TakenKeepsInvariant(sha, worlds[n], hist, worlds[n + 1], snap, tree, order);
      case Failed(id) =>
        AbortedKeepsInvariant(worlds[n], hist, worlds[n + 1], id);
    }
    forall s | s in worlds[|steps|].dir ensures CompleteMap(worlds[|steps|].dir, s).Some? {
      ChainIsComplete(worlds[|steps|], HistoryOf(steps), s);
    }
  }

  /** Every recorded snapshot is intact. */
  ghost predicate RecordsIntact(sha: Digest, w: World) {
    forall s :: s in w.dir ==> AllIntact(sha, w.files, s)
  }

  lemma IntactKept(sha: Digest, files: Files, files': Files, id: string, s: Snapshot)
    requires AllIntact(sha, files, s) && OthersKept(files, files', id) && s.id != id
    ensures AllIntact(sha, files', s)
  {
    forall e | e in s.entries ensures HealthyAt(sha, files', s.id, e) {
      assert HealthyAt(sha, files, s.id, e) && SameAt(files, files', Key(s.id, e.path));
    }
  }

  /** Every snapshot that a run records is intact, and stays so. */
  lemma {:induction false} RunStaysIntact(sha: Digest, steps: seq<Step>, worlds: seq<World>)
    requires Run(sha, steps, worlds)
    ensures RecordsIntact(sha, worlds[|steps|])
    decreases |steps|
  {
    if steps != [] {
      var n := |steps| - 1;
      assert Run(sha, steps[..n], worlds[..n + 1]);
      RunStaysIntact(sha, steps[..n], worlds[..n + 1]);
      assert Acyclic(worlds[n].dir) && Stepped(sha, worlds[n], worlds[n + 1], steps[n]);
      match steps[n]
      case Backup(snap, tree, order) =>
        AcyclicWalkEnds(worlds[n].dir, snap.strategy, snap.source);
        TakenStaysIntact(sha, worlds[n], worlds[n + 1], snap, tree, order);
      case Failed(id) =>
        NotThere(worlds[n].dir, id);
        var w, w' := worlds[n], worlds[n + 1];
        forall s | s in w'.dir ensures AllIntact(sha, w'.files, s) {
          IntactKept(sha, w.files, w'.files, id, s);
        }
    }
  }

  lemma TakenStaysIntact(sha: Digest, w: World, w': World, snap: Snapshot, tree: Tree, order: seq<string>)
    requires RecordsIntact(sha, w) && New(w.dir, snap)
    requires WalkEnds(w.dir, snap.strategy, snap.source) && Taken(sha, w, w', snap, tree, order)
    ensures RecordsIntact(sha, w')
  {
    NotThere(w.dir, snap.id);
    EntriesOfChanged(sha, tree, order, PreviousOf(w.dir, snap.strategy, snap.source).value);
    StoredFilesHold(w.files, snap.id, tree, snap.entries);
    forall s | s in w'.dir ensures AllIntact(sha, w'.files, s) {
      if s in w.dir {
        IntactKept(sha, w.files, w'.files, snap.id, s);
      } else {
        forall e | e in snap.entries ensures HealthyAt(sha, w'.files, snap.id, e) {}
      }
    }
  }

  // ---------------------------------------------------------------- restoring a chain

  /** Between two times, a file whose content differs has a later modification time. */
  ghost predicate Rising(earlier: Tree, later: Tree) {
    forall path :: path in earlier && path in later ==>
      (earlier[path].data != later[path].data ==> earlier[path].mtime < later[path].mtime)
  }

  /** That holds between any two snapshots of one source. */
  ghost predicate AlwaysRising(dir: Directory, hist: History) {
    forall x, y :: x in dir && y in dir && x.source == y.source && x.createdAt < y.createdAt ==>
      (x.id in hist && y.id in hist ==> Rising(hist[x.id], hist[y.id]))
  }

  lemma ReplayedOf(w: World, hist: History, s: Snapshot, path: string)
    requires Invariant(w, hist) && s in w.dir
    ensures path in MapOf(s.entries) ==>
      var r := Replayed(w.dir, w.files, s);
      path in hist[s.id] && r.Some? && path in r.value && r.value[path] == hist[s.id][path].data
  {
    assert OnRecord(w, hist, s);
    ChainIsComplete(w, hist, s);
    if s.parent.Some? {
      FoundInDirectory(w.dir, s.parent.value);
    }
  }

  /** The two ends of a file's record in a chain: the complete map has the stamp it had at
      the oldest snapshot that lists it, the replay the bytes it had at the newest. */
  lemma {:induction false} ChainEnds(w: World, hist: History, s: Snapshot, path: string)
    returns (a: Snapshot, b: Snapshot)
    requires Invariant(w, hist) && s in w.dir
    requires CompleteMap(w.dir, s).Some? && path in CompleteMap(w.dir, s).value
    ensures a in w.dir && b in w.dir && a.source == s.source && b.source == s.source
    ensures a.createdAt <= b.createdAt <= s.createdAt && (a == b || a.createdAt < b.createdAt)
    ensures a.id in hist && path in hist[a.id] && SameStamp(CompleteMap(w.dir, s).value[path], hist[a.id][path])
    ensures var r := Replayed(w.dir, w.files, s);
      b.id in hist && path in hist[b.id] && r.Some? && path in r.value && r.value[path] == hist[b.id][path].data
    ensures s.parent.None? ==> a == b == s
    decreases s.createdAt
  {
    assert OnRecord(w, hist, s);
    ReplayedOf(w, hist, s, path);
    ChainIsComplete(w, hist, s);
    if s.parent.None? {
      return s, s;
    }
    var p := Lookup(w.dir, s.parent.value).value;
    FoundInDirectory(w.dir, s.parent.value);
    if path in CompleteMap(w.dir, p).value {
      a, b := ChainEnds(w, hist, p, path);
      if path in MapOf(s.entries) {
        b := s;
      }
    } else {
      a, b := s, s;
    }
  }

  /** What was backed up for `path` along the chain of `s`'s parent is what it holds now. */
  lemma SkippedIsUnchanged(w: World, hist: History, s: Snapshot, p: Snapshot, path: string)
    requires Invariant(w, hist) && s in w.dir && AlwaysRising(w.dir, hist)
    requires s.parent.Some? && Lookup(w.dir, s.parent.value) == Some(p) && p in w.dir
    requires s.id in hist && path in hist[s.id] && path !in MapOf(s.entries)
    ensures var r := Replayed(w.dir, w.files, p);
      r.Some? && path in r.value && r.value[path] == hist[s.id][path].data
  {
    assert OnRecord(w, hist, s);
    var a, b := ChainEnds(w, hist, p, path);
    assert Rising(hist[a.id], hist[s.id]) && Rising(hist[b.id], hist[s.id]);
    if a != b {
      assert Rising(hist[a.id], hist[b.id]);
    }
  }

  predicate HasFile(r: map<string, Bytes>, path: string, data: Bytes) {
    path in r && r[path] == data
  }

  /** `r` has every file of `tree` with its bytes. */
  ghost predicate HasTree(r: map<string, Bytes>, tree: Tree) {
    forall path :: path in tree ==> HasFile(r, path, tree[path].data)
  }

  lemma SkippedComesFromParent(w: World, hist: History, s: Snapshot, path: string)
    requires Invariant(w, hist) && s in w.dir && s.id in hist && path in hist[s.id] && path !in MapOf(s.entries)
    ensures s.parent.Some? && Lookup(w.dir, s.parent.value).Some? && Lookup(w.dir, s.parent.value).value in w.dir
    ensures var p := Lookup(w.dir, s.parent.value).value;
      && Replayed(w.dir, w.files, p).Some? && Replayed(w.dir, w.files, s).Some?
      && forall data :: HasFile(Replayed(w.dir, w.files, s).value, path, data)
                   <==> HasFile(Replayed(w.dir, w.files, p).value, path, data)
  {
    assert OnRecord(w, hist, s);
    FoundInDirectory(w.dir, s.parent.value);
    ChainIsComplete(w, hist, Lookup(w.dir, s.parent.value).value);
    ChainIsComplete(w, hist, s);
  }

  lemma FileRestores(w: World, hist: History, s: Snapshot, path: string)
    requires Invariant(w, hist) && s in w.dir && AlwaysRising(w.dir, hist)
    requires s.id in hist && path in hist[s.id]
    ensures Replayed(w.dir, w.files, s).Some?
    ensures HasFile(Replayed(w.dir, w.files, s).value, path, hist[s.id][path].data)
  {
    if path in MapOf(s.entries) {
      ReplayedOf(w, hist, s, path);
    } else {
      SkippedComesFromParent(w, hist, s, path);
      SkippedIsUnchanged(w, hist, s, Lookup(w.dir, s.parent.value).value, path);
    }
  }

  /** Chain restore. If content changes always come with later modification times, then
      replaying the chain of any snapshot, oldest first, gives every file of the source at
      the time of that snapshot the bytes it had. */
  lemma ChainRestores(w: World, hist: History, s: Snapshot)
    requires Invariant(w, hist) && s in w.dir && AlwaysRising(w.dir, hist)
    ensures s.id in hist && Replayed(w.dir, w.files, s).Some?
    ensures HasTree(Replayed(w.dir, w.files, s).value, hist[s.id])
  {
    assert OnRecord(w, hist, s);
    ChainIsComplete(w, hist, s);
    forall path | path in hist[s.id]
      ensures HasFile(Replayed(w.dir, w.files, s).value, path, hist[s.id][path].data)
    {
      FileRestores(w, hist, s, path);
    }
  }

  /** The same over a whole run from an empty backend. */
  lemma RunRestores(sha: Digest, steps: seq<Step>, worlds: seq<World>, s: Snapshot)
    requires Run(sha, steps, worlds) && s in worlds[|steps|].dir
    requires Acyclic(worlds[|steps|].dir) && AlwaysRising(worlds[|steps|].dir, HistoryOf(steps))
    ensures s.id in HistoryOf(steps) && Replayed(worlds[|steps|].dir, worlds[|steps|].files, s).Some?
    ensures HasTree(Replayed(worlds[|steps|].dir, worlds[|steps|].files, s).value, HistoryOf(steps)[s.id])
  {
    RunKeepsInvariant(sha, steps, worlds);
    ChainRestores(worlds[|steps|], HistoryOf(steps), s);
  }

  /** Equal stamps mean equal content. */
  ghost predicate StampTells(earlier: Tree, later: Tree) {
    forall path :: path in earlier && path in later ==>
      (earlier[path].mtime == later[path].mtime && |earlier[path].data| == |later[path].data| ==>
         earlier[path].data == later[path].data)
  }

  /** A snapshot whose parent is the root of its chain needs less: a differential one on a
      full base restores the source if only equal stamps mean equal content. */
  lemma ShortChainRestores(w: World, hist: History, s: Snapshot, base: Snapshot)
    requires Invariant(w, hist) && s in w.dir && base in w.dir
    requires s.parent.Some? && Lookup(w.dir, s.parent.value) == Some(base) && base.parent.None?
    requires s.id in hist && base.id in hist && StampTells(hist[base.id], hist[s.id])
    ensures Replayed(w.dir, w.files, s).Some? && HasTree(Replayed(w.dir, w.files, s).value, hist[s.id])
  {
    assert OnRecord(w, hist, s);
    ChainIsComplete(w, hist, s);
    forall path | path in hist[s.id]
      ensures HasFile(Replayed(w.dir, w.files, s).value, path, hist[s.id][path].data)
    {
      ReplayedOf(w, hist, s, path);
      if path !in MapOf(s.entries) {
        SkippedComesFromParent(w, hist, s, path);
        var a, b := ChainEnds(w, hist, base, path);
      }
    }
  }

  /** A differential snapshot has such a parent or none. */
  lemma DifferentialIsShort(w: World, hist: History, s: Snapshot)
    requires Invariant(w, hist) && s in w.dir && s.strategy == Differential && s.parent.Some?
    ensures var base := Lookup(w.dir, s.parent.value);
      base.Some? && base.value in w.dir && base.value.strategy == Full && base.value.parent.None?
  {
    assert OnRecord(w, hist, s);
    FoundInDirectory(w.dir, s.parent.value);
    assert OnRecord(w, hist, Lookup(w.dir, s.parent.value).value);
  }

  // ---------------------------------------------------------------- exactly when

  /** The chain restore of one file, without any premise on modification times. A backup on
      parent `p` restores it wrongly exactly when its stamp is that of the oldest entry in
      the chain, so that the change test skips it, while the bytes last backed up are others. */
  lemma RestoresExactly(sha: Digest, w: World, hist: History, w': World, s: Snapshot, tree: Tree, order: seq<string>,
                        p: Snapshot, path: string)
    requires Invariant(w, hist) && New(w.dir, s) && Lists(order, tree)
    requires WalkEnds(w.dir, s.strategy, s.source) && Taken(sha, w, w', s, tree, order)
    requires ParentOf(w.dir, s.strategy, s.source) == Some(p) && p in w.dir && path in tree
    requires Acyclic(w'.dir) && s in w'.dir
    ensures CompleteMap(w.dir, p).Some? && Replayed(w.dir, w.files, p).Some? && Replayed(w'.dir, w'.files, s).Some?
    ensures var listed, data := CompleteMap(w.dir, p).value, tree[path].data;
      HasFile(Replayed(w'.dir, w'.files, s).value, path, data)
      <==>
      !(path in listed && SameStamp(listed[path], tree[path])
        && !HasFile(Replayed(w.dir, w.files, p).value, path, data))
  {
    var hist' := hist[s.id := tree];
    TakenKeepsInvariant(sha, w, hist, w', s, tree, order);
    ChainIsComplete(w, hist, p);
    ChainIsComplete(w', hist', s);
    SkipsExactly(sha, w, hist, w', s, tree, order, p, path);
    NotThere(w.dir, s.id);
    ReplayStays(w, hist, w', s, tree, p);
    if path in MapOf(s.entries) {
      ReplayedOf(w', hist', s, path);
    } else {
      SkippedComesFromParent(w', hist', s, path);
      ParentPicked(w, hist, s.strategy, s.source);
      LookupAppended(w.dir, s, p.id);
    }
  }

  lemma SkipsExactly(sha: Digest, w: World, hist: History, w': World, s: Snapshot, tree: Tree, order: seq<string>,
                     p: Snapshot, path: string)
    requires Invariant(w, hist) && Lists(order, tree)
    requires WalkEnds(w.dir, s.strategy, s.source) && Taken(sha, w, w', s, tree, order)
    requires ParentOf(w.dir, s.strategy, s.source) == Some(p) && p in w.dir && path in tree
    ensures CompleteMap(w.dir, p).Some?
    ensures path in MapOf(s.entries) <==> Changed(CompleteMap(w.dir, p).value, path, tree[path])
  {
    ParentPicked(w, hist, s.strategy, s.source);
    ChainIsComplete(w, hist, p);
    var listed := CompleteMap(w.dir, p).value;
    EntriesOfChanged(sha, tree, order, listed);
    OnlyChanged(sha, tree, order, listed);
    MapOfHas(s.entries);
  }

  lemma {:induction false} OnlyChanged(sha: Digest, tree: Tree, order: seq<string>, previous: EntryMap)
    ensures forall e :: e in ChangedEntries(sha, tree, order, previous) ==>
      e.path in tree && Changed(previous, e.path, tree[e.path])
  {
    if order != [] {
      OnlyChanged(sha, tree, order[..|order| - 1], previous);
    }
  }

  /** A backup leaves what older chains replay to as it was. */
  lemma {:induction false} ReplayStays(w: World, hist: History, w': World, s: Snapshot, tree: Tree, x: Snapshot)
    requires Invariant(w, hist) && x in w.dir && Lookup(w.dir, s.id).None?
    requires w'.dir == w.dir + [s] && Acyclic(w'.dir) && w'.files == StoredFiles(w.files, s.id, tree, s.entries)
    ensures Replayed(w'.dir, w'.files, x) == Replayed(w.dir, w.files, x)
    decreases x.createdAt
  {
    assert OnRecord(w, hist, x);
    NotThere(w.dir, s.id);
    DataStays(w.files, s, tree, x);
    if x.parent.Some? {
      LookupAppended(w.dir, s, x.parent.value);
      FoundInDirectory(w.dir, x.parent.value);
      ReplayStays(w, hist, w', s, tree, Lookup(w.dir, x.parent.value).value);
    }
  }

  lemma DataStays(files: Files, s: Snapshot, tree: Tree, x: Snapshot)
    requires x.id != s.id
    ensures SnapshotData(StoredFiles(files, s.id, tree, s.entries), x.id, x.entries)
         == SnapshotData(files, x.id, x.entries)
  {
    StoredFilesHold(files, s.id, tree, s.entries);
    forall path ensures SameAt(files, StoredFiles(files, s.id, tree, s.entries), Key(x.id, path)) {}
  }

  /** A replay has the files that the complete map lists. */
  lemma {:induction false} ReplayedAreListed(w: World, hist: History, s: Snapshot)
    requires Invariant(w, hist) && s in w.dir
    ensures CompleteMap(w.dir, s).Some? && Replayed(w.dir, w.files, s).Some?
    ensures Replayed(w.dir, w.files, s).value.Keys == CompleteMap(w.dir, s).value.Keys
    decreases s.createdAt
  {
    assert OnRecord(w, hist, s);
    ChainIsComplete(w, hist, s);
    DataKeys(w.files, hist[s.id], s);
    if s.parent.Some? {
      FoundInDirectory(w.dir, s.parent.value);
      ReplayedAreListed(w, hist, Lookup(w.dir, s.parent.value).value);
    }
  }

  lemma DataKeys(files: Files, tree: Tree, s: Snapshot)
    requires Faithful(files, tree, s)
    ensures SnapshotData(files, s.id, s.entries).Keys == MapOf(s.entries).Keys
  {}

  /** Every file of the source comes back, with some bytes. */
  lemma NoFileMissing(w: World, hist: History, s: Snapshot)
    requires Invariant(w, hist) && s in w.dir
    ensures s.id in hist && Replayed(w.dir, w.files, s).Some?
    ensures hist[s.id].Keys <= Replayed(w.dir, w.files, s).value.Keys
  {
    assert OnRecord(w, hist, s);
    ReplayedAreListed(w, hist, s);
    if s.parent.Some? {
      FoundInDirectory(w.dir, s.parent.value);
      ReplayedAreListed(w, hist, Lookup(w.dir, s.parent.value).value);
    }
  }

  /** What a chain restore adds to the source are files deleted since: it has the same files
      exactly when every file on record in the parent's chain still exists. */
  lemma DeletedFilesReturn(w: World, hist: History, s: Snapshot, p: Snapshot)
    requires Invariant(w, hist) && s in w.dir
    requires s.parent.Some? && Lookup(w.dir, s.parent.value) == Some(p) && p in w.dir
    ensures s.id in hist && Replayed(w.dir, w.files, s).Some? && Replayed(w.dir, w.files, p).Some?
    ensures var tree, r := hist[s.id], Replayed(w.dir, w.files, s).value;
      && (AlwaysRising(w.dir, hist) ==> HasTree(r, tree))
      && (r.Keys == tree.Keys <==> Replayed(w.dir, w.files, p).value.Keys <= tree.Keys)
  {
    if AlwaysRising(w.dir, hist) {
      ChainRestores(w, hist, s);
    }
    NoFileMissing(w, hist, s);
    ReplaySplits(w, hist, s, p);
    KeysOfReplay(Replayed(w.dir, w.files, p).value, SnapshotData(w.files, s.id, s.entries),
                 Replayed(w.dir, w.files, s).value, hist[s.id]);
  }

  /** The bytes of the files of `tree`. */
  function DataOf(tree: Tree): map<string, Bytes> {
    map path | path in tree :: tree[path].data
  }

  /** A file that a backup on parent `p` would leave out although its content is other than
      what the chain of `p` restores. */
  ghost predicate Misled(w: World, p: Snapshot, path: string, f: SourceFile)
    requires Ends(w.dir, p) && CompleteMap(w.dir, p).Some? && Replayed(w.dir, w.files, p).Some?
  {
    var listed := CompleteMap(w.dir, p).value;
    path in listed && SameStamp(listed[path], f) && !HasFile(Replayed(w.dir, w.files, p).value, path, f.data)
  }

  /** When the chain restore of a backup on parent `p` is the source, without any premise on
      modification times: exactly when no file on record was deleted and none misleads. */
  lemma RestoresSourceExactly(sha: Digest, w: World, hist: History, w': World, s: Snapshot, tree: Tree,
                              order: seq<string>, p: Snapshot)
    requires Invariant(w, hist) && New(w.dir, s) && Lists(order, tree)
    requires WalkEnds(w.dir, s.strategy, s.source) && Taken(sha, w, w', s, tree, order)
    requires ParentOf(w.dir, s.strategy, s.source) == Some(p) && p in w.dir
    requires Acyclic(w'.dir) && s in w'.dir
    ensures CompleteMap(w.dir, p).Some? && Replayed(w.dir, w.files, p).Some? && Replayed(w'.dir, w'.files, s).Some?
    ensures Replayed(w'.dir, w'.files, s).value == DataOf(tree)
      <==>
      && Replayed(w.dir, w.files, p).value.Keys <= tree.Keys
      && forall path :: path in tree ==> !Misled(w, p, path, tree[path])
  {
    var hist' := hist[s.id := tree];
    TakenKeepsInvariant(sha, w, hist, w', s, tree, order);
    ChainIsComplete(w, hist, p);
    ChainIsComplete(w', hist', s);
    NotThere(w.dir, s.id);
    ReplayStays(w, hist, w', s, tree, p);
    ParentPicked(w, hist, s.strategy, s.source);
    LookupAppended(w.dir, s, p.id);
    DeletedFilesReturn(w', hist', s, p);
    var r := Replayed(w'.dir, w'.files, s).value;
    forall path | path in tree ensures HasFile(r, path, tree[path].data) <==> !Misled(w, p, path, tree[path]) {
      RestoresExactly(sha, w, hist, w', s, tree, order, p, path);
    }
    EqualsData(r, tree);
  }

  lemma EqualsData(r: map<string, Bytes>, tree: Tree)
    ensures r == DataOf(tree) <==> r.Keys == tree.Keys && HasTree(r, tree)
  {
    if r == DataOf(tree) {
      forall path | path in tree ensures HasFile(r, path, tree[path].data) {
        assert path in DataOf(tree);
      }
      assert DataOf(tree).Keys == tree.Keys;
    }
    if r.Keys == tree.Keys && HasTree(r, tree) {
      forall path | path in r ensures path in DataOf(tree) && r[path] == DataOf(tree)[path] {
        assert HasFile(r, path, tree[path].data);
      }
    }
  }

  lemma ReplaySplits(w: World, hist: History, s: Snapshot, p: Snapshot)
    requires Invariant(w, hist) && s in w.dir
    requires s.parent.Some? && Lookup(w.dir, s.parent.value) == Some(p) && p in w.dir
    ensures s.id in hist && Replayed(w.dir, w.files, s).Some? && Replayed(w.dir, w.files, p).Some?
    ensures var own := SnapshotData(w.files, s.id, s.entries);
      && own.Keys <= hist[s.id].Keys
      && Replayed(w.dir, w.files, s).value == Replayed(w.dir, w.files, p).value + own
  {
    ChainIsComplete(w, hist, p);
    ChainIsComplete(w, hist, s);
    assert OnRecord(w, hist, s);
  }

  lemma KeysOfReplay(last: map<string, Bytes>, own: map<string, Bytes>, r: map<string, Bytes>, tree: Tree)
    requires r == last + own && own.Keys <= tree.Keys <= r.Keys
    ensures r.Keys == tree.Keys <==> last.Keys <= tree.Keys
  {
    assert r.Keys == last.Keys + own.Keys;
  }

  // ---------------------------------------------------------------- a reverted file

  const OLD_TREE: Tree := map["p" := SourceFile([0], 10)]
  const NEW_TREE: Tree := map["p" := SourceFile([1], 20)]

  function OneEntry(sha: Digest, tree: Tree): seq<FileEntry>
    requires "p" in tree
  {
    [EntryOf(sha, "p", tree["p"])]
  }

  function Base(sha: Digest): Snapshot {
    Snapshot("a", 1, Full, "src", OneEntry(sha, OLD_TREE), None)
  }

  function Edited(sha: Digest): Snapshot {
    Snapshot("b", 2, Incremental, "src", OneEntry(sha, NEW_TREE), Some("a"))
  }

  const REVERTED := Snapshot("c", 3, Incremental, "src", [], Some("b"))

  const BASE_FILES: Files := map[Key("a", "p") := [0]]
  const ALL_FILES: Files := map[Key("a", "p") := [0], Key("b", "p") := [1]]

  lemma OneFile(sha: Digest, tree: Tree, previous: EntryMap, files: Files, id: string)
    requires tree.Keys == {"p"}
    ensures Lists(["p"], tree)
    ensures ChangedEntries(sha, tree, ["p"], previous)
         == if Changed(previous, "p", tree["p"]) then OneEntry(sha, tree) else []
    ensures StoredFiles(files, id, tree, OneEntry(sha, tree)) == files[Key(id, "p") := tree["p"].data]
    ensures MapOf(OneEntry(sha, tree)) == map["p" := EntryOf(sha, "p", tree["p"])]
  {
    assert ["p"][..0] == [] && OneEntry(sha, tree)[..0] == [];
    assert ChangedEntries(sha, tree, [], previous) == [];
  }

  lemma LookupTwo(a: Snapshot, b: Snapshot, id: string)
    ensures Lookup([a], id) == if a.id == id then Some(a) else None
    ensures Lookup([a, b], id) == if a.id == id then Some(a) else if b.id == id then Some(b) else None
  {
    assert [a][1..] == [] && [a, b][1..] == [b] && [b][1..] == [];
  }

  lemma LatestTwo(a: Snapshot, b: Snapshot)
    requires a.source == b.source && a.createdAt < b.createdAt
    ensures Latest([], a.source, false).None? && Latest([a], a.source, false) == Some(a)
    ensures Latest([a, b], a.source, false) == Some(b)
  {
    assert [a][..0] == [] && [a, b][..1] == [a];
  }

  lemma BaseChain(sha: Digest)
    ensures Acyclic([Base(sha)]) && Acyclic([Base(sha), Edited(sha)])
    ensures CompleteMap([Base(sha)], Base(sha)) == Some(MapOf(OneEntry(sha, OLD_TREE)))
    ensures CompleteMap([Base(sha), Edited(sha)], Edited(sha)) == Some(MapOf(OneEntry(sha, OLD_TREE)))
  {
    LookupTwo(Base(sha), Edited(sha), "a");
    DatedIsAcyclic([Base(sha)]);
    DatedIsAcyclic([Base(sha), Edited(sha)]);
    OneFile(sha, OLD_TREE, map[], map[], "a");
    OneFile(sha, NEW_TREE, map[], map[], "b");
    var older, newer := MapOf(OneEntry(sha, OLD_TREE)), MapOf(OneEntry(sha, NEW_TREE));
    assert newer + older == older;
    TwoLinks([Base(sha), Edited(sha)], Base(sha), Edited(sha));
  }

  lemma TwoLinks(dir: Directory, root: Snapshot, s: Snapshot)
    requires Acyclic(dir) && root in dir && s in dir
    requires root.parent.None? && s.parent.Some? && Lookup(dir, s.parent.value) == Some(root)
    ensures CompleteMap(dir, s) == Some(MapOf(s.entries) + MapOf(root.entries))
  {
    assert CompleteMap(dir, root) == Some(MapOf(root.entries));
  }

  /** What the second and the third backup refer to and compare with. */
  lemma RevertedParents(sha: Digest)
    ensures Acyclic([Base(sha)]) && Acyclic([Base(sha), Edited(sha)])
    ensures ParentOf([Base(sha)], Incremental, "src") == Some(Base(sha))
    ensures ParentOf([Base(sha), Edited(sha)], Incremental, "src") == Some(Edited(sha))
    ensures PreviousOf([Base(sha)], Incremental, "src") == Some(MapOf(OneEntry(sha, OLD_TREE)))
    ensures PreviousOf([Base(sha), Edited(sha)], Incremental, "src") == Some(MapOf(OneEntry(sha, OLD_TREE)))
  {
    BaseChain(sha);
    LatestTwo(Base(sha), Edited(sha));
  }

  lemma RevertedAreNew(sha: Digest)
    ensures New([Base(sha)], Edited(sha)) && Without([Base(sha)], "b") == [Base(sha)]
    ensures New([Base(sha), Edited(sha)], REVERTED)
    ensures Without([Base(sha), Edited(sha)], "c") == [Base(sha), Edited(sha)]
  {
    LookupTwo(Base(sha), Edited(sha), "b");
    LookupTwo(Base(sha), Edited(sha), "c");
    NotThere([Base(sha)], "b");
    NotThere([Base(sha), Edited(sha)], "c");
  }

  /** A backup of a source whose one file has changed. */
  lemma OneFileTaken(sha: Digest, w: World, snap: Snapshot, tree: Tree)
    requires Acyclic(w.dir) && New(w.dir, snap) && tree.Keys == {"p"}
    requires snap.parent == IdOf(ParentOf(w.dir, snap.strategy, snap.source)) && snap.entries == OneEntry(sha, tree)
    requires WalkEnds(w.dir, snap.strategy, snap.source)
    requires var previous := PreviousOf(w.dir, snap.strategy, snap.source);
      previous.Some? && Changed(previous.value, "p", tree["p"])
    ensures Stepped(sha, w, World(w.dir + [snap], w.files[Key(snap.id, "p") := tree["p"].data]),
                    Backup(snap, tree, ["p"]))
  {
    OneFile(sha, tree, PreviousOf(w.dir, snap.strategy, snap.source).value, w.files, snap.id);
    NotThere(w.dir, snap.id);
  }

  lemma TakeBase(sha: Digest)
    ensures Stepped(sha, World([], map[]), World([Base(sha)], BASE_FILES), Backup(Base(sha), OLD_TREE, ["p"]))
  {
    OneFileTaken(sha, World([], map[]), Base(sha), OLD_TREE);
    assert [] + [Base(sha)] == [Base(sha)];
  }

  lemma TakeEdited(sha: Digest)
    ensures Acyclic([Base(sha)])
    ensures Stepped(sha, World([Base(sha)], BASE_FILES), World([Base(sha), Edited(sha)], ALL_FILES),
                    Backup(Edited(sha), NEW_TREE, ["p"]))
  {
    RevertedParents(sha);
    RevertedAreNew(sha);
    OneFile(sha, OLD_TREE, map[], map[], "a");
    OneFileTaken(sha, World([Base(sha)], BASE_FILES), Edited(sha), NEW_TREE);
    EditedWorld(sha);
  }

  lemma EditedWorld(sha: Digest)
    ensures World([Base(sha)] + [Edited(sha)], BASE_FILES[Key(Edited(sha).id, "p") := NEW_TREE["p"].data])
         == World([Base(sha), Edited(sha)], ALL_FILES)
  {}

  lemma TakeReverted(sha: Digest)
    ensures Acyclic([Base(sha), Edited(sha)])
    ensures Stepped(sha, World([Base(sha), Edited(sha)], ALL_FILES),
                    World([Base(sha), Edited(sha), REVERTED], ALL_FILES),
                    Backup(REVERTED, OLD_TREE, ["p"]))
  {
    var previous := MapOf(OneEntry(sha, OLD_TREE));
    RevertedParents(sha);
    RevertedAreNew(sha);
    OneFile(sha, OLD_TREE, previous, ALL_FILES, "c");
    assert !Changed(previous, "p", OLD_TREE["p"]);
    assert [Base(sha), Edited(sha)] + [REVERTED] == [Base(sha), Edited(sha), REVERTED];
  }

  const REVERTED_HISTORY: History := map["a" := OLD_TREE, "b" := NEW_TREE, "c" := OLD_TREE]

  function RevertedSteps(sha: Digest): seq<Step> {
    [Backup(Base(sha), OLD_TREE, ["p"]), Backup(Edited(sha), NEW_TREE, ["p"]), Backup(REVERTED, OLD_TREE, ["p"])]
  }

  function RevertedWorlds(sha: Digest): seq<World> {
    [World([], map[]), World([Base(sha)], BASE_FILES), World([Base(sha), Edited(sha)], ALL_FILES),
     World([Base(sha), Edited(sha), REVERTED], ALL_FILES)]
  }

  lemma RevertedRun(sha: Digest)
    ensures Run(sha, RevertedSteps(sha), RevertedWorlds(sha))
  {
    TakeBase(sha);
    TakeEdited(sha);
    TakeReverted(sha);
    RunOfThree(sha, RevertedSteps(sha), RevertedWorlds(sha));
  }

  lemma RunOfThree(sha: Digest, steps: seq<Step>, worlds: seq<World>)
    requires |steps| == 3 && |worlds| == 4 && worlds[0].dir == []
    requires Acyclic(worlds[0].dir) && Stepped(sha, worlds[0], worlds[1], steps[0])
    requires Acyclic(worlds[1].dir) && Stepped(sha, worlds[1], worlds[2], steps[1])
    requires Acyclic(worlds[2].dir) && Stepped(sha, worlds[2], worlds[3], steps[2])
    ensures Run(sha, steps, worlds)
  {
    forall i | 0 <= i < |steps| ensures Acyclic(worlds[i].dir) && Stepped(sha, worlds[i], worlds[i + 1], steps[i]) {
      assert i == 0 || i == 1 || i == 2;
    }
  }

  lemma RevertedHistory(sha: Digest)
    ensures HistoryOf(RevertedSteps(sha)) == REVERTED_HISTORY
  {
    var s1, s2, s3 := RevertedSteps(sha)[0], RevertedSteps(sha)[1], RevertedSteps(sha)[2];
    assert [s1][..0] == [] && [s1, s2][..1] == [s1] && [s1, s2, s3][..2] == [s1, s2];
    assert HistoryOf([s1]) == map["a" := OLD_TREE];
    assert HistoryOf([s1, s2]) == map["a" := OLD_TREE, "b" := NEW_TREE];
  }

  lemma RevertedReplay(sha: Digest, w: World)
    requires w == RevertedWorlds(sha)[3] && Invariant(w, REVERTED_HISTORY)
    ensures REVERTED in w.dir && Replayed(w.dir, w.files, REVERTED).Some?
    ensures HasFile(Replayed(w.dir, w.files, REVERTED).value, "p", [1])
  {
    var b := Edited(sha);
    ChainIsComplete(w, REVERTED_HISTORY, REVERTED);
    OneFile(sha, NEW_TREE, map[], map[], "b");
    ReplayedOf(w, REVERTED_HISTORY, b, "p");
    SkippedComesFromParent(w, REVERTED_HISTORY, REVERTED, "p");
    assert OnRecord(w, REVERTED_HISTORY, b);
    assert HasFile(Replayed(w.dir, w.files, b).value, "p", [1]);
  }

  lemma RevertedStampsTell()
    ensures forall x, y :: x in REVERTED_HISTORY && y in REVERTED_HISTORY ==>
      StampTells(REVERTED_HISTORY[x], REVERTED_HISTORY[y])
  {}

  /** The premise on modification times is needed, though equal stamps mean equal content
      throughout: a file is backed up, edited, backed up again and put back together with its
      old modification time. The third backup finds the stamp of the oldest entry, skips
      the file, and the chain restores the edit. */
  lemma RevertedFile(sha: Digest)
    ensures Run(sha, RevertedSteps(sha), RevertedWorlds(sha))
    ensures var w, hist := RevertedWorlds(sha)[3], HistoryOf(RevertedSteps(sha));
      && Invariant(w, hist) && REVERTED in w.dir && REVERTED.id in hist
      && (forall x, y :: x in hist && y in hist ==> StampTells(hist[x], hist[y]))
      && Replayed(w.dir, w.files, REVERTED).Some?
      && !HasTree(Replayed(w.dir, w.files, REVERTED).value, hist[REVERTED.id])
  {
    RevertedRun(sha);
    RevertedHistory(sha);
    RevertedStampsTell();
    RunKeepsInvariant(sha, RevertedSteps(sha), RevertedWorlds(sha));
    var w := RevertedWorlds(sha)[3];
    RevertedReplay(sha, w);
    assert !HasFile(Replayed(w.dir, w.files, REVERTED).value, "p", REVERTED_HISTORY["c"]["p"].data);
  }

  // ---------------------------------------------------------------- a deleted file

  const GONE: Tree := map[]

  const EMPTIED := Snapshot("d", 2, Incremental, "src", [], Some("a"))

  function DeletedSteps(sha: Digest): seq<Step> {
    [Backup(Base(sha), OLD_TREE, ["p"]), Backup(EMPTIED, GONE, [])]
  }

  function DeletedWorlds(sha: Digest): seq<World> {
    [World([], map[]), World([Base(sha)], BASE_FILES), World([Base(sha), EMPTIED], BASE_FILES)]
  }

  lemma TakeEmptied(sha: Digest)
    ensures Acyclic([Base(sha)])
    ensures Stepped(sha, World([Base(sha)], BASE_FILES), World([Base(sha), EMPTIED], BASE_FILES),
                    Backup(EMPTIED, GONE, []))
  {
    RevertedParents(sha);
    LookupTwo(Base(sha), EMPTIED, "d");
    NotThere([Base(sha)], "d");
    assert ChangedEntries(sha, GONE, [], MapOf(OneEntry(sha, OLD_TREE))) == [];
    assert [Base(sha)] + [EMPTIED] == [Base(sha), EMPTIED];
  }

  lemma DeletedRun(sha: Digest)
    ensures Run(sha, DeletedSteps(sha), DeletedWorlds(sha))
    ensures HistoryOf(DeletedSteps(sha)) == map["a" := OLD_TREE, "d" := GONE]
  {
    TakeBase(sha);
    TakeEmptied(sha);
    RunOfTwo(sha, DeletedSteps(sha), DeletedWorlds(sha));
    var s1, s2 := DeletedSteps(sha)[0], DeletedSteps(sha)[1];
    assert [s1][..0] == [] && [s1, s2][..1] == [s1];
    assert HistoryOf([s1]) == map["a" := OLD_TREE];
  }

  lemma RunOfTwo(sha: Digest, steps: seq<Step>, worlds: seq<World>)
    requires |steps| == 2 && |worlds| == 3 && worlds[0].dir == []
    requires Acyclic(worlds[0].dir) && Stepped(sha, worlds[0], worlds[1], steps[0])
    requires Acyclic(worlds[1].dir) && Stepped(sha, worlds[1], worlds[2], steps[1])
    ensures Run(sha, steps, worlds)
  {
    forall i | 0 <= i < |steps| ensures Acyclic(worlds[i].dir) && Stepped(sha, worlds[i], worlds[i + 1], steps[i]) {
      assert i == 0 || i == 1;
    }
  }

  /** A file is backed up and deleted, and the empty source is backed up. The chain of the
      second snapshot restores the file, though modification times never misled. */
  lemma DeletedFile(sha: Digest)
    ensures Run(sha, DeletedSteps(sha), DeletedWorlds(sha))
    ensures var w, hist := DeletedWorlds(sha)[2], HistoryOf(DeletedSteps(sha));
      && Invariant(w, hist) && EMPTIED in w.dir && AlwaysRising(w.dir, hist) && hist[EMPTIED.id] == GONE
      && Replayed(w.dir, w.files, EMPTIED).Some?
      && HasFile(Replayed(w.dir, w.files, EMPTIED).value, "p", [0])
  {
    DeletedRun(sha);
    RunKeepsInvariant(sha, DeletedSteps(sha), DeletedWorlds(sha));
    EmptiedReplay(sha, DeletedWorlds(sha)[2], HistoryOf(DeletedSteps(sha)));
  }

  lemma EmptiedReplay(sha: Digest, w: World, hist: History)
    requires w == World([Base(sha), EMPTIED], BASE_FILES) && hist == map["a" := OLD_TREE, "d" := GONE]
    requires Invariant(w, hist)
    ensures EMPTIED in w.dir && Replayed(w.dir, w.files, EMPTIED).Some?
    ensures HasFile(Replayed(w.dir, w.files, EMPTIED).value, "p", [0])
  {
    LookupTwo(Base(sha), EMPTIED, "a");
    OneFile(sha, OLD_TREE, map[], map[], "a");
    ReplayedOf(w, hist, Base(sha), "p");
    ReplaySplits(w, hist, EMPTIED, Base(sha));
    assert SnapshotData(w.files, "d", []) == map[];
  }
}
