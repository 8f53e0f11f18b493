/** Exactly what a full, an incremental and a differential backup record
    (crates/openvault-core/src/strategy.rs). */
module Strategies {
  import opened Common
  import opened Storage
  import opened SnapshotChain
  import opened SnapshotRuns

  // ---------------------------------------------------------------- the reference snapshot

  /** A full backup refers to no snapshot, an incremental one to the one of its source created
      last, a differential one to the full one of its source created last. */
  lemma ParentExactly(dir: Directory, strategy: Strategy, source: string)
    ensures var p := ParentOf(dir, strategy, source);
      && (strategy == Full ==> p.None?)
      && (p.Some? ==>
            && p.value in dir && p.value.source == source && (strategy == Differential ==> p.value.strategy == Full)
            && forall s :: s in dir && s.source == source && (strategy == Differential ==> s.strategy == Full) ==>
                 s.createdAt <= p.value.createdAt)
      && (strategy != Full && p.None? ==>
            forall s :: s in dir && s.source == source ==> strategy == Differential && s.strategy != Full)
  {
    LatestIsLatest(dir, source, false);
    LatestIsLatest(dir, source, true);
  }

  /** The last entry of `path` has the time and the size of `f`. */
  ghost predicate LastStamp(entries: seq<FileEntry>, path: string, f: SourceFile) {
    exists i :: IsLast(entries, path, i) && entries[i].mtime == f.mtime && entries[i].size == |f.data|
  }

  ghost predicate IsLast(entries: seq<FileEntry>, path: string, i: int) {
    && 0 <= i < |entries| && entries[i].path == path
    && forall j :: i < j < |entries| ==> entries[j].path != path
  }

  lemma {:induction false} LastEntryWins(entries: seq<FileEntry>, path: string, i: int)
    requires IsLast(entries, path, i)
    ensures path in MapOf(entries) && MapOf(entries)[path] == entries[i]
    decreases |entries|
  {
    var n := |entries| - 1;
    if i < n {
      assert IsLast(entries[..n], path, i);
      LastEntryWins(entries[..n], path, i);
    }
  }

  lemma {:induction false} LastExists(entries: seq<FileEntry>, path: string)
    requires path in MapOf(entries)
    ensures exists i :: IsLast(entries, path, i)
  {
    var n := |entries| - 1;
    if entries[n].path == path {
      assert IsLast(entries, path, n);
    } else {
      LastExists(entries[..n], path);
      var i :| IsLast(entries[..n], path, i);
      assert forall j :: 0 <= j < n ==> entries[..n][j] == entries[j];
      assert IsLast(entries, path, i);
    }
  }

  lemma StampFromEntries(entries: seq<FileEntry>, path: string, f: SourceFile)
    ensures path in MapOf(entries) && SameStamp(MapOf(entries)[path], f) <==> LastStamp(entries, path, f)
  {
    if path in MapOf(entries) {
      LastExists(entries, path);
      var i :| IsLast(entries, path, i);
      LastEntryWins(entries, path, i);
    }
    if LastStamp(entries, path, f) {
      var i :| IsLast(entries, path, i) && entries[i].mtime == f.mtime && entries[i].size == |f.data|;
      LastEntryWins(entries, path, i);
    }
  }

  // ---------------------------------------------------------------- what is recorded

  ghost predicate Listed(entries: seq<FileEntry>, path: string) {
    exists i :: 0 <= i < |entries| && entries[i].path == path
  }

  /** A file of the source is listed exactly if the map it is compared with does not have its
      path with the same time and the same size. */
  lemma ListedExactly(sha: Digest, tree: Tree, order: seq<string>, previous: EntryMap, path: string)
    requires Lists(order, tree)
    ensures Listed(ChangedEntries(sha, tree, order, previous), path) <==>
      && path in tree
      && (path in previous ==> previous[path].mtime != tree[path].mtime || previous[path].size != |tree[path].data|)
  {
    var entries := ChangedEntries(sha, tree, order, previous);
    EntriesOfChanged(sha, tree, order, previous);
    OnlyChanged(sha, tree, order, previous);
    if Listed(entries, path) {
      var i :| 0 <= i < |entries| && entries[i].path == path;
      assert entries[i] in entries;
    }
  }

  ghost predicate Before(order: seq<string>, x: string, y: string) {
    exists a, b :: 0 <= a < b < |order| && order[a] == x && order[b] == y
  }

  /** Entries say what their files are, and come in the order in which the files were visited. */
  lemma {:induction false} ListedInOrder(sha: Digest, tree: Tree, order: seq<string>, previous: EntryMap)
    ensures var entries := ChangedEntries(sha, tree, order, previous);
      && (forall e :: e in entries ==>
            && e.path in order && e.path in tree
            && e == FileEntry(e.path, |tree[e.path].data|, tree[e.path].mtime, sha(tree[e.path].data)))
      && forall i, j :: 0 <= i < j < |entries| ==> Before(order, entries[i].path, entries[j].path)
  {
    if order != [] {
      var n := |order| - 1;
      var front, entries := ChangedEntries(sha, tree, order[..n], previous), ChangedEntries(sha, tree, order, previous);
      ListedInOrder(sha, tree, order[..n], previous);
      assert order == order[..n] + [order[n]];
      forall i, j | 0 <= i < j < |entries| ensures Before(order, entries[i].path, entries[j].path) {
        if j < |front| {
          BeforeLonger(order, front[i].path, front[j].path);
        } else {
          assert front[i] in front;
          var a :| 0 <= a < n && order[..n][a] == front[i].path;
          assert order[a] == front[i].path && entries[j].path == order[n];
        }
      }
    }
  }

  lemma BeforeLonger(order: seq<string>, x: string, y: string)
    requires order != [] && Before(order[..|order| - 1], x, y)
    ensures Before(order, x, y)
  {
    var front := order[..|order| - 1];
    var a, b :| 0 <= a < b < |front| && front[a] == x && front[b] == y;
    assert order[a] == x && order[b] == y;
  }

  /** The files listed, and no others, are stored, each under the new snapshot. */
  lemma {:induction false} StoredExactly(files: Files, id: string, tree: Tree, entries: seq<FileEntry>, k: Key)
    ensures var f := StoredFiles(files, id, tree, entries);
      if k.snapshot == id && k.path in tree && Listed(entries, k.path) then k in f && f[k] == tree[k.path].data
      else SameAt(files, f, k)
    decreases |entries|
  {
    if entries != [] {
      var n := |entries| - 1;
      StoredExactly(files, id, tree, entries[..n], k);
      ListedOneMore(entries, k.path);
    }
  }

  lemma ListedOneMore(entries: seq<FileEntry>, path: string)
    requires entries != []
    ensures var n := |entries| - 1;
      Listed(entries, path) <==> Listed(entries[..n], path) || entries[n].path == path
  {
    var n := |entries| - 1;
    if Listed(entries[..n], path) {
      var i :| 0 <= i < n && entries[..n][i].path == path;
      assert entries[i].path == path;
    }
    if Listed(entries, path) && entries[n].path != path {
      var i :| 0 <= i < |entries| && entries[i].path == path;
      assert entries[..n][i].path == path;
    }
  }

  /** A backup of each kind, file by file. A full one lists every file of the source. A
      differential one lists a file unless its reference snapshot has it with the same time
      and size; an incremental one unless the complete map of its reference snapshot's chain
      has. Without a reference both list every file. What is listed is stored, the snapshot
      is recorded, and all else stays. */
  lemma BackupExactly(sha: Digest, w: World, w': World, snap: Snapshot, tree: Tree, order: seq<string>, path: string)
    requires WalkEnds(w.dir, snap.strategy, snap.source) && Lists(order, tree) && Taken(sha, w, w', snap, tree, order)
    ensures var p := ParentOf(w.dir, snap.strategy, snap.source);
      && snap.parent == (if p.None? then None else Some(p.value.id))
      && (p.None? ==> (Listed(snap.entries, path) <==> path in tree))
      && (p.Some? && snap.strategy == Differential ==>
            (Listed(snap.entries, path) <==> path in tree && !LastStamp(p.value.entries, path, tree[path])))
      && (p.Some? && snap.strategy == Incremental ==>
            && Ends(w.dir, p.value) && CompleteMap(w.dir, p.value).Some?
            && var known := CompleteMap(w.dir, p.value).value;
               (Listed(snap.entries, path) <==>
                  path in tree && !(path in known && known[path].mtime == tree[path].mtime
                                    && known[path].size == |tree[path].data|)))
    ensures var k := Key(snap.id, path);
      if Listed(snap.entries, path) then path in tree && k in w'.files && w'.files[k] == tree[path].data
      else SameAt(w.files, w'.files, k)
    ensures forall k: Key :: k.snapshot != snap.id ==> SameAt(w.files, w'.files, k)
    ensures forall s :: s in w'.dir <==> s == snap || (s in w.dir && s.id != snap.id)
  {
    var p, previous := ParentOf(w.dir, snap.strategy, snap.source), PreviousOf(w.dir, snap.strategy, snap.source).value;
    ParentExactly(w.dir, snap.strategy, snap.source);
    ListedExactly(sha, tree, order, previous, path);
    StoredExactly(w.files, snap.id, tree, snap.entries, Key(snap.id, path));
    if p.Some? && snap.strategy == Differential && path in tree {
      StampFromEntries(p.value.entries, path, tree[path]);
    }
    forall k: Key | k.snapshot != snap.id ensures SameAt(w.files, w'.files, k) {
      StoredExactly(w.files, snap.id, tree, snap.entries, k);
    }
    RemovedIsGone(w.dir, snap.id);
  }
}
