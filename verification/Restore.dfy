/** The restore engine (crates/openvault-core/src/restore.rs). */
module Restore {
  import opened Common
  import opened Storage
  import opened SnapshotChain

  datatype Conflict = Skip | Overwrite | Rename | Fail

  /** `decode` undoes encryption, or does nothing; `renamed` names the n-th alternative of a
      path; an empty filter admits every path. */
  datatype Engine = Engine(sha: Digest, decode: Bytes -> Option<Bytes>, renamed: (string, int) -> string)

  datatype Options = Options(filter: seq<string>, conflict: Conflict, verify: bool)

  datatype Report = Report(restored: int, skipped: int, checksumFailures: int, renamed: int, bytes: int,
                           errors: seq<string>)

  const EMPTY_REPORT := Report(0, 0, 0, 0, 0, [])

  /** The target directory, the report so far and the number of reads made. */
  datatype Progress = Progress(tree: map<string, Bytes>, report: Report, tick: int)

  // ---------------------------------------------------------------- conflicts

  /** The first alternative from `counter` to 1000 that does not exist. */
  function FreeName(g: Engine, tree: map<string, Bytes>, path: string, counter: int): Option<string>
    decreases 1001 - counter
  {
    if counter > 1000 then None
    else if g.renamed(path, counter) !in tree then Some(g.renamed(path, counter))
    else FreeName(g, tree, path, counter + 1)
  }

  function Resolved(g: Engine, tree: map<string, Bytes>, path: string, conflict: Conflict): Option<string> {
    if path !in tree then Some(path)
    else
      match conflict
      case Skip => None
      case Overwrite => Some(path)
      case Rename => FreeName(g, tree, path, 1)
      case Fail => None
  }

  method ResolveConflict(g: Engine, target: Folder, path: string, conflict: Conflict) returns (r: Option<string>)
    ensures r == Resolved(g, target.tree, path, conflict)
  {
    if path !in target.tree {
      return Some(path);
    }
    match conflict
    case Skip => return None;
    case Overwrite => return Some(path);
    case Fail => return None;
    case Rename =>
      var counter := 1;
      while true
        invariant 1 <= counter <= 1000
        invariant FreeName(g, target.tree, path, 1) == FreeName(g, target.tree, path, counter)
        decreases 1000 - counter
      {
        var name := g.renamed(path, counter);
        if name !in target.tree {
          return Some(name);
        }
        counter := counter + 1;
        if counter > 1000 {
          return None;
        }
      }
  }

  lemma {:induction false} FreeNameIsFree(g: Engine, tree: map<string, Bytes>, path: string, counter: int)
    ensures FreeName(g, tree, path, counter).Some? ==> FreeName(g, tree, path, counter).value !in tree
    decreases 1001 - counter
  {
    if counter <= 1000 {
      FreeNameIsFree(g, tree, path, counter + 1);
    }
  }

  // ---------------------------------------------------------------- restoring

  function Errored(r: Report, path: string): Report {
    r.(errors := r.errors + [path])
  }

  /** The outcome for one file; None for an error. The report has the skipped, renamed and
      mismatching files; what was restored is counted by `restore`. */
  datatype Attempt = Attempt(tree: map<string, Bytes>, report: Report, tick: int, bytes: Option<int>)

  /** `restore_file`. */
  function FileRestored(g: Engine, o: Options, plan: Plan, files: Files, snapshot: string, e: FileEntry,
                        p: Progress): Attempt
  {
    var place := Resolved(g, p.tree, e.path, o.conflict);
    if place.None? then Attempt(p.tree, p.report.(skipped := p.report.skipped + 1), p.tick, None)
    else
      var raw := Found(plan(p.tick), files, Key(snapshot, e.path));
      var data := if raw.None? then None else g.decode(raw.value);
      if data.None? then Attempt(p.tree, p.report, p.tick + 1, None)
      else if o.verify && g.sha(data.value) != e.checksum then
        Attempt(p.tree, p.report.(checksumFailures := p.report.checksumFailures + 1), p.tick + 1, None)
      else
        Attempt(p.tree[place.value := data.value],
                p.report.(renamed := p.report.renamed + (if place.value != e.path then 1 else 0)),
                p.tick + 1, Some(|data.value|))
  }

  /** How `restore` notes the outcome. */
  function Noted(r: Report, path: string, bytes: Option<int>): Report {
    if bytes.None? then Errored(r, path)
    else r.(restored := r.restored + 1, bytes := r.bytes + bytes.value)
  }

  /** One entry, as `restore` treats it. */
  function EntryRestored(g: Engine, o: Options, plan: Plan, files: Files, snapshot: string, e: FileEntry,
                         p: Progress): Progress
  {
    if o.filter != [] && e.path !in o.filter then p.(report := p.report.(skipped := p.report.skipped + 1))
    else
      var a := FileRestored(g, o, plan, files, snapshot, e, p);
      Progress(a.tree, Noted(a.report, e.path, a.bytes), a.tick)
  }

  function AllRestored(g: Engine, o: Options, plan: Plan, files: Files, snapshot: string, entries: seq<FileEntry>,
                       p: Progress): Progress
    decreases |entries|
  {
    if entries == [] then p
    else
      var n := |entries| - 1;
      EntryRestored(g, o, plan, files, snapshot, entries[n], AllRestored(g, o, plan, files, snapshot, entries[..n], p))
  }

  method RestoreFile(env: Env, g: Engine, o: Options, storage: Vault, snapshot: string, e: FileEntry,
                     target: Folder, report: Report)
    returns (after: Report, bytes: Option<int>)
    modifies env`tick, target
    ensures Attempt(target.tree, after, env.tick, bytes)
         == FileRestored(g, o, env.plan, storage.files, snapshot, e, old(Progress(target.tree, report, env.tick)))
  {
    after := report;
    var place := ResolveConflict(g, target, e.path, o.conflict);
    if place.None? {
      after := after.(skipped := after.skipped + 1);
      return after, None;
    }
    var raw := storage.RetrieveFile(env, snapshot, e.path);
    if raw.None? {
      return after, None;
    }
    var data := g.decode(raw.value);
    if data.None? {
      return after, None;
    }
    if o.verify && g.sha(data.value) != e.checksum {
      after := after.(checksumFailures := after.checksumFailures + 1);
      return after, None;
    }
    target.tree := target.tree[place.value := data.value];
    if place.value != e.path {
      after := after.(renamed := after.renamed + 1);
    }
    return after, Some(|data.value|);
  }

  method RestoreSnapshot(env: Env, g: Engine, o: Options, storage: Vault, snap: Snapshot, target: Folder)
    returns (report: Report)
    modifies env`tick, target
    ensures Progress(target.tree, report, env.tick)
         == AllRestored(g, o, env.plan, storage.files, snap.id, snap.entries,
                        old(Progress(target.tree, EMPTY_REPORT, env.tick)))
  {
    report := EMPTY_REPORT;
    ghost var files, plan, start := storage.files, env.plan, Progress(target.tree, EMPTY_REPORT, env.tick);
    var i := 0;
    while i < |snap.entries|
      invariant 0 <= i <= |snap.entries|
      invariant Progress(target.tree, report, env.tick)
             == AllRestored(g, o, plan, files, snap.id, snap.entries[..i], start)
    {
      assert snap.entries[..i + 1][..i] == snap.entries[..i];
      report := RestoreEntry(env, g, o, storage, snap.id, snap.entries[i], target, report);
      i := i + 1;
    }
    assert snap.entries[..i] == snap.entries;
  }

  /** One turn of the loop of `restore`. */
  method RestoreEntry(env: Env, g: Engine, o: Options, storage: Vault, snapshot: string, e: FileEntry,
                      target: Folder, report: Report)
    returns (after: Report)
    modifies env`tick, target
    ensures Progress(target.tree, after, env.tick)
         == EntryRestored(g, o, env.plan, storage.files, snapshot, e, old(Progress(target.tree, report, env.tick)))
  {
    if o.filter != [] && e.path !in o.filter {
      return report.(skipped := report.skipped + 1);
    }
    var bytes;
    after, bytes := RestoreFile(env, g, o, storage, snapshot, e, target, report);
    if bytes.Some? {
      after := after.(restored := after.restored + 1, bytes := after.bytes + bytes.value);
    } else {
      after := Errored(after, e.path);
    }
  }

  // ---------------------------------------------------------------- what restoring does

  /** Unless told to overwrite, a restore changes no file that exists, whatever fails. */
  lemma {:induction false} KeepsExisting(g: Engine, o: Options, plan: Plan, files: Files, snapshot: string,
                                         entries: seq<FileEntry>, p: Progress, path: string)
    requires o.conflict != Overwrite && path in p.tree
    ensures var r := AllRestored(g, o, plan, files, snapshot, entries, p);
      path in r.tree && r.tree[path] == p.tree[path]
    decreases |entries|
  {
    if entries != [] {
      var n := |entries| - 1;
      KeepsExisting(g, o, plan, files, snapshot, entries[..n], p, path);
      FreeNameIsFree(g, AllRestored(g, o, plan, files, snapshot, entries[..n], p).tree, entries[n].path, 1);
    }
  }

  /** `place` is where `path` may be restored to: there, or at one of its alternatives. */
  ghost predicate PlaceOf(g: Engine, o: Options, path: string, place: string) {
    place == path || (o.conflict == Rename && exists n :: 1 <= n <= 1000 && place == g.renamed(path, n))
  }

  lemma ResolvedIsPlace(g: Engine, o: Options, tree: map<string, Bytes>, path: string)
    ensures var r := Resolved(g, tree, path, o.conflict); r.Some? ==> PlaceOf(g, o, path, r.value)
  {
    FreeNameIsAlternative(g, tree, path, 1);
  }

  lemma {:induction false} FreeNameIsAlternative(g: Engine, tree: map<string, Bytes>, path: string, counter: int)
    requires 1 <= counter
    ensures var r := FreeName(g, tree, path, counter);
      r.Some? ==> exists n :: 1 <= n <= 1000 && r.value == g.renamed(path, n)
    decreases 1001 - counter
  {
    if counter <= 1000 && g.renamed(path, counter) in tree {
      FreeNameIsAlternative(g, tree, path, counter + 1);
    }
  }

  /** With verification on, whatever fails, a file that was written has the checksum of an
      entry that belongs at its place; every other file is as it was. */
  lemma {:induction false} WritesVerified(g: Engine, o: Options, plan: Plan, files: Files, snapshot: string,
                                          entries: seq<FileEntry>, p: Progress, path: string)
    requires o.verify
    ensures var r := AllRestored(g, o, plan, files, snapshot, entries, p).tree;
      || ((path in r <==> path in p.tree) && (path in r ==> r[path] == p.tree[path]))
      || (path in r && exists e :: e in entries && g.sha(r[path]) == e.checksum && PlaceOf(g, o, e.path, path))
    decreases |entries|
  {
    if entries != [] {
      var n := |entries| - 1;
      WritesVerified(g, o, plan, files, snapshot, entries[..n], p, path);
      var q := AllRestored(g, o, plan, files, snapshot, entries[..n], p);
      ResolvedIsPlace(g, o, q.tree, entries[n].path);
      assert entries[n] in entries && forall e :: e in entries[..n] ==> e in entries;
    }
  }

  /** Every entry is restored, filtered out or reported as an error; without a filter the
      first and the last are all there is. */
  lemma {:induction false} EntriesAccountedFor(g: Engine, o: Options, plan: Plan, files: Files, snapshot: string,
                                               entries: seq<FileEntry>, tree: map<string, Bytes>, tick: int)
    ensures var r := AllRestored(g, o, plan, files, snapshot, entries, Progress(tree, EMPTY_REPORT, tick)).report;
      && 0 <= r.restored && |r.errors| <= |entries| - r.restored <= |r.errors| + r.skipped
      && (o.filter == [] ==> r.restored + |r.errors| == |entries|)
      && r.checksumFailures <= |r.errors| && 0 <= r.renamed <= r.restored
      && (o.conflict != Rename ==> r.renamed == 0)
    decreases |entries|
  {
    if entries != [] {
      EntriesAccountedFor(g, o, plan, files, snapshot, entries[..|entries| - 1], tree, tick);
    }
  }

  /** The stored bytes of every entry have its checksum, and decoding leaves them alone. */
  predicate Intact(g: Engine, files: Files, snapshot: string, entries: seq<FileEntry>) {
    forall e :: e in entries ==> IntactAt(g, files, Key(snapshot, e.path), e.checksum)
  }

  predicate IntactAt(g: Engine, files: Files, k: Key, checksum: string) {
    k in files && g.decode(files[k]) == Some(files[k]) && g.sha(files[k]) == checksum
  }

  /** Overwriting, a restore of intact, unencrypted files writes the snapshot over the
      target: this is one step of a chain replay. */
  lemma {:induction false} OverwritesWithSnapshot(g: Engine, o: Options, plan: Plan, files: Files, snapshot: string,
                                                  entries: seq<FileEntry>, p: Progress)
    requires Reliable(plan) && o.conflict == Overwrite && o.filter == [] && Intact(g, files, snapshot, entries)
    ensures var r := AllRestored(g, o, plan, files, snapshot, entries, p);
      r.tree == p.tree + SnapshotData(files, snapshot, entries) && r.report.errors == p.report.errors
    decreases |entries|
  {
    if entries == [] {
      assert p.tree + SnapshotData(files, snapshot, entries) == p.tree;
    } else {
      var n := |entries| - 1;
      var front := AllRestored(g, o, plan, files, snapshot, entries[..n], p);
      assert entries[n] in entries;
      OverwritesWithSnapshot(g, o, plan, files, snapshot, entries[..n], p);
      EntryOverwrites(g, o, plan, files, snapshot, entries[n], front);
      OneMoreEntry(files, snapshot, entries, p.tree);
    }
  }

  lemma EntryOverwrites(g: Engine, o: Options, plan: Plan, files: Files, snapshot: string, e: FileEntry, p: Progress)
    requires Reliable(plan) && o.conflict == Overwrite && o.filter == []
    requires IntactAt(g, files, Key(snapshot, e.path), e.checksum)
    ensures var r := EntryRestored(g, o, plan, files, snapshot, e, p);
      r.tree == p.tree[e.path := files[Key(snapshot, e.path)]] && r.report.errors == p.report.errors
  {
    assert plan(p.tick).Fine?;
  }

  lemma OneMoreEntry(files: Files, snapshot: string, entries: seq<FileEntry>, base: map<string, Bytes>)
    requires entries != [] && Key(snapshot, entries[|entries| - 1].path) in files
    ensures var n := |entries| - 1;
      var path := entries[n].path;
      base + SnapshotData(files, snapshot, entries)
        == (base + SnapshotData(files, snapshot, entries[..n]))[path := files[Key(snapshot, path)]]
  {}
}
