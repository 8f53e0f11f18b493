/** Restoring a chain with the restore engine: what docs/backup-strategies.md has users do
    for incremental and differential backups. */
module ChainRestore {
  import opened Common
  import opened Storage
  import opened SnapshotChain
  import opened SnapshotRuns
  import R = Restore

  /** The target after the engine restored the chain of `s` into it, oldest snapshot first. */
  ghost function EngineReplay(g: R.Engine, o: R.Options, plan: Plan, w: World, s: Snapshot): Option<map<string, Bytes>>
    requires Ends(w.dir, s)
    decreases Length(w.dir, s)
  {
    if s.parent.None? then Some(EngineRestored(g, o, plan, w.files, s, map[]))
    else
      var p := Lookup(w.dir, s.parent.value);
      if p.None? then None
      else
        ParentEnds(w.dir, s);
        var before := EngineReplay(g, o, plan, w, p.value);
        if before.None? then None else Some(EngineRestored(g, o, plan, w.files, s, before.value))
  }

  /** The target after one restore of `s` into `before`. */
  function EngineRestored(g: R.Engine, o: R.Options, plan: Plan, files: Files, s: Snapshot, before: map<string,
                          Bytes>): map<string, Bytes>
  {
    R.AllRestored(g, o, plan, files, s.id, s.entries, R.Progress(before, R.EMPTY_REPORT, 0)).tree
  }

  lemma {:induction false} EngineReplays(g: R.Engine, o: R.Options, plan: Plan, w: World, hist: History, s: Snapshot)
    requires Invariant(w, hist) && RecordsIntact(g.sha, w) && s in w.dir
    requires Reliable(plan) && o.conflict == R.Overwrite && o.filter == []
    requires forall data :: g.decode(data) == Some(data)
    ensures EngineReplay(g, o, plan, w, s) == Replayed(w.dir, w.files, s)
    decreases s.createdAt
  {
    assert OnRecord(w, hist, s);
    ChainIsComplete(w, hist, s);
    forall e | e in s.entries ensures R.IntactAt(g, w.files, Key(s.id, e.path), e.checksum) {
      assert HealthyAt(g.sha, w.files, s.id, e);
    }
    var own := SnapshotData(w.files, s.id, s.entries);
    if s.parent.None? {
      R.OverwritesWithSnapshot(g, o, plan, w.files, s.id, s.entries, R.Progress(map[], R.EMPTY_REPORT, 0));
      assert map[] + own == own;
    } else {
      FoundInDirectory(w.dir, s.parent.value);
      var p := Lookup(w.dir, s.parent.value).value;
      EngineReplays(g, o, plan, w, hist, p);
      ChainIsComplete(w, hist, p);
      var before := Replayed(w.dir, w.files, p).value;
      R.OverwritesWithSnapshot(g, o, plan, w.files, s.id, s.entries, R.Progress(before, R.EMPTY_REPORT, 0));
    }
  }

  /** Over any run of backups whose content changes always raise modification times,
      restoring the chain of any recorded snapshot with the engine, checksums verified or
      not, brings back every file the source had then. */
  lemma EngineBringsBackSource(g: R.Engine, o: R.Options, plan: Plan, steps: seq<Step>, worlds: seq<World>, s: Snapshot)
    requires Run(g.sha, steps, worlds) && s in worlds[|steps|].dir
    requires Acyclic(worlds[|steps|].dir) && AlwaysRising(worlds[|steps|].dir, HistoryOf(steps))
    requires Reliable(plan) && o.conflict == R.Overwrite && o.filter == []
    requires forall data :: g.decode(data) == Some(data)
    ensures var tree := EngineReplay(g, o, plan, worlds[|steps|], s);
      s.id in HistoryOf(steps) && tree.Some? && HasTree(tree.value, HistoryOf(steps)[s.id])
  {
    RunKeepsInvariant(g.sha, steps, worlds);
    RunStaysIntact(g.sha, steps, worlds);
    EngineReplays(g, o, plan, worlds[|steps|], HistoryOf(steps), s);
    RunRestores(g.sha, steps, worlds, s);
  }
}
