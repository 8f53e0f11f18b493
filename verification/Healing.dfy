/** Integrity scans and repair from other backends (crates/openvault-core/src/healing.rs). */
module Healing {
  import opened Common
  import opened Storage

  // ---------------------------------------------------------------- scanning

  datatype Check = Check(path: string, healthy: bool, expected: string, actual: Option<string>)

  datatype Tally = Tally(healthy: int, corrupt: int, missing: int)

  /** `ScanResult`; `files_scanned` is the number of checks. */
  datatype Scan = Scan(snapshot: string, tally: Tally, checks: seq<Check>)

  predicate AllHealthy(scan: Scan) {
    scan.tally.corrupt == 0 && scan.tally.missing == 0
  }

  function CheckOf(sha: Digest, got: Option<Bytes>, e: FileEntry): Check {
    match got
    case None => Check(e.path, false, e.checksum, None)
    case Some(data) => Check(e.path, sha(data) == e.checksum, e.checksum, Some(sha(data)))
  }

  /** The checks of `entries`, the first one made at `tick`. */
  function Checks(sha: Digest, plan: Plan, tick: int, files: Files, snapshot: string,
                  entries: seq<FileEntry>): seq<Check>
    decreases |entries|
  {
    if entries == [] then []
    else
      var e := entries[0];
      [CheckOf(sha, Found(plan(tick), files, Key(snapshot, e.path)), e)]
      + Checks(sha, plan, tick + 1, files, snapshot, entries[1..])
  }

  function Counted(c: Check, t: Tally): Tally {
    if c.healthy then t.(healthy := t.healthy + 1)
    else if c.actual.Some? then t.(corrupt := t.corrupt + 1)
    else t.(missing := t.missing + 1)
  }

  function TallyOf(checks: seq<Check>): Tally {
    if checks == [] then Tally(0, 0, 0) else Counted(checks[0], TallyOf(checks[1..]))
  }

  function ScanOf(sha: Digest, plan: Plan, tick: int, files: Files, snap: Snapshot): Scan {
    var checks := Checks(sha, plan, tick, files, snap.id, snap.entries);
    Scan(snap.id, TallyOf(checks), checks)
  }

  method ScanSnapshot(env: Env, sha: Digest, storage: Vault, snap: Snapshot) returns (scan: Scan)
    modifies env`tick
    ensures env.tick == old(env.tick) + |snap.entries|
    ensures scan == ScanOf(sha, env.plan, old(env.tick), storage.files, snap)
  {
    var tally, checks := Tally(0, 0, 0), [];
    var i := 0;
    ghost var plan, files := env.plan, storage.files;
    ghost var goal := Checks(sha, plan, env.tick, files, snap.id, snap.entries);
    while i < |snap.entries|
      invariant 0 <= i <= |snap.entries| && env.tick == old(env.tick) + i
      invariant goal == checks + Checks(sha, plan, env.tick, files, snap.id, snap.entries[i..])
      invariant tally == TallyOf(checks)
    {
      var e := snap.entries[i];
      ChecksStep(sha, plan, env.tick, files, snap.id, snap.entries, i);
      ghost var rest := Checks(sha, plan, env.tick + 1, files, snap.id, snap.entries[i + 1..]);
      var got := storage.RetrieveFile(env, snap.id, e.path);
      var check := CheckOf(sha, got, e);
      TallySnoc(checks, check);
      Reassociate(checks, check, rest);
      tally := Counted(check, tally);
      checks := checks + [check];
      i := i + 1;
    }
    assert snap.entries[i..] == [] && checks + [] == checks;
    return Scan(snap.id, tally, checks);
  }

  lemma ChecksStep(sha: Digest, plan: Plan, tick: int, files: Files, snapshot: string, entries: seq<FileEntry>, i: int)
    requires 0 <= i < |entries|
    ensures Checks(sha, plan, tick, files, snapshot, entries[i..])
         == [CheckOf(sha, Found(plan(tick), files, Key(snapshot, entries[i].path)), entries[i])]
            + Checks(sha, plan, tick + 1, files, snapshot, entries[i + 1..])
  {
    assert entries[i..][0] == entries[i] && entries[i..][1..] == entries[i + 1..];
  }

  lemma {:induction false} TallySnoc(checks: seq<Check>, c: Check)
    ensures TallyOf(checks + [c]) == Counted(c, TallyOf(checks))
  {
    if checks == [] {
      assert [c][1..] == [];
    } else {
      assert (checks + [c])[1..] == checks[1..] + [c];
      TallySnoc(checks[1..], c);
    }
  }

  lemma {:induction false} TallyMeaning(checks: seq<Check>)
    ensures var t := TallyOf(checks);
      && t.healthy >= 0 && t.corrupt >= 0 && t.missing >= 0
      && t.healthy + t.corrupt + t.missing == |checks|
      && (t.corrupt == 0 && t.missing == 0 <==> forall c :: c in checks ==> c.healthy)
      && (t.missing == 0 <==> forall c :: c in checks ==> c.healthy || c.actual.Some?)
      && (t.corrupt == 0 <==> forall c :: c in checks ==> c.healthy || c.actual.None?)
  {
    if checks != [] {
      TallyMeaning(checks[1..]);
      assert forall c :: c in checks <==> c == checks[0] || c in checks[1..];
    }
  }

  lemma {:induction false} ChecksAt(sha: Digest, plan: Plan, tick: int, files: Files, snapshot: string,
                                    entries: seq<FileEntry>, i: int)
    requires 0 <= i < |entries|
    ensures var checks := Checks(sha, plan, tick, files, snapshot, entries);
      |checks| == |entries|
      && checks[i] == CheckOf(sha, Found(plan(tick + i), files, Key(snapshot, entries[i].path)), entries[i])
    decreases |entries|
  {
    if i > 0 {
      ChecksAt(sha, plan, tick + 1, files, snapshot, entries[1..], i - 1);
    } else if |entries| > 1 {
      ChecksAt(sha, plan, tick + 1, files, snapshot, entries[1..], 0);
    }
  }

  /** What the checks of a snapshot say, one for each entry in order, when reads work: whose
      they are, which checksum was found, if any, and whether it was the one expected. */
  ghost predicate ChecksSay(sha: Digest, files: Files, snap: Snapshot, checks: seq<Check>) {
    && |checks| == |snap.entries|
    && forall i :: 0 <= i < |checks| ==>
         && checks[i].path == snap.entries[i].path && checks[i].expected == snap.entries[i].checksum
         && checks[i].healthy == HealthyAt(sha, files, snap.id, snap.entries[i])
         && checks[i].actual.Some? == (Key(snap.id, snap.entries[i].path) in files)
         && (checks[i].actual.Some? ==> checks[i].actual.value == sha(files[Key(snap.id, snap.entries[i].path)]))
  }

  lemma ReliableChecks(sha: Digest, plan: Plan, tick: int, files: Files, snap: Snapshot)
    requires Reliable(plan)
    ensures ChecksSay(sha, files, snap, Checks(sha, plan, tick, files, snap.id, snap.entries))
  {
    ChecksLength(sha, plan, tick, files, snap.id, snap.entries);
    forall i | 0 <= i < |snap.entries|
      ensures Checks(sha, plan, tick, files, snap.id, snap.entries)[i]
           == CheckOf(sha, Found(plan(tick + i), files, Key(snap.id, snap.entries[i].path)), snap.entries[i])
    {
      ChecksAt(sha, plan, tick, files, snap.id, snap.entries, i);
    }
  }

  /** With reads that may fail, a check that finds an entry healthy is right. */
  lemma HealthyChecksRight(sha: Digest, plan: Plan, tick: int, files: Files, snap: Snapshot)
    ensures var checks := Checks(sha, plan, tick, files, snap.id, snap.entries);
      && |checks| == |snap.entries|
      && forall i :: 0 <= i < |checks| && checks[i].healthy ==> HealthyAt(sha, files, snap.id, snap.entries[i])
  {
    ChecksLength(sha, plan, tick, files, snap.id, snap.entries);
    forall i | 0 <= i < |snap.entries|
      ensures Checks(sha, plan, tick, files, snap.id, snap.entries)[i]
           == CheckOf(sha, Found(plan(tick + i), files, Key(snap.id, snap.entries[i].path)), snap.entries[i])
    {
      ChecksAt(sha, plan, tick, files, snap.id, snap.entries, i);
    }
  }

  /** With reliable reads a scan finds the snapshot healthy exactly when it is; with reads
      that may fail it never finds a damaged one healthy. */
  lemma ScanIsRight(sha: Digest, plan: Plan, tick: int, files: Files, snap: Snapshot)
    ensures AllHealthy(ScanOf(sha, plan, tick, files, snap)) ==> AllIntact(sha, files, snap)
    ensures Reliable(plan) && AllIntact(sha, files, snap) ==> AllHealthy(ScanOf(sha, plan, tick, files, snap))
  {
    var checks := Checks(sha, plan, tick, files, snap.id, snap.entries);
    TallyMeaning(checks);
    HealthyChecksRight(sha, plan, tick, files, snap);
    if AllHealthy(ScanOf(sha, plan, tick, files, snap)) {
      forall i | 0 <= i < |snap.entries| ensures HealthyAt(sha, files, snap.id, snap.entries[i]) {
        assert checks[i] in checks;
      }
    }
    if Reliable(plan) && AllIntact(sha, files, snap) {
      ReliableChecks(sha, plan, tick, files, snap);
      forall c | c in checks ensures c.healthy {
        var i :| 0 <= i < |checks| && checks[i] == c;
        assert snap.entries[i] in snap.entries;
      }
    }
  }

  lemma {:induction false} ChecksLength(sha: Digest, plan: Plan, tick: int, files: Files, snapshot: string,
                                        entries: seq<FileEntry>)
    ensures |Checks(sha, plan, tick, files, snapshot, entries)| == |entries|
    decreases |entries|
  {
    if entries != [] {
      ChecksLength(sha, plan, tick + 1, files, snapshot, entries[1..]);
    }
  }

  /** With reliable reads, a scan tells files that are not there from files with other
      content: it counts none missing, or none corrupt, exactly when there is none. */
  lemma ScanTells(sha: Digest, plan: Plan, tick: int, files: Files, snap: Snapshot)
    requires Reliable(plan)
    ensures var t := ScanOf(sha, plan, tick, files, snap).tally;
      && (t.missing == 0 <==> forall e :: e in snap.entries ==> Key(snap.id, e.path) in files)
      && (t.corrupt == 0 <==> forall e :: e in snap.entries && Key(snap.id, e.path) in files ==>
            HealthyAt(sha, files, snap.id, e))
  {
    var checks := Checks(sha, plan, tick, files, snap.id, snap.entries);
    TallyMeaning(checks);
    ReliableChecks(sha, plan, tick, files, snap);
    NoneMissing(sha, files, snap, checks);
    NoneCorrupt(sha, files, snap, checks);
  }

  lemma NoneMissing(sha: Digest, files: Files, snap: Snapshot, checks: seq<Check>)
    requires ChecksSay(sha, files, snap, checks)
    ensures (forall c :: c in checks ==> c.healthy || c.actual.Some?)
      <==> (forall e :: e in snap.entries ==> Key(snap.id, e.path) in files)
  {
    if forall c :: c in checks ==> c.healthy || c.actual.Some? {
      forall i | 0 <= i < |checks| ensures Key(snap.id, snap.entries[i].path) in files {
        assert checks[i] in checks;
      }
    }
    if forall e :: e in snap.entries ==> Key(snap.id, e.path) in files {
      forall i | 0 <= i < |checks| ensures checks[i].actual.Some? {
        assert snap.entries[i] in snap.entries;
      }
    }
  }

  lemma NoneCorrupt(sha: Digest, files: Files, snap: Snapshot, checks: seq<Check>)
    requires ChecksSay(sha, files, snap, checks)
    ensures (forall c :: c in checks ==> c.healthy || c.actual.None?)
      <==> (forall e :: e in snap.entries && Key(snap.id, e.path) in files ==> HealthyAt(sha, files, snap.id, e))
  {
    if forall c :: c in checks ==> c.healthy || c.actual.None? {
      forall i | 0 <= i < |checks| && Key(snap.id, snap.entries[i].path) in files
        ensures HealthyAt(sha, files, snap.id, snap.entries[i])
      {
        assert checks[i] in checks;
      }
    }
    if forall e :: e in snap.entries && Key(snap.id, e.path) in files ==> HealthyAt(sha, files, snap.id, e) {
      forall i | 0 <= i < |checks| ensures checks[i].healthy || checks[i].actual.None? {
        assert snap.entries[i] in snap.entries;
      }
    }
  }

  // ---------------------------------------------------------------- healing

  /** `max_heals_per_run` (0 for no limit) and `verify_after_heal`. */
  datatype Config = Config(maxHeals: int, verifyAfter: bool)

  const DEFAULT_CONFIG := Config(0, true)

  /** A file that was to be healed, and whether it was. */
  datatype FileResult = Healed(path: string) | Failed(path: string)

  datatype Job = Job(files: Files, tick: int, healed: int, failed: int, results: seq<FileResult>)

  /** An attempt to repair one file: the target's files afterwards, and its success. */
  datatype Attempt = Attempt(files: Files, tick: int, ok: bool)

  /** Reads the file from one source, checks it, writes it and, if so configured, reads it back. */
  function Offer(sha: Digest, plan: Plan, cfg: Config, src: Files, snapshot: string, c: Check,
                 files: Files, tick: int): Attempt
  {
    var k := Key(snapshot, c.path);
    var got := Found(plan(tick), src, k);
    if got.None? || sha(got.value) != c.expected then Attempt(files, tick + 1, false)
    else
      var now := Written(plan(tick + 1), files, k, got.value);
      if !Accepted(plan(tick + 1)) then Attempt(now, tick + 2, false)
      else if !cfg.verifyAfter then Attempt(now, tick + 2, true)
      else
        var read := Found(plan(tick + 2), now, k);
        Attempt(now, tick + 3, read.Some? && sha(read.value) == c.expected)
  }

  function Logged(j: Job, c: Check, a: Attempt): Job {
    if a.ok then Job(a.files, a.tick, j.healed + 1, j.failed, j.results + [Healed(c.path)])
    else Job(a.files, a.tick, j.healed, j.failed + 1, j.results + [Failed(c.path)])
  }

  predicate CapReached(cfg: Config, j: Job) {
    cfg.maxHeals > 0 && j.healed >= cfg.maxHeals
  }

  /** `heal` over the checks of a scan. */
  function HealAll(sha: Digest, plan: Plan, cfg: Config, src: Files, snapshot: string, checks: seq<Check>, j: Job): Job
    decreases |checks|
  {
    if checks == [] then j
    else if checks[0].healthy then HealAll(sha, plan, cfg, src, snapshot, checks[1..], j)
    else if CapReached(cfg, j) then j
    else
      var a := Offer(sha, plan, cfg, src, snapshot, checks[0], j.files, j.tick);
      HealAll(sha, plan, cfg, src, snapshot, checks[1..], Logged(j, checks[0], a))
  }

  /** The result of `heal` on a target holding `files`. */
  function HealResult(sha: Digest, plan: Plan, cfg: Config, src: Files, snap: Snapshot, files: Files, tick: int): Job {
    var scan := ScanOf(sha, plan, tick, files, snap);
    var j := Job(files, tick + |snap.entries|, 0, 0, []);
    if AllHealthy(scan) then j else HealAll(sha, plan, cfg, src, snap.id, scan.checks, j)
  }

  /** One attempt, as `heal` and `heal_from_sources` both make it. */
  method MakeOffer(env: Env, sha: Digest, target: Vault, source: Vault, snapshot: string, cfg: Config, c: Check)
    returns (ok: bool)
    requires target != source
    modifies target`files, env`tick
    ensures Attempt(target.files, env.tick, ok)
         == Offer(sha, env.plan, cfg, source.files, snapshot, c, old(target.files), old(env.tick))
  {
    var data := source.RetrieveFile(env, snapshot, c.path);
    if data.None? || sha(data.value) != c.expected {
      return false;
    }
    ok := target.StoreFile(env, snapshot, c.path, data.value);
    if ok && cfg.verifyAfter {
      var recovered := target.RetrieveFile(env, snapshot, c.path);
      ok := recovered.Some? && sha(recovered.value) == c.expected;
    }
  }

  method Heal(env: Env, sha: Digest, target: Vault, source: Vault, snap: Snapshot, cfg: Config)
    returns (healed: int, failed: int, results: seq<FileResult>)
    requires target != source
    modifies target`files, env`tick
    ensures Job(target.files, env.tick, healed, failed, results)
         == HealResult(sha, env.plan, cfg, source.files, snap, old(target.files), old(env.tick))
  {
    var scan := ScanSnapshot(env, sha, target, snap);
    healed, failed, results := 0, 0, [];
    if AllHealthy(scan) {
      return;
    }
    ghost var plan, src, checks := env.plan, source.files, scan.checks;
    ghost var job := Job(target.files, env.tick, 0, 0, []);
    ghost var goal := HealAll(sha, plan, cfg, src, snap.id, checks, job);
    var i := 0;
    while i < |scan.checks|
      invariant 0 <= i <= |scan.checks|
      invariant job == Job(target.files, env.tick, healed, failed, results)
      invariant goal == HealAll(sha, plan, cfg, src, snap.id, checks[i..], job)
    {
      var c := scan.checks[i];
      assert checks[i..][0] == c && checks[i..][1..] == checks[i + 1..];
      if !c.healthy {
        if cfg.maxHeals > 0 && healed >= cfg.maxHeals {
          return;
        }
        ghost var a := Offer(sha, plan, cfg, src, snap.id, c, target.files, env.tick);
        var ok := MakeOffer(env, sha, target, source, snap.id, cfg, c);
        job := Logged(job, c, a);
        if ok {
          healed, results := healed + 1, results + [Healed(c.path)];
        } else {
          failed, results := failed + 1, results + [Failed(c.path)];
        }
      }
      i := i + 1;
    }
  }

  // ---------------------------------------------------------------- several sources

  /** The sources in turn, until one succeeds. */
  function OfferAll(sha: Digest, plan: Plan, cfg: Config, srcs: seq<Files>, snapshot: string, c: Check,
                    files: Files, tick: int): Attempt
    decreases |srcs|
  {
    if srcs == [] then Attempt(files, tick, false)
    else
      var a := Offer(sha, plan, cfg, srcs[0], snapshot, c, files, tick);
      if a.ok then a else OfferAll(sha, plan, cfg, srcs[1..], snapshot, c, a.files, a.tick)
  }

  /** `heal_from_sources` over the checks of a scan. */
  function HealAllFrom(sha: Digest, plan: Plan, cfg: Config, srcs: seq<Files>, snapshot: string, checks: seq<Check>,
                       j: Job): Job
    decreases |checks|
  {
    if checks == [] then j
    else if checks[0].healthy then HealAllFrom(sha, plan, cfg, srcs, snapshot, checks[1..], j)
    else if CapReached(cfg, j) then j
    else
      var a := OfferAll(sha, plan, cfg, srcs, snapshot, checks[0], j.files, j.tick);
      HealAllFrom(sha, plan, cfg, srcs, snapshot, checks[1..], Logged(j, checks[0], a))
  }

  function HealFromResult(sha: Digest, plan: Plan, cfg: Config, srcs: seq<Files>, snap: Snapshot, files: Files,
                          tick: int): Job
  {
    var scan := ScanOf(sha, plan, tick, files, snap);
    var j := Job(files, tick + |snap.entries|, 0, 0, []);
    if AllHealthy(scan) then j else HealAllFrom(sha, plan, cfg, srcs, snap.id, scan.checks, j)
  }

  ghost function FilesOf(vaults: seq<Vault>): (r: seq<Files>)
    reads vaults
    ensures |r| == |vaults|
  {
    if vaults == [] then [] else [vaults[0].files] + FilesOf(vaults[1..])
  }

  lemma {:induction false} FilesOfAt(vaults: seq<Vault>, i: int)
    requires 0 <= i < |vaults|
    ensures FilesOf(vaults)[i] == vaults[i].files
  {
    if i > 0 {
      FilesOfAt(vaults[1..], i - 1);
    }
  }

  method TrySources(env: Env, sha: Digest, target: Vault, sources: seq<Vault>, snapshot: string, cfg: Config, c: Check)
    returns (healed: bool)
    requires target !in sources
    modifies target`files, env`tick
    ensures FilesOf(sources) == old(FilesOf(sources))
    ensures Attempt(target.files, env.tick, healed)
         == OfferAll(sha, env.plan, cfg, FilesOf(sources), snapshot, c, old(target.files), old(env.tick))
  {
    ghost var plan, srcs := env.plan, FilesOf(sources);
    ghost var goal := OfferAll(sha, plan, cfg, srcs, snapshot, c, target.files, env.tick);
    var i := 0;
    while i < |sources|
      invariant 0 <= i <= |sources| == |srcs| && FilesOf(sources) == srcs
      invariant goal == OfferAll(sha, plan, cfg, srcs[i..], snapshot, c, target.files, env.tick)
    {
      FilesOfAt(sources, i);
      assert srcs[i..][0] == sources[i].files && srcs[i..][1..] == srcs[i + 1..];
      var ok := MakeOffer(env, sha, target, sources[i], snapshot, cfg, c);
      if ok {
        return true;
      }
      i := i + 1;
    }
    return false;
  }

  method HealFromSources(env: Env, sha: Digest, target: Vault, sources: seq<Vault>, snap: Snapshot, cfg: Config)
    returns (healed: int, failed: int, results: seq<FileResult>)
    requires target !in sources
    modifies target`files, env`tick
    ensures FilesOf(sources) == old(FilesOf(sources))
    ensures Job(target.files, env.tick, healed, failed, results)
         == HealFromResult(sha, env.plan, cfg, FilesOf(sources), snap, old(target.files), old(env.tick))
  {
    ghost var plan, srcs := env.plan, FilesOf(sources);
    var scan := ScanSnapshot(env, sha, target, snap);
    healed, failed, results := 0, 0, [];
    if AllHealthy(scan) {
      return;
    }
    ghost var checks := scan.checks;
    ghost var job := Job(target.files, env.tick, 0, 0, []);
    ghost var goal := HealAllFrom(sha, plan, cfg, srcs, snap.id, checks, job);
    var i := 0;
    while i < |scan.checks|
      invariant 0 <= i <= |scan.checks| && FilesOf(sources) == srcs
      invariant job == Job(target.files, env.tick, healed, failed, results)
      invariant goal == HealAllFrom(sha, plan, cfg, srcs, snap.id, checks[i..], job)
    {
      var c := scan.checks[i];
      assert checks[i..][0] == c && checks[i..][1..] == checks[i + 1..];
      if !c.healthy {
        if cfg.maxHeals > 0 && healed >= cfg.maxHeals {
          return;
        }
        ghost var a := OfferAll(sha, plan, cfg, srcs, snap.id, c, target.files, env.tick);
        var ok := TrySources(env, sha, target, sources, snap.id, cfg, c);
        job := Logged(job, c, a);
        if ok {
          healed, results := healed + 1, results + [Healed(c.path)];
        } else {
          failed, results := failed + 1, results + [Failed(c.path)];
        }
      }
      i := i + 1;
    }
  }
}
