/** What healing guarantees, whatever storage operations fail, and that it gets done
    (crates/openvault-core/src/healing.rs). */
module HealingTheorems {
  import opened Common
  import opened Storage
  import opened Healing

  // ---------------------------------------------------------------- one source is heal

  /** `heal_from_sources` with a single source does what `heal` does. */
  lemma {:induction false} SingleSource(sha: Digest, plan: Plan, cfg: Config, src: Files, snapshot: string,
                                        checks: seq<Check>, j: Job)
    ensures HealAllFrom(sha, plan, cfg, [src], snapshot, checks, j) == HealAll(sha, plan, cfg, src, snapshot, checks, j)
    decreases |checks|
  {
    if checks != [] {
      if checks[0].healthy {
        SingleSource(sha, plan, cfg, src, snapshot, checks[1..], j);
      } else if !CapReached(cfg, j) {
        var c := checks[0];
        assert [src][1..] == [];
        var a := Offer(sha, plan, cfg, src, snapshot, c, j.files, j.tick);
        assert OfferAll(sha, plan, cfg, [src], snapshot, c, j.files, j.tick) == a;
        SingleSource(sha, plan, cfg, src, snapshot, checks[1..], Logged(j, c, a));
      }
    }
  }

  lemma HealIsHealFromOne(sha: Digest, plan: Plan, cfg: Config, src: Files, snap: Snapshot, files: Files, tick: int)
    ensures HealFromResult(sha, plan, cfg, [src], snap, files, tick)
         == HealResult(sha, plan, cfg, src, snap, files, tick)
  {
    SingleSource(sha, plan, cfg, src, snap.id, ScanOf(sha, plan, tick, files, snap).checks,
                 Job(files, tick + |snap.entries|, 0, 0, []));
  }

  // ---------------------------------------------------------------- safety

  /** What an attempt may have left at its key: with whole writes, nothing new or bytes
      with the expected checksum. Nothing else is touched. */
  ghost predicate Careful(sha: Digest, plan: Plan, snapshot: string, c: Check, f: Files, f': Files) {
    var k := Key(snapshot, c.path);
    && (forall k' :: k' != k ==> SameAt(f, f', k'))
    && (Atomic(plan) ==> SameAt(f, f', k) || (k in f' && sha(f'[k]) == c.expected))
  }

  lemma OfferCareful(sha: Digest, plan: Plan, cfg: Config, src: Files, snapshot: string,
                     c: Check, files: Files, tick: int)
    ensures Careful(sha, plan, snapshot, c, files, Offer(sha, plan, cfg, src, snapshot, c, files, tick).files)
  {
    var o := plan(tick + 1);
    assert Atomic(plan) ==> o.Fine? || o.Refused?;
  }

  lemma {:induction false} OfferAllCareful(sha: Digest, plan: Plan, cfg: Config, srcs: seq<Files>, snapshot: string,
                                           c: Check, files: Files, tick: int)
    ensures Careful(sha, plan, snapshot, c, files, OfferAll(sha, plan, cfg, srcs, snapshot, c, files, tick).files)
    decreases |srcs|
  {
    if srcs != [] {
      var a := Offer(sha, plan, cfg, srcs[0], snapshot, c, files, tick);
      OfferCareful(sha, plan, cfg, srcs[0], snapshot, c, files, tick);
      if !a.ok {
        OfferAllCareful(sha, plan, cfg, srcs[1..], snapshot, c, a.files, a.tick);
        var f := OfferAll(sha, plan, cfg, srcs[1..], snapshot, c, a.files, a.tick).files;
        forall k | k != Key(snapshot, c.path) ensures SameAt(files, f, k) {
          assert SameAt(files, a.files, k) && SameAt(a.files, f, k);
        }
      }
    }
  }

  predicate Damaged(snapshot: string, checks: seq<Check>, k: Key) {
    exists c :: c in checks && !c.healthy && k == Key(snapshot, c.path)
  }

  /** `k` now has the checksum that a damaged file there was expected to have. */
  predicate Repaired(sha: Digest, snapshot: string, checks: seq<Check>, f: Files, k: Key) {
    exists c :: c in checks && !c.healthy && k == Key(snapshot, c.path) && k in f && sha(f[k]) == c.expected
  }

  ghost predicate TouchedRightly(sha: Digest, plan: Plan, snapshot: string, checks: seq<Check>, f: Files, f': Files,
                                 k: Key)
  {
    SameAt(f, f', k) || (Damaged(snapshot, checks, k) && (Atomic(plan) ==> Repaired(sha, snapshot, checks, f', k)))
  }

  /** A file changes only where the scan found damage, and with whole writes only to bytes
      that have the checksum expected there. */
  lemma {:induction false} HealTouchesDamageOnly(sha: Digest, plan: Plan, cfg: Config, srcs: seq<Files>,
                                                 snapshot: string, checks: seq<Check>, j: Job, k: Key)
    ensures TouchedRightly(sha, plan, snapshot, checks, j.files,
                           HealAllFrom(sha, plan, cfg, srcs, snapshot, checks, j).files, k)
    decreases |checks|
  {
    if checks != [] {
      var c, rest := checks[0], checks[1..];
      assert c in checks && forall d :: d in rest ==> d in checks;
      if c.healthy {
        HealTouchesDamageOnly(sha, plan, cfg, srcs, snapshot, rest, j, k);
      } else if !CapReached(cfg, j) {
        var a := OfferAll(sha, plan, cfg, srcs, snapshot, c, j.files, j.tick);
        OfferAllCareful(sha, plan, cfg, srcs, snapshot, c, j.files, j.tick);
        HealTouchesDamageOnly(sha, plan, cfg, srcs, snapshot, rest, Logged(j, c, a), k);
        assert k != Key(snapshot, c.path) ==> SameAt(j.files, a.files, k);
      }
    }
  }

  /** Entries of a snapshot that share a path share a checksum. */
  ghost predicate Consistent(entries: seq<FileEntry>) {
    forall d, e :: d in entries && e in entries && d.path == e.path ==> d.checksum == e.checksum
  }

  lemma {:induction false} ChecksComeFromEntries(sha: Digest, plan: Plan, tick: int, files: Files, snapshot: string,
                                                 entries: seq<FileEntry>)
    ensures forall c :: c in Checks(sha, plan, tick, files, snapshot, entries) ==>
      exists e :: e in entries && c.path == e.path && c.expected == e.checksum
    decreases |entries|
  {
    if entries != [] {
      ChecksComeFromEntries(sha, plan, tick + 1, files, snapshot, entries[1..]);
      assert entries[0] in entries;
      assert forall e :: e in entries[1..] ==> e in entries;
    }
  }

  /** The healthy files never get fewer: whatever reads fail, in the scan or later, and
      whatever writes are refused, a file with its recorded checksum still has it after
      `heal_from_sources` (and so after `heal`). */
  lemma HealthyStaysHealthy(sha: Digest, plan: Plan, cfg: Config, srcs: seq<Files>, snap: Snapshot,
                            files: Files, tick: int, e: FileEntry)
    requires Atomic(plan) && Consistent(snap.entries)
    requires e in snap.entries && HealthyAt(sha, files, snap.id, e)
    ensures HealthyAt(sha, HealFromResult(sha, plan, cfg, srcs, snap, files, tick).files, snap.id, e)
  {
    var scan := ScanOf(sha, plan, tick, files, snap);
    var j := Job(files, tick + |snap.entries|, 0, 0, []);
    var f := HealAllFrom(sha, plan, cfg, srcs, snap.id, scan.checks, j).files;
    var k := Key(snap.id, e.path);
    HealTouchesDamageOnly(sha, plan, cfg, srcs, snap.id, scan.checks, j, k);
    ChecksComeFromEntries(sha, plan, tick, files, snap.id, snap.entries);
    if !SameAt(files, f, k) {
      var c :| c in scan.checks && !c.healthy && k == Key(snap.id, c.path) && k in f && sha(f[k]) == c.expected;
    }
  }

  /** A healthy file whose scan read succeeded is not even written to, so no broken write
      can reach it. */
  lemma ReadableHealthyUntouched(sha: Digest, plan: Plan, cfg: Config, srcs: seq<Files>, snap: Snapshot,
                                 files: Files, tick: int, i: int)
    requires 0 <= i < |snap.entries| && HealthyAt(sha, files, snap.id, snap.entries[i]) && plan(tick + i).Fine?
    requires forall d :: 0 <= d < |snap.entries| && d != i ==> snap.entries[d].path != snap.entries[i].path
    ensures SameAt(files, HealFromResult(sha, plan, cfg, srcs, snap, files, tick).files,
                   Key(snap.id, snap.entries[i].path))
  {
    var scan := ScanOf(sha, plan, tick, files, snap);
    var j := Job(files, tick + |snap.entries|, 0, 0, []);
    var k := Key(snap.id, snap.entries[i].path);
    ReadableHealthyNotDamaged(sha, plan, tick, files, snap, i);
    HealTouchesDamageOnly(sha, plan, cfg, srcs, snap.id, scan.checks, j, k);
  }

  lemma ReadableHealthyNotDamaged(sha: Digest, plan: Plan, tick: int, files: Files, snap: Snapshot, i: int)
    requires 0 <= i < |snap.entries| && HealthyAt(sha, files, snap.id, snap.entries[i]) && plan(tick + i).Fine?
    requires forall d :: 0 <= d < |snap.entries| && d != i ==> snap.entries[d].path != snap.entries[i].path
    ensures !Damaged(snap.id, Checks(sha, plan, tick, files, snap.id, snap.entries), Key(snap.id, snap.entries[i].path))
  {
    var checks, k := Checks(sha, plan, tick, files, snap.id, snap.entries), Key(snap.id, snap.entries[i].path);
    ChecksLength(sha, plan, tick, files, snap.id, snap.entries);
    if Damaged(snap.id, checks, k) {
      var c :| c in checks && !c.healthy && k == Key(snap.id, c.path);
      var n :| 0 <= n < |checks| && checks[n] == c;
      ChecksAt(sha, plan, tick, files, snap.id, snap.entries, n);
    }
  }

  // ---------------------------------------------------------------- reports are true

  /** A successful attempt left the expected bytes, if it was verified or if writes do
      what they report. */
  lemma {:induction false} SuccessLeavesExpected(sha: Digest, plan: Plan, cfg: Config, srcs: seq<Files>,
                                                 snapshot: string, c: Check, files: Files, tick: int)
    requires cfg.verifyAfter || Honest(plan)
    ensures var a := OfferAll(sha, plan, cfg, srcs, snapshot, c, files, tick);
      var k := Key(snapshot, c.path);
      a.ok ==> k in a.files && sha(a.files[k]) == c.expected
    decreases |srcs|
  {
    if srcs != [] {
      var a := Offer(sha, plan, cfg, srcs[0], snapshot, c, files, tick);
      var o := plan(tick + 1);
      if !a.ok {
        SuccessLeavesExpected(sha, plan, cfg, srcs[1..], snapshot, c, a.files, a.tick);
      }
    }
  }

  ghost predicate DistinctChecks(checks: seq<Check>) {
    checks != [] ==> (forall d :: d in checks[1..] ==> d.path != checks[0].path) && DistinctChecks(checks[1..])
  }

  /** Every file reported healed has its expected bytes when the run ends: writes may
      break off, or store other bytes and report success, but not unnoticed. */
  lemma {:induction false} ReportedHealedIsHealthy(sha: Digest, plan: Plan, cfg: Config, srcs: seq<Files>,
                                                   snapshot: string, checks: seq<Check>, j: Job)
    requires (cfg.verifyAfter || Honest(plan)) && DistinctChecks(checks)
    ensures var r := HealAllFrom(sha, plan, cfg, srcs, snapshot, checks, j);
      && (forall x :: x in r.results ==> x in j.results || exists c :: c in checks && x.path == c.path)
      && forall c :: c in checks && Healed(c.path) in r.results && Healed(c.path) !in j.results ==>
           Key(snapshot, c.path) in r.files && sha(r.files[Key(snapshot, c.path)]) == c.expected
    decreases |checks|
  {
    if checks != [] {
      var c, rest := checks[0], checks[1..];
      assert c in checks && forall d :: d in checks <==> d == c || d in rest;
      if c.healthy {
        ReportedHealedIsHealthy(sha, plan, cfg, srcs, snapshot, rest, j);
      } else if !CapReached(cfg, j) {
        var a := OfferAll(sha, plan, cfg, srcs, snapshot, c, j.files, j.tick);
        SuccessLeavesExpected(sha, plan, cfg, srcs, snapshot, c, j.files, j.tick);
        ReportedHealedIsHealthy(sha, plan, cfg, srcs, snapshot, rest, Logged(j, c, a));
        HealTouchesDamageOnly(sha, plan, cfg, srcs, snapshot, rest, Logged(j, c, a), Key(snapshot, c.path));
      }
    }
  }

  function DamagedPaths(checks: seq<Check>): seq<string> {
    if checks == [] then []
    else (if checks[0].healthy then [] else [checks[0].path]) + DamagedPaths(checks[1..])
  }

  function PathsOf(results: seq<FileResult>): seq<string> {
    if results == [] then []
    else PathsOf(results[..|results| - 1]) + [results[|results| - 1].path]
  }

  function HealedIn(results: seq<FileResult>): int {
    if results == [] then 0
    else HealedIn(results[..|results| - 1]) + if results[|results| - 1].Healed? then 1 else 0
  }

  /** The counters say what the file results say. */
  ghost predicate AddsUp(j: Job) {
    j.healed == HealedIn(j.results) && j.healed + j.failed == |j.results|
  }

  /** The report: damaged files are dealt with in order, each once, and all of them unless
      the cap was reached. */
  lemma {:induction false} ReportIsComplete(sha: Digest, plan: Plan, cfg: Config, srcs: seq<Files>,
                                            snapshot: string, checks: seq<Check>, j: Job)
    requires AddsUp(j)
    ensures var r := HealAllFrom(sha, plan, cfg, srcs, snapshot, checks, j);
      && AddsUp(r)
      && PathsOf(r.results) <= PathsOf(j.results) + DamagedPaths(checks)
      && (!CapReached(cfg, r) ==> PathsOf(r.results) == PathsOf(j.results) + DamagedPaths(checks))
    decreases |checks|
  {
    if checks == [] || (!checks[0].healthy && CapReached(cfg, j)) {
      return;
    }
    var c, later := checks[0], checks[1..];
    if c.healthy {
      ReportIsComplete(sha, plan, cfg, srcs, snapshot, later, j);
      assert [] + DamagedPaths(later) == DamagedPaths(checks);
    } else {
      var a := OfferAll(sha, plan, cfg, srcs, snapshot, c, j.files, j.tick);
      LoggedAddsUp(j, c, a);
      ReportIsComplete(sha, plan, cfg, srcs, snapshot, later, Logged(j, c, a));
      AppendAssociates(PathsOf(j.results), [c.path], DamagedPaths(later));
    }
  }

  lemma LoggedAddsUp(j: Job, c: Check, a: Attempt)
    requires AddsUp(j)
    ensures AddsUp(Logged(j, c, a)) && PathsOf(Logged(j, c, a).results) == PathsOf(j.results) + [c.path]
  {
    var results := Logged(j, c, a).results;
    assert results[..|results| - 1] == j.results;
  }

  // ---------------------------------------------------------------- convergence

  predicate OnSomeSource(sha: Digest, srcs: seq<Files>, snapshot: string, e: FileEntry) {
    exists i :: 0 <= i < |srcs| && HealthyAt(sha, srcs[i], snapshot, e)
  }

  /** Damaged on the target, intact on at least one source. */
  predicate Healable(sha: Digest, files: Files, srcs: seq<Files>, snapshot: string, e: FileEntry) {
    !HealthyAt(sha, files, snapshot, e) && OnSomeSource(sha, srcs, snapshot, e)
  }

  function HealableCount(sha: Digest, files: Files, srcs: seq<Files>, snapshot: string, entries: seq<FileEntry>)
    : (n: int)
    ensures n >= 0
  {
    if entries == [] then 0
    else (if Healable(sha, files, srcs, snapshot, entries[0]) then 1 else 0)
         + HealableCount(sha, files, srcs, snapshot, entries[1..])
  }

  ghost predicate DistinctPaths(entries: seq<FileEntry>) {
    entries != [] ==>
      (forall e :: e in entries[1..] ==> e.path != entries[0].path) && DistinctPaths(entries[1..])
  }

  predicate Elsewhere(snapshot: string, entries: seq<FileEntry>, x: Key) {
    forall e :: e in entries ==> x != Key(snapshot, e.path)
  }

  lemma {:induction false} CountDependsOnEntries(sha: Digest, f: Files, f': Files, srcs: seq<Files>, snapshot: string,
                                                 entries: seq<FileEntry>)
    requires forall e :: e in entries ==> SameAt(f, f', Key(snapshot, e.path))
    ensures HealableCount(sha, f, srcs, snapshot, entries) == HealableCount(sha, f', srcs, snapshot, entries)
  {
    if entries != [] {
      assert entries[0] in entries;
      CountDependsOnEntries(sha, f, f', srcs, snapshot, entries[1..]);
    }
  }

  /** How many of `k` healable files a run repairs that has repaired `done` already. */
  function Share(cfg: Config, done: int, k: int): int {
    if cfg.maxHeals <= 0 then k else if done >= cfg.maxHeals then 0 else Min(cfg.maxHeals - done, k)
  }

  lemma OfferOnReliable(sha: Digest, plan: Plan, cfg: Config, src: Files, snapshot: string, e: FileEntry,
                        c: Check, files: Files, tick: int)
    requires Reliable(plan) && c.path == e.path && c.expected == e.checksum
    ensures var a := Offer(sha, plan, cfg, src, snapshot, c, files, tick);
      && a.ok == HealthyAt(sha, src, snapshot, e)
      && (if a.ok then HealthyAt(sha, a.files, snapshot, e) else a.files == files)
      && forall k :: k != Key(snapshot, e.path) ==> SameAt(files, a.files, k)
  {
    assert plan(tick).Fine? && plan(tick + 1).Fine? && plan(tick + 2).Fine?;
  }

  /** The sources in turn succeed exactly if one of them, wherever it stands, has the file. */
  lemma {:induction false} OfferAllOnReliable(sha: Digest, plan: Plan, cfg: Config, srcs: seq<Files>, snapshot: string,
                                              e: FileEntry, c: Check, files: Files, tick: int)
    requires Reliable(plan) && c.path == e.path && c.expected == e.checksum
    ensures var a := OfferAll(sha, plan, cfg, srcs, snapshot, c, files, tick);
      && a.ok == OnSomeSource(sha, srcs, snapshot, e)
      && (if a.ok then HealthyAt(sha, a.files, snapshot, e) else a.files == files)
      && forall k :: k != Key(snapshot, e.path) ==> SameAt(files, a.files, k)
    decreases |srcs|
  {
    if srcs != [] {
      OfferOnReliable(sha, plan, cfg, srcs[0], snapshot, e, c, files, tick);
      var a := Offer(sha, plan, cfg, srcs[0], snapshot, c, files, tick);
      FirstOrLater(sha, srcs, snapshot, e);
      if !a.ok {
        OfferAllOnReliable(sha, plan, cfg, srcs[1..], snapshot, e, c, a.files, a.tick);
      }
    }
  }

  lemma FirstOrLater(sha: Digest, srcs: seq<Files>, snapshot: string, e: FileEntry)
    requires srcs != []
    ensures OnSomeSource(sha, srcs, snapshot, e)
      <==> HealthyAt(sha, srcs[0], snapshot, e) || OnSomeSource(sha, srcs[1..], snapshot, e)
  {
    if OnSomeSource(sha, srcs[1..], snapshot, e) {
      var i :| 0 <= i < |srcs[1..]| && HealthyAt(sha, srcs[1..][i], snapshot, e);
      assert HealthyAt(sha, srcs[i + 1], snapshot, e);
    }
    if OnSomeSource(sha, srcs, snapshot, e) && !HealthyAt(sha, srcs[0], snapshot, e) {
      var i :| 0 <= i < |srcs| && HealthyAt(sha, srcs[i], snapshot, e);
      assert HealthyAt(sha, srcs[1..][i - 1], snapshot, e);
    }
  }

  lemma HealElsewhere(sha: Digest, plan: Plan, cfg: Config, srcs: seq<Files>, snapshot: string,
                      entries: seq<FileEntry>, tick: int, scanned: Files, j: Job, x: Key)
    requires Elsewhere(snapshot, entries, x)
    ensures var checks := Checks(sha, plan, tick, scanned, snapshot, entries);
      SameAt(j.files, HealAllFrom(sha, plan, cfg, srcs, snapshot, checks, j).files, x)
  {
    var checks := Checks(sha, plan, tick, scanned, snapshot, entries);
    HealTouchesDamageOnly(sha, plan, cfg, srcs, snapshot, checks, j, x);
    ChecksComeFromEntries(sha, plan, tick, scanned, snapshot, entries);
  }

  /** The progress of one run over `entries`, of which the scan was made on `scanned`. Files
      that cannot be healed do not use up the run's share. */
  lemma {:induction false} HealProgress(sha: Digest, plan: Plan, cfg: Config, srcs: seq<Files>, snapshot: string,
                                        entries: seq<FileEntry>, tick: int, scanned: Files, j: Job)
    requires Reliable(plan) && DistinctPaths(entries)
    requires forall e :: e in entries ==> SameAt(scanned, j.files, Key(snapshot, e.path))
    ensures var checks := Checks(sha, plan, tick, scanned, snapshot, entries);
      Progressed(sha, cfg, srcs, snapshot, entries, j, HealAllFrom(sha, plan, cfg, srcs, snapshot, checks, j))
    decreases |entries|
  {
    if entries != [] {
      var e, rest := entries[0], entries[1..];
      var later := Checks(sha, plan, tick + 1, scanned, snapshot, rest);
      var c := CheckOf(sha, Found(plan(tick), scanned, Key(snapshot, e.path)), e);
      HeadCheck(sha, plan, tick, scanned, snapshot, entries);
      assert c.healthy == HealthyAt(sha, j.files, snapshot, e);
      if !c.healthy && CapReached(cfg, j) {
        return;
      }
      var a := OfferAll(sha, plan, cfg, srcs, snapshot, c, j.files, j.tick);
      var j1 := if c.healthy then j else Logged(j, c, a);
      OfferAllOnReliable(sha, plan, cfg, srcs, snapshot, e, c, j.files, j.tick);
      OthersUnmoved(scanned, j.files, j1.files, snapshot, entries);
      HealProgress(sha, plan, cfg, srcs, snapshot, rest, tick + 1, scanned, j1);
      CountDependsOnEntries(sha, j.files, j1.files, srcs, snapshot, rest);
      var r := HealAllFrom(sha, plan, cfg, srcs, snapshot, later, j1);
      HealElsewhere(sha, plan, cfg, srcs, snapshot, rest, tick + 1, scanned, j1, Key(snapshot, e.path));
      assert entries == [e] + rest;
      ProgressStep(sha, cfg, srcs, snapshot, e, rest, j, j1, r);
    }
  }

  lemma OthersUnmoved(scanned: Files, f: Files, f': Files, snapshot: string, entries: seq<FileEntry>)
    requires entries != [] && DistinctPaths(entries)
    requires forall e :: e in entries ==> SameAt(scanned, f, Key(snapshot, e.path))
    requires forall k :: k != Key(snapshot, entries[0].path) ==> SameAt(f, f', k)
    ensures DistinctPaths(entries[1..]) && forall e :: e in entries[1..] ==> SameAt(f, f', Key(snapshot, e.path))
    ensures forall e :: e in entries[1..] ==> SameAt(scanned, f', Key(snapshot, e.path))
  {
    forall e | e in entries[1..] ensures SameAt(scanned, f', Key(snapshot, e.path)) {
      assert e in entries && SameAt(f, f', Key(snapshot, e.path));
    }
  }

  lemma HeadCheck(sha: Digest, plan: Plan, tick: int, files: Files, snapshot: string, entries: seq<FileEntry>)
    requires entries != []
    ensures var checks := Checks(sha, plan, tick, files, snapshot, entries);
      && checks != []
      && checks[0] == CheckOf(sha, Found(plan(tick), files, Key(snapshot, entries[0].path)), entries[0])
      && checks[1..] == Checks(sha, plan, tick + 1, files, snapshot, entries[1..])
    ensures entries[0] in entries && forall d :: d in entries <==> d == entries[0] || d in entries[1..]
  {
    var e, later := entries[0], Checks(sha, plan, tick + 1, files, snapshot, entries[1..]);
    assert ([CheckOf(sha, Found(plan(tick), files, Key(snapshot, e.path)), e)] + later)[1..] == later;
  }

  /** What a run has achieved that began with `j` and ended with `r`. */
  ghost predicate Progressed(sha: Digest, cfg: Config, srcs: seq<Files>, snapshot: string, entries: seq<FileEntry>,
                             j: Job, r: Job)
  {
    var k := HealableCount(sha, j.files, srcs, snapshot, entries);
    && r.healed == j.healed + Share(cfg, j.healed, k)
    && HealableCount(sha, r.files, srcs, snapshot, entries) == k - Share(cfg, j.healed, k)
    && forall e :: e in entries && HealthyAt(sha, j.files, snapshot, e) ==> HealthyAt(sha, r.files, snapshot, e)
  }

  lemma ProgressStep(sha: Digest, cfg: Config, srcs: seq<Files>, snapshot: string, e: FileEntry, rest: seq<FileEntry>,
                     j: Job, j1: Job, r: Job)
    requires Progressed(sha, cfg, srcs, snapshot, rest, j1, r)
    requires HealableCount(sha, j1.files, srcs, snapshot, rest) == HealableCount(sha, j.files, srcs, snapshot, rest)
    requires Healable(sha, j.files, srcs, snapshot, e) ==> !CapReached(cfg, j)
    requires j1.healed == j.healed + if Healable(sha, j.files, srcs, snapshot, e) then 1 else 0
    requires HealthyAt(sha, j1.files, snapshot, e)
      <==> HealthyAt(sha, j.files, snapshot, e) || Healable(sha, j.files, srcs, snapshot, e)
    requires SameAt(j1.files, r.files, Key(snapshot, e.path))
    requires forall d :: d in rest && HealthyAt(sha, j.files, snapshot, d) ==> HealthyAt(sha, j1.files, snapshot, d)
    ensures Progressed(sha, cfg, srcs, snapshot, [e] + rest, j, r)
  {
    assert ([e] + rest)[1..] == rest;
    forall d | d in [e] + rest && HealthyAt(sha, j.files, snapshot, d) ensures HealthyAt(sha, r.files, snapshot, d) {
      if d in rest {
        assert HealthyAt(sha, j1.files, snapshot, d);
      }
    }
  }

  lemma {:induction false} NothingToHeal(sha: Digest, plan: Plan, cfg: Config, srcs: seq<Files>, snapshot: string,
                                         checks: seq<Check>, j: Job)
    requires forall c :: c in checks ==> c.healthy
    ensures HealAllFrom(sha, plan, cfg, srcs, snapshot, checks, j) == j
    decreases |checks|
  {
    if checks != [] {
      assert checks[0] in checks;
      NothingToHeal(sha, plan, cfg, srcs, snapshot, checks[1..], j);
    }
  }

  /** One `heal_from_sources` on a reliable target: it repairs the smaller of its cap and the
      number of files damaged there and intact on some source, all of them when there is no
      cap; it spoils none, and touches nothing but the snapshot's files. */
  lemma HealFromRun(sha: Digest, plan: Plan, cfg: Config, srcs: seq<Files>, snap: Snapshot, files: Files, tick: int)
    requires Reliable(plan) && DistinctPaths(snap.entries)
    ensures var r := HealFromResult(sha, plan, cfg, srcs, snap, files, tick);
      var k := HealableCount(sha, files, srcs, snap.id, snap.entries);
      && r.healed == (if cfg.maxHeals <= 0 then k else Min(cfg.maxHeals, k))
      && HealableCount(sha, r.files, srcs, snap.id, snap.entries) == k - r.healed
      && (forall e :: e in snap.entries && HealthyAt(sha, files, snap.id, e) ==> HealthyAt(sha, r.files, snap.id, e))
      && forall x :: Elsewhere(snap.id, snap.entries, x) ==> SameAt(files, r.files, x)
  {
    var scan := ScanOf(sha, plan, tick, files, snap);
    var j := Job(files, tick + |snap.entries|, 0, 0, []);
    HealProgress(sha, plan, cfg, srcs, snap.id, snap.entries, tick, files, j);
    if AllHealthy(scan) {
      TallyMeaning(scan.checks);
      NothingToHeal(sha, plan, cfg, srcs, snap.id, scan.checks, j);
    }
    forall x | Elsewhere(snap.id, snap.entries, x)
      ensures SameAt(files, HealFromResult(sha, plan, cfg, srcs, snap, files, tick).files, x)
    {
      HealElsewhere(sha, plan, cfg, srcs, snap.id, snap.entries, tick, files, j, x);
    }
  }

  /** Without a cap, one run leaves exactly those files intact that were so on the target or
      on any source, wherever that source stands in the list. */
  lemma HealedFromAnySource(sha: Digest, plan: Plan, cfg: Config, srcs: seq<Files>, snap: Snapshot, files: Files,
                            tick: int, e: FileEntry)
    requires Reliable(plan) && DistinctPaths(snap.entries) && cfg.maxHeals <= 0 && e in snap.entries
    ensures HealthyAt(sha, HealFromResult(sha, plan, cfg, srcs, snap, files, tick).files, snap.id, e)
      <==> HealthyAt(sha, files, snap.id, e) || exists i :: 0 <= i < |srcs| && HealthyAt(sha, srcs[i], snap.id, e)
  {
    var f := HealFromResult(sha, plan, cfg, srcs, snap, files, tick).files;
    HealFromRun(sha, plan, cfg, srcs, snap, files, tick);
    NoneHealable(sha, f, srcs, snap.id, snap.entries);
    assert OnSomeSource(sha, srcs, snap.id, e)
      <==> exists i :: 0 <= i < |srcs| && HealthyAt(sha, srcs[i], snap.id, e);
    if !HealthyAt(sha, files, snap.id, e) && !OnSomeSource(sha, srcs, snap.id, e) {
      PathIdentifies(snap.entries, e);
      OnlyFromSources(sha, plan, cfg, srcs, snap.id, snap.entries, tick, files,
                      Job(files, tick + |snap.entries|, 0, 0, []), e);
    }
  }

  lemma {:induction false} PathIdentifies(entries: seq<FileEntry>, e: FileEntry)
    requires DistinctPaths(entries) && e in entries
    ensures forall d :: d in entries && d.path == e.path ==> d == e
  {
    if e in entries[1..] {
      PathIdentifies(entries[1..], e);
    }
  }

  /** A file damaged everywhere stays damaged. */
  lemma {:induction false} OnlyFromSources(sha: Digest, plan: Plan, cfg: Config, srcs: seq<Files>, snapshot: string,
                                           entries: seq<FileEntry>, tick: int, scanned: Files, j: Job, e: FileEntry)
    requires Reliable(plan) && DistinctPaths(entries)
    requires forall d :: d in entries && d.path == e.path ==> d == e
    requires !HealthyAt(sha, j.files, snapshot, e) && !OnSomeSource(sha, srcs, snapshot, e)
    ensures var checks := Checks(sha, plan, tick, scanned, snapshot, entries);
      !HealthyAt(sha, HealAllFrom(sha, plan, cfg, srcs, snapshot, checks, j).files, snapshot, e)
    decreases |entries|
  {
    if entries != [] {
      var d, rest := entries[0], entries[1..];
      var c := CheckOf(sha, Found(plan(tick), scanned, Key(snapshot, d.path)), d);
      HeadCheck(sha, plan, tick, scanned, snapshot, entries);
      if c.healthy {
        OnlyFromSources(sha, plan, cfg, srcs, snapshot, rest, tick + 1, scanned, j, e);
      } else if !CapReached(cfg, j) {
        var a := OfferAll(sha, plan, cfg, srcs, snapshot, c, j.files, j.tick);
        OfferAllOnReliable(sha, plan, cfg, srcs, snapshot, d, c, j.files, j.tick);
        assert d != e ==> SameAt(j.files, a.files, Key(snapshot, e.path));
        OnlyFromSources(sha, plan, cfg, srcs, snapshot, rest, tick + 1, scanned, Logged(j, c, a), e);
      }
    }
  }

  /** One `heal`: the same, with its one source. */
  lemma HealRun(sha: Digest, plan: Plan, cfg: Config, src: Files, snap: Snapshot, files: Files, tick: int)
    requires Reliable(plan) && DistinctPaths(snap.entries)
    ensures var r := HealResult(sha, plan, cfg, src, snap, files, tick);
      var k := HealableCount(sha, files, [src], snap.id, snap.entries);
      && r.healed == (if cfg.maxHeals <= 0 then k else Min(cfg.maxHeals, k))
      && HealableCount(sha, r.files, [src], snap.id, snap.entries) == k - r.healed
      && (forall e :: e in snap.entries && HealthyAt(sha, files, snap.id, e) ==> HealthyAt(sha, r.files, snap.id, e))
      && forall x :: Elsewhere(snap.id, snap.entries, x) ==> SameAt(files, r.files, x)
  {
    HealFromRun(sha, plan, cfg, [src], snap, files, tick);
    HealIsHealFromOne(sha, plan, cfg, src, snap, files, tick);
  }

  /** The target after `n` runs of `heal_from_sources`. */
  function AfterRuns(n: nat, sha: Digest, plan: Plan, cfg: Config, srcs: seq<Files>, snap: Snapshot,
                           files: Files): Files
  {
    if n == 0 then files
    else HealFromResult(sha, plan, cfg, srcs, snap, AfterRuns(n - 1, sha, plan, cfg, srcs, snap, files), 0).files
  }

  lemma {:induction false} RunsProgress(n: nat, sha: Digest, plan: Plan, cfg: Config, srcs: seq<Files>, snap: Snapshot,
                                        files: Files)
    requires Reliable(plan) && DistinctPaths(snap.entries) && cfg.maxHeals > 0
    ensures var f := AfterRuns(n, sha, plan, cfg, srcs, snap, files);
      var k := HealableCount(sha, files, srcs, snap.id, snap.entries);
      && HealableCount(sha, f, srcs, snap.id, snap.entries)
         == (if n * cfg.maxHeals >= k then 0 else k - n * cfg.maxHeals)
      && forall e :: e in snap.entries && HealthyAt(sha, files, snap.id, e) ==> HealthyAt(sha, f, snap.id, e)
  {
    if n > 0 {
      RunsProgress(n - 1, sha, plan, cfg, srcs, snap, files);
      HealFromRun(sha, plan, cfg, srcs, snap, AfterRuns(n - 1, sha, plan, cfg, srcs, snap, files), 0);
      assert n * cfg.maxHeals == (n - 1) * cfg.maxHeals + cfg.maxHeals;
    }
  }

  lemma {:induction false} NoneHealable(sha: Digest, files: Files, srcs: seq<Files>, snapshot: string,
                                        entries: seq<FileEntry>)
    requires HealableCount(sha, files, srcs, snapshot, entries) == 0
    ensures forall e :: e in entries && OnSomeSource(sha, srcs, snapshot, e) ==> HealthyAt(sha, files, snapshot, e)
  {
    if entries != [] {
      NoneHealable(sha, files, srcs, snapshot, entries[1..]);
    }
  }

  /** Healing converges. With a cap of m > 0, n runs with n * m at least the number of
      healable files leave every file that is intact on some source intact on the target;
      without a cap one run does. Files that cannot be healed, wherever they stand, cost no
      extra runs. */
  lemma HealingConverges(n: nat, sha: Digest, plan: Plan, cfg: Config, srcs: seq<Files>, snap: Snapshot, files: Files)
    requires Reliable(plan) && DistinctPaths(snap.entries)
    requires var k := HealableCount(sha, files, srcs, snap.id, snap.entries);
      if cfg.maxHeals > 0 then n * cfg.maxHeals >= k else n == 1
    ensures forall e ::
      e in snap.entries && (OnSomeSource(sha, srcs, snap.id, e) || HealthyAt(sha, files, snap.id, e)) ==>
        HealthyAt(sha, AfterRuns(n, sha, plan, cfg, srcs, snap, files), snap.id, e)
  {
    var f := AfterRuns(n, sha, plan, cfg, srcs, snap, files);
    if cfg.maxHeals > 0 {
      RunsProgress(n, sha, plan, cfg, srcs, snap, files);
    } else {
      HealFromRun(sha, plan, cfg, srcs, snap, files, 0);
      assert AfterRuns(0, sha, plan, cfg, srcs, snap, files) == files;
    }
    NoneHealable(sha, f, srcs, snap.id, snap.entries);
  }

  /** A cap is never exceeded and never wasted: fewer runs than needed leave damage behind. */
  lemma FewerRunsDoNotDo(n: nat, sha: Digest, plan: Plan, cfg: Config, srcs: seq<Files>, snap: Snapshot, files: Files)
    requires Reliable(plan) && DistinctPaths(snap.entries) && cfg.maxHeals > 0
    requires n * cfg.maxHeals < HealableCount(sha, files, srcs, snap.id, snap.entries)
    ensures !AllIntact(sha, AfterRuns(n, sha, plan, cfg, srcs, snap, files), snap)
  {
    RunsProgress(n, sha, plan, cfg, srcs, snap, files);
    SomeHealable(sha, AfterRuns(n, sha, plan, cfg, srcs, snap, files), srcs, snap.id, snap.entries);
  }

  lemma {:induction false} SomeHealable(sha: Digest, files: Files, srcs: seq<Files>, snapshot: string,
                                        entries: seq<FileEntry>)
    requires HealableCount(sha, files, srcs, snapshot, entries) > 0
    ensures exists e :: e in entries && !HealthyAt(sha, files, snapshot, e)
  {
    if Healable(sha, files, srcs, snapshot, entries[0]) {
      assert entries[0] in entries;
    } else {
      SomeHealable(sha, files, srcs, snapshot, entries[1..]);
    }
  }
}
