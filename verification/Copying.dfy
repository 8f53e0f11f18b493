/** Copying a snapshot from one backend to another (crates/openvault-core/src/policy.rs and
    replicator.rs). */
module Copying {
  import opened Common
  import opened Storage
  import opened Healing

  // ---------------------------------------------------------------- states

  datatype VaultState = VaultState(files: Files, dir: Directory)

  ghost function StateOf(v: Vault): VaultState
    reads v
  {
    VaultState(v.files, v.dir)
  }

  ghost function StatesOf(vaults: seq<Vault>): (r: seq<VaultState>)
    reads vaults
    ensures |r| == |vaults|
    ensures forall i :: 0 <= i < |vaults| ==> r[i] == StateOf(vaults[i])
  {
    if vaults == [] then []
    else StatesOf(vaults[..|vaults| - 1]) + [StateOf(vaults[|vaults| - 1])]
  }

  ghost predicate Distinct(vaults: seq<Vault>) {
    forall i, j :: 0 <= i < j < |vaults| ==> vaults[i] != vaults[j]
  }

  /** When nothing happened to the other vaults, only the state of vault `i` may be another. */
  lemma OneChanged(vaults: seq<Vault>, before: seq<VaultState>, i: int)
    requires 0 <= i < |vaults| == |before|
    requires forall n :: 0 <= n < |vaults| && n != i ==> StateOf(vaults[n]) == before[n]
    ensures StatesOf(vaults) == before[i := StateOf(vaults[i])]
  {}

  /** Nothing changed but what belongs to snapshot `id`: its files and its record. */
  ghost predicate Confined(id: string, t: VaultState, u: VaultState) {
    OthersKept(t.files, u.files, id) && Without(u.dir, id) == Without(t.dir, id)
  }

  lemma {:induction false} WithoutOnce(dir: Directory, snap: Snapshot)
    ensures Without(Without(dir, snap.id), snap.id) == Without(dir, snap.id)
    ensures Without(Without(dir, snap.id) + [snap], snap.id) == Without(dir, snap.id)
    decreases |dir|
  {
    if dir == [] {
      assert [snap][1..] == [];
    } else {
      var head, rest := dir[0], Without(dir[1..], snap.id);
      WithoutOnce(dir[1..], snap);
      if head.id != snap.id {
        assert ([head] + rest)[0] == head && ([head] + rest)[1..] == rest;
        assert ([head] + rest + [snap])[0] == head && ([head] + rest + [snap])[1..] == rest + [snap];
      } else {
        assert [] + rest == rest;
      }
    }
  }

  lemma RecordingIsConfined(o: Outcome, t: VaultState, snap: Snapshot)
    ensures Confined(snap.id, t, VaultState(t.files, Recorded(o, t.dir, snap)))
  {
    WithoutOnce(t.dir, snap);
  }

  // ---------------------------------------------------------------- copies

  /** `files` with the listed files of `src` copied over, those that `src` has. */
  function CopiedFiles(src: Files, files: Files, snapshot: string, entries: seq<FileEntry>): Files
    decreases |entries|
  {
    if entries == [] then files
    else
      var n := |entries| - 1;
      var k := Key(snapshot, entries[n].path);
      var front := CopiedFiles(src, files, snapshot, entries[..n]);
      if k in src then front[k := src[k]] else front
  }

  /** A backend on which `snap` has been recorded and its files copied from `src`. */
  function Copied(src: Files, snap: Snapshot, t: VaultState): VaultState {
    VaultState(CopiedFiles(src, t.files, snap.id, snap.entries), Without(t.dir, snap.id) + [snap])
  }

  lemma {:induction false} CopyHolds(src: Files, files: Files, snapshot: string, entries: seq<FileEntry>)
    requires AllIn(src, snapshot, entries)
    ensures var f := CopiedFiles(src, files, snapshot, entries);
      forall e :: e in entries ==> var k := Key(snapshot, e.path); k in src && k in f && f[k] == src[k]
    decreases |entries|
  {
    if entries != [] {
      var n := |entries| - 1;
      assert entries == entries[..n] + [entries[n]];
      CopyHolds(src, files, snapshot, entries[..n]);
    }
  }

  lemma CopyIsIntact(sha: Digest, src: Files, files: Files, snapshot: string, entries: seq<FileEntry>)
    requires forall e :: e in entries ==> HealthyAt(sha, src, snapshot, e)
    ensures var f := CopiedFiles(src, files, snapshot, entries);
      forall e :: e in entries ==> var k := Key(snapshot, e.path); k in src && k in f && f[k] == src[k]
  {
    assert AllIn(src, snapshot, entries) by {
      forall e | e in entries ensures Key(snapshot, e.path) in src {
        assert HealthyAt(sha, src, snapshot, e);
      }
    }
    CopyHolds(src, files, snapshot, entries);
  }

  /** Exactly what a copy that skips missing files leaves: every listed file that the source
      has, and else what was there. */
  lemma {:induction false} CopiedExactly(src: Files, files: Files, snapshot: string, entries: seq<FileEntry>, k: Key)
    ensures var f := CopiedFiles(src, files, snapshot, entries);
      if k in src && k.snapshot == snapshot && exists e :: e in entries && e.path == k.path
      then k in f && f[k] == src[k] else SameAt(files, f, k)
    decreases |entries|
  {
    if entries != [] {
      var n := |entries| - 1;
      CopiedExactly(src, files, snapshot, entries[..n], k);
      assert forall e :: e in entries <==> e in entries[..n] || e == entries[n];
    }
  }

  predicate AllIn(src: Files, snapshot: string, entries: seq<FileEntry>) {
    forall e :: e in entries ==> Key(snapshot, e.path) in src
  }

  predicate HasAll(src: Files, snap: Snapshot) {
    AllIn(src, snap.id, snap.entries)
  }

  /** On a backend without any snapshot of the source, a stored one becomes the latest. */
  lemma StoredBecomesLatest(dir: Directory, snap: Snapshot)
    requires Latest(dir, snap.source, false).None?
    ensures Latest(Without(dir, snap.id) + [snap], snap.source, false) == Some(snap)
  {
    var rest := Without(dir, snap.id);
    LatestIsLatest(dir, snap.source, false);
    LatestIsLatest(rest, snap.source, false);
    RemovedIsGone(dir, snap.id);
    assert (rest + [snap])[..|rest|] == rest;
  }

  datatype Copying = Copying(state: VaultState, tick: int, ok: bool)

  /** Copies `snap` onto a backend: the metadata first, then its files. A strict copy ends at
      a file that cannot be read, a lax one goes on; both end at a write that fails. */
  function SnapshotCopied(plan: Plan, strict: bool, src: Files, snap: Snapshot, t: VaultState, tick: int): Copying {
    var dir := Recorded(plan(tick), t.dir, snap);
    if !Accepted(plan(tick)) then Copying(VaultState(t.files, dir), tick + 1, false)
    else
      var a := CopyResult(plan, strict, src, snap.id, snap.entries, t.files, tick + 1);
      Copying(VaultState(a.files, dir), a.tick, a.ok)
  }

  function CopyResult(plan: Plan, strict: bool, src: Files, snapshot: string, entries: seq<FileEntry>, files: Files,
                      tick: int): Attempt
    decreases |entries|
  {
    if entries == [] then Attempt(files, tick, true)
    else
      var k := Key(snapshot, entries[0].path);
      var got := Found(plan(tick), src, k);
      if got.None? then
        if strict then Attempt(files, tick + 1, false)
        else CopyResult(plan, strict, src, snapshot, entries[1..], files, tick + 1)
      else
        var now := Written(plan(tick + 1), files, k, got.value);
        if !Accepted(plan(tick + 1)) then Attempt(now, tick + 2, false)
        else CopyResult(plan, strict, src, snapshot, entries[1..], now, tick + 2)
  }

  /** The lax copy, as `auto_remediate` makes it. */
  method CopySnapshot(env: Env, source: Vault, target: Vault, snap: Snapshot) returns (ok: bool)
    requires source != target
    modifies target, env`tick
    ensures Copying(StateOf(target), env.tick, ok)
         == SnapshotCopied(env.plan, false, source.files, snap, old(StateOf(target)), old(env.tick))
  {
    ok := target.StoreSnapshot(env, snap);
    if !ok {
      return;
    }
    ghost var dir, plan, src := target.dir, env.plan, source.files;
    ghost var goal := CopyResult(plan, false, src, snap.id, snap.entries, target.files, env.tick);
    var i := 0;
    while i < |snap.entries|
      invariant 0 <= i <= |snap.entries| && target.dir == dir
      invariant goal == CopyResult(plan, false, src, snap.id, snap.entries[i..], target.files, env.tick)
    {
      assert snap.entries[i..][0] == snap.entries[i] && snap.entries[i..][1..] == snap.entries[i + 1..];
      var data := source.RetrieveFile(env, snap.id, snap.entries[i].path);
      if data.Some? {
        ok := target.StoreFile(env, snap.id, snap.entries[i].path, data.value);
        if !ok {
          return false;
        }
      }
      i := i + 1;
    }
    return true;
  }

  /** The files of a strict copy, as `remediate` and `replicate_snapshot` make it. */
  method CopyOrFail(env: Env, source: Vault, target: Vault, snap: Snapshot) returns (ok: bool)
    requires source != target
    modifies target`files, env`tick
    ensures Attempt(target.files, env.tick, ok)
         == CopyResult(env.plan, true, source.files, snap.id, snap.entries, old(target.files), old(env.tick))
  {
    ghost var goal := CopyResult(env.plan, true, source.files, snap.id, snap.entries, target.files, env.tick);
    var i := 0;
    while i < |snap.entries|
      invariant 0 <= i <= |snap.entries|
      invariant goal == CopyResult(env.plan, true, source.files, snap.id, snap.entries[i..], target.files, env.tick)
    {
      assert snap.entries[i..][0] == snap.entries[i] && snap.entries[i..][1..] == snap.entries[i + 1..];
      var e := snap.entries[i];
      var data := source.RetrieveFile(env, snap.id, e.path);
      if data.None? {
        return false;
      }
      var stored := target.StoreFile(env, snap.id, e.path, data.value);
      if !stored {
        return false;
      }
      i := i + 1;
    }
    return true;
  }

  lemma {:induction false} CopyIsConfined(plan: Plan, strict: bool, src: Files, snapshot: string,
                                          entries: seq<FileEntry>, files: Files, tick: int)
    ensures OthersKept(files, CopyResult(plan, strict, src, snapshot, entries, files, tick).files, snapshot)
    decreases |entries|
  {
    if entries != [] {
      var k := Key(snapshot, entries[0].path);
      var got := Found(plan(tick), src, k);
      if got.None? {
        CopyIsConfined(plan, strict, src, snapshot, entries[1..], files, tick + 1);
      } else {
        var now := Written(plan(tick + 1), files, k, got.value);
        CopyIsConfined(plan, strict, src, snapshot, entries[1..], now, tick + 2);
      }
    }
  }

  lemma {:induction false} CopiedCons(src: Files, files: Files, snapshot: string, e: FileEntry, rest: seq<FileEntry>)
    ensures var k := Key(snapshot, e.path);
      CopiedFiles(src, files, snapshot, [e] + rest)
      == CopiedFiles(src, if k in src then files[k := src[k]] else files, snapshot, rest)
    decreases |rest|
  {
    if rest == [] {
      assert [e] + rest == [e] && [e][..0] == [];
    } else {
      var n := |rest| - 1;
      CopiedCons(src, files, snapshot, e, rest[..n]);
      assert ([e] + rest)[..n + 1] == [e] + rest[..n];
    }
  }

  /** From `tick` on, every operation works. */
  ghost predicate FineFrom(plan: Plan, tick: int) {
    forall n :: n >= tick ==> plan(n).Fine?
  }

  /** A strict copy that completes has copied every file, if writes do what they report; when
      operations work it completes exactly if no file is missing. */
  lemma {:induction false} CopyCompletes(plan: Plan, src: Files, snapshot: string, entries: seq<FileEntry>,
                                         files: Files, tick: int)
    requires Honest(plan)
    ensures var a := CopyResult(plan, true, src, snapshot, entries, files, tick);
      && (a.ok ==> a.files == CopiedFiles(src, files, snapshot, entries) && AllIn(src, snapshot, entries))
      && (FineFrom(plan, tick) ==> (a.ok <==> AllIn(src, snapshot, entries)))
    decreases |entries|
  {
    if entries != [] {
      var e, rest := entries[0], entries[1..];
      var k := Key(snapshot, e.path);
      assert entries == [e] + rest && e in entries;
      assert forall d :: d in entries <==> d == e || d in rest;
      if Found(plan(tick), src, k).Some? && Accepted(plan(tick + 1)) {
        CopyCompletes(plan, src, snapshot, rest, files[k := src[k]], tick + 2);
        CopiedCons(src, files, snapshot, e, rest);
      }
    }
  }

  /** When operations work, a copy that meets no missing file, or is lax, copies all there is. */
  lemma {:induction false} CopyWorks(plan: Plan, strict: bool, src: Files, snapshot: string, entries: seq<FileEntry>,
                                     files: Files, tick: int)
    requires FineFrom(plan, tick) && (strict ==> AllIn(src, snapshot, entries))
    ensures var a := CopyResult(plan, strict, src, snapshot, entries, files, tick);
      a.ok && a.files == CopiedFiles(src, files, snapshot, entries)
    decreases |entries|
  {
    if entries != [] {
      var e, rest := entries[0], entries[1..];
      var k := Key(snapshot, e.path);
      assert entries == [e] + rest && e in entries && forall d :: d in rest ==> d in entries;
      assert plan(tick).Fine? && plan(tick + 1).Fine?;
      CopiedCons(src, files, snapshot, e, rest);
      if k in src {
        CopyWorks(plan, strict, src, snapshot, rest, files[k := src[k]], tick + 2);
      } else {
        CopyWorks(plan, strict, src, snapshot, rest, files, tick + 1);
      }
    }
  }

  /** What is at `k` after copying: what the source has, if it is listed and there. */
  lemma {:induction false} CopiedAt(src: Files, files: Files, snapshot: string, entries: seq<FileEntry>, e: FileEntry)
    ensures var k, f := Key(snapshot, e.path), CopiedFiles(src, files, snapshot, entries);
      if e in entries && k in src then k in f && f[k] == src[k] else k !in src ==> SameAt(files, f, k)
    decreases |entries|
  {
    if entries != [] {
      var n := |entries| - 1;
      assert entries == entries[..n] + [entries[n]];
      CopiedAt(src, files, snapshot, entries[..n], e);
    }
  }

  /** What copying a snapshot does to a backend. */
  lemma SnapshotCopiedFacts(plan: Plan, strict: bool, src: Files, snap: Snapshot, t: VaultState, tick: int)
    ensures var c := SnapshotCopied(plan, strict, src, snap, t, tick);
      && Confined(snap.id, t, c.state)
      && (Honest(plan) && strict && c.ok ==> c.state == Copied(src, snap, t) && HasAll(src, snap))
      && (FineFrom(plan, tick) && (strict ==> HasAll(src, snap)) ==> c.ok && c.state == Copied(src, snap, t))
      && (Reliable(plan) && strict ==> (c.ok <==> HasAll(src, snap)))
  {
    RecordingIsConfined(plan(tick), t, snap);
    CopyIsConfined(plan, strict, src, snap.id, snap.entries, t.files, tick + 1);
    if Honest(plan) {
      CopyCompletes(plan, src, snap.id, snap.entries, t.files, tick + 1);
    }
    if FineFrom(plan, tick) && (strict ==> HasAll(src, snap)) {
      CopyWorks(plan, strict, src, snap.id, snap.entries, t.files, tick + 1);
    }
  }
}
