/** Copying a snapshot to other backends (crates/openvault-core/src/replicator.rs). */
module Replication {
  import opened Common
  import opened Storage
  import opened Healing
  import opened Copying

  /** How `replicate_snapshot` fared with one target. The first two count as success. */
  datatype Replica = Existing | Replicated | CopyFailed | VerifyFailed

  datatype ReplicaRun = ReplicaRun(state: VaultState, tick: int, replica: Replica)

  /** `replicate_snapshot` for one target, whatever fails. */
  function ReplicaResult(sha: Digest, plan: Plan, verify: bool, snap: Snapshot, src: Files, t: VaultState,
                         tick: int): ReplicaRun
  {
    if plan(tick).Fine? && Lookup(t.dir, snap.id).Some? then ReplicaRun(t, tick + 1, Existing)
    else
      var dir := Recorded(plan(tick + 1), t.dir, snap);
      if !Accepted(plan(tick + 1)) then ReplicaRun(VaultState(t.files, dir), tick + 2, CopyFailed)
      else
        var a := CopyResult(plan, true, src, snap.id, snap.entries, t.files, tick + 2);
        var state := VaultState(a.files, dir);
        if !a.ok then ReplicaRun(state, a.tick, CopyFailed)
        else if !verify then ReplicaRun(state, a.tick, Replicated)
        else
          var healthy := AllHealthy(ScanOf(sha, plan, a.tick, a.files, snap));
          ReplicaRun(state, a.tick + |snap.entries|, if healthy then Replicated else VerifyFailed)
  }

  method ReplicateTo(env: Env, sha: Digest, verify: bool, snap: Snapshot, source: Vault, target: Vault)
    returns (r: Replica)
    requires source != target
    modifies target, env`tick
    ensures ReplicaRun(StateOf(target), env.tick, r)
         == ReplicaResult(sha, env.plan, verify, snap, source.files, old(StateOf(target)), old(env.tick))
    ensures Confined(snap.id, old(StateOf(target)), StateOf(target))
  {
    ReplicaIsConfined(sha, env.plan, verify, snap, source.files, StateOf(target), env.tick);
    var known := target.LoadSnapshot(env, snap.id);
    if known.Some? {
      return Existing;
    }
    var ok := target.StoreSnapshot(env, snap);
    if !ok {
      return CopyFailed;
    }
    ok := CopyOrFail(env, source, target, snap);
    if !ok {
      return CopyFailed;
    }
    if verify {
      var scan := ScanSnapshot(env, sha, target, snap);
      if !AllHealthy(scan) {
        return VerifyFailed;
      }
    }
    return Replicated;
  }

  lemma ReplicaIsConfined(sha: Digest, plan: Plan, verify: bool, snap: Snapshot, src: Files, t: VaultState, tick: int)
    ensures Confined(snap.id, t, ReplicaResult(sha, plan, verify, snap, src, t, tick).state)
  {
    RecordingIsConfined(plan(tick + 1), t, snap);
    CopyIsConfined(plan, true, src, snap.id, snap.entries, t.files, tick + 2);
  }

  /** Whatever failed on the way, a target that already had the snapshot is left alone, and
      a replica that was made and verified is intact. */
  lemma ReplicaVerified(sha: Digest, plan: Plan, verify: bool, snap: Snapshot, src: Files, t: VaultState, tick: int)
    ensures var r := ReplicaResult(sha, plan, verify, snap, src, t, tick);
      && (r.replica == Existing ==> r.state == t && Lookup(t.dir, snap.id).Some?)
      && (r.replica == Replicated && verify ==> AllIntact(sha, r.state.files, snap))
  {
    var a := CopyResult(plan, true, src, snap.id, snap.entries, t.files, tick + 2);
    ScanIsRight(sha, plan, a.tick, a.files, snap);
  }

  lemma CopyIntactExactly(sha: Digest, src: Files, files: Files, snap: Snapshot)
    requires HasAll(src, snap)
    ensures AllIntact(sha, CopiedFiles(src, files, snap.id, snap.entries), snap) <==> AllIntact(sha, src, snap)
  {
    CopyHolds(src, files, snap.id, snap.entries);
  }

  /** On reliable storages, exactly when each outcome occurs, and what it leaves. */
  lemma ReplicaOutcomes(sha: Digest, plan: Plan, verify: bool, snap: Snapshot, src: Files, t: VaultState, tick: int)
    requires Reliable(plan)
    ensures var r := ReplicaResult(sha, plan, verify, snap, src, t, tick);
      var known := Lookup(t.dir, snap.id).Some?;
      && (r.replica == Existing <==> known)
      && (r.replica == CopyFailed <==> !known && !HasAll(src, snap))
      && (r.replica == VerifyFailed <==> !known && HasAll(src, snap) && verify && !AllIntact(sha, src, snap))
      && (!known ==> r.state.dir == Without(t.dir, snap.id) + [snap])
      && (!known && HasAll(src, snap) ==>
            && r.state == Copied(src, snap, t)
            && (AllIntact(sha, r.state.files, snap) <==> AllIntact(sha, src, snap)))
  {
    CopyCompletes(plan, src, snap.id, snap.entries, t.files, tick + 2);
    var a := CopyResult(plan, true, src, snap.id, snap.entries, t.files, tick + 2);
    ScanIsRight(sha, plan, a.tick, a.files, snap);
    if HasAll(src, snap) {
      CopyIntactExactly(sha, src, t.files, snap);
    }
  }

  predicate Succeeded(r: Replica) {
    r.Existing? || r.Replicated?
  }

  /** When a counted success is not an intact replica, if writes are honest: exactly when a
      replica that was found there is damaged, or a damaged source was copied to the end
      without verifying. */
  lemma SuccessButDamaged(sha: Digest, plan: Plan, verify: bool, snap: Snapshot, src: Files, t: VaultState, tick: int)
    requires Honest(plan)
    ensures var r := ReplicaResult(sha, plan, verify, snap, src, t, tick);
      Succeeded(r.replica) && !AllIntact(sha, r.state.files, snap)
      <==>
      if plan(tick).Fine? && Lookup(t.dir, snap.id).Some? then !AllIntact(sha, t.files, snap)
      else
        && Accepted(plan(tick + 1)) && CopyResult(plan, true, src, snap.id, snap.entries, t.files, tick + 2).ok
        && !verify && !AllIntact(sha, src, snap)
  {
    CopyCompletes(plan, src, snap.id, snap.entries, t.files, tick + 2);
    ReplicaVerified(sha, plan, verify, snap, src, t, tick);
    if HasAll(src, snap) {
      CopyIntactExactly(sha, src, t.files, snap);
    }
  }

  /** How the first of these comes about: the metadata is stored first, so a copy that fails
      at its first file leaves a target that looks like one that has the snapshot. The next
      attempt counts it as a success, on any backends and for any snapshot with files. */
  lemma RetryCountsBroken(sha: Digest, plan: Plan, verify: bool, snap: Snapshot, src: Files, t: VaultState)
    requires (forall n :: n != 3 ==> plan(n).Fine?) && plan(3).Refused?
    requires Lookup(t.dir, snap.id).None? && snap.entries != [] && AllIntact(sha, src, snap)
    requires !HealthyAt(sha, t.files, snap.id, snap.entries[0])
    ensures var first := ReplicaResult(sha, plan, verify, snap, src, t, 0);
      var second := ReplicaResult(sha, plan, verify, snap, src, first.state, first.tick);
      && first.replica == CopyFailed && second.replica == Existing
      && second.state == first.state && !AllIntact(sha, second.state.files, snap)
  {
    var e := snap.entries[0];
    assert e in snap.entries && HealthyAt(sha, src, snap.id, e);
    assert plan(0).Fine? && plan(1).Fine? && plan(2).Fine?;
    var a := CopyResult(plan, true, src, snap.id, snap.entries, t.files, 2);
    assert a == Attempt(t.files, 4, false);
    assert plan(4).Fine?;
    RecordedIsFound(t.dir, snap);
  }

  lemma {:induction false} RecordedIsFound(dir: Directory, snap: Snapshot)
    ensures Lookup(Without(dir, snap.id) + [snap], snap.id) == Some(snap)
    decreases |dir|
  {
    if dir != [] {
      RecordedIsFound(dir[1..], snap);
      var rest := Without(dir[1..], snap.id) + [snap];
      if dir[0].id != snap.id {
        assert Without(dir, snap.id) + [snap] == [dir[0]] + rest;
        assert ([dir[0]] + rest)[1..] == rest;
      } else {
        assert [] + Without(dir[1..], snap.id) == Without(dir[1..], snap.id);
      }
    }
  }

  // ---------------------------------------------------------------- all targets

  function Successes(results: seq<Replica>): int {
    if results == [] then 0
    else
      var m := |results| - 1;
      Successes(results[..m]) + if Succeeded(results[m]) then 1 else 0
  }

  /** How a target fared: as the result for it says, at some time. */
  ghost predicate Fared(sha: Digest, plan: Plan, verify: bool, snap: Snapshot, src: Files,
                        was: VaultState, now: VaultState, r: Replica)
  {
    exists tick, tick' :: ReplicaResult(sha, plan, verify, snap, src, was, tick) == ReplicaRun(now, tick', r)
  }

  /** `replicate_snapshot`. A target's failure does not stop the others. The report counts
      every target once; from an intact source on reliable storages none fails, and every
      replica made is intact. */
  method ReplicateSnapshot(env: Env, sha: Digest, verify: bool, snap: Snapshot, source: Vault, targets: seq<Vault>)
    returns (replicated: int, failed: int, results: seq<Replica>)
    requires source !in targets && Distinct(targets)
    modifies targets, env`tick
    ensures StateOf(source) == old(StateOf(source))
    ensures |results| == |targets| && replicated == Successes(results) && failed == |targets| - replicated
    ensures forall n :: 0 <= n < |targets| ==>
      Fared(sha, env.plan, verify, snap, source.files, old(StatesOf(targets))[n], StateOf(targets[n]), results[n])
    ensures forall n :: 0 <= n < |targets| ==>
      && (results[n].Existing? ==> StateOf(targets[n]) == old(StatesOf(targets))[n])
      && (results[n].Replicated? && verify ==> AllIntact(sha, targets[n].files, snap))
    ensures Reliable(env.plan) && AllIntact(sha, source.files, snap) ==>
      && failed == 0
      && forall n :: 0 <= n < |targets| ==>
           && (results[n].Existing? <==> Lookup(old(StatesOf(targets))[n].dir, snap.id).Some?)
           && (results[n].Replicated? ==> AllIntact(sha, targets[n].files, snap))
  {
    ghost var was, src, plan := StatesOf(targets), source.files, env.plan;
    replicated, failed, results := 0, 0, [];
    var i := 0;
    while i < |targets|
      invariant 0 <= i <= |targets| && |results| == i && StateOf(source) == old(StateOf(source)) && source.files == src
      invariant replicated == Successes(results) && failed == i - replicated
      invariant forall n :: i <= n < |targets| ==> StateOf(targets[n]) == was[n]
      invariant forall n :: 0 <= n < i ==>
        Fared(sha, plan, verify, snap, src, was[n], StateOf(targets[n]), results[n])
    {
      ghost var tick := env.tick;
      var r := ReplicateTo(env, sha, verify, snap, source, targets[i]);
      assert ReplicaResult(sha, plan, verify, snap, src, was[i], tick) == ReplicaRun(StateOf(targets[i]), env.tick, r);
      assert (results + [r])[..i] == results;
      if Succeeded(r) {
        replicated := replicated + 1;
      } else {
        failed := failed + 1;
      }
      results := results + [r];
      i := i + 1;
    }
    forall n | 0 <= n < |targets|
      ensures results[n].Existing? ==> StateOf(targets[n]) == was[n]
      ensures results[n].Replicated? && verify ==> AllIntact(sha, targets[n].files, snap)
    {
      VerifiedOrLeftAlone(sha, plan, verify, snap, src, was[n], StateOf(targets[n]), results[n]);
    }
    if Reliable(plan) && AllIntact(sha, src, snap) {
      forall n | 0 <= n < |targets|
        ensures Succeeded(results[n]) && (results[n].Existing? <==> Lookup(was[n].dir, snap.id).Some?)
        ensures results[n].Replicated? ==> AllIntact(sha, targets[n].files, snap)
      {
        NoTargetFails(sha, plan, verify, snap, src, was[n], StateOf(targets[n]), results[n]);
      }
      AllSucceeded(results);
    }
  }

  lemma VerifiedOrLeftAlone(sha: Digest, plan: Plan, verify: bool, snap: Snapshot, src: Files,
                            was: VaultState, now: VaultState, r: Replica)
    requires Fared(sha, plan, verify, snap, src, was, now, r)
    ensures r.Existing? ==> now == was
    ensures r.Replicated? && verify ==> AllIntact(sha, now.files, snap)
  {
    var tick, tick' :| ReplicaResult(sha, plan, verify, snap, src, was, tick) == ReplicaRun(now, tick', r);
    ReplicaVerified(sha, plan, verify, snap, src, was, tick);
  }

  /** From an intact source, on reliable storages, no target fails; each either had the
      snapshot and is as it was, or has an intact replica now. */
  lemma NoTargetFails(sha: Digest, plan: Plan, verify: bool, snap: Snapshot, src: Files,
                      was: VaultState, now: VaultState, r: Replica)
    requires Reliable(plan) && AllIntact(sha, src, snap)
    requires Fared(sha, plan, verify, snap, src, was, now, r)
    ensures Succeeded(r)
    ensures r.Existing? <==> Lookup(was.dir, snap.id).Some?
    ensures if r.Existing? then now == was else AllIntact(sha, now.files, snap)
  {
    var tick, tick' :| ReplicaResult(sha, plan, verify, snap, src, was, tick) == ReplicaRun(now, tick', r);
    ReplicaOutcomes(sha, plan, verify, snap, src, was, tick);
    assert HasAll(src, snap) by {
      forall e | e in snap.entries ensures Key(snap.id, e.path) in src {
        assert HealthyAt(sha, src, snap.id, e);
      }
    }
  }

  lemma {:induction false} AllSucceeded(results: seq<Replica>)
    requires forall n :: 0 <= n < |results| ==> Succeeded(results[n])
    ensures Successes(results) == |results|
  {
    if results != [] {
      AllSucceeded(results[..|results| - 1]);
    }
  }
}
