/** Maintenance of the replicas (crates/openvault-core/src/replicator.rs). */
module Maintenance {
  import opened Common
  import opened Storage
  import opened Healing
  import opened HealingTheorems
  import opened Policies
  import opened Copying
  import opened Remediation

  // ---------------------------------------------------------------- one replica

  /** The latest snapshot of the source, if there is one, is intact on `files`. */
  ghost predicate LatestIntact(sha: Digest, dir: Directory, files: Files, source: string) {
    var latest := Latest(dir, source, false);
    latest.Some? ==> AllIntact(sha, files, latest.value)
  }

  ghost predicate LatestDistinct(dir: Directory, source: string) {
    var latest := Latest(dir, source, false);
    latest.Some? ==> DistinctPaths(latest.value.entries)
  }

  /** A target that is healed as `maintain_321` does it ends intact, when the source is. */
  lemma HealedIsIntact(sha: Digest, plan: Plan, src: Files, snap: Snapshot, files: Files, tick: int)
    requires Reliable(plan) && DistinctPaths(snap.entries) && AllIntact(sha, src, snap)
    ensures AllIntact(sha, HealResult(sha, plan, DEFAULT_CONFIG, src, snap, files, tick).files, snap)
  {
    HealRun(sha, plan, DEFAULT_CONFIG, src, snap, files, tick);
    var f := HealResult(sha, plan, DEFAULT_CONFIG, src, snap, files, tick).files;
    NoneHealable(sha, f, [src], snap.id, snap.entries);
    forall e | e in snap.entries ensures OnSomeSource(sha, [src], snap.id, e) {
      assert HealthyAt(sha, [src][0], snap.id, e);
    }
  }

  /** How many files of the backend's latest snapshot are damaged there and intact on `src`. */
  ghost function HealableIn(sha: Digest, src: Files, source: string, t: VaultState): int {
    var latest := Latest(t.dir, source, false);
    if latest.None? then 0 else HealableCount(sha, t.files, [src], latest.value.id, latest.value.entries)
  }

  ghost function TotalHealable(sha: Digest, src: Files, source: string, states: seq<VaultState>): int {
    if states == [] then 0
    else
      var m := |states| - 1;
      TotalHealable(sha, src, source, states[..m]) + HealableIn(sha, src, source, states[m])
  }

  lemma HealableOneMore(sha: Digest, src: Files, source: string, states: seq<VaultState>, i: int)
    requires 0 <= i < |states|
    ensures TotalHealable(sha, src, source, states[..i + 1])
         == TotalHealable(sha, src, source, states[..i]) + HealableIn(sha, src, source, states[i])
  {
    assert states[..i + 1][..i] == states[..i];
  }

  lemma NoneInIntact(sha: Digest, files: Files, src: Files, snap: Snapshot)
    requires AllIntact(sha, files, snap)
    ensures HealableCount(sha, files, [src], snap.id, snap.entries) == 0
  {
    if HealableCount(sha, files, [src], snap.id, snap.entries) > 0 {
      SomeHealable(sha, files, [src], snap.id, snap.entries);
    }
  }

  /** What healing one replica may do to it, whatever fails: nothing, or one run of `heal` on
      its latest snapshot. */
  ghost predicate MayHeal(sha: Digest, plan: Plan, src: Files, source: string, t: VaultState, u: VaultState) {
    || u == t
    || (var latest := Latest(t.dir, source, false);
        && latest.Some? && u.dir == t.dir
        && exists tick :: HealResult(sha, plan, DEFAULT_CONFIG, src, latest.value, t.files, tick).files == u.files)
  }

  /** Heals one replica's latest snapshot from the primary, if a scan finds it damaged. */
  method MaintainReplica(env: Env, sha: Digest, source: string, primary: Vault, replica: Vault) returns (healed: int)
    requires primary != replica
    modifies replica`files, env`tick
    ensures Reliable(env.plan) && LatestDistinct(replica.dir, source)
         && LatestIntact(sha, replica.dir, primary.files, source)
      ==> LatestIntact(sha, replica.dir, replica.files, source)
    ensures MayHeal(sha, env.plan, primary.files, source, old(StateOf(replica)), StateOf(replica))
    ensures Reliable(env.plan) && LatestDistinct(replica.dir, source)
      ==> healed == old(HealableIn(sha, primary.files, source, StateOf(replica)))
  {
    healed := 0;
    var latest := replica.LatestSnapshot(env, source, false);
    if latest.Err? || latest.value.None? {
      return;
    }
    var snap := latest.value.value;
    ghost var at := env.tick;
    var scan := ScanSnapshot(env, sha, replica, snap);
    ScanIsRight(sha, env.plan, at, replica.files, snap);
    if !AllHealthy(scan) {
      ghost var was, tick := replica.files, env.tick;
      var failed, results;
      healed, failed, results := Heal(env, sha, replica, primary, snap, DEFAULT_CONFIG);
      assert HealResult(sha, env.plan, DEFAULT_CONFIG, primary.files, snap, was, tick).files == replica.files;
      if Reliable(env.plan) && DistinctPaths(snap.entries) {
        HealRun(sha, env.plan, DEFAULT_CONFIG, primary.files, snap, was, tick);
        if AllIntact(sha, primary.files, snap) {
          HealedIsIntact(sha, env.plan, primary.files, snap, was, tick);
        }
      }
    } else {
      NoneInIntact(sha, replica.files, primary.files, snap);
    }
  }

  // ---------------------------------------------------------------- all replicas

  /** The backend's latest snapshot of the source is recorded on the primary without damage. */
  ghost predicate Curable(sha: Digest, src: Files, source: string, t: VaultState) {
    LatestDistinct(t.dir, source) && LatestIntact(sha, t.dir, src, source)
  }

  lemma RemedyIsCurable(sha: Digest, primary: VaultState, snap: Snapshot, t: VaultState)
    requires Latest(primary.dir, snap.source, false) == Some(snap)
    requires Curable(sha, primary.files, snap.source, primary) && Curable(sha, primary.files, snap.source, t)
    ensures var u := Remedied(primary.files, snap, t);
      Curable(sha, primary.files, snap.source, u) && Latest(u.dir, snap.source, false).Some?
  {
    if Latest(t.dir, snap.source, false).None? {
      StoredBecomesLatest(t.dir, snap);
    }
  }

  ghost predicate AllCurable(sha: Digest, src: Files, source: string, states: seq<VaultState>) {
    forall i :: 0 <= i < |states| ==> Curable(sha, src, source, states[i])
  }

  ghost predicate AllCured(sha: Digest, source: string, states: seq<VaultState>) {
    forall i :: 0 <= i < |states| ==> LatestIntact(sha, states[i].dir, states[i].files, source)
  }

  ghost predicate SameDirs(was: seq<VaultState>, now: seq<VaultState>) {
    |was| == |now| && forall i :: 0 <= i < |was| ==> now[i].dir == was[i].dir
  }

  ghost predicate AllMayHeal(sha: Digest, plan: Plan, src: Files, source: string, was: seq<VaultState>,
                             now: seq<VaultState>)
  {
    |was| == |now| && forall i :: 0 <= i < |was| ==> MayHeal(sha, plan, src, source, was[i], now[i])
  }

  method HealReplicas(env: Env, sha: Digest, source: string, primary: Vault, replicas: seq<Vault>) returns (healed: int)
    requires primary !in replicas && Distinct(replicas)
    modifies replicas, env`tick
    ensures primary.files == old(primary.files) && primary.dir == old(primary.dir)
    ensures HealingMade(env.plan, sha, source, primary.files, old(StatesOf(replicas)), StatesOf(replicas), healed)
  {
    ghost var was, src, plan := StatesOf(replicas), primary.files, env.plan;
    HealStart(plan, sha, src, source, was);
    healed := 0;
    var i := 0;
    while i < |replicas|
      invariant 0 <= i <= |replicas| && primary.files == src
      invariant HealedUpTo(plan, sha, src, source, was, StatesOf(replicas), i, healed)
    {
      healed := HealReplicaAt(env, sha, source, primary, replicas, i, healed, was);
      i := i + 1;
    }
    HealDone(plan, sha, src, source, was, StatesOf(replicas), healed);
  }

  lemma HealStart(plan: Plan, sha: Digest, src: Files, source: string, was: seq<VaultState>)
    ensures HealedUpTo(plan, sha, src, source, was, was, 0, 0)
  {}

  lemma HealDone(plan: Plan, sha: Digest, src: Files, source: string, was: seq<VaultState>, now: seq<VaultState>,
                 healed: int)
    requires HealedUpTo(plan, sha, src, source, was, now, |was|, healed)
    ensures SameDirs(was, now) && AllMayHeal(sha, plan, src, source, was, now)
    ensures Reliable(plan) && AllCurable(sha, src, source, was)
      ==> (AllCured(sha, source, now) && healed == TotalHealable(sha, src, source, was))
  {
    assert was[..|was|] == was;
  }

  /** The first `i` replicas have been healed. */
  ghost predicate HealedUpTo(plan: Plan, sha: Digest, src: Files, source: string, was: seq<VaultState>,
                             now: seq<VaultState>, i: int, healed: int)
  {
    && 0 <= i <= |was| && SameDirs(was, now)
    && (forall n :: 0 <= n < |was| && i <= n ==> now[n] == was[n])
    && (forall n :: 0 <= n < |was| && n < i ==> MayHeal(sha, plan, src, source, was[n], now[n]))
    && (Reliable(plan) && AllCurable(sha, src, source, was) ==>
          && healed == TotalHealable(sha, src, source, was[..i])
          && forall n :: 0 <= n < |was| && n < i ==> LatestIntact(sha, now[n].dir, now[n].files, source))
  }

  lemma HealStep(plan: Plan, sha: Digest, src: Files, source: string, was: seq<VaultState>, before: seq<VaultState>,
                 now: seq<VaultState>, i: int, healed: int, more: int)
    requires HealedUpTo(plan, sha, src, source, was, before, i, healed) && i < |was| == |now|
    requires now == before[i := now[i]] && now[i].dir == before[i].dir
    requires MayHeal(sha, plan, src, source, before[i], now[i])
    requires Reliable(plan) && LatestDistinct(before[i].dir, source) ==> more == HealableIn(sha, src, source, before[i])
    requires Reliable(plan) && Curable(sha, src, source, before[i]) ==>
      LatestIntact(sha, now[i].dir, now[i].files, source)
    ensures HealedUpTo(plan, sha, src, source, was, now, i + 1, healed + more)
  {
    HealableOneMore(sha, src, source, was, i);
    assert before[i] == was[i];
    if Reliable(plan) && AllCurable(sha, src, source, was) {
      assert Curable(sha, src, source, was[i]);
    }
  }

  method HealReplicaAt(env: Env, sha: Digest, source: string, primary: Vault, replicas: seq<Vault>, i: int, healed: int,
                       ghost was: seq<VaultState>) returns (now: int)
    requires primary !in replicas && Distinct(replicas) && 0 <= i < |replicas| == |was|
    requires HealedUpTo(env.plan, sha, primary.files, source, was, StatesOf(replicas), i, healed)
    modifies replicas[i], env`tick
    ensures primary.files == old(primary.files)
    ensures HealedUpTo(env.plan, sha, primary.files, source, was, StatesOf(replicas), i + 1, now)
  {
    ghost var before := StatesOf(replicas);
    var more := MaintainReplica(env, sha, source, primary, replicas[i]);
    OneChanged(replicas, before, i);
    HealStep(env.plan, sha, primary.files, source, was, before, StatesOf(replicas), i, healed, more);
    now := healed + more;
  }

  // ---------------------------------------------------------------- maintenance

  datatype Actions = Actions(remediated: int, healed: int)

  datatype Report = Report(policyHealthy: bool, corrupted: int, actions: Actions)

  /** `maintain_321`. With reliable backends whose latest snapshots are intact on the
      primary, a completed maintenance leaves every replica's latest snapshot intact; and
      where the policy was violated and remediation is on, every replica holds one. The
      report counts what there was to do: damaged backends, replicas without a snapshot and
      damaged files. It fails exactly when it should remedy and the primary has nothing to
      copy. The primary is never written. Whatever fails, a replica is at most remedied and
      healed once; MaintenanceUnspoilt says what that keeps. */
  method Maintain(env: Env, sha: Digest, policy: Policy, autoRemediate: bool, source: string, primary: Vault,
                  replicas: seq<Vault>)
    returns (r: Result<Report, Failure>)
    requires primary !in replicas && Distinct(replicas)
    modifies replicas, env`tick
    ensures StateOf(primary) == old(StateOf(primary))
    ensures Maintained(env.plan, sha, source, StateOf(primary), autoRemediate,
                       old(Satisfied(policy, [primary] + replicas, source)),
                       old(SpoiltCount(sha, source, StatesOf([primary] + replicas))),
                       old(StatesOf(replicas)), StatesOf(replicas), r)
    ensures Latest(primary.dir, source, false).Some? && AllHold(source, StatesOf(replicas)) ==>
      AsGoodAsCanBe(policy, [primary] + replicas, source)
  {
    ghost var satisfied := Satisfied(policy, [primary] + replicas, source);
    ghost var spoilt := SpoiltCount(sha, source, StatesOf([primary] + replicas));
    ghost var was, mine, plan := StatesOf(replicas), StateOf(primary), env.plan;
    TailStates(primary, replicas);
    var health, corrupt := CheckAll(env, sha, policy, source, [primary] + replicas);
    TailStates(primary, replicas);
    assert StateOf(primary) == mine && StatesOf(replicas) == was;
    var remedy := autoRemediate && !Healthy(health);
    var done := RemedyThenHeal(env, sha, policy, remedy, source, primary, replicas);
    ghost var now := StatesOf(replicas);
    RepairedTells(plan, sha, source, mine, autoRemediate, satisfied, spoilt, was, now, Healthy(health), corrupt, done);
    HoldingSuffices(policy, primary, replicas, source);
    return if done.Err? then Err(done.error) else Ok(Report(Healthy(health), corrupt, done.value));
  }

  /** What maintenance achieves, given whether the policy was satisfied and how many backends
      were spoilt. With reliable backends the report is right, maintenance fails exactly when
      it should remedy and the primary has nothing to copy, and where it remedied every replica
      holds a snapshot. Whatever fails, each replica is at most remedied and healed once. */
  ghost predicate Maintained(plan: Plan, sha: Digest, source: string, primary: VaultState, autoRemediate: bool,
                             satisfied: bool, spoilt: int, was: seq<VaultState>, now: seq<VaultState>,
                             r: Result<Report, Failure>)
  {
    var remedied := autoRemediate && !satisfied;
    && (r.Err? ==> now == was)
    && AllMayMaintain(sha, plan, primary, source, was, now)
    && (Reliable(plan) ==>
          && (r.Err? <==> remedied && Latest(primary.dir, source, false).None?)
          && (r.Ok? ==>
                && (r.value.policyHealthy <==> satisfied)
                && r.value.corrupted == spoilt
                && r.value.actions.remediated == (if remedied then Lacking(source, was) else 0)
                && (remedied ==> AllHold(source, now))
                && Mended(sha, source, primary, was, now, r.value.actions)))
  }

  /** What the second and third step of `maintain_321` do, given that the policy is `violated`
      or not, and remediation is on or not. */
  ghost predicate Repaired(plan: Plan, sha: Digest, source: string, primary: VaultState, violated: bool, remedy: bool,
                           was: seq<VaultState>, now: seq<VaultState>, r: Result<Actions, Failure>)
  {
    && (r.Err? ==> now == was)
    && AllMayMaintain(sha, plan, primary, source, was, now)
    && (Reliable(plan) && (remedy ==> violated) ==>
          && (r.Err? <==> remedy && Latest(primary.dir, source, false).None?)
          && (r.Ok? ==> r.value.remediated == if remedy then Lacking(source, was) else 0)
          && (r.Ok? && remedy ==> AllHold(source, now))
          && (r.Ok? ==> Mended(sha, source, primary, was, now, r.value)))
  }

  lemma RepairedTells(plan: Plan, sha: Digest, source: string, primary: VaultState, autoRemediate: bool,
                      satisfied: bool, spoilt: int, was: seq<VaultState>, now: seq<VaultState>,
                      healthy: bool, corrupt: int, done: Result<Actions, Failure>)
    requires Repaired(plan, sha, source, primary, !satisfied, autoRemediate && !healthy, was, now, done)
    requires Reliable(plan) ==> (healthy <==> satisfied) && corrupt == spoilt
    ensures Maintained(plan, sha, source, primary, autoRemediate, satisfied, spoilt, was, now,
                       if done.Err? then Err(done.error) else Ok(Report(healthy, corrupt, done.value)))
  {}

  /** The second and third step of `maintain_321`, with the numbers of their actions. */
  method RemedyThenHeal(env: Env, sha: Digest, policy: Policy, remedy: bool, source: string, primary: Vault,
                        replicas: seq<Vault>)
    returns (r: Result<Actions, Failure>)
    requires primary !in replicas && Distinct(replicas)
    modifies replicas, env`tick
    ensures StateOf(primary) == old(StateOf(primary))
    ensures Repaired(env.plan, sha, source, StateOf(primary), old(!Satisfied(policy, [primary] + replicas, source)),
                     remedy, old(StatesOf(replicas)), StatesOf(replicas), r)
  {
    ghost var violated := !Satisfied(policy, [primary] + replicas, source);
    ghost var was, mine, plan := StatesOf(replicas), StateOf(primary), env.plan;
    var actions: Result<int, Failure> := Ok(0);
    if remedy {
      actions := RemedyReplicas(env, sha, policy, source, primary, replicas);
    }
    ghost var mid := StatesOf(replicas);
    if actions.Err? {
      r := Err(actions.error);
      RemedyFailed(plan, sha, source, mine, violated, was, mid, r);
      return;
    }
    var healed := HealReplicas(env, sha, source, primary, replicas);
    r := Ok(Actions(actions.value, healed));
    HealedAfterRemedy(plan, sha, source, mine, violated, remedy, was, mid, StatesOf(replicas), actions.value, healed);
  }

  lemma RemedyFailed(plan: Plan, sha: Digest, source: string, primary: VaultState, violated: bool,
                     was: seq<VaultState>, mid: seq<VaultState>, r: Result<Actions, Failure>)
    requires r.Err? && RemedyMade(plan, sha, source, primary, violated, was, mid, Err(r.error))
    ensures Repaired(plan, sha, source, primary, violated, true, was, mid, r)
  {
    Untouched(sha, plan, primary, source, was);
  }

  lemma HealedAfterRemedy(plan: Plan, sha: Digest, source: string, primary: VaultState, violated: bool, remedy: bool,
                          was: seq<VaultState>, mid: seq<VaultState>, now: seq<VaultState>,
                          remediated: int, healed: int)
    requires if remedy then RemedyMade(plan, sha, source, primary, violated, was, mid, Ok(remediated))
             else mid == was && remediated == 0
    requires HealingMade(plan, sha, source, primary.files, mid, now, healed)
    ensures Repaired(plan, sha, source, primary, violated, remedy, was, now, Ok(Actions(remediated, healed)))
  {
    MaintainedEach(sha, plan, primary, source, was, mid, now);
    forall i | 0 <= i < |now| && AllHold(source, mid) ensures !Lacks(now[i], source) {
      assert now[i].dir == mid[i].dir && !Lacks(mid[i], source);
    }
  }

  /** What healing all replicas does. */
  ghost predicate HealingMade(plan: Plan, sha: Digest, source: string, src: Files, was: seq<VaultState>,
                              now: seq<VaultState>, healed: int)
  {
    && SameDirs(was, now) && AllMayHeal(sha, plan, src, source, was, now)
    && (Reliable(plan) && AllCurable(sha, src, source, was) ==>
          AllCured(sha, source, now) && healed == TotalHealable(sha, src, source, was))
  }

  /** What remediation within `maintain_321` does: among the rest, it adds no damage to heal. */
  ghost predicate RemedyMade(plan: Plan, sha: Digest, source: string, primary: VaultState, violated: bool,
                             was: seq<VaultState>, now: seq<VaultState>, r: Result<int, Failure>)
  {
    && |now| == |was| && (r.Err? ==> now == was)
    && Remediated(plan, false, primary, source, was, now)
    && (Reliable(plan) && violated ==>
          && (r.Err? <==> Latest(primary.dir, source, false).None?)
          && (r.Ok? ==> r.value == Lacking(source, was) && AllHold(source, now))
          && (r.Ok? ==> NoDamageAdded(sha, source, primary, was, now)))
  }

  lemma Untouched(sha: Digest, plan: Plan, primary: VaultState, source: string, was: seq<VaultState>)
    ensures AllMayMaintain(sha, plan, primary, source, was, was)
  {
    forall i | 0 <= i < |was| ensures MayMaintain(sha, plan, primary, source, was[i], was[i]) {
      assert MayRemedy(plan, primary, source, was[i], was[i]);
    }
  }

  /** If the replicas' latest snapshots are intact on the primary, and its own if it had to
      be copied, then these actions were all that was needed to make every replica intact. */
  ghost predicate Mended(sha: Digest, source: string, primary: VaultState,
                         was: seq<VaultState>, now: seq<VaultState>, actions: Actions)
  {
    && (actions.remediated > 0 ==> Curable(sha, primary.files, source, primary))
    && AllCurable(sha, primary.files, source, was)
    ==> (AllCured(sha, source, now) && actions.healed == TotalHealable(sha, primary.files, source, was))
  }

  /** The coordinator's `check_health`: the policy, and a scan of every backend. */
  method CheckAll(env: Env, sha: Digest, policy: Policy, source: string, storages: seq<Vault>)
    returns (health: PolicyHealth, corrupt: int)
    modifies env`tick
    ensures StatesOf(storages) == old(StatesOf(storages))
    ensures Satisfied(policy, storages, source) == old(Satisfied(policy, storages, source))
    ensures Healthy(health) ==> Satisfied(policy, storages, source)
    ensures Reliable(env.plan) ==>
      && (Healthy(health) <==> Satisfied(policy, storages, source))
      && corrupt == SpoiltCount(sha, source, StatesOf(storages))
  {
    health := CheckPolicy(env, policy, source, storages);
    corrupt := CountCorrupt(env, sha, source, storages);
  }

  lemma TailStates(primary: Vault, replicas: seq<Vault>)
    ensures StatesOf([primary] + replicas) == [StateOf(primary)] + StatesOf(replicas)
  {}

  method RemedyReplicas(env: Env, ghost sha: Digest, policy: Policy, source: string, primary: Vault,
                        replicas: seq<Vault>)
    returns (r: Result<int, Failure>)
    requires primary !in replicas && Distinct(replicas)
    modifies replicas, env`tick
    ensures primary.files == old(primary.files) && primary.dir == old(primary.dir)
    ensures RemedyMade(env.plan, sha, source, StateOf(primary), old(!Satisfied(policy, [primary] + replicas, source)),
                       old(StatesOf(replicas)), StatesOf(replicas), r)
  {
    ghost var was := StatesOf(replicas);
    ghost var satisfied := Satisfied(policy, [primary] + replicas, source);
    r := AutoRemediate(env, policy, source, primary, replicas);
    if Reliable(env.plan) && !satisfied && r.Ok? {
      LatestIsLatest(primary.dir, source, false);
      AfterRemedy(sha, StateOf(primary), source, was, StatesOf(replicas));
    }
  }

  ghost predicate NoDamageAdded(sha: Digest, source: string, primary: VaultState, was: seq<VaultState>,
                                now: seq<VaultState>)
  {
    && (Lacking(source, was) > 0 ==> Curable(sha, primary.files, source, primary))
    && AllCurable(sha, primary.files, source, was)
    ==> (AllCurable(sha, primary.files, source, now)
         && TotalHealable(sha, primary.files, source, now) == TotalHealable(sha, primary.files, source, was))
  }

  lemma AfterRemedy(sha: Digest, primary: VaultState, source: string, was: seq<VaultState>, now: seq<VaultState>)
    requires var latest := Latest(primary.dir, source, false);
      latest.Some? && latest.value.source == source && AllRemedied(primary.files, latest.value, was, now)
    ensures NoDamageAdded(sha, source, primary, was, now)
  {
    var snap := Latest(primary.dir, source, false).value;
    if Lacking(source, was) <= 0 {
      forall i | 0 <= i < |was| ensures now[i] == was[i] {
        LackingAt(source, was, i);
      }
      assert now == was;
    } else if Curable(sha, primary.files, source, primary) && AllCurable(sha, primary.files, source, was) {
      forall i | 0 <= i < |was| ensures Curable(sha, primary.files, source, now[i]) {
        RemedyIsCurable(sha, primary, snap, was[i]);
      }
      RemedyAddsNoDamage(sha, primary.files, snap, was, now);
    }
  }

  /** A copy of an intact snapshot needs no healing. */
  lemma {:induction false} RemedyAddsNoDamage(sha: Digest, src: Files, snap: Snapshot, was: seq<VaultState>,
                                              now: seq<VaultState>)
    requires AllRemedied(src, snap, was, now) && AllIntact(sha, src, snap)
    ensures TotalHealable(sha, src, snap.source, now) == TotalHealable(sha, src, snap.source, was)
    decreases |was|
  {
    if was != [] {
      var m := |was| - 1;
      RemedyAddsNoDamage(sha, src, snap, was[..m], now[..m]);
      if Lacks(was[m], snap.source) {
        StoredBecomesLatest(was[m].dir, snap);
        CopyIsIntact(sha, src, was[m].files, snap.id, snap.entries);
        NoneInIntact(sha, now[m].files, src, snap);
      }
    }
  }

  // ---------------------------------------------------------------- scans

  predicate Spoilt(sha: Digest, source: string, t: VaultState) {
    var latest := Latest(t.dir, source, false);
    latest.Some? && !AllIntact(sha, t.files, latest.value)
  }

  /** On how many backends the latest snapshot of the source is not intact. */
  function SpoiltCount(sha: Digest, source: string, states: seq<VaultState>): int {
    if states == [] then 0
    else
      var m := |states| - 1;
      SpoiltCount(sha, source, states[..m]) + if Spoilt(sha, source, states[m]) then 1 else 0
  }

  method FindsSpoilt(env: Env, sha: Digest, source: string, storage: Vault) returns (spoilt: bool)
    modifies env`tick
    ensures Reliable(env.plan) ==> spoilt == Spoilt(sha, source, StateOf(storage))
  {
    var latest := storage.LatestSnapshot(env, source, false);
    if latest.Err? || latest.value.None? {
      return false;
    }
    ghost var at := env.tick;
    var scan := ScanSnapshot(env, sha, storage, latest.value.value);
    ScanIsRight(sha, env.plan, at, storage.files, latest.value.value);
    return !AllHealthy(scan);
  }

  /** The scans of the coordinator's `check_health`: how many backends are damaged. */
  method CountCorrupt(env: Env, sha: Digest, source: string, storages: seq<Vault>) returns (corrupt: int)
    modifies env`tick
    ensures Reliable(env.plan) ==> corrupt == SpoiltCount(sha, source, StatesOf(storages))
  {
    ghost var states := StatesOf(storages);
    corrupt := 0;
    for i := 0 to |storages|
      invariant StatesOf(storages) == states
      invariant Reliable(env.plan) ==> corrupt == SpoiltCount(sha, source, states[..i])
    {
      assert states[..i + 1][..i] == states[..i] && states[i] == StateOf(storages[i]);
      var spoilt := FindsSpoilt(env, sha, source, storages[i]);
      if spoilt {
        corrupt := corrupt + 1;
      }
    }
    assert states[..|storages|] == states;
  }

  // ---------------------------------------------------------------- safety

  /** What maintenance may do to a replica, whatever fails: remediation takes `t` to some
      state, and healing takes that to `u`. */
  ghost predicate MayMaintain(sha: Digest, plan: Plan, primary: VaultState, source: string, t: VaultState,
                              u: VaultState)
  {
    exists mid :: MayRemedy(plan, primary, source, t, mid) && MayHeal(sha, plan, primary.files, source, mid, u)
  }

  ghost predicate MayRemedy(plan: Plan, primary: VaultState, source: string, t: VaultState, u: VaultState) {
    || u == t
    || (var latest := Latest(primary.dir, source, false);
        latest.Some? && exists v :: Visited(plan, false, primary.files, latest.value, t, u, v))
  }

  ghost predicate AllMayMaintain(sha: Digest, plan: Plan, primary: VaultState, source: string, was: seq<VaultState>,
                                 now: seq<VaultState>)
  {
    |was| == |now| && forall i :: 0 <= i < |was| ==> MayMaintain(sha, plan, primary, source, was[i], now[i])
  }

  lemma MaintainedEach(sha: Digest, plan: Plan, primary: VaultState, source: string, was: seq<VaultState>,
                       mid: seq<VaultState>, now: seq<VaultState>)
    requires |mid| == |was| && Remediated(plan, false, primary, source, was, mid)
    requires AllMayHeal(sha, plan, primary.files, source, mid, now)
    ensures AllMayMaintain(sha, plan, primary, source, was, now)
  {
    forall i | 0 <= i < |was| ensures MayMaintain(sha, plan, primary, source, was[i], now[i]) {
      RemediatedEach(plan, primary, source, was, mid, i);
      assert MayHeal(sha, plan, primary.files, source, mid[i], now[i]);
    }
  }

  lemma RemediatedEach(plan: Plan, primary: VaultState, source: string, was: seq<VaultState>, now: seq<VaultState>,
                       i: int)
    requires |was| == |now| && Remediated(plan, false, primary, source, was, now) && 0 <= i < |was|
    ensures MayRemedy(plan, primary, source, was[i], now[i])
  {
    if now != was {
      var snap := Latest(primary.dir, source, false).value;
      var visits :| VisitedUpTo(plan, false, primary.files, snap, was, now, visits);
      if i < |visits| {
        assert Visited(plan, false, primary.files, snap, was[i], now[i], visits[i]);
      }
    }
  }

  /** Healing spoils nothing: what it writes has the checksum recorded for its key. */
  lemma HealUnspoilt(sha: Digest, due: Due, plan: Plan, src: Files, source: string, t: VaultState, u: VaultState)
    requires Atomic(plan) && MayHeal(sha, plan, src, source, t, u)
    requires forall s :: s in t.dir ==> Agrees(due, s)
    ensures Unspoilt(sha, due, t.files, u.files)
  {
    if u != t {
      LatestIsLatest(t.dir, source, false);
      var s := Latest(t.dir, source, false).value;
      var tick :| HealResult(sha, plan, DEFAULT_CONFIG, src, s, t.files, tick).files == u.files;
      forall k | GoodAt(sha, due, t.files, k) ensures GoodAt(sha, due, u.files, k) {
        HealKeepsGood(sha, due, plan, src, s, t.files, tick, k);
      }
    }
  }

  lemma HealKeepsGood(sha: Digest, due: Due, plan: Plan, src: Files, s: Snapshot, files: Files, tick: int, k: Key)
    requires Atomic(plan) && Agrees(due, s) && GoodAt(sha, due, files, k)
    ensures GoodAt(sha, due, HealResult(sha, plan, DEFAULT_CONFIG, src, s, files, tick).files, k)
  {
    var checks := Checks(sha, plan, tick, files, s.id, s.entries);
    var j := Job(files, tick + |s.entries|, 0, 0, []);
    var f := HealAllFrom(sha, plan, DEFAULT_CONFIG, [src], s.id, checks, j).files;
    HealIsHealFromOne(sha, plan, DEFAULT_CONFIG, src, s, files, tick);
    HealTouchesDamageOnly(sha, plan, DEFAULT_CONFIG, [src], s.id, checks, j, k);
    ChecksComeFromEntries(sha, plan, tick, files, s.id, s.entries);
    if !SameAt(files, f, k) {
      var c :| c in checks && !c.healthy && k == Key(s.id, c.path) && k in f && sha(f[k]) == c.expected;
      var e :| e in s.entries && c.path == e.path && c.expected == e.checksum;
    }
  }

  /** Maintenance spoils nothing, whatever fails, as long as writes happen whole or not at all
      and the primary's latest snapshot is undamaged: on every replica, each file that has the
      checksum recorded for its key keeps it. (Records of the same key are taken to agree; see
      GoodCopyOverwritten for a damaged primary.) */
  lemma MaintenanceUnspoilt(sha: Digest, due: Due, plan: Plan, primary: VaultState, source: string, t: VaultState,
                            u: VaultState)
    requires Atomic(plan) && MayMaintain(sha, plan, primary, source, t, u)
    requires var latest := Latest(primary.dir, source, false);
      latest.Some? ==>
        Agrees(due, latest.value) && NoneDamaged(sha, primary.files, latest.value.id, latest.value.entries)
    requires forall s :: s in t.dir ==> Agrees(due, s)
    ensures Unspoilt(sha, due, t.files, u.files)
    ensures forall s :: Agrees(due, s) && AllIntact(sha, t.files, s) ==> AllIntact(sha, u.files, s)
  {
    var mid :| MayRemedy(plan, primary, source, t, mid) && MayHeal(sha, plan, primary.files, source, mid, u);
    if mid != t {
      var snap := Latest(primary.dir, source, false).value;
      var v :| Visited(plan, false, primary.files, snap, t, mid, v);
      VisitUnspoilt(sha, due, plan, false, primary.files, snap, t, mid, v);
    }
    HealUnspoilt(sha, due, plan, primary.files, source, mid, u);
    forall s | Agrees(due, s) && AllIntact(sha, t.files, s) ensures AllIntact(sha, u.files, s) {
      UnspoiltIntact(sha, due, t.files, u.files, s);
    }
  }

  lemma UnspoiltIntact(sha: Digest, due: Due, f: Files, f': Files, s: Snapshot)
    requires Unspoilt(sha, due, f, f') && Agrees(due, s) && AllIntact(sha, f, s)
    ensures AllIntact(sha, f', s)
  {
    forall e | e in s.entries ensures HealthyAt(sha, f', s.id, e) {
      assert HealthyAt(sha, f, s.id, e) && GoodAt(sha, due, f, Key(s.id, e.path));
    }
  }
}
