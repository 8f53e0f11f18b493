/** Giving every backend a snapshot: `auto_remediate` (crates/openvault-core/src/replicator.rs)
    and `remediate` (crates/openvault-core/src/policy.rs). */
module Remediation {
  import opened Common
  import opened Storage
  import opened Healing
  import opened Policies
  import opened Copying

  predicate Lacks(t: VaultState, source: string) {
    Latest(t.dir, source, false).None?
  }

  /** How many backends lack any snapshot of the source. */
  function Lacking(source: string, states: seq<VaultState>): int {
    if states == [] then 0
    else
      var m := |states| - 1;
      Lacking(source, states[..m]) + if Lacks(states[m], source) then 1 else 0
  }

  lemma {:induction false} LackingAt(source: string, states: seq<VaultState>, i: int)
    requires 0 <= i <= |states|
    ensures Lacking(source, states) >= 0
    ensures i < |states| && Lacks(states[i], source) ==> Lacking(source, states) > 0
  {
    if states != [] {
      var m := |states| - 1;
      LackingAt(source, states[..m], if i < m then i else m);
    }
  }

  /** A backend that lacks any snapshot of the source gets `snap` with its files. */
  function Remedied(src: Files, snap: Snapshot, t: VaultState): VaultState {
    if Latest(t.dir, snap.source, false).Some? then t
    else Copied(src, snap, t)
  }

  ghost predicate AllRemedied(src: Files, snap: Snapshot, was: seq<VaultState>, now: seq<VaultState>) {
    |now| == |was| && forall i :: 0 <= i < |was| ==> now[i] == Remedied(src, snap, was[i])
  }

  ghost predicate AllConfined(id: string, was: seq<VaultState>, now: seq<VaultState>) {
    |was| == |now| && forall i :: 0 <= i < |was| ==> Confined(id, was[i], now[i])
  }

  /** Whatever fails, remediation with `latest` touches on each backend only what belongs to
      that snapshot, and nothing if there is none. */
  ghost predicate Touched(latest: Option<Snapshot>, was: seq<VaultState>, now: seq<VaultState>) {
    if latest.None? then now == was else AllConfined(latest.value.id, was, now)
  }

  datatype Failure = NoSnapshot | Unavailable

  // ---------------------------------------------------------------- one backend

  /** What became of a backend: it had a snapshot already, got a copy, or the copy failed. */
  datatype Visit = Had | Served | Broke

  datatype Remedy = Remedy(state: VaultState, tick: int, visit: Visit)

  /** One backend, as `auto_remediate` (lax) and `remediate` (strict) treat it. A backend that
      cannot be asked counts as one without a snapshot. */
  function RemedyResult(plan: Plan, strict: bool, src: Files, snap: Snapshot, t: VaultState, tick: int): Remedy {
    if plan(tick).Fine? && !Lacks(t, snap.source) then Remedy(t, tick + 1, Had)
    else
      var c := SnapshotCopied(plan, strict, src, snap, t, tick + 1);
      Remedy(c.state, c.tick, if c.ok then Served else Broke)
  }

  method RemedyLaxly(env: Env, primary: Vault, target: Vault, snap: Snapshot) returns (v: Visit)
    requires primary != target
    modifies target, env`tick
    ensures Remedy(StateOf(target), env.tick, v)
         == RemedyResult(env.plan, false, primary.files, snap, old(StateOf(target)), old(env.tick))
  {
    var found := target.LatestSnapshot(env, snap.source, false);
    if found.Ok? && found.value.Some? {
      return Had;
    }
    var copied := CopySnapshot(env, primary, target, snap);
    v := if copied then Served else Broke;
  }

  method RemedyStrictlyOne(env: Env, primary: Vault, target: Vault, snap: Snapshot) returns (v: Visit)
    requires primary != target
    modifies target, env`tick
    ensures Remedy(StateOf(target), env.tick, v)
         == RemedyResult(env.plan, true, primary.files, snap, old(StateOf(target)), old(env.tick))
  {
    var found := target.LatestSnapshot(env, snap.source, false);
    if found.Ok? && found.value.Some? {
      return Had;
    }
    var stored := target.StoreSnapshot(env, snap);
    if !stored {
      return Broke;
    }
    var copied := CopyOrFail(env, primary, target, snap);
    v := if copied then Served else Broke;
  }

  /** A visit, at some time, that took `t` to `u`. */
  ghost predicate Visited(plan: Plan, strict: bool, src: Files, snap: Snapshot, t: VaultState, u: VaultState,
                          v: Visit)
  {
    exists tick, tick' :: RemedyResult(plan, strict, src, snap, t, tick) == Remedy(u, tick', v)
  }

  /** A backend that was served has a snapshot of its own, or a full copy of `snap`. */
  ghost predicate FullyServed(src: Files, snap: Snapshot, t: VaultState, u: VaultState) {
    (u == t && !Lacks(t, snap.source)) || (u == Copied(src, snap, t) && HasAll(src, snap))
  }

  lemma VisitFacts(plan: Plan, strict: bool, src: Files, snap: Snapshot, t: VaultState, u: VaultState, v: Visit)
    requires Visited(plan, strict, src, snap, t, u, v)
    ensures Confined(snap.id, t, u)
    ensures v.Had? ==> u == t && !Lacks(t, snap.source)
    ensures Honest(plan) && strict && !v.Broke? ==> FullyServed(src, snap, t, u)
    ensures Reliable(plan) ==>
      && (v.Had? <==> !Lacks(t, snap.source))
      && (v.Broke? <==> Lacks(t, snap.source) && strict && !HasAll(src, snap))
      && (!v.Broke? ==> u == Remedied(src, snap, t))
  {
    var tick, tick' :| RemedyResult(plan, strict, src, snap, t, tick) == Remedy(u, tick', v);
    SnapshotCopiedFacts(plan, strict, src, snap, t, tick + 1);
  }

  // ---------------------------------------------------------------- all backends

  /** The first backends have been visited, the others not touched. */
  ghost predicate VisitedUpTo(plan: Plan, strict: bool, src: Files, snap: Snapshot, was: seq<VaultState>,
                              now: seq<VaultState>, visits: seq<Visit>)
  {
    && |visits| <= |was| == |now|
    && (forall n :: 0 <= n < |visits| ==> Visited(plan, strict, src, snap, was[n], now[n], visits[n]))
    && (forall n :: |visits| <= n < |was| ==> now[n] == was[n])
  }

  lemma VisitStep(plan: Plan, strict: bool, src: Files, snap: Snapshot, was: seq<VaultState>, before: seq<VaultState>,
                  now: seq<VaultState>, visits: seq<Visit>, v: Visit)
    requires VisitedUpTo(plan, strict, src, snap, was, before, visits) && |visits| < |was| == |now|
    requires now == before[|visits| := now[|visits|]]
    requires Visited(plan, strict, src, snap, before[|visits|], now[|visits|], v)
    ensures VisitedUpTo(plan, strict, src, snap, was, now, visits + [v])
  {}

  function ServedCount(visits: seq<Visit>): int {
    if visits == [] then 0
    else ServedCount(visits[..|visits| - 1]) + if visits[|visits| - 1].Served? then 1 else 0
  }

  lemma ServedOneMore(visits: seq<Visit>, v: Visit)
    ensures ServedCount(visits + [v]) == ServedCount(visits) + if v.Served? then 1 else 0
  {
    assert (visits + [v])[..|visits|] == visits;
  }

  ghost predicate NoneBroke(visits: seq<Visit>) {
    forall n :: 0 <= n < |visits| ==> !visits[n].Broke?
  }

  ghost predicate AllServed(src: Files, snap: Snapshot, was: seq<VaultState>, now: seq<VaultState>) {
    |was| == |now| && forall i :: 0 <= i < |was| ==> FullyServed(src, snap, was[i], now[i])
  }

  ghost predicate AllHold(source: string, states: seq<VaultState>) {
    forall i :: 0 <= i < |states| ==> !Lacks(states[i], source)
  }

  /** What visiting does, whatever fails. */
  lemma VisitsAreConfined(plan: Plan, strict: bool, src: Files, snap: Snapshot, was: seq<VaultState>,
                          now: seq<VaultState>, visits: seq<Visit>)
    requires VisitedUpTo(plan, strict, src, snap, was, now, visits)
    ensures AllConfined(snap.id, was, now)
  {
    forall i | 0 <= i < |was| ensures Confined(snap.id, was[i], now[i]) {
      if i < |visits| {
        VisitFacts(plan, strict, src, snap, was[i], now[i], visits[i]);
      }
    }
  }

  /** If writes are honest, strict visits without a failure leave every backend with a snapshot. */
  lemma HonestVisits(plan: Plan, src: Files, snap: Snapshot, was: seq<VaultState>, now: seq<VaultState>,
                     visits: seq<Visit>)
    requires VisitedUpTo(plan, true, src, snap, was, now, visits) && |visits| == |was|
    requires Honest(plan) && NoneBroke(visits)
    ensures AllServed(src, snap, was, now) && AllHold(snap.source, now)
  {
    forall i | 0 <= i < |was| ensures FullyServed(src, snap, was[i], now[i]) && !Lacks(now[i], snap.source) {
      VisitFacts(plan, true, src, snap, was[i], now[i], visits[i]);
      CopiedHolds(src, snap, was[i]);
    }
  }

  lemma CopiedHolds(src: Files, snap: Snapshot, t: VaultState)
    ensures !Lacks(Copied(src, snap, t), snap.source)
  {
    var dir := Without(t.dir, snap.id) + [snap];
    LatestIsLatest(dir, snap.source, false);
    assert dir[|dir| - 1] == snap;
  }

  /** On reliable backends, visits without a failure remedy all that lack a snapshot. */
  lemma ReliableVisits(plan: Plan, strict: bool, src: Files, snap: Snapshot, was: seq<VaultState>,
                       now: seq<VaultState>, visits: seq<Visit>)
    requires VisitedUpTo(plan, strict, src, snap, was, now, visits) && |visits| == |was|
    requires Reliable(plan) && NoneBroke(visits)
    ensures AllRemedied(src, snap, was, now) && ServedCount(visits) == Lacking(snap.source, was)
    ensures strict && Lacking(snap.source, was) > 0 ==> HasAll(src, snap)
  {
    forall i | 0 <= i < |was|
      ensures now[i] == Remedied(src, snap, was[i]) && (visits[i].Served? <==> Lacks(was[i], snap.source))
      ensures strict && visits[i].Served? ==> HasAll(src, snap)
    {
      VisitFacts(plan, strict, src, snap, was[i], now[i], visits[i]);
    }
    CountsAgree(snap.source, was, visits);
    if Lacking(snap.source, was) > 0 {
      var i := LackingSomewhere(snap.source, was);
      assert visits[i].Served?;
    }
  }

  lemma {:induction false} CountsAgree(source: string, was: seq<VaultState>, visits: seq<Visit>)
    requires |visits| == |was| && forall i :: 0 <= i < |was| ==> (visits[i].Served? <==> Lacks(was[i], source))
    ensures ServedCount(visits) == Lacking(source, was)
  {
    if was != [] {
      var m := |was| - 1;
      CountsAgree(source, was[..m], visits[..m]);
    }
  }

  lemma {:induction false} LackingSomewhere(source: string, states: seq<VaultState>) returns (i: int)
    requires Lacking(source, states) > 0
    ensures 0 <= i < |states| && Lacks(states[i], source)
  {
    var m := |states| - 1;
    if Lacks(states[m], source) {
      i := m;
    } else {
      i := LackingSomewhere(source, states[..m]);
    }
  }

  method RemedyAllLaxly(env: Env, primary: Vault, targets: seq<Vault>, snap: Snapshot)
    returns (actions: int, ghost visits: seq<Visit>)
    requires primary !in targets && Distinct(targets)
    modifies targets, env`tick
    ensures |visits| == |targets| && actions == ServedCount(visits)
    ensures VisitedUpTo(env.plan, false, primary.files, snap, old(StatesOf(targets)), StatesOf(targets), visits)
  {
    ghost var was, src, plan := StatesOf(targets), primary.files, env.plan;
    actions, visits := 0, [];
    var i := 0;
    while i < |targets|
      invariant 0 <= i <= |targets| && primary.files == src
      invariant |visits| == i && actions == ServedCount(visits)
      invariant VisitedUpTo(plan, false, src, snap, was, StatesOf(targets), visits)
    {
      var v := VisitLaxly(env, primary, targets, i, snap, was, visits);
      ServedOneMore(visits, v);
      visits := visits + [v];
      if v.Served? {
        actions := actions + 1;
      }
      i := i + 1;
    }
  }

  method VisitLaxly(env: Env, primary: Vault, targets: seq<Vault>, i: int, snap: Snapshot,
                    ghost was: seq<VaultState>, ghost visits: seq<Visit>)
    returns (v: Visit)
    requires primary !in targets && Distinct(targets) && 0 <= i < |targets| && |visits| == i
    requires VisitedUpTo(env.plan, false, primary.files, snap, was, StatesOf(targets), visits)
    modifies targets[i], env`tick
    ensures primary.files == old(primary.files)
    ensures VisitedUpTo(env.plan, false, primary.files, snap, was, StatesOf(targets), visits + [v])
  {
    ghost var before, tick := StatesOf(targets), env.tick;
    v := RemedyLaxly(env, primary, targets[i], snap);
    OneChanged(targets, before, i);
    VisitMade(env.plan, false, primary.files, snap, before[i], StatesOf(targets)[i], v, tick, env.tick);
    VisitStep(env.plan, false, primary.files, snap, was, before, StatesOf(targets), visits, v);
  }

  lemma VisitMade(plan: Plan, strict: bool, src: Files, snap: Snapshot, t: VaultState, u: VaultState, v: Visit,
                  tick: int, tick': int)
    requires RemedyResult(plan, strict, src, snap, t, tick) == Remedy(u, tick', v)
    ensures Visited(plan, strict, src, snap, t, u, v)
  {}

  /** Visits the targets up to the first that fails. */
  method RemedyAllStrictly(env: Env, primary: Vault, targets: seq<Vault>, snap: Snapshot)
    returns (r: Result<int, Failure>, ghost visits: seq<Visit>)
    requires primary !in targets && Distinct(targets)
    modifies targets, env`tick
    ensures VisitedUpTo(env.plan, true, primary.files, snap, old(StatesOf(targets)), StatesOf(targets), visits)
    ensures r.Ok? ==> |visits| == |targets| && NoneBroke(visits) && r.value == ServedCount(visits)
    ensures r.Err? ==> visits != [] && visits[|visits| - 1].Broke?
  {
    ghost var was, src, plan := StatesOf(targets), primary.files, env.plan;
    var actions, i := 0, 0;
    visits := [];
    while i < |targets|
      invariant 0 <= i <= |targets| && primary.files == src
      invariant |visits| == i && actions == ServedCount(visits) && NoneBroke(visits)
      invariant VisitedUpTo(plan, true, src, snap, was, StatesOf(targets), visits)
    {
      var v := VisitStrictly(env, primary, targets, i, snap, was, visits);
      ServedOneMore(visits, v);
      visits := visits + [v];
      if v.Broke? {
        return Err(Unavailable), visits;
      }
      if v.Served? {
        actions := actions + 1;
      }
      i := i + 1;
    }
    return Ok(actions), visits;
  }

  method VisitStrictly(env: Env, primary: Vault, targets: seq<Vault>, i: int, snap: Snapshot,
                       ghost was: seq<VaultState>, ghost visits: seq<Visit>)
    returns (v: Visit)
    requires primary !in targets && Distinct(targets) && 0 <= i < |targets| && |visits| == i
    requires VisitedUpTo(env.plan, true, primary.files, snap, was, StatesOf(targets), visits)
    modifies targets[i], env`tick
    ensures primary.files == old(primary.files)
    ensures VisitedUpTo(env.plan, true, primary.files, snap, was, StatesOf(targets), visits + [v])
  {
    ghost var before, tick := StatesOf(targets), env.tick;
    v := RemedyStrictlyOne(env, primary, targets[i], snap);
    OneChanged(targets, before, i);
    VisitMade(env.plan, true, primary.files, snap, before[i], StatesOf(targets)[i], v, tick, env.tick);
    VisitStep(env.plan, true, primary.files, snap, was, before, StatesOf(targets), visits, v);
  }

  // ---------------------------------------------------------------- remediation

  /** What remediation did, whatever failed: it visited backends with the primary's latest
      snapshot, or did nothing. */
  ghost predicate Remediated(plan: Plan, strict: bool, primary: VaultState, source: string, was: seq<VaultState>,
                             now: seq<VaultState>)
  {
    || now == was
    || (var latest := Latest(primary.dir, source, false);
        && latest.Some?
        && exists visits :: VisitedUpTo(plan, strict, primary.files, latest.value, was, now, visits))
  }

  lemma RemediatedIsConfined(plan: Plan, strict: bool, primary: VaultState, source: string, was: seq<VaultState>,
                             now: seq<VaultState>)
    requires Remediated(plan, strict, primary, source, was, now)
    ensures Touched(Latest(primary.dir, source, false), was, now)
  {
    var latest := Latest(primary.dir, source, false);
    if now != was {
      var visits :| VisitedUpTo(plan, strict, primary.files, latest.value, was, now, visits);
      VisitsAreConfined(plan, strict, primary.files, latest.value, was, now, visits);
    }
  }

  /** When all backends hold a snapshot, the policy is satisfied exactly if their names meet it. */
  lemma HoldingSatisfies(policy: Policy, primary: Vault, targets: seq<Vault>, source: string)
    requires Latest(primary.dir, source, false).Some? && AllHold(source, StatesOf(targets))
    ensures var all := [primary] + targets;
      Satisfied(policy, all, source) <==> Meets(policy, Names(BackendsOf(all)))
  {
    var all := [primary] + targets;
    var backends := BackendsOf(all);
    forall b | b in backends ensures Holds(b, source) {
      var i :| 0 <= i < |backends| && backends[i] == b;
      if i > 0 {
        assert all[i] == targets[i - 1] && !Lacks(StatesOf(targets)[i - 1], source);
      }
    }
    AllHoldingCount(backends, source);
  }

  lemma HoldingSuffices(policy: Policy, primary: Vault, targets: seq<Vault>, source: string)
    ensures Latest(primary.dir, source, false).Some? && AllHold(source, StatesOf(targets)) ==>
      AsGoodAsCanBe(policy, [primary] + targets, source)
  {
    if Latest(primary.dir, source, false).Some? && AllHold(source, StatesOf(targets)) {
      HoldingSatisfies(policy, primary, targets, source);
    }
  }

  /** The policy is satisfied exactly if the names of all backends can satisfy it. */
  ghost predicate AsGoodAsCanBe(policy: Policy, storages: seq<Vault>, source: string)
    reads storages
  {
    Satisfied(policy, storages, source) <==> Meets(policy, Names(BackendsOf(storages)))
  }

  /** What `auto_remediate` achieves, given whether the policy was satisfied. With reliable
      backends nothing is done when it was; when it was violated and the primary has no
      snapshot it is an error, and otherwise every backend that lacks a snapshot gets the
      primary's latest. Whatever fails, backends are visited once, and an error leaves them alone. */
  ghost predicate LaxlyRemediated(plan: Plan, source: string, primary: VaultState, satisfied: bool,
                                  was: seq<VaultState>, now: seq<VaultState>, r: Result<int, Failure>)
  {
    var latest := Latest(primary.dir, source, false);
    && (r.Err? ==> now == was)
    && Remediated(plan, false, primary, source, was, now) && Touched(latest, was, now)
    && (Reliable(plan) ==>
          && (r.Err? <==> !satisfied && latest.None?)
          && (satisfied ==> r == Ok(0) && now == was)
          && (!satisfied && latest.Some? ==>
                && r == Ok(Lacking(source, was))
                && AllRemedied(primary.files, latest.value, was, now) && AllHold(source, now)))
  }

  /** `auto_remediate`. When every backend holds a snapshot afterwards, the policy is satisfied
      exactly if the names of all backends can satisfy it. */
  method AutoRemediate(env: Env, policy: Policy, source: string, primary: Vault, targets: seq<Vault>)
    returns (r: Result<int, Failure>)
    requires primary !in targets && Distinct(targets)
    modifies targets, env`tick
    ensures StateOf(primary) == old(StateOf(primary))
    ensures LaxlyRemediated(env.plan, source, StateOf(primary), old(Satisfied(policy, [primary] + targets, source)),
                            old(StatesOf(targets)), StatesOf(targets), r)
    ensures Latest(primary.dir, source, false).Some? && AllHold(source, StatesOf(targets)) ==>
      AsGoodAsCanBe(policy, [primary] + targets, source)
  {
    ghost var satisfied := Satisfied(policy, [primary] + targets, source);
    ghost var was, mine, plan := StatesOf(targets), StateOf(primary), env.plan;
    var health := CheckPolicy(env, policy, source, [primary] + targets);
    assert StatesOf(targets) == was && StateOf(primary) == mine;
    r := Ok(0);
    if Healthy(health) {
      NothingRemediated(plan, source, mine, satisfied, was);
    } else {
      r := CopyFromPrimary(env, source, primary, targets);
      ViolatedBefore(plan, source, mine, satisfied, was, StatesOf(targets), r);
    }
    HoldingSuffices(policy, primary, targets, source);
  }

  lemma NothingRemediated(plan: Plan, source: string, primary: VaultState, satisfied: bool, was: seq<VaultState>)
    requires satisfied
    ensures LaxlyRemediated(plan, source, primary, satisfied, was, was, Ok(0))
    ensures StrictlyRemediated(plan, source, primary, satisfied, was, was, Ok(0))
  {
    RemediatedIsConfined(plan, false, primary, source, was, was);
    RemediatedIsConfined(plan, true, primary, source, was, was);
  }

  lemma ViolatedBefore(plan: Plan, source: string, primary: VaultState, satisfied: bool, was: seq<VaultState>,
                       now: seq<VaultState>, r: Result<int, Failure>)
    requires LaxlyRemediated(plan, source, primary, false, was, now, r) && (Reliable(plan) ==> !satisfied)
    ensures LaxlyRemediated(plan, source, primary, satisfied, was, now, r)
  {}

  /** `auto_remediate` after the policy was found violated. */
  method CopyFromPrimary(env: Env, source: string, primary: Vault, targets: seq<Vault>)
    returns (r: Result<int, Failure>)
    requires primary !in targets && Distinct(targets)
    modifies targets, env`tick
    ensures StateOf(primary) == old(StateOf(primary))
    ensures LaxlyRemediated(env.plan, source, StateOf(primary), false, old(StatesOf(targets)), StatesOf(targets), r)
  {
    LatestIsLatest(primary.dir, source, false);
    ghost var was, mine, plan := StatesOf(targets), StateOf(primary), env.plan;
    RemediatedIsConfined(plan, false, mine, source, was, was);
    var latest := primary.LatestSnapshot(env, source, false);
    assert StatesOf(targets) == was;
    if latest.Err? {
      return Err(Unavailable);
    }
    if latest.value.None? {
      return Err(NoSnapshot);
    }
    var snap := latest.value.value;
    var actions, visits := RemedyAllLaxly(env, primary, targets, snap);
    RemediatedIsConfined(plan, false, mine, source, was, StatesOf(targets));
    if Reliable(plan) {
      LaxVisits(plan, mine.files, snap, was, StatesOf(targets), visits);
    }
    return Ok(actions);
  }

  lemma LaxVisits(plan: Plan, src: Files, snap: Snapshot, was: seq<VaultState>, now: seq<VaultState>,
                  visits: seq<Visit>)
    requires VisitedUpTo(plan, false, src, snap, was, now, visits) && |visits| == |was| && Reliable(plan)
    ensures AllRemedied(src, snap, was, now) && ServedCount(visits) == Lacking(snap.source, was)
    ensures AllHold(snap.source, now)
  {
    forall i | 0 <= i < |visits| ensures !visits[i].Broke? {
      VisitFacts(plan, false, src, snap, was[i], now[i], visits[i]);
    }
    ReliableVisits(plan, false, src, snap, was, now, visits);
    RemediedHold(src, snap, was, now);
  }

  lemma RemediedHold(src: Files, snap: Snapshot, was: seq<VaultState>, now: seq<VaultState>)
    requires AllRemedied(src, snap, was, now)
    ensures AllHold(snap.source, now)
  {
    forall i | 0 <= i < |now| ensures !Lacks(now[i], snap.source) {
      CopiedHolds(src, snap, was[i]);
    }
  }

  /** What `remediate` achieves, given whether the policy was satisfied: as `auto_remediate`,
      but the first failure ends it, a file that the primary cannot supply included. If it
      succeeds after a violation, then whatever failed on the way without being noticed, every
      backend holds a snapshot, its own or a full copy. */
  ghost predicate StrictlyRemediated(plan: Plan, source: string, primary: VaultState, satisfied: bool,
                                     was: seq<VaultState>, now: seq<VaultState>, r: Result<int, Failure>)
  {
    var latest := Latest(primary.dir, source, false);
    && Remediated(plan, true, primary, source, was, now) && Touched(latest, was, now)
    && (Honest(plan) && r.Ok? && !satisfied ==>
          latest.Some? && AllHold(source, now) && AllServed(primary.files, latest.value, was, now))
    && (Reliable(plan) ==>
          && (satisfied ==> r == Ok(0) && now == was)
          && (r.Err? <==>
                !satisfied && (latest.None? || (Lacking(source, was) > 0 && !HasAll(primary.files, latest.value))))
          && (r.Ok? && !satisfied ==>
                r.value == Lacking(source, was) && AllRemedied(primary.files, latest.value, was, now)))
  }

  /** `PolicyEngine::remediate`. */
  method RemedyStrictly(env: Env, policy: Policy, source: string, primary: Vault, targets: seq<Vault>)
    returns (r: Result<int, Failure>)
    requires primary !in targets && Distinct(targets)
    modifies targets, env`tick
    ensures StateOf(primary) == old(StateOf(primary))
    ensures StrictlyRemediated(env.plan, source, StateOf(primary), old(Satisfied(policy, [primary] + targets, source)),
                               old(StatesOf(targets)), StatesOf(targets), r)
    ensures Latest(primary.dir, source, false).Some? && AllHold(source, StatesOf(targets)) ==>
      AsGoodAsCanBe(policy, [primary] + targets, source)
  {
    ghost var satisfied := Satisfied(policy, [primary] + targets, source);
    ghost var was, mine, plan := StatesOf(targets), StateOf(primary), env.plan;
    var health := CheckPolicy(env, policy, source, [primary] + targets);
    assert StatesOf(targets) == was && StateOf(primary) == mine;
    r := Ok(0);
    if Healthy(health) {
      NothingRemediated(plan, source, mine, satisfied, was);
    } else {
      r := CopyStrictlyFromPrimary(env, source, primary, targets);
      ViolatedBeforeStrictly(plan, source, mine, satisfied, was, StatesOf(targets), r);
    }
    HoldingSuffices(policy, primary, targets, source);
  }

  lemma ViolatedBeforeStrictly(plan: Plan, source: string, primary: VaultState, satisfied: bool, was: seq<VaultState>,
                               now: seq<VaultState>, r: Result<int, Failure>)
    requires StrictlyRemediated(plan, source, primary, false, was, now, r) && (Reliable(plan) ==> !satisfied)
    ensures StrictlyRemediated(plan, source, primary, satisfied, was, now, r)
  {}

  /** `remediate` after the policy was found violated. */
  method CopyStrictlyFromPrimary(env: Env, source: string, primary: Vault, targets: seq<Vault>)
    returns (r: Result<int, Failure>)
    requires primary !in targets && Distinct(targets)
    modifies targets, env`tick
    ensures StateOf(primary) == old(StateOf(primary))
    ensures StrictlyRemediated(env.plan, source, StateOf(primary), false, old(StatesOf(targets)), StatesOf(targets), r)
  {
    LatestIsLatest(primary.dir, source, false);
    ghost var was, mine, plan := StatesOf(targets), StateOf(primary), env.plan;
    RemediatedIsConfined(plan, true, mine, source, was, was);
    var latest := primary.LatestSnapshot(env, source, false);
    assert StatesOf(targets) == was;
    if latest.Err? {
      return Err(Unavailable);
    }
    if latest.value.None? {
      return Err(NoSnapshot);
    }
    var snap := latest.value.value;
    ghost var visits;
    r, visits := RemedyAllStrictly(env, primary, targets, snap);
    RemediatedIsConfined(plan, true, mine, source, was, StatesOf(targets));
    StrictVisits(plan, mine.files, snap, was, StatesOf(targets), visits, r);
  }

  lemma StrictVisits(plan: Plan, src: Files, snap: Snapshot, was: seq<VaultState>, now: seq<VaultState>,
                     visits: seq<Visit>, r: Result<int, Failure>)
    requires VisitedUpTo(plan, true, src, snap, was, now, visits)
    requires r.Ok? ==> |visits| == |was| && NoneBroke(visits) && r.value == ServedCount(visits)
    requires r.Err? ==> visits != [] && visits[|visits| - 1].Broke?
    ensures Honest(plan) && r.Ok? ==> AllServed(src, snap, was, now) && AllHold(snap.source, now)
    ensures Reliable(plan) ==>
      && (r.Err? <==> Lacking(snap.source, was) > 0 && !HasAll(src, snap))
      && (r.Ok? ==> r.value == Lacking(snap.source, was) && AllRemedied(src, snap, was, now))
  {
    if r.Ok? {
      if Honest(plan) {
        HonestVisits(plan, src, snap, was, now, visits);
      }
      if Reliable(plan) {
        ReliableVisits(plan, true, src, snap, was, now, visits);
      }
    } else {
      var i := |visits| - 1;
      VisitFacts(plan, true, src, snap, was[i], now[i], visits[i]);
      LackingAt(snap.source, was, i);
    }
  }

  // ---------------------------------------------------------------- safety

  // What remediation may spoil.

  /** When a healthy file of the snapshot stays healthy, if all else works: exactly when the
      backend could be asked and held a snapshot, or the primary's file is healthy or absent.
      What the primary has is copied unchecked. */
  lemma SpoilsExactly(sha: Digest, plan: Plan, strict: bool, src: Files, snap: Snapshot, t: VaultState, tick: int,
                      e: FileEntry)
    requires FineFrom(plan, tick + 1) && (strict ==> HasAll(src, snap))
    requires e in snap.entries && HealthyAt(sha, t.files, snap.id, e)
    ensures HealthyAt(sha, RemedyResult(plan, strict, src, snap, t, tick).state.files, snap.id, e)
      <==>
      || (plan(tick).Fine? && !Lacks(t, snap.source))
      || Key(snap.id, e.path) !in src || HealthyAt(sha, src, snap.id, e)
  {
    SnapshotCopiedFacts(plan, strict, src, snap, t, tick + 1);
    CopiedAt(src, t.files, snap.id, snap.entries, e);
  }

  /** So one failed answer is enough to lose a good copy: a backend holds the latest snapshot
      intact, the primary's own files are damaged, and the listing of the backend fails. It
      gets the damaged files, and that is counted as a remedy. */
  lemma GoodCopyOverwritten(sha: Digest, plan: Plan, strict: bool, src: Files, snap: Snapshot, t: VaultState)
    requires !plan(0).Fine? && FineFrom(plan, 1)
    requires Latest(t.dir, snap.source, false) == Some(snap) && AllIntact(sha, t.files, snap)
    requires HasAll(src, snap) && !AllIntact(sha, src, snap)
    ensures var r := RemedyResult(plan, strict, src, snap, t, 0);
      r.visit == Served && !AllIntact(sha, r.state.files, snap)
  {
    var e :| e in snap.entries && !HealthyAt(sha, src, snap.id, e);
    SnapshotCopiedFacts(plan, strict, src, snap, t, 1);
    SpoilsExactly(sha, plan, strict, src, snap, t, 0, e);
  }

  // What remediation keeps.

  /** The checksum that belongs at each key. */
  type Due = Key -> string

  ghost predicate Agrees(due: Due, s: Snapshot) {
    forall e :: e in s.entries ==> due(Key(s.id, e.path)) == e.checksum
  }

  /** The listed files that `src` has are healthy. */
  predicate NoneDamaged(sha: Digest, src: Files, snapshot: string, entries: seq<FileEntry>) {
    forall e :: e in entries && Key(snapshot, e.path) in src ==> HealthyAt(sha, src, snapshot, e)
  }

  predicate GoodAt(sha: Digest, due: Due, files: Files, k: Key) {
    k in files && sha(files[k]) == due(k)
  }

  /** No file that had the checksum due at its key has lost it. */
  ghost predicate Unspoilt(sha: Digest, due: Due, f: Files, f': Files) {
    forall k :: GoodAt(sha, due, f, k) ==> GoodAt(sha, due, f', k)
  }

  lemma {:induction false} CopyUnspoilt(sha: Digest, due: Due, plan: Plan, strict: bool, src: Files, snapshot: string,
                                        entries: seq<FileEntry>, files: Files, tick: int)
    requires Atomic(plan) && NoneDamaged(sha, src, snapshot, entries)
    requires forall e :: e in entries ==> due(Key(snapshot, e.path)) == e.checksum
    ensures Unspoilt(sha, due, files, CopyResult(plan, strict, src, snapshot, entries, files, tick).files)
    decreases |entries|
  {
    if entries != [] {
      var e := entries[0];
      var k := Key(snapshot, e.path);
      var got := Found(plan(tick), src, k);
      assert e in entries && forall d :: d in entries[1..] ==> d in entries;
      if got.None? {
        CopyUnspoilt(sha, due, plan, strict, src, snapshot, entries[1..], files, tick + 1);
      } else {
        assert HealthyAt(sha, src, snapshot, e);
        var now := Written(plan(tick + 1), files, k, got.value);
        assert Unspoilt(sha, due, files, now);
        CopyUnspoilt(sha, due, plan, strict, src, snapshot, entries[1..], now, tick + 2);
      }
    }
  }

  /** With whole writes and undamaged files on the primary, a visit spoils nothing. */
  lemma VisitUnspoilt(sha: Digest, due: Due, plan: Plan, strict: bool, src: Files, snap: Snapshot, t: VaultState,
                      u: VaultState, v: Visit)
    requires Atomic(plan) && Visited(plan, strict, src, snap, t, u, v)
    requires NoneDamaged(sha, src, snap.id, snap.entries) && Agrees(due, snap)
    ensures Unspoilt(sha, due, t.files, u.files)
    ensures forall s :: s in u.dir ==> s in t.dir || s == snap
  {
    var tick, tick' :| RemedyResult(plan, strict, src, snap, t, tick) == Remedy(u, tick', v);
    CopyUnspoilt(sha, due, plan, strict, src, snap.id, snap.entries, t.files, tick + 2);
    RemovedIsGone(t.dir, snap.id);
  }
}
