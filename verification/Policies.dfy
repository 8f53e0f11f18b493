/** The 3-2-1 policy (crates/openvault-core/src/policy.rs). */
module Policies {
  import opened Common
  import opened Storage

  datatype Policy = Policy(minCopies: int, minMedia: int, requireOffsite: bool, offsite: seq<string>)

  /** What the policy looks at in a backend: its name and its snapshots. */
  datatype Backend = Backend(name: string, dir: Directory)

  ghost function BackendsOf(storages: seq<Vault>): (r: seq<Backend>)
    reads storages
    ensures |r| == |storages|
    ensures forall i :: 0 <= i < |storages| ==> r[i] == Backend(storages[i].name, storages[i].dir)
  {
    if storages == [] then []
    else
      var n := |storages| - 1;
      BackendsOf(storages[..n]) + [Backend(storages[n].name, storages[n].dir)]
  }

  predicate Holds(b: Backend, source: string) {
    Latest(b.dir, source, false).Some?
  }

  /** The kinds of the backends that hold a snapshot of the source, one entry a backend. */
  function Copies(backends: seq<Backend>, source: string): seq<string> {
    if backends == [] then []
    else
      var n := |backends| - 1;
      Copies(backends[..n], source) + (if Holds(backends[n], source) then [backends[n].name] else [])
  }

  function NameSet(names: seq<string>): set<string> {
    set name | name in names
  }

  /** The policy, from its definition: enough backends hold a snapshot of the source, of
      enough kinds, one of them off site if that is required. */
  predicate Meets(policy: Policy, copies: seq<string>) {
    && |copies| >= policy.minCopies
    && |NameSet(copies)| >= policy.minMedia
    && (policy.requireOffsite ==> exists name :: name in copies && name in policy.offsite)
  }

  ghost predicate Satisfied(policy: Policy, storages: seq<Vault>, source: string)
    reads storages
  {
    Meets(policy, Copies(BackendsOf(storages), source))
  }

  datatype Violation = InsufficientCopies | InsufficientMediaTypes | NoOffsiteCopy

  datatype PolicyHealth = PolicyHealth(copies: int, media: int, hasOffsite: bool, violations: seq<Violation>)

  predicate Healthy(h: PolicyHealth) {
    h.violations == []
  }

  method Evaluate(policy: Policy, copies: int, media: int, hasOffsite: bool) returns (h: PolicyHealth)
    ensures h.copies == copies && h.media == media && h.hasOffsite == hasOffsite
    ensures InsufficientCopies in h.violations <==> copies < policy.minCopies
    ensures InsufficientMediaTypes in h.violations <==> media < policy.minMedia
    ensures NoOffsiteCopy in h.violations <==> policy.requireOffsite && !hasOffsite
    ensures forall i, j :: 0 <= i < j < |h.violations| ==> h.violations[i] != h.violations[j]
    ensures Healthy(h) <==>
      copies >= policy.minCopies && media >= policy.minMedia && (policy.requireOffsite ==> hasOffsite)
  {
    var violations := [];
    if copies < policy.minCopies {
      violations := violations + [InsufficientCopies];
    }
    if media < policy.minMedia {
      violations := violations + [InsufficientMediaTypes];
    }
    if policy.requireOffsite && !hasOffsite {
      violations := violations + [NoOffsiteCopy];
    }
    return PolicyHealth(copies, media, hasOffsite, violations);
  }

  /** `names` without its repetitions. */
  function Dedup(names: seq<string>): seq<string> {
    if names == [] then []
    else
      var n := |names| - 1;
      var front := Dedup(names[..n]);
      if names[n] in front then front else front + [names[n]]
  }

  lemma {:induction false} DedupCounts(names: seq<string>)
    ensures |Dedup(names)| == |NameSet(names)|
    ensures forall x :: x in Dedup(names) <==> x in names
  {
    if names != [] {
      var n := |names| - 1;
      DedupCounts(names[..n]);
      assert names == names[..n] + [names[n]];
      assert NameSet(names) == NameSet(names[..n]) + {names[n]};
      CardGrows(NameSet(names[..n]), names[n]);
    }
  }

  lemma CardGrows<T>(s: set<T>, x: T)
    ensures x in s ==> |s + {x}| == |s|
    ensures x !in s ==> |s + {x}| == |s| + 1
  {
    if x in s {
      assert s + {x} == s;
    }
  }

  lemma NamesFewer(a: seq<string>, b: seq<string>)
    requires forall x :: x in a ==> x in b
    ensures |NameSet(a)| <= |NameSet(b)|
  {
    assert NameSet(b) == NameSet(a) + (NameSet(b) - NameSet(a));
  }

  /** The names under which backends answer that they hold a snapshot of the source, when the
      first is asked at `tick`. A backend that cannot be asked does not count. */
  function Heard(plan: Plan, tick: int, backends: seq<Backend>, source: string): seq<string> {
    if backends == [] then []
    else
      var n := |backends| - 1;
      Heard(plan, tick, backends[..n], source) + NameHeard(plan(tick + n), backends[n], source)
  }

  function NameHeard(o: Outcome, b: Backend, source: string): seq<string> {
    if o.Fine? && Holds(b, source) then [b.name] else []
  }

  lemma {:induction false} HeardAreCopies(plan: Plan, tick: int, backends: seq<Backend>, source: string)
    ensures |Heard(plan, tick, backends, source)| <= |Copies(backends, source)|
    ensures forall x :: x in Heard(plan, tick, backends, source) ==> x in Copies(backends, source)
    ensures Reliable(plan) ==> Heard(plan, tick, backends, source) == Copies(backends, source)
    decreases |backends|
  {
    if backends != [] {
      HeardAreCopies(plan, tick, backends[..|backends| - 1], source);
    }
  }

  /** The backends that can be asked and hold a snapshot of the source. */
  function Answering(plan: Plan, tick: int, backends: seq<Backend>, source: string): set<int> {
    set i | 0 <= i < |backends| && plan(tick + i).Fine? && Latest(backends[i].dir, source, false).Some?
  }

  lemma AnsweringOneMore(plan: Plan, tick: int, backends: seq<Backend>, source: string)
    requires backends != []
    ensures var n := |backends| - 1;
      var front := Answering(plan, tick, backends[..n], source);
      && n !in front && (forall i :: i in front ==> 0 <= i < n)
      && Answering(plan, tick, backends, source)
         == if plan(tick + n).Fine? && Holds(backends[n], source) then front + {n} else front
  {}

  /** Exactly these count, each once, under its own name. */
  lemma {:induction false} HeardExactly(plan: Plan, tick: int, backends: seq<Backend>, source: string)
    ensures |Heard(plan, tick, backends, source)| == |Answering(plan, tick, backends, source)|
    ensures forall x :: x in Heard(plan, tick, backends, source) <==>
      exists i :: i in Answering(plan, tick, backends, source) && backends[i].name == x
    decreases |backends|
  {
    if backends != [] {
      var n := |backends| - 1;
      HeardExactly(plan, tick, backends[..n], source);
      AnsweringOneMore(plan, tick, backends, source);
      var front, all := Answering(plan, tick, backends[..n], source), Answering(plan, tick, backends, source);
      var before, heard := Heard(plan, tick, backends[..n], source), Heard(plan, tick, backends, source);
      forall x ensures x in heard <==> exists i :: i in all && backends[i].name == x {
        if x in before {
          var i :| i in front && backends[..n][i].name == x;
          assert i in all && backends[i].name == x;
        }
        if i :| i in all && backends[i].name == x {
          assert i == n || (i in front && backends[..n][i].name == x);
        }
      }
    }
  }

  lemma HeardOneMore(plan: Plan, tick: int, backends: seq<Backend>, source: string, i: int)
    requires 0 <= i < |backends|
    ensures Heard(plan, tick, backends[..i + 1], source)
         == if plan(tick + i).Fine? && Holds(backends[i], source)
            then Heard(plan, tick, backends[..i], source) + [backends[i].name]
            else Heard(plan, tick, backends[..i], source)
  {
    assert backends[..i + 1][..i] == backends[..i];
  }

  /** `check_health` judges the policy by the backends that could be asked: exactly, whatever
      fails. So health is never reported wrongly, and with reliable backends it is reported
      exactly when it holds. */
  method CheckPolicy(env: Env, policy: Policy, source: string, storages: seq<Vault>) returns (h: PolicyHealth)
    modifies env`tick
    ensures var heard := Heard(env.plan, old(env.tick), BackendsOf(storages), source);
      && h.copies == |heard| && h.media == |NameSet(heard)|
      && (h.hasOffsite <==> exists name :: name in heard && name in policy.offsite)
      && (InsufficientCopies in h.violations <==> |heard| < policy.minCopies)
      && (InsufficientMediaTypes in h.violations <==> |NameSet(heard)| < policy.minMedia)
      && (NoOffsiteCopy in h.violations <==>
            policy.requireOffsite && forall name :: name in heard ==> name !in policy.offsite)
      && (Healthy(h) <==> Meets(policy, heard))
    ensures Healthy(h) ==> Satisfied(policy, storages, source)
    ensures Reliable(env.plan) ==>
      && h.copies == |Copies(BackendsOf(storages), source)|
      && h.media == |NameSet(Copies(BackendsOf(storages), source))|
      && (Satisfied(policy, storages, source) ==> Healthy(h))
  {
    var tally := Tally([], 0, false);
    ghost var plan, start, backends := env.plan, env.tick, BackendsOf(storages);
    var i := 0;
    while i < |storages|
      invariant 0 <= i <= |storages| && env.tick == start + i
      invariant tally == Tallied(policy, Heard(plan, start, backends[..i], source))
    {
      assert backends[i] == Backend(storages[i].name, storages[i].dir);
      var latest := storages[i].LatestSnapshot(env, source, false);
      var held := latest.Ok? && latest.value.Some?;
      TallyStep(policy, plan, start, backends, source, i, held);
      if held {
        tally := Counted(policy, tally, storages[i].name);
      }
      i := i + 1;
    }
    assert backends[..i] == backends && BackendsOf(storages) == backends;
    TalliedTells(policy, Heard(plan, start, backends, source));
    HeardSuffice(policy, plan, start, backends, source);
    h := Evaluate(policy, tally.copies, |tally.names|, tally.offsite);
  }

  /** The counters of `check_health`: the distinct names, all copies, and whether one is off site. */
  datatype Tally = Tally(names: seq<string>, copies: int, offsite: bool)

  function Counted(policy: Policy, t: Tally, name: string): Tally {
    Tally(if name in t.names then t.names else t.names + [name], t.copies + 1, t.offsite || name in policy.offsite)
  }

  function Tallied(policy: Policy, heard: seq<string>): Tally {
    if heard == [] then Tally([], 0, false)
    else Counted(policy, Tallied(policy, heard[..|heard| - 1]), heard[|heard| - 1])
  }

  lemma TalliedOne(policy: Policy, heard: seq<string>, name: string)
    ensures Tallied(policy, heard + [name]) == Counted(policy, Tallied(policy, heard), name)
  {
    assert (heard + [name])[..|heard|] == heard;
  }

  lemma TallyStep(policy: Policy, plan: Plan, tick: int, backends: seq<Backend>, source: string, i: int, held: bool)
    requires 0 <= i < |backends| && held == (plan(tick + i).Fine? && Holds(backends[i], source))
    ensures var before := Tallied(policy, Heard(plan, tick, backends[..i], source));
      Tallied(policy, Heard(plan, tick, backends[..i + 1], source))
      == if held then Counted(policy, before, backends[i].name) else before
  {
    HeardOneMore(plan, tick, backends, source, i);
    TalliedOne(policy, Heard(plan, tick, backends[..i], source), backends[i].name);
  }

  lemma {:induction false} TallyOf(policy: Policy, heard: seq<string>)
    ensures var t := Tallied(policy, heard);
      && t.copies == |heard| && t.names == Dedup(heard)
      && (t.offsite <==> exists name :: name in heard && name in policy.offsite)
  {
    if heard != [] {
      var n := |heard| - 1;
      TallyOf(policy, heard[..n]);
      assert forall x :: x in heard <==> x in heard[..n] || x == heard[n];
    }
  }

  lemma TalliedTells(policy: Policy, heard: seq<string>)
    ensures var t := Tallied(policy, heard);
      && t.copies == |heard| && |t.names| == |NameSet(heard)|
      && (t.offsite <==> exists name :: name in heard && name in policy.offsite)
      && (Meets(policy, heard) <==>
            t.copies >= policy.minCopies && |t.names| >= policy.minMedia && (policy.requireOffsite ==> t.offsite))
  {
    TallyOf(policy, heard);
    DedupCounts(heard);
  }

  lemma HeardSuffice(policy: Policy, plan: Plan, tick: int, backends: seq<Backend>, source: string)
    ensures Meets(policy, Heard(plan, tick, backends, source)) ==> Meets(policy, Copies(backends, source))
    ensures Reliable(plan) ==> Heard(plan, tick, backends, source) == Copies(backends, source)
  {
    HeardAreCopies(plan, tick, backends, source);
    NamesFewer(Heard(plan, tick, backends, source), Copies(backends, source));
  }

  function Names(backends: seq<Backend>): seq<string> {
    if backends == [] then []
    else Names(backends[..|backends| - 1]) + [backends[|backends| - 1].name]
  }

  /** When every backend holds a snapshot, the copies are all of them. */
  lemma {:induction false} AllHoldingCount(backends: seq<Backend>, source: string)
    requires forall b :: b in backends ==> Holds(b, source)
    ensures Copies(backends, source) == Names(backends)
  {
    if backends != [] {
      AllHoldingCount(backends[..|backends| - 1], source);
    }
  }
}
