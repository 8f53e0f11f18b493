/** Storage backends (crates/openvault-core/src/storage.rs, snapshot.rs and
    crates/openvault-storage/src/local.rs), together with the ways they may fail. */
module Storage {
  import opened Common

  // ---------------------------------------------------------------- failures

  /** What becomes of one storage operation. A read succeeds only when `Fine`. A write may
      be refused without effect, break off and leave other bytes behind, or report success
      although other bytes were stored. */
  datatype Outcome = Fine | Refused | Torn(left: Bytes) | Garbled(left: Bytes)

  /** The fate of every storage operation, in the order in which they are issued. */
  type Plan = int -> Outcome

  ghost predicate Reliable(plan: Plan) {
    forall t :: plan(t).Fine?
  }

  /** Writes that report success have stored the bytes given. */
  ghost predicate Honest(plan: Plan) {
    forall t :: !plan(t).Garbled?
  }

  /** Writes store the bytes given or nothing. */
  ghost predicate Atomic(plan: Plan) {
    forall t :: plan(t).Fine? || plan(t).Refused?
  }

  class Env {
    const plan: Plan
    var tick: int

    constructor (plan: Plan)
      ensures this.plan == plan && tick == 0
    {
      this.plan := plan;
      tick := 0;
    }
  }

  // ---------------------------------------------------------------- files

  datatype Key = Key(snapshot: string, path: string)

  type Files = map<Key, Bytes>

  predicate Accepted(o: Outcome) {
    o.Fine? || o.Garbled?
  }

  function Written(o: Outcome, files: Files, key: Key, data: Bytes): Files {
    match o
    case Fine => files[key := data]
    case Refused => files
    case Torn(left) => files[key := left]
    case Garbled(left) => files[key := left]
  }

  function Found(o: Outcome, files: Files, key: Key): Option<Bytes> {
    if o.Fine? && key in files then Some(files[key]) else None
  }

  /** Both have nothing under `k`, or the same bytes. */
  predicate SameAt(f: Files, f': Files, k: Key) {
    (k in f <==> k in f') && (k in f ==> f'[k] == f[k])
  }

  /** The files of every other snapshot are as they were. */
  ghost predicate OthersKept(f: Files, f': Files, snapshot: string) {
    forall k: Key :: k.snapshot != snapshot ==> SameAt(f, f', k)
  }

  // ---------------------------------------------------------------- snapshots

  datatype FileEntry = FileEntry(path: string, size: int, mtime: int, checksum: string)

  datatype Strategy = Full | Incremental | Differential

  datatype Snapshot = Snapshot(
    id: string, createdAt: int, strategy: Strategy, source: string,
    entries: seq<FileEntry>, parent: Option<string>)

  /** The bytes at the entry's path have the recorded checksum. */
  predicate HealthyAt(sha: Digest, files: Files, snapshot: string, e: FileEntry) {
    var k := Key(snapshot, e.path);
    k in files && sha(files[k]) == e.checksum
  }

  /** Every entry of the snapshot has its bytes on `files`. */
  predicate AllIntact(sha: Digest, files: Files, snap: Snapshot) {
    forall e :: e in snap.entries ==> HealthyAt(sha, files, snap.id, e)
  }

  /** The snapshot directory, in directory order. */
  type Directory = seq<Snapshot>

  function Without(dir: Directory, id: string): Directory {
    if dir == [] then []
    else (if dir[0].id == id then [] else [dir[0]]) + Without(dir[1..], id)
  }

  lemma {:induction false} RemovedIsGone(dir: Directory, id: string)
    ensures forall s: Snapshot :: s in Without(dir, id) <==> s in dir && s.id != id
    decreases |dir|
  {
    if dir != [] {
      RemovedIsGone(dir[1..], id);
    }
  }

  /** Storing a snapshot replaces the one with its id. A broken write leaves a file that
      does not parse and is skipped when listing. */
  function Recorded(o: Outcome, dir: Directory, snap: Snapshot): Directory {
    match o
    case Fine => Without(dir, snap.id) + [snap]
    case Refused => dir
    case Torn(_) => Without(dir, snap.id)
    case Garbled(_) => Without(dir, snap.id)
  }

  function Lookup(dir: Directory, id: string): Option<Snapshot> {
    if dir == [] then None
    else if dir[0].id == id then Some(dir[0])
    else Lookup(dir[1..], id)
  }

  predicate Wanted(s: Snapshot, source: string, fullOnly: bool) {
    s.source == source && (fullOnly ==> s.strategy == Full)
  }

  /** The wanted snapshot created last; among equally late ones, the last in the directory. */
  function Latest(dir: Directory, source: string, fullOnly: bool): Option<Snapshot> {
    if dir == [] then None
    else
      var n := |dir| - 1;
      var best := Latest(dir[..n], source, fullOnly);
      if Wanted(dir[n], source, fullOnly) && (best.None? || best.value.createdAt <= dir[n].createdAt)
      then Some(dir[n]) else best
  }

  lemma {:induction false} LatestIsLatest(dir: Directory, source: string, fullOnly: bool)
    ensures var best := Latest(dir, source, fullOnly);
      && (best.Some? ==> best.value in dir && Wanted(best.value, source, fullOnly))
      && forall s :: s in dir && Wanted(s, source, fullOnly) ==> best.Some? && s.createdAt <= best.value.createdAt
  {
    if dir != [] {
      var n := |dir| - 1;
      LatestIsLatest(dir[..n], source, fullOnly);
      assert dir == dir[..n] + [dir[n]];
    }
  }

  /** Of the snapshots wanted, `best` stands at `i`, and those after it are older. */
  ghost predicate LastBest(dir: Directory, source: string, fullOnly: bool, best: Snapshot, i: int) {
    && 0 <= i < |dir| && dir[i] == best
    && forall j :: i < j < |dir| && dir[j].source == source && (fullOnly ==> dir[j].strategy == Full) ==>
         dir[j].createdAt < best.createdAt
  }

  /** Among those created last, it is the one that comes last in the directory. */
  lemma {:induction false} LatestAmongEquals(dir: Directory, source: string, fullOnly: bool)
    ensures var best := Latest(dir, source, fullOnly);
      best.Some? ==> exists i :: LastBest(dir, source, fullOnly, best.value, i)
  {
    if dir != [] {
      var n := |dir| - 1;
      LatestAmongEquals(dir[..n], source, fullOnly);
      var front, best := Latest(dir[..n], source, fullOnly), Latest(dir, source, fullOnly);
      if Wanted(dir[n], source, fullOnly) && (front.None? || front.value.createdAt <= dir[n].createdAt) {
        assert LastBest(dir, source, fullOnly, best.value, n);
      } else if best.Some? {
        var i :| LastBest(dir[..n], source, fullOnly, front.value, i);
        assert forall j :: 0 <= j < n ==> dir[..n][j] == dir[j];
        assert LastBest(dir, source, fullOnly, best.value, i);
      }
    }
  }

  class Vault {
    const name: string
    var files: Files
    var dir: Directory

    constructor (name: string)
      ensures this.name == name && files == map[] && dir == []
    {
      this.name := name;
      files, dir := map[], [];
    }

    method StoreFile(env: Env, snapshot: string, path: string, data: Bytes) returns (ok: bool)
      modifies this`files, env`tick
      ensures env.tick == old(env.tick) + 1
      ensures files == Written(env.plan(old(env.tick)), old(files), Key(snapshot, path), data)
      ensures ok == Accepted(env.plan(old(env.tick)))
    {
      var o := env.plan(env.tick);
      env.tick := env.tick + 1;
      files := Written(o, files, Key(snapshot, path), data);
      ok := Accepted(o);
    }

    method RetrieveFile(env: Env, snapshot: string, path: string) returns (r: Option<Bytes>)
      modifies env`tick
      ensures env.tick == old(env.tick) + 1
      ensures r == Found(env.plan(old(env.tick)), files, Key(snapshot, path))
    {
      r := Found(env.plan(env.tick), files, Key(snapshot, path));
      env.tick := env.tick + 1;
    }

    method StoreSnapshot(env: Env, snap: Snapshot) returns (ok: bool)
      modifies this`dir, env`tick
      ensures env.tick == old(env.tick) + 1
      ensures dir == Recorded(env.plan(old(env.tick)), old(dir), snap)
      ensures ok == Accepted(env.plan(old(env.tick)))
    {
      var o := env.plan(env.tick);
      env.tick := env.tick + 1;
      dir := Recorded(o, dir, snap);
      ok := Accepted(o);
    }

    method LoadSnapshot(env: Env, id: string) returns (r: Option<Snapshot>)
      modifies env`tick
      ensures env.tick == old(env.tick) + 1
      ensures r == if env.plan(old(env.tick)).Fine? then Lookup(dir, id) else None
    {
      r := if env.plan(env.tick).Fine? then Lookup(dir, id) else None;
      env.tick := env.tick + 1;
    }

    /** `latest_snapshot` and `latest_full_snapshot`; Err when the directory cannot be read. */
    method LatestSnapshot(env: Env, source: string, fullOnly: bool) returns (r: Result<Option<Snapshot>, ()>)
      modifies env`tick
      ensures env.tick == old(env.tick) + 1
      ensures r == if env.plan(old(env.tick)).Fine? then Ok(Latest(dir, source, fullOnly)) else Err(())
    {
      var o := env.plan(env.tick);
      env.tick := env.tick + 1;
      if !o.Fine? {
        return Err(());
      }
      var best: Option<Snapshot> := None;
      for i := 0 to |dir|
        invariant best == Latest(dir[..i], source, fullOnly)
      {
        assert dir[..i + 1][..i] == dir[..i];
        if Wanted(dir[i], source, fullOnly) && (best.None? || best.value.createdAt <= dir[i].createdAt) {
          best := Some(dir[i]);
        }
      }
      assert dir[..|dir|] == dir;
      return Ok(best);
    }
  }

  /** The directory a restore writes to. */
  class Folder {
    var tree: map<string, Bytes>

    constructor ()
      ensures tree == map[]
    {
      tree := map[];
    }
  }
}
