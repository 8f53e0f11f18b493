/** Exactly what a restore writes and reports when reads work
    (crates/openvault-core/src/restore.rs). */
module RestoreTheorems {
  import opened Common
  import opened Storage
  import opened Restore

  // ---------------------------------------------------------------- places

  /** `n` is the first number from `counter` to 1000 whose alternative does not exist. */
  ghost predicate FirstFree(g: Engine, tree: map<string, Bytes>, path: string, counter: int, n: int) {
    && counter <= n <= 1000 && g.renamed(path, n) !in tree
    && forall m :: counter <= m < n ==> g.renamed(path, m) in tree
  }

  ghost predicate AllTaken(g: Engine, tree: map<string, Bytes>, path: string, counter: int) {
    forall n :: counter <= n <= 1000 ==> g.renamed(path, n) in tree
  }

  lemma {:induction false} FreeNameIsFirst(g: Engine, tree: map<string, Bytes>, path: string, counter: int)
    ensures var r := FreeName(g, tree, path, counter);
      if r.Some? then exists n :: FirstFree(g, tree, path, counter, n) && r.value == g.renamed(path, n)
      else AllTaken(g, tree, path, counter)
    decreases 1001 - counter
  {
    if counter <= 1000 {
      if g.renamed(path, counter) !in tree {
        assert FirstFree(g, tree, path, counter, counter);
      } else {
        FreeNameIsFirst(g, tree, path, counter + 1);
        if FreeName(g, tree, path, counter + 1).Some? {
          var n :| FirstFree(g, tree, path, counter + 1, n)
                   && FreeName(g, tree, path, counter + 1).value == g.renamed(path, n);
          assert FirstFree(g, tree, path, counter, n);
        }
      }
    }
  }

  /** A file goes to its own path if nothing is there or it is to overwrite; if it is to be
      renamed, to the first of its alternatives 1 to 1000 where nothing is. */
  ghost predicate GoesTo(g: Engine, o: Options, tree: map<string, Bytes>, path: string, place: string) {
    if path !in tree || o.conflict == Overwrite then place == path
    else o.conflict == Rename && exists n :: FirstFree(g, tree, path, 1, n) && place == g.renamed(path, n)
  }

  /** It goes nowhere if something is there and it is to be left alone, or all 1000
      alternatives are taken too. */
  ghost predicate GoesNowhere(g: Engine, o: Options, tree: map<string, Bytes>, path: string) {
    path in tree && (o.conflict == Skip || o.conflict == Fail || (o.conflict == Rename && AllTaken(g, tree, path, 1)))
  }

  lemma ResolvedExactly(g: Engine, o: Options, tree: map<string, Bytes>, path: string, place: string)
    ensures Resolved(g, tree, path, o.conflict) == Some(place) <==> GoesTo(g, o, tree, path, place)
    ensures Resolved(g, tree, path, o.conflict) == None <==> GoesNowhere(g, o, tree, path)
  {
    FreeNameIsFirst(g, tree, path, 1);
    var r := FreeName(g, tree, path, 1);
    if r.Some? {
      var n :| FirstFree(g, tree, path, 1, n) && r.value == g.renamed(path, n);
      assert !AllTaken(g, tree, path, 1);
      forall n' | FirstFree(g, tree, path, 1, n') ensures n' == n {
        assert n' < n ==> g.renamed(path, n') in tree;
        assert n < n' ==> g.renamed(path, n) in tree;
      }
    } else {
      assert forall n :: !FirstFree(g, tree, path, 1, n);
    }
  }

  // ---------------------------------------------------------------- one entry

  /** The filter is empty or names the path. */
  predicate Selected(o: Options, path: string) {
    o.filter == [] || path in o.filter
  }

  /** The stored bytes of the entry are there and decode to `data`. */
  predicate DecodesTo(g: Engine, files: Files, snapshot: string, e: FileEntry, data: Bytes) {
    Key(snapshot, e.path) in files && g.decode(files[Key(snapshot, e.path)]) == Some(data)
  }

  predicate Verified(g: Engine, o: Options, e: FileEntry, data: Bytes) {
    o.verify ==> g.sha(data) == e.checksum
  }

  /** `data` is what a restore has to write for the entry. */
  predicate HasData(g: Engine, o: Options, files: Files, snapshot: string, e: FileEntry, data: Bytes) {
    Selected(o, e.path) && DecodesTo(g, files, snapshot, e, data) && Verified(g, o, e, data)
  }

  predicate SameIn(t: map<string, Bytes>, t': map<string, Bytes>, x: string) {
    (x in t <==> x in t') && (x in t ==> t'[x] == t[x])
  }

  /** What has become of `x`: the data of the entry if that goes to `x`, or nothing. */
  ghost predicate WrittenAt(g: Engine, o: Options, files: Files, snapshot: string, e: FileEntry,
                            was: map<string, Bytes>, now: map<string, Bytes>, x: string)
  {
    && (forall data :: HasData(g, o, files, snapshot, e, data) && GoesTo(g, o, was, e.path, x) ==>
          x in now && now[x] == data)
    && (SameIn(was, now, x)
        || exists data :: HasData(g, o, files, snapshot, e, data) && GoesTo(g, o, was, e.path, x))
  }

  /** One entry, whatever was restored before it: its data is written to its place exactly if
      the filter admits it, there is a place, it decodes, and it passes verification or none
      is asked for; no other path changes. */
  lemma EntryWritten(g: Engine, o: Options, plan: Plan, files: Files, snapshot: string, e: FileEntry, p: Progress,
                     x: string)
    requires Reliable(plan)
    ensures WrittenAt(g, o, files, snapshot, e, p.tree, EntryRestored(g, o, plan, files, snapshot, e, p).tree, x)
  {
    assert plan(p.tick).Fine?;
    ResolvedExactly(g, o, p.tree, e.path, x);
    var k := Key(snapshot, e.path);
    if k in files && g.decode(files[k]).Some? && HasData(g, o, files, snapshot, e, g.decode(files[k]).value) {
      var r := EntryRestored(g, o, plan, files, snapshot, e, p).tree;
      assert GoesTo(g, o, p.tree, e.path, x) || SameIn(p.tree, r, x);
    }
  }

  // ---------------------------------------------------------------- all entries

  /** No two entries may go to the same place. */
  ghost predicate Apart(g: Engine, o: Options, entries: seq<FileEntry>) {
    forall i, j, x :: 0 <= i < j < |entries| && PlaceOf(g, o, entries[i].path, x) ==> !PlaceOf(g, o, entries[j].path, x)
  }

  /** Unless files are renamed, that is to say that the paths are distinct. */
  lemma ApartIsDistinct(g: Engine, o: Options, entries: seq<FileEntry>)
    requires o.conflict != Rename
    ensures Apart(g, o, entries) <==> forall i, j :: 0 <= i < j < |entries| ==> entries[i].path != entries[j].path
  {
    if Apart(g, o, entries) {
      forall i, j | 0 <= i < j < |entries| ensures entries[i].path != entries[j].path {
        assert PlaceOf(g, o, entries[i].path, entries[i].path);
      }
    }
  }

  ghost predicate NobodysPlace(g: Engine, o: Options, entries: seq<FileEntry>, x: string) {
    forall i :: 0 <= i < |entries| ==> !PlaceOf(g, o, entries[i].path, x)
  }

  lemma GoesToPlace(g: Engine, o: Options, tree: map<string, Bytes>, path: string, x: string)
    ensures GoesTo(g, o, tree, path, x) ==> PlaceOf(g, o, path, x)
  {}

  /** Paths that are no entry's place stay as they are. */
  lemma {:induction false} OthersUntouched(g: Engine, o: Options, plan: Plan, files: Files, snapshot: string,
                                           entries: seq<FileEntry>, p: Progress, x: string)
    requires Reliable(plan) && NobodysPlace(g, o, entries, x)
    ensures SameIn(p.tree, AllRestored(g, o, plan, files, snapshot, entries, p).tree, x)
    decreases |entries|
  {
    if entries != [] {
      var n := |entries| - 1;
      var q := AllRestored(g, o, plan, files, snapshot, entries[..n], p);
      OthersUntouched(g, o, plan, files, snapshot, entries[..n], p, x);
      EntryWritten(g, o, plan, files, snapshot, entries[n], q, x);
      GoesToPlace(g, o, q.tree, entries[n].path, x);
    }
  }

  /** Nothing has changed at the places of `path`. */
  ghost predicate PlacesSame(g: Engine, o: Options, path: string, t: map<string, Bytes>, t': map<string, Bytes>) {
    forall x :: PlaceOf(g, o, path, x) ==> SameIn(t, t', x)
  }

  lemma SamePlaces(g: Engine, o: Options, path: string, t: map<string, Bytes>, t': map<string, Bytes>)
    requires PlacesSame(g, o, path, t, t')
    ensures path in t <==> path in t'
    ensures forall x :: GoesTo(g, o, t, path, x) <==> GoesTo(g, o, t', path, x)
    ensures GoesNowhere(g, o, t, path) <==> GoesNowhere(g, o, t', path)
  {
    assert PlaceOf(g, o, path, path);
    if o.conflict == Rename {
      forall n | 1 <= n <= 1000 ensures g.renamed(path, n) in t <==> g.renamed(path, n) in t' {
        assert PlaceOf(g, o, path, g.renamed(path, n));
      }
      assert forall n :: FirstFree(g, t, path, 1, n) <==> FirstFree(g, t', path, 1, n);
    }
  }

  lemma LastUntouched(g: Engine, o: Options, plan: Plan, files: Files, snapshot: string, entries: seq<FileEntry>,
                      p: Progress)
    requires Reliable(plan) && Apart(g, o, entries) && entries != []
    ensures var n := |entries| - 1;
      PlacesSame(g, o, entries[n].path, p.tree,
                 AllRestored(g, o, plan, files, snapshot, entries[..n], p).tree)
  {
    var n := |entries| - 1;
    forall x | PlaceOf(g, o, entries[n].path, x)
      ensures SameIn(p.tree, AllRestored(g, o, plan, files, snapshot, entries[..n], p).tree, x)
    {
      OthersUntouched(g, o, plan, files, snapshot, entries[..n], p, x);
    }
  }

  /** Exactly what a restore writes, under any filter: at each place an entry may go to,
      the decoded data of the entry stands in the end if the filter admits the entry, this is
      the place it goes to in the target as it was, it decodes, and it passes verification or
      none is asked for. Otherwise the place is as it was. */
  lemma {:induction false} RestoredExactly(g: Engine, o: Options, plan: Plan, files: Files, snapshot: string,
                                           entries: seq<FileEntry>, p: Progress, i: int, x: string)
    requires Reliable(plan) && Apart(g, o, entries) && 0 <= i < |entries| && PlaceOf(g, o, entries[i].path, x)
    ensures WrittenAt(g, o, files, snapshot, entries[i], p.tree,
                      AllRestored(g, o, plan, files, snapshot, entries, p).tree, x)
    decreases |entries|
  {
    var n := |entries| - 1;
    var q := AllRestored(g, o, plan, files, snapshot, entries[..n], p);
    EntryWritten(g, o, plan, files, snapshot, entries[n], q, x);
    if i == n {
      LastUntouched(g, o, plan, files, snapshot, entries, p);
      SamePlaces(g, o, entries[n].path, p.tree, q.tree);
    } else {
      RestoredExactly(g, o, plan, files, snapshot, entries[..n], p, i, x);
      GoesToPlace(g, o, q.tree, entries[n].path, x);
    }
  }

  /** Unless restoring overwrites, what was written stays, even if other entries may go to
      the same place. */
  lemma {:induction false} WrittenStays(g: Engine, o: Options, plan: Plan, files: Files, snapshot: string,
                                        entries: seq<FileEntry>, p: Progress, i: int, x: string, data: Bytes)
    requires Reliable(plan) && o.conflict != Overwrite && 0 <= i < |entries|
    requires HasData(g, o, files, snapshot, entries[i], data)
    requires GoesTo(g, o, AllRestored(g, o, plan, files, snapshot, entries[..i], p).tree, entries[i].path, x)
    ensures var r := AllRestored(g, o, plan, files, snapshot, entries, p).tree; x in r && r[x] == data
    decreases |entries|
  {
    var n := |entries| - 1;
    var q := AllRestored(g, o, plan, files, snapshot, entries[..n], p);
    EntryWritten(g, o, plan, files, snapshot, entries[n], q, x);
    if i < n {
      assert entries[..n][..i] == entries[..i];
      WrittenStays(g, o, plan, files, snapshot, entries[..n], p, i, x, data);
      NotWrittenTwice(g, o, q.tree, entries[n].path, x);
    }
  }

  lemma NotWrittenTwice(g: Engine, o: Options, tree: map<string, Bytes>, path: string, x: string)
    requires o.conflict != Overwrite && x in tree
    ensures !GoesTo(g, o, tree, path, x)
  {}

  // ---------------------------------------------------------------- the report

  /** What becomes of an entry. */
  datatype Fate = FilteredOut | Blocked | Unreadable | Mismatched | Written | Renamed

  predicate Readable(g: Engine, files: Files, snapshot: string, e: FileEntry) {
    Key(snapshot, e.path) in files && g.decode(files[Key(snapshot, e.path)]).Some?
  }

  function DataOf(g: Engine, files: Files, snapshot: string, e: FileEntry): Bytes {
    if Readable(g, files, snapshot, e) then g.decode(files[Key(snapshot, e.path)]).value else []
  }

  ghost function FateOf(g: Engine, o: Options, files: Files, snapshot: string, was: map<string, Bytes>, e: FileEntry)
    : Fate
  {
    if !Selected(o, e.path) then FilteredOut
    else if GoesNowhere(g, o, was, e.path) then Blocked
    else if !Readable(g, files, snapshot, e) then Unreadable
    else if !Verified(g, o, e, DataOf(g, files, snapshot, e)) then Mismatched
    else if e.path in was && o.conflict == Rename then Renamed
    else Written
  }

  /** The fates of the entries in turn, each decided by the target as it is then. */
  ghost function Fates(g: Engine, o: Options, plan: Plan, files: Files, snapshot: string, entries: seq<FileEntry>,
                       p: Progress): (fates: seq<Fate>)
    ensures |fates| == |entries|
    decreases |entries|
  {
    if entries == [] then []
    else
      var n := |entries| - 1;
      Fates(g, o, plan, files, snapshot, entries[..n], p)
      + [FateOf(g, o, files, snapshot, AllRestored(g, o, plan, files, snapshot, entries[..n], p).tree, entries[n])]
  }

  /** If no two entries may go to the same place, the target as it was decides them all. */
  lemma {:induction false} FatesFromTheStart(g: Engine, o: Options, plan: Plan, files: Files, snapshot: string,
                                             entries: seq<FileEntry>, p: Progress, i: int)
    requires Reliable(plan) && Apart(g, o, entries) && 0 <= i < |entries|
    ensures Fates(g, o, plan, files, snapshot, entries, p)[i] == FateOf(g, o, files, snapshot, p.tree, entries[i])
    decreases |entries|
  {
    var n := |entries| - 1;
    if i < n {
      FatesFromTheStart(g, o, plan, files, snapshot, entries[..n], p, i);
    } else {
      LastUntouched(g, o, plan, files, snapshot, entries, p);
      SamePlaces(g, o, entries[n].path, p.tree, AllRestored(g, o, plan, files, snapshot, entries[..n], p).tree);
    }
  }

  predicate Failing(fate: Fate) {
    fate == Blocked || fate == Unreadable || fate == Mismatched
  }

  predicate Restored(fate: Fate) {
    fate == Written || fate == Renamed
  }

  /** The paths of the entries that fail, in order. */
  function FailedPaths(fates: seq<Fate>, entries: seq<FileEntry>): seq<string>
    requires |fates| == |entries|
  {
    if entries == [] then []
    else
      var n := |entries| - 1;
      FailedPaths(fates[..n], entries[..n]) + if Failing(fates[n]) then [entries[n].path] else []
  }

  /** The lengths of what is restored, added up. */
  function BytesOf(g: Engine, files: Files, snapshot: string, fates: seq<Fate>, entries: seq<FileEntry>): int
    requires |fates| == |entries|
  {
    if entries == [] then 0
    else
      var n := |entries| - 1;
      BytesOf(g, files, snapshot, fates[..n], entries[..n])
      + if Restored(fates[n]) then |DataOf(g, files, snapshot, entries[n])| else 0
  }

  /** The report after one more entry. */
  function Reported(r: Report, fate: Fate, path: string, size: int): Report {
    match fate
    case FilteredOut => r.(skipped := r.skipped + 1)
    case Blocked => r.(skipped := r.skipped + 1, errors := r.errors + [path])
    case Unreadable => r.(errors := r.errors + [path])
    case Mismatched => r.(checksumFailures := r.checksumFailures + 1, errors := r.errors + [path])
    case Written => r.(restored := r.restored + 1, bytes := r.bytes + size)
    case Renamed => r.(restored := r.restored + 1, bytes := r.bytes + size, renamed := r.renamed + 1)
  }

  lemma EntryReported(g: Engine, o: Options, plan: Plan, files: Files, snapshot: string, e: FileEntry, p: Progress)
    requires Reliable(plan)
    ensures EntryRestored(g, o, plan, files, snapshot, e, p).report
         == Reported(p.report, FateOf(g, o, files, snapshot, p.tree, e), e.path, |DataOf(g, files, snapshot, e)|)
  {
    assert plan(p.tick).Fine?;
    var place := Resolved(g, p.tree, e.path, o.conflict);
    ResolvedExactly(g, o, p.tree, e.path, e.path);
    if place.Some? {
      ResolvedExactly(g, o, p.tree, e.path, place.value);
    }
  }

  ghost predicate Tells(g: Engine, files: Files, snapshot: string, fates: seq<Fate>, entries: seq<FileEntry>, r: Report)
    requires |fates| == |entries|
  {
    var count := multiset(fates);
    && r.restored == count[Written] + count[Renamed]
    && r.skipped == count[FilteredOut] + count[Blocked]
    && r.checksumFailures == count[Mismatched]
    && r.renamed == count[Renamed]
    && r.errors == FailedPaths(fates, entries)
    && r.bytes == BytesOf(g, files, snapshot, fates, entries)
  }

  lemma TellsOneMore(g: Engine, files: Files, snapshot: string, fates: seq<Fate>, entries: seq<FileEntry>, r: Report,
                     fate: Fate, e: FileEntry)
    requires |fates| == |entries| && Tells(g, files, snapshot, fates, entries, r)
    ensures Tells(g, files, snapshot, fates + [fate], entries + [e],
                  Reported(r, fate, e.path, |DataOf(g, files, snapshot, e)|))
  {
    assert (fates + [fate])[..|fates|] == fates && (entries + [e])[..|entries|] == entries;
    assert FailedPaths(fates, entries) + [] == FailedPaths(fates, entries);
  }

  /** The report says exactly what became of the entries: how many were restored, filtered
      out or blocked, how many failed verification, how many were renamed and how many
      bytes were restored, and which paths failed, in order. */
  lemma {:induction false} ReportExactly(g: Engine, o: Options, plan: Plan, files: Files, snapshot: string,
                                         entries: seq<FileEntry>, was: map<string, Bytes>, tick: int)
    requires Reliable(plan)
    ensures var p := Progress(was, EMPTY_REPORT, tick);
      var r := AllRestored(g, o, plan, files, snapshot, entries, p).report;
      var fates := Fates(g, o, plan, files, snapshot, entries, p);
      var count := multiset(fates);
      && r.restored == count[Written] + count[Renamed]
      && r.skipped == count[FilteredOut] + count[Blocked]
      && r.checksumFailures == count[Mismatched]
      && r.renamed == count[Renamed]
      && r.errors == FailedPaths(fates, entries)
      && r.bytes == BytesOf(g, files, snapshot, fates, entries)
    decreases |entries|
  {
    if entries != [] {
      var n := |entries| - 1;
      var p := Progress(was, EMPTY_REPORT, tick);
      ReportExactly(g, o, plan, files, snapshot, entries[..n], was, tick);
      var fate := LastReported(g, o, plan, files, snapshot, entries, p);
      TellsOneMore(g, files, snapshot, Fates(g, o, plan, files, snapshot, entries[..n], p), entries[..n],
                   AllRestored(g, o, plan, files, snapshot, entries[..n], p).report, fate, entries[n]);
    }
  }

  lemma LastReported(g: Engine, o: Options, plan: Plan, files: Files, snapshot: string, entries: seq<FileEntry>,
                     p: Progress)
    returns (fate: Fate)
    requires Reliable(plan) && entries != []
    ensures var n := |entries| - 1;
      && entries == entries[..n] + [entries[n]]
      && Fates(g, o, plan, files, snapshot, entries, p)
         == Fates(g, o, plan, files, snapshot, entries[..n], p) + [fate]
      && AllRestored(g, o, plan, files, snapshot, entries, p).report
         == Reported(AllRestored(g, o, plan, files, snapshot, entries[..n], p).report, fate, entries[n].path,
                     |DataOf(g, files, snapshot, entries[n])|)
  {
    var n := |entries| - 1;
    var q := AllRestored(g, o, plan, files, snapshot, entries[..n], p);
    fate := FateOf(g, o, files, snapshot, q.tree, entries[n]);
    EntryReported(g, o, plan, files, snapshot, entries[n], q);
  }
}
