/** The hash-chained audit log and its rotation (crates/openvault-core/src/audit.rs). */
module Audit {
  import opened Common

  datatype Pair = Pair(key: string, value: string)

  /** What is recorded of an event, as text; the metadata in the order of its keys. */
  datatype Event = Event(time: string, user: string, operation: string, target: string,
                         result: string, metadata: seq<Pair>)

  datatype Entry = Entry(seqNo: int, event: Event, hash: string, prevHash: string)

  /** The checksum of an entry, over its number, event and previous hash. */
  type Seal = (int, Event, string) -> string

  predicate Sealed(seal: Seal, e: Entry) {
    e.hash == seal(e.seqNo, e.event, e.prevHash)
  }

  function LastHash(entries: seq<Entry>): string {
    if entries == [] then "" else entries[|entries| - 1].hash
  }

  function NextEntry(seal: Seal, history: seq<Entry>, event: Event): Entry {
    var n, prev := |history| + 1, LastHash(history);
    Entry(n, event, seal(n, event, prev), prev)
  }

  /** The unbroken log of `events`. */
  function LogOf(seal: Seal, events: seq<Event>): seq<Entry> {
    if events == [] then []
    else
      var n := |events| - 1;
      var before := LogOf(seal, events[..n]);
      before + [NextEntry(seal, before, events[n])]
  }

  // ---------------------------------------------------------------- the log

  /** The archived segments and the active entries. */
  datatype Store = Store(archived: seq<seq<Entry>>, entries: seq<Entry>)

  /** All entries ever appended, archived ones first. */
  function History(s: Store): seq<Entry> {
    Concat(s.archived) + s.entries
  }

  /** `maybe_rotate`: the older half of an active part that outgrew its limit is archived. */
  function Rotated(maxEntries: int, s: Store): Store {
    if maxEntries > 0 && |s.entries| > maxEntries then
      var half := |s.entries| / 2;
      Store(s.archived + [s.entries[..half]], s.entries[half..])
    else s
  }

  /** The store holds exactly the chain of `events`, in a non-empty active part of at most
      `maxEntries` entries once there are any; something is archived exactly when the events
      have outgrown that limit, always the older half of one entry more than the limit. */
  ghost predicate Holds(seal: Seal, maxEntries: int, events: seq<Event>, s: Store) {
    History(s) == LogOf(seal, events) && Shaped(maxEntries, |events|, s)
  }

  /** `Holds` as far as it depends on the number of events alone. */
  ghost predicate Shaped(maxEntries: int, count: int, s: Store) {
    && (count > 0 ==> s.entries != [])
    && (maxEntries > 0 ==> |s.entries| <= maxEntries)
    && (s.archived == [] <==> maxEntries <= 0 || count <= maxEntries)
    && (s.archived != [] ==> |s.entries| >= (maxEntries + 2) / 2)
    && (forall segment :: segment in s.archived ==> segment != [] && |segment| == (maxEntries + 1) / 2)
  }

  lemma RotationKeepsHistory(maxEntries: int, s: Store)
    ensures History(Rotated(maxEntries, s)) == History(s)
  {
    if maxEntries > 0 && |s.entries| > maxEntries {
      var half := |s.entries| / 2;
      var older, newer := s.entries[..half], s.entries[half..];
      ConcatSnoc(s.archived, older);
      assert s.entries == older + newer;
      AppendAssociates(Concat(s.archived), older, newer);
    }
  }

  lemma AppendHolds(seal: Seal, maxEntries: int, events: seq<Event>, s: Store, event: Event)
    requires maxEntries >= 0 && Holds(seal, maxEntries, events, s)
    ensures var e := NextEntry(seal, LogOf(seal, events), event);
      && e.seqNo == |events| + 1 && e.prevHash == LastHash(s.entries)
      && Holds(seal, maxEntries, events + [event], Rotated(maxEntries, Store(s.archived, s.entries + [e])))
  {
    var e := NextEntry(seal, LogOf(seal, events), event);
    var grown := Store(s.archived, s.entries + [e]);
    LogLength(seal, events);
    LogSnoc(seal, events, event);
    UnarchivedLength(s);
    LastOfHistory(s);
    AppendAssociates(Concat(s.archived), s.entries, [e]);
    RotationKeepsHistory(maxEntries, grown);
    RotationKeepsShape(maxEntries, |events| + 1, grown);
  }

  lemma RotationKeepsShape(maxEntries: int, count: int, s: Store)
    requires maxEntries >= 0 && count > 0 && s.entries != []
    requires maxEntries > 0 ==> |s.entries| <= maxEntries + 1
    requires s.archived != [] ==> |s.entries| >= (maxEntries + 2) / 2
    requires forall segment :: segment in s.archived ==> segment != [] && |segment| == (maxEntries + 1) / 2
    requires s.archived == [] ==> count == |s.entries|
    requires s.archived != [] ==> 0 < maxEntries < count
    ensures Shaped(maxEntries, count, Rotated(maxEntries, s))
  {
    if maxEntries > 0 && |s.entries| > maxEntries {
      var half := |s.entries| / 2;
      assert |s.entries| == maxEntries + 1 && half == (maxEntries + 1) / 2;
      assert |s.entries| - half == (maxEntries + 2) / 2 <= maxEntries;
    }
  }

  lemma LastOfHistory(s: Store)
    requires History(s) != [] ==> s.entries != []
    ensures LastHash(History(s)) == LastHash(s.entries)
  {}

  lemma UnarchivedLength(s: Store)
    ensures s.archived == [] ==> History(s) == s.entries
  {}

  class AuditLog {
    const seal: Seal
    const maxEntries: int
    var entries: seq<Entry>
    var archived: seq<seq<Entry>>
    var nextSeq: int

    ghost var events: seq<Event>

    ghost predicate Valid()
      reads this
    {
      maxEntries >= 0 && nextSeq == |events| + 1 && Holds(seal, maxEntries, events, Store(archived, entries))
    }

    constructor (seal: Seal, maxEntries: int)
      requires maxEntries >= 0
      ensures Valid() && events == [] && this.seal == seal && this.maxEntries == maxEntries
    {
      this.seal, this.maxEntries := seal, maxEntries;
      entries, archived, nextSeq := [], [], 1;
      events := [];
    }

    method MaybeRotate()
      modifies this`entries, this`archived
      ensures Store(archived, entries) == Rotated(maxEntries, old(Store(archived, entries)))
    {
      if maxEntries > 0 && |entries| > maxEntries {
        var half := |entries| / 2;
        var oldest := entries[..half];
        entries := entries[half..];
        archived := archived + [oldest];
      }
    }

    method Append(event: Event) returns (e: Entry)
      requires Valid()
      modifies this
      ensures Valid() && events == old(events) + [event]
      ensures e == NextEntry(seal, old(LogOf(seal, events)), event)
      ensures Store(archived, entries) == Rotated(maxEntries, Store(old(archived), old(entries) + [e]))
    {
      ghost var before, due := Store(archived, entries), NextEntry(seal, LogOf(seal, events), event);
      AppendHolds(seal, maxEntries, events, before, event);
      var prev := if entries == [] then "" else entries[|entries| - 1].hash;
      e := Entry(nextSeq, event, seal(nextSeq, event, prev), prev);
      assert e == due;
      nextSeq := nextSeq + 1;
      entries := entries + [e];
      events := events + [event];
      MaybeRotate();
      assert Store(archived, entries) == Rotated(maxEntries, Store(before.archived, before.entries + [e]));
    }

    method VerifyChain() returns (ok: bool)
      ensures ok <==> ChainAccepted(seal, entries)
    {
      for i := 0 to |entries|
        invariant forall n :: 0 <= n < i ==> LinkAccepted(seal, entries, n)
      {
        var e := entries[i];
        if e.hash != seal(e.seqNo, e.event, e.prevHash) {
          assert !LinkAccepted(seal, entries, i);
          return false;
        }
        if i > 0 {
          if e.prevHash != entries[i - 1].hash {
            assert !LinkAccepted(seal, entries, i);
            return false;
          }
        } else if e.prevHash != "" {
          assert !LinkAccepted(seal, entries, i);
          return false;
        }
      }
      return true;
    }
  }

  /** Entry `n` is sealed and continues the one before it, or begins the chain. */
  predicate LinkAccepted(seal: Seal, entries: seq<Entry>, n: int)
    requires 0 <= n < |entries|
  {
    Sealed(seal, entries[n]) && entries[n].prevHash == if n > 0 then entries[n - 1].hash else ""
  }

  predicate ChainAccepted(seal: Seal, entries: seq<Entry>) {
    forall n :: 0 <= n < |entries| ==> LinkAccepted(seal, entries, n)
  }

  // ---------------------------------------------------------------- the chain

  lemma LogSnoc(seal: Seal, events: seq<Event>, event: Event)
    ensures LogOf(seal, events + [event]) == LogOf(seal, events) + [NextEntry(seal, LogOf(seal, events), event)]
  {
    assert (events + [event])[..|events|] == events;
  }

  lemma {:induction false} LogLength(seal: Seal, events: seq<Event>)
    ensures |LogOf(seal, events)| == |events|
  {
    if events != [] {
      LogLength(seal, events[..|events| - 1]);
    }
  }

  /** The log is one unbroken chain with sequence numbers 1, 2, 3 and so on, one entry for
      each event in order. */
  lemma {:induction false} LogIsChain(seal: Seal, events: seq<Event>)
    ensures var log := LogOf(seal, events);
      && |log| == |events| && ChainAccepted(seal, log)
      && forall n :: 0 <= n < |log| ==> log[n].seqNo == n + 1 && log[n].event == events[n]
  {
    if events != [] {
      var n := |events| - 1;
      LogIsChain(seal, events[..n]);
      var before, log := LogOf(seal, events[..n]), LogOf(seal, events);
      forall i | 0 <= i < |log| ensures LinkAccepted(seal, log, i) {
        if i < n {
          assert LinkAccepted(seal, before, i);
        }
      }
    }
  }

  /** `verify_chain` accepts exactly the logs that never rotated, if no checksum is the
      empty string: after a rotation the first active entry names a predecessor. */
  lemma AcceptsUnrotated(seal: Seal, maxEntries: int, events: seq<Event>, s: Store)
    requires Holds(seal, maxEntries, events, s)
    requires forall n, e, p :: seal(n, e, p) != ""
    ensures ChainAccepted(seal, s.entries) <==> s.archived == []
    ensures s.archived == [] <==> maxEntries <= 0 || |events| <= maxEntries
  {
    LogIsChain(seal, events);
    UnarchivedLength(s);
    if s.archived != [] {
      var history, n := LogOf(seal, events), |Concat(s.archived)|;
      ArchivedNonEmpty(s.archived);
      assert s.entries[0] == history[n];
      assert LinkAccepted(seal, history, n) && LinkAccepted(seal, history, n - 1);
      assert !LinkAccepted(seal, s.entries, 0);
    }
  }

  lemma ArchivedNonEmpty(archived: seq<seq<Entry>>)
    requires archived != [] && forall segment :: segment in archived ==> segment != []
    ensures Concat(archived) != []
  {
    assert archived[0] in archived;
  }

  // ---------------------------------------------------------------- tampering

  const TWO64 := 0x1_0000_0000_0000_0000

  /** A checksum of eight bytes, given as a number below 2^64, and the text after them. */
  type TextDigest = (int, string) -> string

  function MetadataText(metadata: seq<Pair>): string {
    if metadata == [] then "" else metadata[0].key + (metadata[0].value + MetadataText(metadata[1..]))
  }

  /** The fields of an event as `compute_hash` feeds them in: with nothing between them. */
  function EventText(e: Event): string {
    e.time + e.user + e.operation + e.target + e.result + MetadataText(e.metadata)
  }

  /** What is hashed of an entry. */
  datatype Hashed = Hashed(number: int, text: string)

  function HashedOf(e: Entry): Hashed {
    Hashed(e.seqNo % TWO64, EventText(e.event) + e.prevHash)
  }

  /** The seal that `compute_hash` computes. */
  function SealOf(sha: TextDigest): Seal {
    (n: int, event: Event, prev: string) => sha(n % TWO64, EventText(event) + prev)
  }

  /** A hexadecimal SHA-256 checksum has 64 characters. */
  ghost predicate Hexadecimal(sha: TextDigest) {
    forall n, text :: |sha(n, text)| == 64
  }

  ghost predicate Distinguishes(sha: TextDigest, inputs: set<Hashed>) {
    forall x, y :: x in inputs && y in inputs && sha(x.number, x.text) == sha(y.number, y.text) ==> x == y
  }

  function Inputs(entries: seq<Entry>): set<Hashed> {
    set e | e in entries :: HashedOf(e)
  }

  function FromTheEnd(a: seq<Entry>, i: int): Hashed
    requires 0 <= i < |a|
  {
    HashedOf(a[|a| - 1 - i])
  }

  /** Counted from the last, the entries of the two logs hash alike as far as both go back. */
  ghost predicate AgreeFromTheEnd(a: seq<Entry>, b: seq<Entry>) {
    forall i :: 0 <= i < |a| && i < |b| ==> FromTheEnd(a, i) == FromTheEnd(b, i)
  }

  /** What the last hash commits to: two accepted chains that end in the same hash have,
      counted from the end, the same hashed text in each place. */
  lemma {:induction false} LastHashCommits(sha: TextDigest, a: seq<Entry>, b: seq<Entry>)
    requires Hexadecimal(sha) && Distinguishes(sha, Inputs(a) + Inputs(b))
    requires ChainAccepted(SealOf(sha), a) && ChainAccepted(SealOf(sha), b) && a != [] && b != []
    requires LastHash(a) == LastHash(b)
    ensures AgreeFromTheEnd(a, b)
    decreases |a|
  {
    var m, n := |a| - 1, |b| - 1;
    LastEntriesAgree(sha, a, b);
    if m > 0 && n > 0 {
      FrontAccepted(SealOf(sha), a);
      FrontAccepted(SealOf(sha), b);
      FrontInputs(a);
      FrontInputs(b);
      LastHashCommits(sha, a[..m], b[..n]);
      AgreeOneMore(a, b);
    }
  }

  lemma AgreeOneMore(a: seq<Entry>, b: seq<Entry>)
    requires |a| > 1 && |b| > 1 && AgreeFromTheEnd(a[..|a| - 1], b[..|b| - 1])
    requires HashedOf(a[|a| - 1]) == HashedOf(b[|b| - 1])
    ensures AgreeFromTheEnd(a, b)
  {
    var m, n := |a| - 1, |b| - 1;
    forall i | 0 <= i < |a| && i < |b| ensures FromTheEnd(a, i) == FromTheEnd(b, i) {
      if i > 0 {
        assert FromTheEnd(a[..m], i - 1) == FromTheEnd(b[..n], i - 1);
      }
    }
  }

  lemma FrontInputs(a: seq<Entry>)
    requires a != []
    ensures Inputs(a[..|a| - 1]) <= Inputs(a)
  {}

  lemma LastEntriesAgree(sha: TextDigest, a: seq<Entry>, b: seq<Entry>)
    requires Hexadecimal(sha) && Distinguishes(sha, Inputs(a) + Inputs(b))
    requires ChainAccepted(SealOf(sha), a) && ChainAccepted(SealOf(sha), b) && a != [] && b != []
    requires LastHash(a) == LastHash(b)
    ensures HashedOf(a[|a| - 1]) == HashedOf(b[|b| - 1])
    ensures |a| > 1 && |b| > 1 ==> LastHash(a[..|a| - 1]) == LastHash(b[..|b| - 1])
  {
    SealedLink(sha, a, |a| - 1);
    SealedLink(sha, b, |b| - 1);
    LastIsInput(a);
    LastIsInput(b);
    if |a| > 1 && |b| > 1 {
      PreviousHashesAgree(sha, a, b);
    }
  }

  lemma LastIsInput(a: seq<Entry>)
    requires a != []
    ensures HashedOf(a[|a| - 1]) in Inputs(a)
  {
    assert a[|a| - 1] in a;
  }

  lemma PreviousHashesAgree(sha: TextDigest, a: seq<Entry>, b: seq<Entry>)
    requires Hexadecimal(sha) && ChainAccepted(SealOf(sha), a) && ChainAccepted(SealOf(sha), b)
    requires |a| > 1 && |b| > 1 && HashedOf(a[|a| - 1]) == HashedOf(b[|b| - 1])
    ensures LastHash(a[..|a| - 1]) == LastHash(b[..|b| - 1])
  {
    var d, e := a[|a| - 1], b[|b| - 1];
    SealedLink(sha, a, |a| - 1);
    SealedLink(sha, b, |b| - 1);
    SealedLink(sha, a, |a| - 2);
    SealedLink(sha, b, |b| - 2);
    SameEnds(EventText(d.event), d.prevHash, EventText(e.event), e.prevHash);
  }

  lemma SealedLink(sha: TextDigest, a: seq<Entry>, n: int)
    requires ChainAccepted(SealOf(sha), a) && 0 <= n < |a|
    ensures a[n].hash == sha(HashedOf(a[n]).number, HashedOf(a[n]).text)
    ensures a[n].prevHash == if n > 0 then a[n - 1].hash else ""
  {
    assert LinkAccepted(SealOf(sha), a, n);
  }

  lemma SameEnds(x: string, p: string, y: string, q: string)
    requires x + p == y + q && |p| == |q|
    ensures p == q
  {
    assert p == (x + p)[|x|..] && q == (y + q)[|y|..];
  }

  lemma FrontAccepted(seal: Seal, a: seq<Entry>)
    requires ChainAccepted(seal, a) && a != []
    ensures ChainAccepted(seal, a[..|a| - 1])
  {
    var front := a[..|a| - 1];
    forall i | 0 <= i < |front| ensures LinkAccepted(seal, front, i) {
      assert LinkAccepted(seal, a, i);
    }
  }

  /** The numbers of the entries are 1, 2, 3 and so on, within a u64. */
  ghost predicate Numbered(a: seq<Entry>) {
    |a| < TWO64 && forall i :: 0 <= i < |a| ==> a[i].seqNo == i + 1
  }

  ghost predicate HashAlike(a: seq<Entry>, b: seq<Entry>) {
    |a| == |b| && forall i :: 0 <= i < |a| ==> HashedOf(a[i]) == HashedOf(b[i])
  }

  /** For logs numbered as `append` numbers them, the last hash commits to the number of
      entries and to the hashed text of each, and to nothing else. */
  lemma LogsEndAlike(sha: TextDigest, a: seq<Entry>, b: seq<Entry>)
    requires Hexadecimal(sha) && Distinguishes(sha, Inputs(a) + Inputs(b))
    requires ChainAccepted(SealOf(sha), a) && ChainAccepted(SealOf(sha), b)
    requires Numbered(a) && Numbered(b)
    ensures LastHash(a) == LastHash(b) <==> HashAlike(a, b)
  {
    if a != [] {
      SealedLink(sha, a, |a| - 1);
    }
    if b != [] {
      SealedLink(sha, b, |b| - 1);
    }
    if a != [] && b != [] && LastHash(a) == LastHash(b) {
      LastHashCommits(sha, a, b);
      NumberedAlike(a, b);
    }
  }

  lemma NumberedAlike(a: seq<Entry>, b: seq<Entry>)
    requires Numbered(a) && Numbered(b) && a != [] && b != [] && AgreeFromTheEnd(a, b)
    ensures HashAlike(a, b)
  {
    assert FromTheEnd(a, 0) == FromTheEnd(b, 0);
    assert |a| == |b|;
    forall i | 0 <= i < |a| ensures HashedOf(a[i]) == HashedOf(b[i]) {
      assert FromTheEnd(a, |a| - 1 - i) == FromTheEnd(b, |a| - 1 - i);
    }
  }

  /** The fields go in without separators: time, user, operation, target, result, then each
      key before its value, and the previous hash last. */
  lemma FieldsInOrder(seqNo: int, hash: string)
    ensures var event := Event("1", "2", "3", "4", "5", [Pair("6", "7"), Pair("8", "9")]);
      HashedOf(Entry(seqNo, event, hash, "0")) == Hashed(seqNo % TWO64, "1234567890")
  {
    assert [Pair("6", "7"), Pair("8", "9")][1..] == [Pair("8", "9")];
    MetadataOfOne("8", "9");
  }

  /** Changing what stands between `a` and `b` changes the whole. */
  lemma MiddleShows(a: string, x: string, y: string, b: string)
    requires a + x + b == a + y + b
    ensures x == y
  {
    assert |x| == |y|;
    assert x == (a + x + b)[|a|..|a| + |x|] && y == (a + y + b)[|a|..|a| + |y|];
  }

  /** Each field of an event is in the hashed text: changing any one of them changes it. */
  lemma ChangedFieldShows(e: Event, x: string)
    ensures x != e.time ==> EventText(e.(time := x)) != EventText(e)
    ensures x != e.user ==> EventText(e.(user := x)) != EventText(e)
    ensures x != e.operation ==> EventText(e.(operation := x)) != EventText(e)
    ensures x != e.target ==> EventText(e.(target := x)) != EventText(e)
    ensures x != e.result ==> EventText(e.(result := x)) != EventText(e)
  {
    var m := MetadataText(e.metadata);
    FieldsAround(e);
    FieldsAround(e.(time := x));
    FieldsAround(e.(user := x));
    FieldsAround(e.(operation := x));
    FieldsAround(e.(target := x));
    FieldsAround(e.(result := x));
    if EventText(e.(time := x)) == EventText(e) {
      MiddleShows("", x, e.time, e.user + e.operation + e.target + e.result + m);
    }
    if EventText(e.(user := x)) == EventText(e) {
      MiddleShows(e.time, x, e.user, e.operation + e.target + e.result + m);
    }
    if EventText(e.(operation := x)) == EventText(e) {
      MiddleShows(e.time + e.user, x, e.operation, e.target + e.result + m);
    }
    if EventText(e.(target := x)) == EventText(e) {
      MiddleShows(e.time + e.user + e.operation, x, e.target, e.result + m);
    }
    if EventText(e.(result := x)) == EventText(e) {
      MiddleShows(e.time + e.user + e.operation + e.target, x, e.result, m);
    }
  }

  /** The text of an event, split around each of its fields. */
  lemma FieldsAround(e: Event)
    ensures var m := MetadataText(e.metadata);
      && EventText(e) == "" + e.time + (e.user + e.operation + e.target + e.result + m)
      && EventText(e) == e.time + e.user + (e.operation + e.target + e.result + m)
      && EventText(e) == (e.time + e.user) + e.operation + (e.target + e.result + m)
      && EventText(e) == (e.time + e.user + e.operation) + e.target + (e.result + m)
      && EventText(e) == (e.time + e.user + e.operation + e.target) + e.result + m
  {}

  /** So is each key and each value of the metadata. */
  lemma {:induction false} ChangedPairShows(metadata: seq<Pair>, i: int, x: string)
    requires 0 <= i < |metadata|
    ensures var pair := metadata[i];
      && (x != pair.key ==> MetadataText(metadata[i := pair.(key := x)]) != MetadataText(metadata))
      && (x != pair.value ==> MetadataText(metadata[i := pair.(value := x)]) != MetadataText(metadata))
    decreases i
  {
    var pair, rest := metadata[0], MetadataText(metadata[1..]);
    var byKey, byValue := metadata[i := metadata[i].(key := x)], metadata[i := metadata[i].(value := x)];
    if i == 0 {
      assert byKey[1..] == metadata[1..] && byValue[1..] == metadata[1..];
      if MetadataText(byKey) == MetadataText(metadata) {
        assert "" + x == x && "" + pair.key == pair.key;
        MiddleShows("", x, pair.key, pair.value + rest);
      }
      if MetadataText(byValue) == MetadataText(metadata) {
        Regroup(pair.key, x, rest);
        Regroup(pair.key, pair.value, rest);
        MiddleShows(pair.key, x, pair.value, rest);
      }
    } else {
      ChangedPairShows(metadata[1..], i - 1, x);
      assert byKey[1..] == metadata[1..][i - 1 := metadata[i].(key := x)];
      assert byValue[1..] == metadata[1..][i - 1 := metadata[i].(value := x)];
      FrontCancels(pair.key, pair.value, MetadataText(byKey[1..]), rest);
      FrontCancels(pair.key, pair.value, MetadataText(byValue[1..]), rest);
    }
  }

  lemma Regroup(a: string, b: string, c: string)
    ensures a + (b + c) == a + b + c
  {}

  lemma FrontCancels(a: string, b: string, x: string, y: string)
    ensures a + (b + x) == a + (b + y) ==> x == y
  {
    assert x == (a + (b + x))[|a| + |b|..] && y == (a + (b + y))[|a| + |b|..];
  }

  lemma ChangedMetadataShows(e: Event, metadata: seq<Pair>)
    requires MetadataText(metadata) != MetadataText(e.metadata)
    ensures EventText(e.(metadata := metadata)) != EventText(e)
  {
    var front := e.time + e.user + e.operation + e.target + e.result;
    assert EventText(e) == front + MetadataText(e.metadata);
    assert EventText(e.(metadata := metadata)) == front + MetadataText(metadata);
    FrontCancels("", front, MetadataText(metadata), MetadataText(e.metadata));
    assert "" + (front + MetadataText(metadata)) == front + MetadataText(metadata);
    assert "" + (front + MetadataText(e.metadata)) == front + MetadataText(e.metadata);
  }

  /** Tampering shows: if the text of one event differs, so does the last hash. */
  lemma TamperingShows(sha: TextDigest, a: seq<Entry>, b: seq<Entry>, n: int)
    requires Hexadecimal(sha) && Distinguishes(sha, Inputs(a) + Inputs(b))
    requires ChainAccepted(SealOf(sha), a) && ChainAccepted(SealOf(sha), b)
    requires Numbered(a) && Numbered(b)
    requires 0 <= n < |a| && n < |b| && EventText(a[n].event) != EventText(b[n].event)
    ensures LastHash(a) != LastHash(b)
  {
    if LastHash(a) == LastHash(b) {
      LogsEndAlike(sha, a, b);
      assert HashedOf(a[n]) == HashedOf(b[n]);
      SealedLink(sha, a, n);
      SealedLink(sha, b, n);
      if n > 0 {
        SealedLink(sha, a, n - 1);
        SealedLink(sha, b, n - 1);
      }
      SameFronts(EventText(a[n].event), a[n].prevHash, EventText(b[n].event), b[n].prevHash);
    }
  }

  lemma SameFronts(x: string, p: string, y: string, q: string)
    requires x + p == y + q && |p| == |q|
    ensures x == y
  {
    assert |x| == |y|;
    assert x == (x + p)[..|x|] && y == (y + q)[..|y|];
  }

  /** The hashed text does not tell where one field ends and the next begins. Here two logs
      differ in the metadata, are both accepted, and end in the same hash, without any
      collision of the checksum. */
  lemma FieldsRunTogether(sha: TextDigest, e: Event)
    ensures var d1, d2 := e.(metadata := [Pair("a", "bc")]), e.(metadata := [Pair("ab", "c")]);
      var a, b := LogOf(SealOf(sha), [d1]), LogOf(SealOf(sha), [d2]);
      && a != b && LastHash(a) == LastHash(b)
      && ChainAccepted(SealOf(sha), a) && ChainAccepted(SealOf(sha), b)
  {
    var d1, d2 := e.(metadata := [Pair("a", "bc")]), e.(metadata := [Pair("ab", "c")]);
    MetadataOfOne("a", "bc");
    MetadataOfOne("ab", "c");
    assert "a" + "bc" == "ab" + "c";
    assert EventText(d1) == EventText(d2);
    LogOfOne(SealOf(sha), d1);
    LogOfOne(SealOf(sha), d2);
    LogIsChain(SealOf(sha), [d1]);
    LogIsChain(SealOf(sha), [d2]);
    assert d1.metadata[0] != d2.metadata[0];
  }

  lemma MetadataOfOne(key: string, value: string)
    ensures MetadataText([Pair(key, value)]) == key + value
  {
    assert [Pair(key, value)][1..] == [] && value + "" == value;
  }

  lemma LogOfOne(seal: Seal, e: Event)
    ensures LogOf(seal, [e]) == [Entry(1, e, seal(1, e, ""), "")]
  {
    assert [e] == [] + [e];
    LogSnoc(seal, [], e);
  }
}
