/** Path patterns of compliance rules (crates/openvault-core/src/compliance.rs). */
module Glob {
  import opened Common

  // ---------------------------------------------------------------- the language

  /** Whether `text` is in the language of `pattern`, where `*` stands for any string and
      every other character for itself. */
  ghost predicate Matches(pattern: string, text: string)
    decreases |pattern|
  {
    if pattern == [] then text == []
    else if pattern[0] == '*' then exists k :: 0 <= k <= |text| && Matches(pattern[1..], text[k..])
    else text != [] && text[0] == pattern[0] && Matches(pattern[1..], text[1..])
  }

  // ---------------------------------------------------------------- string functions

  predicate OccursAt(part: string, text: string, at: int)
    requires 0 <= at
  {
    at + |part| <= |text| && text[at..at + |part|] == part
  }

  /** The first place at or after `start` where `part` occurs. */
  function Find(part: string, text: string, start: int): (r: Option<int>)
    requires 0 <= start
    ensures r.Some? ==> start <= r.value && OccursAt(part, text, r.value)
    decreases |text| - start
  {
    if start + |part| > |text| then None
    else if OccursAt(part, text, start) then Some(start)
    else Find(part, text, start + 1)
  }

  lemma {:induction false} FindIsFirst(part: string, text: string, start: int, at: int)
    requires 0 <= start <= at && OccursAt(part, text, at)
    ensures Find(part, text, start).Some? && Find(part, text, start).value <= at
    decreases at - start
  {
    if start < at && !OccursAt(part, text, start) {
      FindIsFirst(part, text, start + 1, at);
    }
  }

  predicate EndsWith(text: string, part: string) {
    |part| <= |text| && text[|text| - |part|..] == part
  }

  predicate Plain(part: string) {
    '*' !in part
  }

  /** `pattern` cut at its stars. */
  function Split(pattern: string): (parts: seq<string>)
    ensures parts != []
  {
    if pattern == [] then [""]
    else
      var rest := Split(pattern[1..]);
      if pattern[0] == '*' then [""] + rest else [[pattern[0]] + rest[0]] + rest[1..]
  }

  function Join(parts: seq<string>): string
    requires parts != []
  {
    if |parts| == 1 then parts[0] else parts[0] + ("*" + Join(parts[1..]))
  }

  ghost predicate AllPlain(parts: seq<string>) {
    forall part :: part in parts ==> Plain(part)
  }

  lemma {:induction false} SplitJoins(pattern: string)
    ensures var parts := Split(pattern);
      AllPlain(parts) && Join(parts) == pattern && (|parts| >= 2 <==> '*' in pattern)
  {
    if pattern != [] {
      var rest := Split(pattern[1..]);
      SplitJoins(pattern[1..]);
      assert pattern == [pattern[0]] + pattern[1..];
      if pattern[0] == '*' {
        PrependStar(rest);
      } else {
        PrependChar(pattern[0], rest);
      }
    }
  }

  lemma PrependStar(rest: seq<string>)
    requires rest != [] && AllPlain(rest)
    ensures AllPlain([""] + rest) && Join([""] + rest) == "*" + Join(rest)
  {
    assert ([""] + rest)[1..] == rest;
  }

  lemma PrependChar(c: char, rest: seq<string>)
    requires rest != [] && AllPlain(rest) && c != '*'
    ensures AllPlain([[c] + rest[0]] + rest[1..]) && Join([[c] + rest[0]] + rest[1..]) == [c] + Join(rest)
  {
    var parts := [[c] + rest[0]] + rest[1..];
    assert parts[1..] == rest[1..] && rest[0] in rest;
    if |rest| > 1 {
      AppendAssociates([c], rest[0], "*" + Join(rest[1..]));
    }
  }

  // ---------------------------------------------------------------- the greedy matcher

  /** Whether the parts occur in `text` from `start` on, each at the first place after the
      one before, the last one at the end. */
  ghost predicate Greedy(parts: seq<string>, text: string, start: int)
    requires parts != [] && 0 <= start <= |text|
    decreases |parts|
  {
    if |parts| == 1 then EndsWith(text[start..], parts[0])
    else
      var at := Find(parts[0], text, start);
      at.Some? && Greedy(parts[1..], text, at.value + |parts[0]|)
  }

  lemma {:induction false} PlainPrefix(part: string, rest: string, text: string)
    requires Plain(part)
    ensures Matches(part + rest, text) <==> part <= text && Matches(rest, text[|part|..])
  {
    if part == [] {
      assert part + rest == rest && text[0..] == text;
    } else {
      assert (part + rest)[0] == part[0] && (part + rest)[1..] == part[1..] + rest;
      assert part[0] in part && forall c :: c in part[1..] ==> c in part;
      if text != [] && text[0] == part[0] {
        PlainPrefix(part[1..], rest, text[1..]);
        assert text == [text[0]] + text[1..] && part == [part[0]] + part[1..];
        assert part <= text <==> part[1..] <= text[1..];
        assert part <= text ==> text[1..][|part[1..]|..] == text[|part|..];
      }
    }
  }

  lemma PlainAlone(part: string, text: string)
    requires Plain(part)
    ensures Matches(part, text) <==> part == text
  {
    assert part + "" == part;
    PlainPrefix(part, "", text);
    assert part <= text && text[|part|..] == [] ==> part == text;
  }

  lemma StarUnfolds(rest: string, text: string)
    ensures Matches("*" + rest, text) <==> exists k :: 0 <= k <= |text| && Matches(rest, text[k..])
  {
    assert ("*" + rest)[1..] == rest;
  }

  lemma DropDrop(text: string, i: int, k: int)
    requires 0 <= i && 0 <= k && i + k <= |text|
    ensures text[i..][k..] == text[i + k..]
  {}

  /** The place where what follows a star begins. */
  lemma StarPlace(rest: string, text: string, start: int) returns (at: int)
    requires 0 <= start <= |text| && Matches("*" + rest, text[start..])
    ensures start <= at <= |text| && Matches(rest, text[at..])
  {
    StarUnfolds(rest, text[start..]);
    var k :| 0 <= k <= |text[start..]| && Matches(rest, text[start..][k..]);
    DropDrop(text, start, k);
    at := start + k;
  }

  lemma StarFrom(rest: string, text: string, start: int, at: int)
    requires 0 <= start <= at <= |text| && Matches(rest, text[at..])
    ensures Matches("*" + rest, text[start..])
  {
    DropDrop(text, start, at - start);
    StarUnfolds(rest, text[start..]);
    assert Matches(rest, text[start..][at - start..]);
  }

  /** What follows a star matches wherever a suffix of the text matches it. */
  lemma StarAbsorbs(rest: string, text: string, i: int, j: int)
    requires 0 <= i <= j <= |text| && Matches("*" + rest, text[j..])
    ensures Matches("*" + rest, text[i..])
  {
    var at := StarPlace(rest, text, j);
    StarFrom(rest, text, i, at);
  }

  /** Choosing the first place for a part between stars loses nothing. */
  lemma FirstPlaceSuffices(part: string, rest: string, text: string, start: int)
    requires Plain(part) && 0 <= start <= |text|
    ensures var at := Find(part, text, start);
      Matches("*" + (part + ("*" + rest)), text[start..])
      <==> at.Some? && Matches("*" + rest, text[at.value + |part|..])
  {
    var tail := part + ("*" + rest);
    if Matches("*" + tail, text[start..]) {
      FirstPlaceFound(part, rest, text, start);
    }
    var at := Find(part, text, start);
    if at.Some? && Matches("*" + rest, text[at.value + |part|..]) {
      PlaceMatches(part, rest, text, start, at.value);
    }
  }

  lemma PlainAt(part: string, rest: string, text: string, at: int)
    requires Plain(part) && 0 <= at <= |text|
    ensures Matches(part + rest, text[at..]) <==> OccursAt(part, text, at) && Matches(rest, text[at + |part|..])
  {
    PlainPrefix(part, rest, text[at..]);
    if at + |part| <= |text| {
      DropDrop(text, at, |part|);
      assert text[at..][..|part|] == text[at..at + |part|];
    }
  }

  lemma FirstPlaceFound(part: string, rest: string, text: string, start: int)
    requires Plain(part) && 0 <= start <= |text| && Matches("*" + (part + ("*" + rest)), text[start..])
    ensures var at := Find(part, text, start); at.Some? && Matches("*" + rest, text[at.value + |part|..])
  {
    var at := SomePlace(part, "*" + rest, text, start);
    FindIsFirst(part, text, start, at);
    StarAbsorbs(rest, text, Find(part, text, start).value + |part|, at + |part|);
  }

  lemma SomePlace(part: string, rest: string, text: string, start: int) returns (at: int)
    requires Plain(part) && 0 <= start <= |text| && Matches("*" + (part + rest), text[start..])
    ensures start <= at && OccursAt(part, text, at) && Matches(rest, text[at + |part|..])
  {
    at := StarPlace(part + rest, text, start);
    PlainAt(part, rest, text, at);
  }

  lemma PlaceMatches(part: string, rest: string, text: string, start: int, at: int)
    requires Plain(part) && 0 <= start <= at && OccursAt(part, text, at) && Matches("*" + rest, text[at + |part|..])
    ensures Matches("*" + (part + ("*" + rest)), text[start..])
  {
    PlainAt(part, "*" + rest, text, at);
    StarFrom(part + ("*" + rest), text, start, at);
  }

  /** Greedy search after a star is exactly the language of what follows. */
  lemma {:induction false} GreedyIsExact(parts: seq<string>, text: string, start: int)
    requires parts != [] && AllPlain(parts) && 0 <= start <= |text|
    ensures Greedy(parts, text, start) <==> Matches("*" + Join(parts), text[start..])
    decreases |parts|
  {
    assert parts[0] in parts;
    if |parts| == 1 {
      LastPart(parts[0], text[start..]);
    } else {
      FirstPlaceSuffices(parts[0], Join(parts[1..]), text, start);
      var at := Find(parts[0], text, start);
      if at.Some? {
        GreedyIsExact(parts[1..], text, at.value + |parts[0]|);
      }
    }
  }

  lemma LastPart(part: string, text: string)
    requires Plain(part)
    ensures Matches("*" + part, text) <==> EndsWith(text, part)
  {
    StarUnfolds(part, text);
    forall k | 0 <= k <= |text| ensures Matches(part, text[k..]) <==> part == text[k..] {
      PlainAlone(part, text[k..]);
    }
    if EndsWith(text, part) {
      assert Matches(part, text[|text| - |part|..]);
    }
  }

  // ---------------------------------------------------------------- glob_match

  method FindFrom(part: string, text: string, start: int) returns (r: Option<int>)
    requires 0 <= start <= |text|
    ensures r == Find(part, text, start)
  {
    var i := start;
    while i + |part| <= |text|
      invariant start <= i
      invariant Find(part, text, start) == Find(part, text, i)
      decreases |text| - i
    {
      if OccursAt(part, text, i) {
        return Some(i);
      }
      i := i + 1;
    }
    return None;
  }

  /** What the loop has yet to decide before part `i`, `idx` characters into the text. */
  ghost predicate Pending(parts: seq<string>, text: string, i: int, idx: int)
    requires 0 <= i <= |parts| && parts != [] && 0 <= idx <= |text|
  {
    if i == 0 then Matches(Join(parts), text)
    else if i < |parts| then Greedy(parts[i..], text, idx)
    else EndsWith(text, LastOf(parts))
  }

  lemma FirstStep(parts: seq<string>, text: string)
    requires |parts| >= 2 && AllPlain(parts)
    ensures var part := parts[0];
      && (part <= text <==> Find(part, text, 0) == Some(0))
      && (Pending(parts, text, 0, 0) <==> part <= text && Pending(parts, text, 1, |part|))
  {
    FirstPart(parts, text);
    if parts[0] <= text {
      FindIsFirst(parts[0], text, 0, 0);
    }
  }

  lemma MiddleStep(parts: seq<string>, text: string, i: int, idx: int)
    requires 0 < i < |parts| && 0 <= idx <= |text|
    ensures var part, pos := parts[i], Find(parts[i], text, idx);
      Pending(parts, text, i, idx) <==> pos.Some? && Pending(parts, text, i + 1, pos.value + |part|)
  {
    var part, pos := parts[i], Find(parts[i], text, idx);
    assert parts[i..][0] == part && parts[i..][1..] == parts[i + 1..];
    if i == |parts| - 1 {
      if pos.Some? {
        SuffixFits(part, text, idx, pos.value);
      } else if EndsWith(text[idx..], part) {
        FindIsFirst(part, text, idx, |text| - |part|);
      }
    }
  }

  lemma EmptyPartIsHere(text: string, idx: int)
    requires 0 <= idx <= |text|
    ensures Find("", text, idx) == Some(idx)
  {
    FindIsFirst("", text, idx, idx);
  }

  /** One turn of the loop. */
  lemma PartStep(parts: seq<string>, text: string, i: int, idx: int)
    requires |parts| >= 2 && AllPlain(parts) && 0 <= i < |parts| && 0 <= idx <= |text| && (i == 0 ==> idx == 0)
    ensures var part, pos := parts[i], Find(parts[i], text, idx);
      && (part == "" ==> pos == Some(idx))
      && (Pending(parts, text, i, idx)
          <==> pos.Some? && (i == 0 ==> part <= text) && Pending(parts, text, i + 1, pos.value + |part|))
  {
    EmptyPartIsHere(text, idx);
    if i == 0 {
      FirstStep(parts, text);
    } else {
      MiddleStep(parts, text, i, idx);
    }
  }

  /** The loop over the parts of a pattern with stars, and the test of its end. */
  method MatchParts(parts: seq<string>, endsInStar: bool, text: string) returns (b: bool)
    requires |parts| >= 2 && AllPlain(parts) && (endsInStar <==> LastOf(parts) == "")
    ensures b <==> Matches(Join(parts), text)
  {
    ghost var want := Matches(Join(parts), text);
    var idx := 0;
    var i := 0;
    while i < |parts|
      invariant 0 <= i <= |parts| && 0 <= idx <= |text| && (i == 0 ==> idx == 0)
      invariant want <==> Pending(parts, text, i, idx)
    {
      var part := parts[i];
      PartStep(parts, text, i, idx);
      if part != "" {
        var pos := FindFrom(part, text, idx);
        if pos.None? {
          return false;
        }
        idx := pos.value + |part|;
        if i == 0 && !(part <= text) {
          return false;
        }
      }
      i := i + 1;
    }
    if !endsInStar {
      return EndsWith(text, LastOf(parts));
    }
    return true;
  }

  /** `glob_match` is exact: it accepts the language of the pattern, for any number of stars. */
  method GlobMatch(pattern: string, text: string) returns (b: bool)
    ensures b <==> Matches(pattern, text)
  {
    if pattern == "*" || pattern == "**" {
      AnyText(text);
      return true;
    }
    SplitJoins(pattern);
    if '*' in pattern {
      var endsInStar := pattern[|pattern| - 1] == '*';
      EndsInStar(pattern);
      b := MatchParts(Split(pattern), endsInStar, text);
      return;
    }
    PlainAlone(pattern, text);
    return pattern == text;
  }

  lemma AnyText(text: string)
    ensures Matches("*", text) && Matches("**", text)
  {
    LastPart("", text);
    assert "*" + "" == "*" && "*" + "*" == "**";
    StarUnfolds("*", text);
    assert text[0..] == text;
  }

  /** The part before the first star must begin the text; greedy search does the rest. */
  lemma FirstPart(parts: seq<string>, text: string)
    requires |parts| >= 2 && AllPlain(parts)
    ensures Matches(Join(parts), text) <==> parts[0] <= text && Greedy(parts[1..], text, |parts[0]|)
  {
    assert parts[0] in parts;
    PlainPrefix(parts[0], "*" + Join(parts[1..]), text);
    if parts[0] <= text {
      GreedyIsExact(parts[1..], text, |parts[0]|);
    }
  }

  /** A last part found after `idx` that ends the text ends what follows `idx`. */
  lemma SuffixFits(part: string, text: string, idx: int, pos: int)
    requires 0 <= idx <= |text| && Find(part, text, idx) == Some(pos)
    ensures EndsWith(text[idx..], part) <==> EndsWith(text, part)
  {
    assert text[idx..][|text| - idx - |part|..] == text[|text| - |part|..];
  }

  function LastOf(parts: seq<string>): string
    requires parts != []
  {
    parts[|parts| - 1]
  }

  lemma {:induction false} EndsInStar(pattern: string)
    requires pattern != []
    ensures pattern[|pattern| - 1] == '*' <==> '*' in pattern && LastOf(Split(pattern)) == ""
  {
    var tail := pattern[1..];
    var rest := Split(tail);
    assert pattern == [pattern[0]] + tail;
    if tail == [] {
      assert rest == [""];
    } else {
      EndsInStar(tail);
      SplitJoins(tail);
      assert pattern[|pattern| - 1] == tail[|tail| - 1];
      LastOfSplit(pattern[0], rest);
    }
  }

  lemma LastOfSplit(c: char, rest: seq<string>)
    requires rest != []
    ensures LastOf([""] + rest) == LastOf(rest)
    ensures |rest| == 1 ==> LastOf([[c] + rest[0]] + rest[1..]) != ""
    ensures |rest| > 1 ==> LastOf([[c] + rest[0]] + rest[1..]) == LastOf(rest)
  {}

  // ---------------------------------------------------------------- rules

  /** A rule without patterns applies everywhere, one with patterns where any matches. */
  method MatchesPath(patterns: seq<string>, path: string) returns (b: bool)
    ensures b <==> patterns == [] || exists p :: p in patterns && Matches(p, path)
  {
    if patterns == [] {
      return true;
    }
    for i := 0 to |patterns|
      invariant forall n :: 0 <= n < i ==> !Matches(patterns[n], path)
    {
      var hit := GlobMatch(patterns[i], path);
      if hit {
        return true;
      }
    }
    return false;
  }
}
