/** Scanning a text with a pattern, and splicing content in for what it matches.

    A pattern is given by what it recognises at the head of a text; `re2` and `re` scan alike. */
module Scanning {
  import opened Sequences
  import opened Text
  import opened Wrappers

  // The length of the match, and its last group.
  datatype Found = Found(length: nat, hash: string)

  type Recognizer = string -> Option<Found>

  // Matches are not empty, and lie within the text.
  ghost predicate Sensible(head: Recognizer) { forall s :: head(s).Some? ==> 0 < head(s).value.length <= |s| }

  datatype Match = Match(start: nat, end: nat, hash: string)

  // `finditer`: leftmost matches, without overlap.
  function FindAll(head: Recognizer, text: string, from: nat): seq<Match>
    requires Sensible(head) && from <= |text|
    decreases |text| - from
  {
    if from == |text| then []
    else
      var m := head(text[from..]);
      if m.None? then FindAll(head, text, from + 1)
      else [Match(from, from + m.value.length, m.value.hash)] + FindAll(head, text, from + m.value.length)
  }

  predicate Spans(ms: seq<Match>, from: nat, to: nat)
    decreases |ms|
  {
    if ms == [] then from <= to else from <= ms[0].start <= ms[0].end && Spans(ms[1..], ms[0].end, to)
  }

  lemma {:induction false} SpansWithin(ms: seq<Match>, from: nat, to: nat)
    requires Spans(ms, from, to)
    ensures from <= to
    decreases |ms|
  {
    if ms != [] { SpansWithin(ms[1..], ms[0].end, to); }
  }

  type Lookup = string -> Option<string>

  // The content a hash resolves to, or the marker as it stands.
  function Resolved(lookup: Lookup, hash: string, whole: string): string {
    if lookup(hash).Some? then lookup(hash).value else whole
  }

  function Splice(text: string, ms: seq<Match>, from: nat, lookup: Lookup): string
    requires Spans(ms, from, |text|)
    decreases |ms|
  {
    if ms == [] then text[from..]
    else
      SpansWithin(ms[1..], ms[0].end, |text|);
      text[from..ms[0].start] + Resolved(lookup, ms[0].hash, text[ms[0].start..ms[0].end]) +
         Splice(text, ms[1..], ms[0].end, lookup)
  }

  function Glue(parts: seq<string>): string {
    if parts == [] then "" else Glue(parts[..|parts| - 1]) + parts[|parts| - 1]
  }

  lemma GlueOneMore(parts: seq<string>, part: string)
    ensures Glue(parts + [part]) == Glue(parts) + part
  {
    assert (parts + [part])[..|parts|] == parts;
  }

  lemma SpliceFirst(text: string, m: Match, rest: seq<Match>, from: nat, lookup: Lookup)
    requires Spans([m] + rest, from, |text|)
    ensures from <= m.start <= m.end <= |text| && Spans(rest, m.end, |text|)
    ensures Splice(text, [m] + rest, from, lookup) ==
            text[from..m.start] + Resolved(lookup, m.hash, text[m.start..m.end]) + Splice(text, rest, m.end, lookup)
  {
    assert ([m] + rest)[1..] == rest;
    SpansWithin(rest, m.end, |text|);
  }

  // The text before, between and after the matches.
  function Gaps(text: string, ms: seq<Match>, from: nat): (gaps: seq<string>)
    requires Spans(ms, from, |text|)
    ensures |gaps| == |ms| + 1
    decreases |ms|
  {
    if ms == [] then [text[from..]]
    else
      SpansWithin(ms[1..], ms[0].end, |text|);
      [text[from..ms[0].start]] + Gaps(text, ms[1..], ms[0].end)
  }

  // What stands in place of each match: the content of its hash, or what was matched where there is none.
  ghost predicate Contents(text: string, ms: seq<Match>, lookup: Lookup, contents: seq<string>) {
    && |contents| == |ms|
    && forall i | 0 <= i < |ms| ::
         && ms[i].start <= ms[i].end <= |text|
         && contents[i] ==
            match lookup(ms[i].hash) { case Some(c) => c case None => text[ms[i].start..ms[i].end] }
  }

  // `r` is the text with the contents in place of the matches and nothing else changed.
  ghost predicate PassTo(text: string, ms: seq<Match>, lookup: Lookup, r: string) {
    && Spans(ms, 0, |text|)
    && exists contents :: Contents(text, ms, lookup, contents) && r == Weave(Gaps(text, ms, 0), contents)
  }

  lemma {:induction false} SpliceWeaves(text: string, ms: seq<Match>, from: nat, lookup: Lookup)
    returns (contents: seq<string>)
    requires Spans(ms, from, |text|)
    ensures Contents(text, ms, lookup, contents)
    ensures Splice(text, ms, from, lookup) == Weave(Gaps(text, ms, from), contents)
    decreases |ms|
  {
    if ms == [] {
      contents := [];
      SpansWithin([], from, |text|);
    } else {
      var m, rest := ms[0], ms[1..];
      assert ms == [m] + rest;
      SpliceFirst(text, m, rest, from, lookup);
      var more := SpliceWeaves(text, rest, m.end, lookup);
      contents := [Resolved(lookup, m.hash, text[m.start..m.end])] + more;
      WeaveFirst(text[from..m.start], Gaps(text, rest, m.end), contents[0], more);
    }
  }

  lemma SplicePasses(text: string, ms: seq<Match>, lookup: Lookup)
    requires Spans(ms, 0, |text|)
    ensures PassTo(text, ms, lookup, Splice(text, ms, 0, lookup))
  {
    var contents := SpliceWeaves(text, ms, 0, lookup);
  }

  lemma SpliceOne(text: string, m: Match, lookup: Lookup)
    requires Spans([m], 0, |text|)
    ensures m.start <= m.end <= |text|
    ensures lookup(m.hash).Some? ==>
              Splice(text, [m], 0, lookup) == text[..m.start] + lookup(m.hash).value + text[m.end..]
    ensures lookup(m.hash).None? ==> Splice(text, [m], 0, lookup) == text
  {
    assert [m] + [] == [m];
    SpliceFirst(text, m, [], 0, lookup);
    assert text[0..m.start] == text[..m.start];
    TextInThree(text, m.start, m.end);
  }

  lemma TextInThree(text: string, from: nat, to: nat)
    requires from <= to <= |text|
    ensures text[..from] + text[from..to] + text[to..] == text
  {
  }

  method SubWithinBudget(text: string, matches: seq<Match>, lookup: Lookup) returns (r: string)
    requires Spans(matches, 0, |text|)
    ensures r == Splice(text, matches, 0, lookup) && PassTo(text, matches, lookup, r)
    ensures forall m | matches == [m] ::
              && m.start <= m.end <= |text|
              && (lookup(m.hash).Some? ==> r == text[..m.start] + lookup(m.hash).value + text[m.end..])
              && (lookup(m.hash).None? ==> r == text)
  {
    var parts: seq<string>, last: nat, i := [], 0, 0;
    assert matches[0..] == matches;
    while i < |matches|
      invariant 0 <= i <= |matches| && Spans(matches[i..], last, |text|)
      invariant Splice(text, matches, 0, lookup) == Glue(parts) + Splice(text, matches[i..], last, lookup)
    {
      var m := matches[i];
      assert matches[i..] == [m] + matches[i + 1..];
      SpliceFirst(text, m, matches[i + 1..], last, lookup);
      GlueTwoMore(parts, text[last..m.start], Resolved(lookup, m.hash, text[m.start..m.end]));
      parts := parts + [text[last..m.start]] + [Resolved(lookup, m.hash, text[m.start..m.end])];
      last := m.end;
      i := i + 1;
    }
    SpansWithin([], last, |text|);
    GlueOneMore(parts, text[last..]);
    parts := parts + [text[last..]];
    r := Glue(parts);
    SplicePasses(text, matches, lookup);
    if |matches| == 1 { SpliceOne(text, matches[0], lookup); }
  }

  lemma GlueTwoMore(parts: seq<string>, a: string, b: string)
    ensures forall rest: string :: Glue(parts + [a] + [b]) + rest == Glue(parts) + (a + b + rest)
  {
    GlueOneMore(parts, a);
    GlueOneMore(parts + [a], b);
  }

  /** Where no matched hash resolves, splicing gives back the text, whatever the pattern has matched and whatever
      other hashes resolve. */
  lemma {:induction false} MissesLeaveTheText(text: string, ms: seq<Match>, from: nat, lookup: Lookup)
    requires Spans(ms, from, |text|) && forall m | m in ms :: lookup(m.hash) == None
    ensures from <= |text| && Splice(text, ms, from, lookup) == text[from..]
    decreases |ms|
  {
    if ms != [] {
      assert ms == [ms[0]] + ms[1..];
      SpliceFirst(text, ms[0], ms[1..], from, lookup);
      MissesLeaveTheText(text, ms[1..], ms[0].end, lookup);
      assert lookup(ms[0].hash) == None;
      assert text[from..] == text[from..ms[0].start] + text[ms[0].start..ms[0].end] + text[ms[0].end..];
    }
  }

  // One pass of a pattern over a text: the matches it finds there.
  type Finder = string -> seq<Match>

  ghost predicate Finds(f: Finder) { forall t :: Spans(f(t), 0, |t|) }

  function ExpandWith(finders: seq<Finder>, lookup: Lookup, text: string): string
    requires forall i | 0 <= i < |finders| :: Finds(finders[i])
  {
    if finders == [] then text
    else
      assert Finds(finders[0]);
      ExpandWith(finders[1..], lookup, Splice(text, finders[0](text), 0, lookup))
  }

  // `r` comes of `text` by each pattern's pass in turn, over what the one before it has left.
  ghost predicate PassByPass(finders: seq<Finder>, lookup: Lookup, text: string, r: string)
    decreases |finders|
  {
    if finders == [] then r == text
    else
      exists next :: PassTo(text, finders[0](text), lookup, next) && PassByPass(finders[1..], lookup, next, r)
  }

  lemma OnePassBefore(finders: seq<Finder>, lookup: Lookup, text: string, next: string, r: string)
    requires finders != []
    requires PassTo(text, finders[0](text), lookup, next) && PassByPass(finders[1..], lookup, next, r)
    ensures PassByPass(finders, lookup, text, r)
  {
  }

  lemma {:induction false} ExpandPasses(finders: seq<Finder>, lookup: Lookup, text: string)
    requires forall i | 0 <= i < |finders| :: Finds(finders[i])
    ensures PassByPass(finders, lookup, text, ExpandWith(finders, lookup, text))
    decreases |finders|
  {
    if finders != [] {
      assert Finds(finders[0]);
      var next := Splice(text, finders[0](text), 0, lookup);
      SplicePasses(text, finders[0](text), lookup);
      ExpandPasses(finders[1..], lookup, next);
      OnePassBefore(finders, lookup, text, next, ExpandWith(finders[1..], lookup, next));
    }
  }

  // `_expand`: every pattern in turn, over the text the previous ones have left.
  method Expand(finders: seq<Finder>, lookup: Lookup, text: string) returns (r: string)
    requires forall i | 0 <= i < |finders| :: Finds(finders[i])
    ensures r == ExpandWith(finders, lookup, text)
    ensures PassByPass(finders, lookup, text, r)
  {
    r := text;
    assert finders[0..] == finders;
    for i := 0 to |finders|
      invariant ExpandWith(finders[i..], lookup, r) == ExpandWith(finders, lookup, text)
    {
      assert Finds(finders[i]);
      assert finders[i..][0] == finders[i] && finders[i..][1..] == finders[i + 1..];
      r := SubWithinBudget(r, finders[i](r), lookup);
    }
    ExpandPasses(finders, lookup, text);
  }

  lemma {:induction false} ExpandPastSilent(others: seq<Finder>, last: Finder, lookup: Lookup, text: string)
    requires Finds(last) && forall i | 0 <= i < |others| :: Finds(others[i]) && others[i](text) == []
    ensures forall i | 0 <= i < |others + [last]| :: Finds((others + [last])[i])
    ensures ExpandWith(others + [last], lookup, text) == Splice(text, last(text), 0, lookup)
    decreases |others|
  {
    var finders := others + [last];
    if others == [] {
      assert finders == [last] && [last][1..] == [];
    } else {
      assert finders[0] == others[0] && finders[1..] == others[1..] + [last];
      assert Splice(text, [], 0, lookup) == text;
      ExpandPastSilent(others[1..], last, lookup, text);
    }
  }

  /** A text whose own markers all miss comes back as it is, whatever the patterns are and whatever else the
      store holds. */
  lemma {:induction false} ExpandIsIdentityOnMisses(finders: seq<Finder>, lookup: Lookup, text: string)
    requires forall i | 0 <= i < |finders| :: Finds(finders[i])
    requires forall i, m | 0 <= i < |finders| && m in finders[i](text) :: lookup(m.hash) == None
    ensures ExpandWith(finders, lookup, text) == text
    decreases |finders|
  {
    if finders != [] {
      assert Finds(finders[0]);
      MissesLeaveTheText(text, finders[0](text), 0, lookup);
      assert text[0..] == text;
      assert forall i | 0 <= i < |finders[1..]| :: finders[1..][i] == finders[i + 1];
      ExpandIsIdentityOnMisses(finders[1..], lookup, text);
    }
  }

  // ---------- The hashes in a text ----------

  function HashesOf(ms: seq<Match>): seq<string> { if ms == [] then [] else [ms[0].hash] + HashesOf(ms[1..]) }

  lemma {:induction false} HashesOneMore(ms: seq<Match>, m: Match)
    ensures HashesOf(ms + [m]) == HashesOf(ms) + [m.hash]
  {
    if ms == [] {
      assert [] + [m] == [m] && [m][1..] == [];
    } else {
      assert (ms + [m])[1..] == ms[1..] + [m];
      HashesOneMore(ms[1..], m);
    }
  }

  // The hashes of every pattern's matches, pattern by pattern.
  function AllHashes(finders: seq<Finder>, text: string): seq<string> {
    if finders == [] then []
    else AllHashes(finders[..|finders| - 1], text) + HashesOf(finders[|finders| - 1](text))
  }

  // One of the first `n` patterns, or one of the first `m` matches of the next, has the hash.
  ghost predicate Reached(finders: seq<Finder>, text: string, n: nat, m: nat, h: string) {
    exists i, q | 0 <= i < |finders| && 0 <= q < |finders[i](text)| ::
      finders[i](text)[q].hash == h && (i < n || (i == n && q < m))
  }

  // Every hash that any pattern finds, once: those of an earlier pattern first, and for each pattern those of an
  // earlier match first.
  ghost predicate FirstSeen(finders: seq<Finder>, text: string, seen: seq<string>) {
    && NoRepeats(seen)
    && (forall h :: h in seen <==> Reached(finders, text, |finders|, 0, h))
    && forall n, m: nat, i, j | 0 <= n < |finders| && m <= |finders[n](text)| && 0 <= i < j < |seen| ::
         Reached(finders, text, n, m, seen[j]) ==> Reached(finders, text, n, m, seen[i])
  }

  lemma {:induction false} HashesListed(ms: seq<Match>)
    ensures |HashesOf(ms)| == |ms| && forall q | 0 <= q < |ms| :: HashesOf(ms)[q] == ms[q].hash
  {
    if ms != [] { HashesListed(ms[1..]); }
  }

  lemma {:induction false} ReachedInFront(finders: seq<Finder>, text: string, n: nat, h: string)
    requires n <= |finders|
    ensures h in AllHashes(finders[..n], text) <==> Reached(finders, text, n, 0, h)
  {
    if n > 0 {
      ReachedInFront(finders, text, n - 1, h);
      HashesListed(finders[n - 1](text));
      assert finders[..n] == finders[..n - 1] + [finders[n - 1]];
      AllHashesOneMore(finders[..n - 1], finders[n - 1], text);
    }
  }

  lemma ReachedSoFar(finders: seq<Finder>, text: string, n: nat, m: nat, h: string)
    requires n < |finders| && m <= |finders[n](text)|
    ensures h in AllHashes(finders[..n], text) + HashesOf(finders[n](text)[..m]) <==> Reached(finders, text, n, m, h)
  {
    ReachedInFront(finders, text, n, h);
    HashesListed(finders[n](text)[..m]);
    if q :| 0 <= q < m && finders[n](text)[q].hash == h {
      assert HashesOf(finders[n](text)[..m])[q] == h;
    }
  }

  lemma {:induction false} FrontIsPrefix(finders: seq<Finder>, text: string, n: nat)
    requires n <= |finders|
    ensures AllHashes(finders[..n], text) <= AllHashes(finders, text)
    decreases |finders| - n
  {
    if n == |finders| {
      assert finders[..n] == finders;
    } else {
      assert finders[..n + 1] == finders[..n] + [finders[n]];
      AllHashesOneMore(finders[..n], finders[n], text);
      FrontIsPrefix(finders, text, n + 1);
    }
  }

  lemma SoFarIsPrefix(finders: seq<Finder>, text: string, n: nat, m: nat)
    requires n < |finders| && m <= |finders[n](text)|
    ensures AllHashes(finders[..n], text) + HashesOf(finders[n](text)[..m]) <= AllHashes(finders, text)
  {
    var ms := finders[n](text);
    HashesListed(ms);
    HashesListed(ms[..m]);
    assert HashesOf(ms[..m]) == HashesOf(ms)[..m];
    assert finders[..n + 1] == finders[..n] + [finders[n]];
    AllHashesOneMore(finders[..n], finders[n], text);
    FrontIsPrefix(finders, text, n + 1);
  }

  lemma DistinctIsFirstSeen(finders: seq<Finder>, text: string)
    ensures FirstSeen(finders, text, Distinct(AllHashes(finders, text)))
  {
    var all := AllHashes(finders, text);
    var seen := Distinct(all);
    DistinctIsInOrder(all);
    assert finders[..|finders|] == finders;
    forall h { ReachedInFront(finders, text, |finders|, h); }
    forall n, m: nat, i, j | 0 <= n < |finders| && m <= |finders[n](text)| && 0 <= i < j < |seen| &&
                             Reached(finders, text, n, m, seen[j])
      ensures Reached(finders, text, n, m, seen[i])
    {
      SoonerIsReached(finders, text, n, m, seen, i, j);
    }
  }

  lemma SoonerIsReached(finders: seq<Finder>, text: string, n: nat, m: nat, seen: seq<string>, i: nat, j: nat)
    requires n < |finders| && m <= |finders[n](text)| && i < j < |seen|
    requires InOrderOf(seen, AllHashes(finders, text)) && Reached(finders, text, n, m, seen[j])
    ensures Reached(finders, text, n, m, seen[i])
  {
    var sofar := AllHashes(finders[..n], text) + HashesOf(finders[n](text)[..m]);
    SoFarIsPrefix(finders, text, n, m);
    assert AllHashes(finders, text)[..|sofar|] == sofar;
    ReachedSoFar(finders, text, n, m, seen[i]);
    ReachedSoFar(finders, text, n, m, seen[j]);
  }

  /** Every hash that any pattern finds, once, in first-seen order. */
  method HashesInText(finders: seq<Finder>, text: string) returns (seen: seq<string>)
    ensures seen == Distinct(AllHashes(finders, text)) && FirstSeen(finders, text, seen)
  {
    DistinctIsFirstSeen(finders, text);
    seen := [];
    for i := 0 to |finders|
      invariant seen == Distinct(AllHashes(finders[..i], text))
    {
      AllHashesOneMore(finders[..i], finders[i], text);
      assert finders[..i + 1] == finders[..i] + [finders[i]];
      seen := CollectHashes(finders[i](text), seen, AllHashes(finders[..i], text));
    }
    assert finders[..|finders|] == finders;
  }

  // The hashes of one pattern's matches, after those `before`.
  method CollectHashes(ms: seq<Match>, seen: seq<string>, ghost before: seq<string>) returns (seen': seq<string>)
    requires seen == Distinct(before)
    ensures seen' == Distinct(before + HashesOf(ms))
  {
    seen' := seen;
    ghost var all := before;
    assert before + HashesOf(ms[..0]) == before;
    for j := 0 to |ms|
      invariant all == before + HashesOf(ms[..j]) && seen' == Distinct(all)
    {
      HashesUpTo(ms, j, before);
      DistinctOneMore(all, ms[j].hash);
      all := all + [ms[j].hash];
      if ms[j].hash !in seen' {
        seen' := seen' + [ms[j].hash];
      }
    }
    assert ms[..|ms|] == ms;
  }

  lemma HashesUpTo(ms: seq<Match>, j: nat, before: seq<string>)
    requires j < |ms|
    ensures before + HashesOf(ms[..j + 1]) == before + HashesOf(ms[..j]) + [ms[j].hash]
  {
    assert ms[..j + 1] == ms[..j] + [ms[j]];
    HashesOneMore(ms[..j], ms[j]);
  }

  lemma AllHashesOneMore(finders: seq<Finder>, f: Finder, text: string)
    ensures AllHashes(finders + [f], text) == AllHashes(finders, text) + HashesOf(f(text))
  {
    assert (finders + [f])[..|finders|] == finders;
  }

  lemma {:induction false} AllHashesOfSilent(finders: seq<Finder>, text: string)
    requires forall i | 0 <= i < |finders| :: finders[i](text) == []
    ensures AllHashes(finders, text) == []
    decreases |finders|
  {
    if finders != [] { AllHashesOfSilent(finders[..|finders| - 1], text); }
  }

  // ---------- One pass, from the front of the text ----------

  function Substitute(head: Recognizer, s: string, lookup: Lookup): string
    requires Sensible(head)
    decreases |s|
  {
    if s == "" then ""
    else
      var m := head(s);
      if m.None? then [s[0]] + Substitute(head, s[1..], lookup)
      else Resolved(lookup, m.value.hash, s[..m.value.length]) + Substitute(head, s[m.value.length..], lookup)
  }

  function Extract(head: Recognizer, s: string): seq<string>
    requires Sensible(head)
    decreases |s|
  {
    if s == "" then []
    else
      var m := head(s);
      if m.None? then Extract(head, s[1..]) else [m.value.hash] + Extract(head, s[m.value.length..])
  }

  lemma ConsConcat(c: char, x: string, y: string, z: string)
    ensures [c] + x + y + z == [c] + (x + y + z)
  {
  }

  lemma SpliceFromEarlier(text: string, ms: seq<Match>, from: nat, lookup: Lookup)
    requires from < |text| && Spans(ms, from + 1, |text|)
    ensures Spans(ms, from, |text|)
    ensures Splice(text, ms, from, lookup) == [text[from]] + Splice(text, ms, from + 1, lookup)
  {
    if ms == [] {
      assert text[from..] == [text[from]] + text[from + 1..];
    } else {
      var m := ms[0];
      assert ms == [m] + ms[1..];
      SpliceFirst(text, m, ms[1..], from, lookup);
      SpliceFirst(text, m, ms[1..], from + 1, lookup);
      assert text[from..m.start] == [text[from]] + text[from + 1..m.start];
      ConsConcat(text[from], text[from + 1..m.start], Resolved(lookup, m.hash, text[m.start..m.end]),
                 Splice(text, ms[1..], m.end, lookup));
    }
  }

  lemma EmptyFront(e: string, x: string, y: string)
    requires e == ""
    ensures e + x + y == x + y
  {
  }

  lemma SpliceHere(text: string, from: nat, end: nat, hash: string, rest: seq<Match>, lookup: Lookup)
    requires from <= end <= |text| && Spans(rest, end, |text|)
    ensures var ms := [Match(from, end, hash)] + rest;
            && Spans(ms, from, |text|)
            && Splice(text, ms, from, lookup) ==
               Resolved(lookup, hash, text[from..end]) + Splice(text, rest, end, lookup)
  {
    assert Spans([Match(from, end, hash)] + rest, from, |text|) by {
      assert ([Match(from, end, hash)] + rest)[1..] == rest;
    }
    SpliceFirst(text, Match(from, end, hash), rest, from, lookup);
    EmptyFront(text[from..from], Resolved(lookup, hash, text[from..end]), Splice(text, rest, end, lookup));
  }

  lemma PassOver(head: Recognizer, s: string, lookup: Lookup)
    requires Sensible(head) && s != "" && head(s).None?
    ensures Substitute(head, s, lookup) == [s[0]] + Substitute(head, s[1..], lookup)
    ensures Extract(head, s) == Extract(head, s[1..])
  {
  }

  lemma PassMatch(head: Recognizer, s: string, m: Found, lookup: Lookup)
    requires Sensible(head) && head(s) == Some(m)
    ensures m.length <= |s|
    ensures Substitute(head, s, lookup) ==
            Resolved(lookup, m.hash, s[..m.length]) + Substitute(head, s[m.length..], lookup)
    ensures Extract(head, s) == [m.hash] + Extract(head, s[m.length..])
  {
  }

  lemma SuffixSlices(text: string, from: nat, end: nat)
    requires from <= end <= |text|
    ensures text[from..][end - from..] == text[end..] && text[from..][..end - from] == text[from..end]
  {
  }

  // One step of the pass, given that it works from the position after the step.
  lemma PassesOver(head: Recognizer, s: string, text: string, from: nat, rest: seq<Match>, lookup: Lookup)
    requires Sensible(head) && s != "" && head(s).None?
    requires from < |text| && s[0] == text[from] && Spans(rest, from + 1, |text|)
    requires Splice(text, rest, from + 1, lookup) == Substitute(head, s[1..], lookup)
    ensures Spans(rest, from, |text|) && Splice(text, rest, from, lookup) == Substitute(head, s, lookup)
  {
    SpliceFromEarlier(text, rest, from, lookup);
    PassOver(head, s, lookup);
  }

  lemma PassesMatch(head: Recognizer, s: string, m: Found, text: string, from: nat, end: nat, rest: seq<Match>,
                    lookup: Lookup)
    requires Sensible(head) && head(s) == Some(m) && m.length <= |s|
    requires from <= end <= |text| && s[..m.length] == text[from..end] && Spans(rest, end, |text|)
    requires Splice(text, rest, end, lookup) == Substitute(head, s[m.length..], lookup)
    ensures var ms := [Match(from, end, m.hash)] + rest;
            Spans(ms, from, |text|) && Splice(text, ms, from, lookup) == Substitute(head, s, lookup)
  {
    SpliceHere(text, from, end, m.hash, rest, lookup);
    PassMatch(head, s, m, lookup);
  }

  // Splicing in for the matches from `from` on is substituting from there on.
  ghost predicate PassWorks(head: Recognizer, text: string, from: nat, lookup: Lookup)
    requires Sensible(head) && from <= |text|
  {
    && Spans(FindAll(head, text, from), from, |text|)
    && Splice(text, FindAll(head, text, from), from, lookup) == Substitute(head, text[from..], lookup)
  }

  lemma PassesOverAt(head: Recognizer, text: string, from: nat, lookup: Lookup)
    requires Sensible(head) && from < |text| && head(text[from..]).None? && PassWorks(head, text, from + 1, lookup)
    ensures PassWorks(head, text, from, lookup)
  {
    SuffixSlices(text, from, from + 1);
    PassesOver(head, text[from..], text, from, FindAll(head, text, from + 1), lookup);
  }

  lemma PassesMatchAt(head: Recognizer, text: string, from: nat, m: Found, lookup: Lookup)
    requires Sensible(head) && from < |text| && head(text[from..]) == Some(m)
    requires from + m.length <= |text| && PassWorks(head, text, from + m.length, lookup)
    ensures PassWorks(head, text, from, lookup)
  {
    var end := from + m.length;
    SuffixSlices(text, from, end);
    FindsMatch(head, text, from, m);
    PassesMatch(head, text[from..], m, text, from, end, FindAll(head, text, end), lookup);
  }

  lemma FindsMatch(head: Recognizer, text: string, from: nat, m: Found)
    requires Sensible(head) && from < |text| && head(text[from..]) == Some(m) && from + m.length <= |text|
    ensures FindAll(head, text, from) ==
            [Match(from, from + m.length, m.hash)] + FindAll(head, text, from + m.length)
  {
  }

  /** Splicing in for the matches of a text is substituting from its front to its end. */
  lemma {:induction false} PassFromTheFront(head: Recognizer, text: string, from: nat, lookup: Lookup)
    requires Sensible(head) && from <= |text|
    ensures PassWorks(head, text, from, lookup)
    decreases |text| - from
  {
    if from < |text| {
      var m := head(text[from..]);
      if m.None? {
        PassFromTheFront(head, text, from + 1, lookup);
        PassesOverAt(head, text, from, lookup);
      } else {
        PassFromTheFront(head, text, from + m.value.length, lookup);
        PassesMatchAt(head, text, from, m.value, lookup);
      }
    }
  }

  lemma ConsTail(s: string, rest: string)
    requires s != ""
    ensures [s[0]] + (s[1..] + rest) == s + rest
  {
  }

  const NOTHING: Lookup := _ => None

  ghost predicate Extracts(head: Recognizer, text: string, from: nat)
    requires Sensible(head) && from <= |text|
  {
    HashesOf(FindAll(head, text, from)) == Extract(head, text[from..])
  }

  lemma ExtractsOver(head: Recognizer, text: string, from: nat)
    requires Sensible(head) && from < |text| && head(text[from..]).None? && Extracts(head, text, from + 1)
    ensures Extracts(head, text, from)
  {
    SuffixSlices(text, from, from + 1);
    PassOver(head, text[from..], NOTHING);
  }

  lemma ExtractsMatch(head: Recognizer, text: string, from: nat, m: Found)
    requires Sensible(head) && from < |text| && head(text[from..]) == Some(m)
    requires from + m.length <= |text| && Extracts(head, text, from + m.length)
    ensures Extracts(head, text, from)
  {
    var end := from + m.length;
    SuffixSlices(text, from, end);
    FindsMatch(head, text, from, m);
    assert text[from..][m.length..] == text[end..];
    ExtractsHash(head, text[from..], m, Match(from, end, m.hash), FindAll(head, text, end));
  }

  lemma ExtractsHash(head: Recognizer, s: string, m: Found, first: Match, rest: seq<Match>)
    requires Sensible(head) && head(s) == Some(m) && m.length <= |s| && first.hash == m.hash
    requires HashesOf(rest) == Extract(head, s[m.length..])
    ensures HashesOf([first] + rest) == Extract(head, s)
  {
    PassMatch(head, s, m, NOTHING);
    HashesOfCons(first, rest);
  }

  lemma {:induction false} HashesAreExtracted(head: Recognizer, text: string, from: nat)
    requires Sensible(head) && from <= |text|
    ensures Extracts(head, text, from)
    decreases |text| - from
  {
    if from < |text| {
      var m := head(text[from..]);
      if m.None? {
        HashesAreExtracted(head, text, from + 1);
        ExtractsOver(head, text, from);
      } else {
        HashesAreExtracted(head, text, from + m.value.length);
        ExtractsMatch(head, text, from, m.value);
      }
    }
  }

  lemma HashesOfCons(m: Match, ms: seq<Match>)
    ensures HashesOf([m] + ms) == [m.hash] + HashesOf(ms)
  {
    assert ([m] + ms)[1..] == ms;
  }

  // A segment in which nothing is recognised passes unchanged.
  lemma {:induction false} SegmentPasses(head: Recognizer, segment: string, rest: string, lookup: Lookup)
    requires Sensible(head) && forall i | 0 <= i < |segment| :: head(segment[i..] + rest).None?
    ensures Substitute(head, segment + rest, lookup) == segment + Substitute(head, rest, lookup)
    ensures Extract(head, segment + rest) == Extract(head, rest)
    decreases |segment|
  {
    if segment == "" {
      assert segment + rest == rest;
    } else {
      var tail := segment[1..];
      assert segment[0..] == segment;
      PassOver(head, segment + rest, lookup);
      assert (segment + rest)[1..] == tail + rest;
      forall i | 0 <= i < |tail| ensures head(tail[i..] + rest).None? {
        assert tail[i..] == segment[i + 1..];
      }
      SegmentPasses(head, tail, rest, lookup);
      ConsTail(segment, Substitute(head, rest, lookup));
    }
  }

  // A match, and what it leaves before the next place where anything is recognised.
  lemma MatchThenQuiet(head: Recognizer, s: string, m: Found, quiet: string, rest: string, lookup: Lookup)
    requires Sensible(head) && head(s) == Some(m) && m.length <= |s| && s[m.length..] == quiet + rest
    requires forall i | 0 <= i < |quiet| :: head(quiet[i..] + rest).None?
    ensures Extract(head, s) == [m.hash] + Extract(head, rest)
  {
    PassMatch(head, s, m, lookup);
    SegmentPasses(head, quiet, rest, lookup);
  }
}
