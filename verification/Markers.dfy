/** The double-angle marker family: what the extraction and the substitution pattern recognise, and what a
    pass of each over a text makes of its markers. */
module Markers {
  import opened Scanning
  import opened Sequences
  import opened Text
  import opened Wrappers

  const PREFIX := "<<ccr:"
  const MAX_TAIL := 64

  predicate Hex(c: char) { '0' <= c <= '9' || 'a' <= c <= 'f' }

  predicate AllHex(s: string) { forall i | 0 <= i < |s| :: Hex(s[i]) }

  // ---------- The two patterns, at the head of a text ----------

  predicate PrefixAt(s: string, i: nat) {
    i + |PREFIX| <= |s| && forall j | 0 <= j < |PREFIX| :: s[i + j] == PREFIX[j]
  }

  predicate HashAt(s: string, width: nat) {
    |PREFIX| + width <= |s| && PrefixAt(s, 0) && AllHex(s[|PREFIX|..|PREFIX| + width])
  }

  // `[^>]{0,budget}>>`
  function Close(s: string, budget: nat): (r: Option<nat>)
    ensures r.Some? ==> 0 < r.value <= |s|
  {
    if s == "" then None
    else if s[0] == '>' then if |s| > 1 && s[1] == '>' then Some(2) else None
    else if budget == 0 then None
    else
      var r := Close(s[1..], budget - 1);
      if r.Some? then Some(r.value + 1) else None
  }

  // `(?:[ ,#>]|>>)`, whose second branch is never reached.
  function Delimiter(s: string): (r: Option<nat>)
    ensures r.Some? ==> 0 < r.value <= |s|
  {
    if s != "" && s[0] in " ,#>" then Some(1) else None
  }

  datatype Pattern = FullSpan | Extraction

  function Rest(p: Pattern, s: string): (r: Option<nat>)
    ensures r.Some? ==> 0 < r.value <= |s|
  {
    if p == FullSpan then Close(s, MAX_TAIL) else Delimiter(s)
  }

  function WithWidth(p: Pattern, s: string, width: nat): (r: Option<Found>)
    ensures r.Some? ==> 0 < r.value.length <= |s|
  {
    var n := |PREFIX| + width;
    if !HashAt(s, width) || Rest(p, s[n..]).None? then None
    else Some(Found(n + Rest(p, s[n..]).value, s[|PREFIX|..n]))
  }

  // The pattern at the head of `s`: the 24-digit branch, then the 12-digit one.
  function Head(p: Pattern, s: string): (r: Option<Found>)
    ensures r.Some? ==> 0 < r.value.length <= |s|
  {
    if WithWidth(p, s, 24).Some? then WithWidth(p, s, 24) else WithWidth(p, s, 12)
  }

  function Recognize(p: Pattern): Recognizer { s => Head(p, s) }

  // ---------- Texts made of segments and markers ----------

  datatype Marker = Marker(hash: string, tail: string)

  predicate WellFormed(m: Marker) {
    && |m.hash| in {12, 24} && AllHex(m.hash)
    && |m.tail| <= MAX_TAIL && (forall i | 0 <= i < |m.tail| :: m.tail[i] != '<' && m.tail[i] != '>')
    && (m.tail != "" ==> !Hex(m.tail[0]))
  }

  // The separators that the producers put after the hash.
  predicate Separated(m: Marker) { m.tail == "" || m.tail[0] in " ,#" }

  function Written(m: Marker): string { PREFIX + m.hash + m.tail + ">>" }

  // No marker prefix starts in the segment.
  predicate PrefixFree(s: string) { forall i | 0 <= i < |s| :: !PrefixAt(s, i) }

  ghost predicate Grammatical(segments: seq<string>, ms: seq<Marker>) {
    && |segments| == |ms| + 1
    && (forall i | 0 <= i < |segments| :: PrefixFree(segments[i]))
    && forall i | 0 <= i < |ms| :: WellFormed(ms[i])
  }

  function Render(segments: seq<string>, ms: seq<Marker>): string
    requires |segments| == |ms| + 1
    decreases |ms|
  {
    segments[0] + if ms == [] then "" else Written(ms[0]) + Render(segments[1..], ms[1..])
  }

  // The same text with each marker replaced, whole.
  function Replaced(segments: seq<string>, ms: seq<Marker>, lookup: Lookup): string
    requires |segments| == |ms| + 1
    decreases |ms|
  {
    segments[0] +
    if ms == [] then "" else Resolved(lookup, ms[0].hash, Written(ms[0])) + Replaced(segments[1..], ms[1..], lookup)
  }

  function Hashes(ms: seq<Marker>): seq<string> { if ms == [] then [] else [ms[0].hash] + Hashes(ms[1..]) }

  // ---------- Segments pass through, markers match whole ----------

  predicate StartsMarker(s: string) { s == "" || PrefixAt(s, 0) }

  // The prefix has no border, so it cannot start in a segment and end in the marker after it.
  lemma NoPrefixAcross(segment: string, rest: string)
    requires segment != "" && PrefixFree(segment) && StartsMarker(rest)
    ensures !PrefixAt(segment + rest, 0)
  {
    var s, k := segment + rest, |segment|;
    assert !PrefixAt(segment, 0);
    if k < |PREFIX| && |s| >= |PREFIX| {
      assert s[k] == rest[0] == PREFIX[0] && s[k + 1] == rest[1] == PREFIX[1];
      if k == 1 { assert s[2] != PREFIX[2]; } else { assert s[k] != PREFIX[k]; }
    } else if |s| >= |PREFIX| {
      var j :| 0 <= j < |PREFIX| && segment[j] != PREFIX[j];
      assert s[j] != PREFIX[j];
    }
  }

  lemma NoMatchWithoutPrefix(p: Pattern, s: string)
    requires !PrefixAt(s, 0)
    ensures Head(p, s).None?
  {
  }

  lemma PrefixFreeTail(segment: string)
    requires segment != "" && PrefixFree(segment)
    ensures PrefixFree(segment[1..])
  {
    var tail := segment[1..];
    forall i | 0 <= i < |tail| ensures !PrefixAt(tail, i) {
      assert !PrefixAt(segment, i + 1);
      if i + |PREFIX| <= |tail| {
        var j :| 0 <= j < |PREFIX| && segment[i + 1 + j] != PREFIX[j];
        assert tail[i + j] != PREFIX[j];
      }
    }
  }

  lemma SegmentIsQuiet(p: Pattern, segment: string, rest: string)
    requires PrefixFree(segment) && StartsMarker(rest)
    ensures Sensible(Recognize(p)) && forall i | 0 <= i < |segment| :: Recognize(p)(segment[i..] + rest).None?
    decreases |segment|
  {
    if segment != "" {
      NoPrefixAcross(segment, rest);
      NoMatchWithoutPrefix(p, segment + rest);
      PrefixFreeTail(segment);
      SegmentIsQuiet(p, segment[1..], rest);
      forall i | 0 <= i < |segment| ensures Recognize(p)(segment[i..] + rest).None? {
        if i == 0 { assert segment[0..] == segment; } else { assert segment[i..] == segment[1..][i - 1..]; }
      }
    }
  }

  lemma {:induction false} CloseAfterAny(tail: string, rest: string, budget: nat)
    requires forall i | 0 <= i < |tail| :: tail[i] != '>'
    ensures Close(tail + ">>" + rest, budget) == if |tail| <= budget then Some(|tail| + 2) else None
  {
    var s := tail + ">>" + rest;
    if tail == "" {
      assert s == ">>" + rest;
    } else {
      assert s[1..] == tail[1..] + ">>" + rest;
      if budget > 0 { CloseAfterAny(tail[1..], rest, budget - 1); }
    }
  }

  // Where the hash of a well-formed marker lies, and what follows it.
  lemma HashOfMarker(m: Marker, rest: string)
    requires WellFormed(m)
    ensures var s := Written(m) + rest; var n := |PREFIX| + |m.hash|;
            && HashAt(s, |m.hash|) && s[|PREFIX|..n] == m.hash && s[n..] == m.tail + ">>" + rest
            && (|m.hash| == 12 ==> !HashAt(s, 24))
  {
    assert Written(m) + rest == PREFIX + m.hash + (m.tail + ">>" + rest);
    HashFollowedBy(m.hash, m.tail + ">>" + rest);
    if |m.hash| == 12 { HashIsNoLonger(m.hash, m.tail + ">>" + rest, 24); }
  }

  lemma HashFollowedBy(hash: string, after: string)
    requires AllHex(hash)
    ensures var s := PREFIX + hash + after; var n := |PREFIX| + |hash|;
            HashAt(s, |hash|) && s[|PREFIX|..n] == hash && s[n..] == after
  {
    var s, n := PREFIX + hash + after, |PREFIX| + |hash|;
    SplitFront(PREFIX + hash, after);
    assert s == PREFIX + (hash + after);
    assert s[|PREFIX|..n] == hash;
  }

  // No hash of a greater width starts where the digits end sooner.
  lemma HashIsNoLonger(digits: string, after: string, width: nat)
    requires AllHex(digits) && |digits| < width && (after != "" ==> !Hex(after[0]))
    ensures !HashAt(PREFIX + digits + after, width)
  {
    var s := PREFIX + digits + after;
    if |PREFIX| + width <= |s| {
      SplitFront(PREFIX + digits, after);
      assert s[|PREFIX|..|PREFIX| + width][|digits|] == after[0];
    }
  }

  lemma MarkerMatchesWhole(m: Marker, rest: string)
    requires WellFormed(m)
    ensures Head(FullSpan, Written(m) + rest) == Some(Found(|Written(m)|, m.hash))
    ensures Separated(m) ==> Head(Extraction, Written(m) + rest) == Some(Found(|PREFIX| + |m.hash| + 1, m.hash))
  {
    HashOfMarker(m, rest);
    CloseAfterAny(m.tail, rest, MAX_TAIL);
  }

  // ---------- The round trips ----------

  /** One pass of the substitution pattern over a grammatical text replaces each marker's complete span and
      nothing else. */
  lemma {:induction false} SubstitutionReplacesMarkers(segments: seq<string>, ms: seq<Marker>, lookup: Lookup)
    requires Grammatical(segments, ms)
    ensures Sensible(Recognize(FullSpan))
    ensures Substitute(Recognize(FullSpan), Render(segments, ms), lookup) == Replaced(segments, ms, lookup)
    ensures Extract(Recognize(FullSpan), Render(segments, ms)) == Hashes(ms)
    decreases |ms|
  {
    if ms == [] {
      SegmentIsQuiet(FullSpan, segments[0], "");
      SegmentPasses(Recognize(FullSpan), segments[0], "", lookup);
    } else {
      SubstitutionStep(segments[0], ms[0], Render(segments[1..], ms[1..]), lookup);
      SubstitutionReplacesMarkers(segments[1..], ms[1..], lookup);
    }
  }

  lemma SubstitutionStep(segment: string, m: Marker, rest: string, lookup: Lookup)
    requires PrefixFree(segment) && WellFormed(m)
    ensures Sensible(Recognize(FullSpan))
    ensures Substitute(Recognize(FullSpan), segment + (Written(m) + rest), lookup) ==
            segment + (Resolved(lookup, m.hash, Written(m)) + Substitute(Recognize(FullSpan), rest, lookup))
    ensures Extract(Recognize(FullSpan), segment + (Written(m) + rest)) ==
            [m.hash] + Extract(Recognize(FullSpan), rest)
  {
    SegmentIsQuiet(FullSpan, segment, Written(m) + rest);
    SegmentPasses(Recognize(FullSpan), segment, Written(m) + rest, lookup);
    MarkerMatchesWhole(m, rest);
    SplitFront(Written(m), rest);
    PassMatch(Recognize(FullSpan), Written(m) + rest, Found(|Written(m)|, m.hash), lookup);
  }

  lemma SplitFront(a: string, b: string)
    ensures (a + b)[..|a|] == a && (a + b)[|a|..] == b
  {
  }

  /** The splice that `sub_within_budget` makes of the matches of such a text is that replacement. */
  lemma PassReplacesMarkers(segments: seq<string>, ms: seq<Marker>, lookup: Lookup)
    requires Grammatical(segments, ms)
    ensures Sensible(Recognize(FullSpan))
    ensures var text := Render(segments, ms); var found := FindAll(Recognize(FullSpan), text, 0);
            Spans(found, 0, |text|) && Splice(text, found, 0, lookup) == Replaced(segments, ms, lookup)
  {
    var text := Render(segments, ms);
    SubstitutionReplacesMarkers(segments, ms, lookup);
    PassFromTheFront(Recognize(FullSpan), text, 0, lookup);
    assert text[0..] == text;
  }

  /** Where the store resolves none of its markers, a grammatical text comes back unchanged. */
  lemma {:induction false} MissesAreLeftInPlace(segments: seq<string>, ms: seq<Marker>, lookup: Lookup)
    requires |segments| == |ms| + 1 && forall i | 0 <= i < |ms| :: lookup(ms[i].hash) == None
    ensures Replaced(segments, ms, lookup) == Render(segments, ms)
    decreases |ms|
  {
    if ms != [] {
      assert forall i | 0 <= i < |ms[1..]| :: ms[1..][i] == ms[i + 1];
      MissesAreLeftInPlace(segments[1..], ms[1..], lookup);
    }
  }

  // ---------- The same, spelled out ----------

  // Segments that hold no "<<ccr:", and one marker fewer: 12 or 24 lower-case hex digits and a tail of at most 64
  // characters that begins with something else.
  ghost predicate Spelled(segments: seq<string>, ms: seq<Marker>) {
    && |segments| == |ms| + 1
    && (forall i, before, after: string | 0 <= i < |segments| :: segments[i] != before + "<<ccr:" + after)
    && (forall m | m in ms :: |m.hash| == 12 || |m.hash| == 24)
    && (forall m | m in ms :: forall c | c in m.hash :: c in "0123456789abcdef")
    && (forall m | m in ms :: |m.tail| <= 64 && '<' !in m.tail && '>' !in m.tail)
    && (forall m | m in ms :: m.tail != "" ==> m.tail[0] !in "0123456789abcdef")
  }

  // The markers as text.
  ghost predicate WrittenOut(ms: seq<Marker>, written: seq<string>) {
    && |written| == |ms|
    && forall i | 0 <= i < |ms| :: written[i] == "<<ccr:" + ms[i].hash + ms[i].tail + ">>"
  }

  // What each marker stands for: the content of its hash, or itself where there is none.
  ghost predicate Expanded(ms: seq<Marker>, written: seq<string>, lookup: Lookup, contents: seq<string>) {
    && |contents| == |ms| == |written|
    && forall i | 0 <= i < |ms| ::
         contents[i] == if lookup(ms[i].hash).Some? then lookup(ms[i].hash).value else written[i]
  }

  lemma PrefixSpelled(s: string, j: nat)
    requires j < |s| && PrefixAt(s, j)
    ensures s == s[..j] + "<<ccr:" + s[j + 6..]
  {
    assert s[j + 0] == PREFIX[0] && s[j + 1] == PREFIX[1] && s[j + 2] == PREFIX[2];
    assert s[j + 3] == PREFIX[3] && s[j + 4] == PREFIX[4] && s[j + 5] == PREFIX[5];
  }

  lemma SpelledIsGrammatical(segments: seq<string>, ms: seq<Marker>)
    requires Spelled(segments, ms)
    ensures Grammatical(segments, ms)
  {
    forall i | 0 <= i < |segments| ensures PrefixFree(segments[i]) {
      forall j | 0 <= j < |segments[i]| ensures !PrefixAt(segments[i], j) {
        if PrefixAt(segments[i], j) { PrefixSpelled(segments[i], j); }
      }
    }
    forall i | 0 <= i < |ms| ensures WellFormed(ms[i]) { SpelledIsWellFormed(segments, ms, ms[i]); }
  }

  lemma SpelledIsWellFormed(segments: seq<string>, ms: seq<Marker>, m: Marker)
    requires Spelled(segments, ms) && m in ms
    ensures WellFormed(m)
  {
    assert forall c :: Hex(c) <==> c in "0123456789abcdef";
    assert forall i | 0 <= i < |m.hash| :: m.hash[i] in m.hash;
    assert forall i | 0 <= i < |m.tail| :: m.tail[i] in m.tail;
  }

  lemma {:induction false} RenderIsWoven(segments: seq<string>, ms: seq<Marker>, written: seq<string>)
    requires |segments| == |ms| + 1 && WrittenOut(ms, written)
    ensures Render(segments, ms) == Weave(segments, written)
    decreases |ms|
  {
    if ms != [] {
      assert written[0] == Written(ms[0]);
      RenderIsWoven(segments[1..], ms[1..], written[1..]);
      assert segments[0] + (written[0] + Weave(segments[1..], written[1..]))
          == segments[0] + written[0] + Weave(segments[1..], written[1..]);
    }
  }

  lemma {:induction false} ReplacedIsWoven(segments: seq<string>, ms: seq<Marker>, written: seq<string>, lookup: Lookup,
                                           contents: seq<string>)
    requires |segments| == |ms| + 1 && WrittenOut(ms, written) && Expanded(ms, written, lookup, contents)
    ensures Replaced(segments, ms, lookup) == Weave(segments, contents)
    decreases |ms|
  {
    if ms != [] {
      assert contents[0] == Resolved(lookup, ms[0].hash, Written(ms[0]));
      ReplacedIsWoven(segments[1..], ms[1..], written[1..], lookup, contents[1..]);
      assert segments[0] + (contents[0] + Weave(segments[1..], contents[1..]))
          == segments[0] + contents[0] + Weave(segments[1..], contents[1..]);
    }
  }

  /** One pass over a text of markers puts in place of each marker the content of its hash, where there is one, and
      changes nothing else. */
  lemma PassExpandsMarkers(segments: seq<string>, ms: seq<Marker>, written: seq<string>, lookup: Lookup,
                           contents: seq<string>)
    requires Spelled(segments, ms) && WrittenOut(ms, written) && Expanded(ms, written, lookup, contents)
    ensures Sensible(Recognize(FullSpan))
    ensures var text := Weave(segments, written); var found := FindAll(Recognize(FullSpan), text, 0);
            Spans(found, 0, |text|) && Splice(text, found, 0, lookup) == Weave(segments, contents)
  {
    SpelledIsGrammatical(segments, ms);
    RenderIsWoven(segments, ms, written);
    ReplacedIsWoven(segments, ms, written, lookup, contents);
    PassReplacesMarkers(segments, ms, lookup);
  }

  /** ... and so does the expansion with all patterns, where the others find nothing in the text. */
  lemma ExpandReplacesMarkers(segments: seq<string>, ms: seq<Marker>, written: seq<string>, lookup: Lookup,
                              contents: seq<string>, others: seq<Finder>, angle: Finder)
    requires Spelled(segments, ms) && WrittenOut(ms, written) && Expanded(ms, written, lookup, contents)
    requires Finds(angle) && Sensible(Recognize(FullSpan))
    requires angle(Weave(segments, written)) == FindAll(Recognize(FullSpan), Weave(segments, written), 0)
    requires forall i | 0 <= i < |others| :: Finds(others[i]) && others[i](Weave(segments, written)) == []
    ensures forall i | 0 <= i < |others + [angle]| :: Finds((others + [angle])[i])
    ensures ExpandWith(others + [angle], lookup, Weave(segments, written)) == Weave(segments, contents)
  {
    PassExpandsMarkers(segments, ms, written, lookup, contents);
    ExpandPastSilent(others, angle, lookup, Weave(segments, written));
  }

  lemma NoBracketIsQuiet(leftover: string, rest: string)
    requires forall i | 0 <= i < |leftover| :: leftover[i] != '<'
    ensures Sensible(Recognize(Extraction))
    ensures forall i | 0 <= i < |leftover| :: Recognize(Extraction)(leftover[i..] + rest).None?
  {
    forall i | 0 <= i < |leftover| ensures Recognize(Extraction)(leftover[i..] + rest).None? {
      assert (leftover[i..] + rest)[0] != PREFIX[0];
      NoMatchWithoutPrefix(Extraction, leftover[i..] + rest);
    }
  }

  lemma ExtractionPassesMarker(m: Marker, rest: string)
    requires WellFormed(m) && Separated(m) && Sensible(Recognize(Extraction))
    ensures Extract(Recognize(Extraction), Written(m) + rest) == [m.hash] + Extract(Recognize(Extraction), rest)
  {
    var extraction, n, after := Recognize(Extraction), |PREFIX| + |m.hash| + 1, (m.tail + ">>")[1..];
    MarkerMatchesWhole(m, rest);
    AfterDelimiter(m, rest);
    NoBracketIsQuiet(after, rest);
    MatchThenQuiet(extraction, Written(m) + rest, Found(n, m.hash), after, rest, NOTHING);
  }

  lemma AfterDelimiter(m: Marker, rest: string)
    ensures |(Written(m) + rest)| > |PREFIX| + |m.hash|
    ensures (Written(m) + rest)[|PREFIX| + |m.hash| + 1..] == (m.tail + ">>")[1..] + rest
  {
    assert Written(m) == PREFIX + m.hash + (m.tail + ">>");
  }

  /** On the markers that the producers write, the extraction pattern finds the hashes that substitution
      resolves, in order. */
  lemma {:induction false} ExtractionFindsHashes(segments: seq<string>, ms: seq<Marker>)
    requires Grammatical(segments, ms) && forall i | 0 <= i < |ms| :: Separated(ms[i])
    ensures Sensible(Recognize(Extraction)) && Extract(Recognize(Extraction), Render(segments, ms)) == Hashes(ms)
    decreases |ms|
  {
    if ms == [] {
      SegmentIsQuiet(Extraction, segments[0], "");
      SegmentPasses(Recognize(Extraction), segments[0], "", NOTHING);
    } else {
      ExtractionStep(segments[0], ms[0], Render(segments[1..], ms[1..]));
      ExtractionFindsHashes(segments[1..], ms[1..]);
    }
  }

  // The hashes as they stand in the markers, one by one.
  ghost predicate HashList(ms: seq<Marker>, hashes: seq<string>) {
    |hashes| == |ms| && forall i | 0 <= i < |ms| :: hashes[i] == ms[i].hash
  }

  lemma {:induction false} HashesAreListed(ms: seq<Marker>)
    ensures HashList(ms, Hashes(ms))
  {
    if ms != [] { HashesAreListed(ms[1..]); }
  }

  /** `hashes_in_text` finds in a text of markers with the producers' separators exactly the markers' hashes, each
      once and in the order of their first markers, if the other patterns find nothing there. */
  lemma HashesAreFound(segments: seq<string>, ms: seq<Marker>, written: seq<string>, others: seq<Finder>, angle: Finder,
                       hashes: seq<string>)
    requires Spelled(segments, ms) && WrittenOut(ms, written) && HashList(ms, hashes)
    requires forall m | m in ms :: m.tail == "" || m.tail[0] in " ,#"
    requires Sensible(Recognize(Extraction)) && angle(Weave(segments, written)) ==
             FindAll(Recognize(Extraction), Weave(segments, written), 0)
    requires forall i | 0 <= i < |others| :: others[i](Weave(segments, written)) == []
    ensures var found := Distinct(AllHashes(others + [angle], Weave(segments, written)));
            NoRepeats(found) && InOrderOf(found, hashes) && forall h :: h in found <==> h in hashes
  {
    SpelledHashesExtracted(segments, ms, written, hashes);
    LastFindsAll(others, angle, Weave(segments, written), hashes);
    DistinctIsInOrder(hashes);
  }

  lemma SpelledHashesExtracted(segments: seq<string>, ms: seq<Marker>, written: seq<string>, hashes: seq<string>)
    requires Spelled(segments, ms) && WrittenOut(ms, written) && HashList(ms, hashes)
    requires forall m | m in ms :: m.tail == "" || m.tail[0] in " ,#"
    ensures Sensible(Recognize(Extraction)) && Extract(Recognize(Extraction), Weave(segments, written)) == hashes
  {
    SpelledIsGrammatical(segments, ms);
    AllSeparated(ms);
    RenderIsWoven(segments, ms, written);
    ExtractionFindsHashes(segments, ms);
    OneHashList(ms, hashes);
  }

  lemma AllSeparated(ms: seq<Marker>)
    requires forall m | m in ms :: m.tail == "" || m.tail[0] in " ,#"
    ensures forall i | 0 <= i < |ms| :: Separated(ms[i])
  {
    forall i | 0 <= i < |ms| ensures Separated(ms[i]) { assert ms[i] in ms; }
  }

  lemma OneHashList(ms: seq<Marker>, hashes: seq<string>)
    requires HashList(ms, hashes)
    ensures Hashes(ms) == hashes
  {
    HashesAreListed(ms);
  }

  lemma LastFindsAll(others: seq<Finder>, angle: Finder, text: string, hashes: seq<string>)
    requires Sensible(Recognize(Extraction)) && angle(text) == FindAll(Recognize(Extraction), text, 0)
    requires Extract(Recognize(Extraction), text) == hashes
    requires forall i | 0 <= i < |others| :: others[i](text) == []
    ensures AllHashes(others + [angle], text) == hashes
  {
    HashesAreExtracted(Recognize(Extraction), text, 0);
    assert text[0..] == text;
    AllHashesOfSilent(others, text);
    AllHashesOneMore(others, angle, text);
    assert [] + hashes == hashes;
  }

  lemma ExtractionStep(segment: string, m: Marker, rest: string)
    requires PrefixFree(segment) && WellFormed(m) && Separated(m)
    ensures Sensible(Recognize(Extraction))
    ensures Extract(Recognize(Extraction), segment + (Written(m) + rest)) ==
            [m.hash] + Extract(Recognize(Extraction), rest)
  {
    SegmentIsQuiet(Extraction, segment, Written(m) + rest);
    SegmentPasses(Recognize(Extraction), segment, Written(m) + rest, NOTHING);
    ExtractionPassesMarker(m, rest);
  }

  // ---------- Markers of any width ----------

  // What is written with any number of digits, and a tail that ends them.
  function Span(digits: string, tail: string): string { "<<ccr:" + digits + (tail + ">>") }

  predicate Ends(tail: string) { (forall i | 0 <= i < |tail| :: tail[i] != '>') && (tail != "" ==> !Hex(tail[0])) }

  /** The exact-width guard, for every shape: extraction accepts 12 or 24 digits before a separator and nothing
      else; substitution also accepts other widths, because it takes the surplus digits for the tail, as long as
      they fit into it. */
  lemma WidthsAccepted(digits: string, tail: string, rest: string)
    requires forall c | c in digits :: c in "0123456789abcdef"
    requires '>' !in tail && (tail != "" ==> tail[0] !in "0123456789abcdef")
    ensures Head(Extraction, Span(digits, tail) + rest) ==
            if |digits| in {12, 24} && (tail == "" || tail[0] in " ,#")
            then Some(Found(6 + |digits| + 1, digits)) else None
    ensures Head(FullSpan, Span(digits, tail) + rest) ==
            if |digits| >= 24 && |digits| + |tail| <= 88
            then Some(Found(|Span(digits, tail)|, digits[..24]))
            else if |digits| >= 12 && |digits| + |tail| <= 76
            then Some(Found(|Span(digits, tail)|, digits[..12])) else None
  {
    assert forall c :: Hex(c) <==> c in "0123456789abcdef";
    assert forall i | 0 <= i < |digits| :: digits[i] in digits;
    assert forall i | 0 <= i < |tail| :: tail[i] in tail;
    SpanAtWidth(digits, tail, rest, 12);
    SpanAtWidth(digits, tail, rest, 24);
  }

  lemma SpanAtWidth(digits: string, tail: string, rest: string, w: nat)
    requires AllHex(digits) && Ends(tail)
    ensures WithWidth(Extraction, Span(digits, tail) + rest, w) ==
            if |digits| == w && (tail == "" || tail[0] in " ,#")
            then Some(Found(|PREFIX| + w + 1, digits)) else None
    ensures WithWidth(FullSpan, Span(digits, tail) + rest, w) ==
            if |digits| >= w && |digits| + |tail| <= w + MAX_TAIL
            then Some(Found(|Span(digits, tail)|, digits[..w])) else None
  {
    var after := tail + ">>" + rest;
    if |digits| < w {
      assert Span(digits, tail) + rest == PREFIX + digits + after;
      HashIsNoLonger(digits, after, w);
    } else {
      WideSpan(digits[..w], digits[w..], tail, rest);
      assert digits[..w] + digits[w..] == digits;
      if |digits| == w { assert digits[..w] == digits; }
    }
  }

  // A hash followed by surplus digits.
  lemma WideSpan(hash: string, more: string, tail: string, rest: string)
    requires AllHex(hash) && AllHex(more) && Ends(tail)
    ensures var s := Span(hash + more, tail) + rest;
            && WithWidth(Extraction, s, |hash|) == (if more == "" && (tail == "" || tail[0] in " ,#")
                                                    then Some(Found(|PREFIX| + |hash| + 1, hash)) else None)
            && WithWidth(FullSpan, s, |hash|) == (if |more| + |tail| <= MAX_TAIL
                                                  then Some(Found(|Span(hash + more, tail)|, hash)) else None)
  {
    var after := more + tail + ">>" + rest;
    assert Span(hash + more, tail) + rest == PREFIX + hash + after;
    HashFollowedBy(hash, after);
    CloseAfterAny(more + tail, rest, MAX_TAIL);
    FirstAfterHash(more, tail, rest);
  }

  lemma FirstAfterHash(more: string, tail: string, rest: string)
    requires AllHex(more) && Ends(tail)
    ensures Delimiter(more + tail + ">>" + rest).Some? <==> more == "" && (tail == "" || tail[0] in " ,#")
  {
    var after := more + tail + ">>" + rest;
    assert after[0] == if more != "" then more[0] else if tail != "" then tail[0] else '>';
  }
}
