/** Splitting content into maximal runs of lines that are all eligible for compression or all protected. */
module Partition {
  import opened Text

  const MAX_REGEX_LINE_CHARS := 10000

  type Matcher = string -> bool

  datatype SectionPatterns = SectionPatterns(included: seq<Matcher>, excluded: seq<Matcher>)

  datatype LineRun = LineRun(eligible: bool, text: string)

  predicate Matches(ms: seq<Matcher>, line: string) { exists i | 0 <= i < |ms| :: ms[i](line) }

  predicate Eligible(p: SectionPatterns, line: string): (r: bool)
    ensures r <==>
            && |line| <= 10000 && (forall m | m in p.excluded :: !m(line))
            && (p.included != [] ==> exists m | m in p.included :: m(line))
  {
    if |line| > MAX_REGEX_LINE_CHARS then false
    else if Matches(p.excluded, line) then false
    else if p.included != [] then Matches(p.included, line)
    else true
  }

  // ---------- What a partition is ----------

  function Lines(runs: seq<LineRun>): seq<string> {
    if runs == [] then [] else Split(runs[0].text, '\n') + Lines(runs[1..])
  }

  function Texts(runs: seq<LineRun>): seq<string> { seq(|runs|, i requires 0 <= i < |runs| => runs[i].text) }

  // All lines of the run have its eligibility.
  ghost predicate Uniform(run: LineRun, p: SectionPatterns) {
    forall line | line in Split(run.text, '\n') :: Eligible(p, line) == run.eligible
  }

  ghost predicate Alternating(runs: seq<LineRun>) {
    forall i | 0 < i < |runs| :: runs[i].eligible != runs[i - 1].eligible
  }

  ghost predicate Runs(runs: seq<LineRun>, p: SectionPatterns) {
    Alternating(runs) && forall i | 0 <= i < |runs| :: Uniform(runs[i], p)
  }

  // ---------- The partition in steps ----------

  method PartitionContent(content: string, p: SectionPatterns) returns (runs: seq<LineRun>)
    ensures Runs(runs, p) && Lines(runs) == Split(content, '\n')
    ensures runs != [] && Join(Texts(runs), '\n') == content
  {
    var lines := Split(content, '\n');
    JoinOfSplit(content, '\n');
    runs := [];
    var current: seq<string>, currentEligible := [], Eligible(p, lines[0]);
    for i := 0 to |lines|
      invariant i > 0 ==> current != []
      invariant i == 0 ==> runs == [] && currentEligible == Eligible(p, lines[0])
      invariant Collected(runs, current, currentEligible, p, lines, i)
    {
      var eligible := Eligible(p, lines[i]);
      if eligible != currentEligible {
        CloseRun(runs, current, currentEligible, p, lines, i);
        runs := runs + [LineRun(currentEligible, Join(current, '\n'))];
        current := [];
        currentEligible := eligible;
      }
      CollectLine(runs, current, currentEligible, p, lines, i);
      current := current + [lines[i]];
    }
    CloseRun(runs, current, currentEligible, p, lines, |lines|);
    runs := runs + [LineRun(currentEligible, Join(current, '\n'))];
    assert lines[..|lines|] == lines && Lines(runs) + [] == Lines(runs);
    RunsRejoin(runs, content);
  }

  // The first `i` lines are in `runs` and, with the last of them, in `current`.
  ghost predicate Collected(runs: seq<LineRun>, current: seq<string>, eligible: bool, p: SectionPatterns,
                            lines: seq<string>, i: nat) {
    && i <= |lines| && (forall j | 0 <= j < |lines| :: Free(lines[j], '\n'))
    && Runs(runs, p) && Lines(runs) + current == lines[..i]
    && (forall j | 0 <= j < |current| :: Eligible(p, current[j]) == eligible)
    && (runs != [] ==> runs[|runs| - 1].eligible != eligible)
  }

  lemma CollectLine(runs: seq<LineRun>, current: seq<string>, eligible: bool, p: SectionPatterns, lines: seq<string>,
                    i: nat)
    requires i < |lines| && Collected(runs, current, eligible, p, lines, i) && Eligible(p, lines[i]) == eligible
    ensures Collected(runs, current + [lines[i]], eligible, p, lines, i + 1)
  {
    assert lines[..i + 1] == lines[..i] + [lines[i]];
    assert Lines(runs) + (current + [lines[i]]) == Lines(runs) + current + [lines[i]];
  }

  lemma CloseRun(runs: seq<LineRun>, current: seq<string>, eligible: bool, p: SectionPatterns, lines: seq<string>,
                 i: nat)
    requires current != [] && Collected(runs, current, eligible, p, lines, i)
    ensures Collected(runs + [LineRun(eligible, Join(current, '\n'))], [], !eligible, p, lines, i)
  {
    var run := LineRun(eligible, Join(current, '\n'));
    var k := |Lines(runs)|;
    forall j | 0 <= j < |current| ensures Free(current[j], '\n') {
      assert current[j] == (Lines(runs) + current)[k + j] == lines[k + j];
    }
    SplitOfJoin(current, '\n');
    assert Uniform(run, p);
    LinesOfConcat(runs, run);
  }

  lemma {:induction false} LinesOfConcat(runs: seq<LineRun>, run: LineRun)
    ensures Lines(runs + [run]) == Lines(runs) + Split(run.text, '\n')
    decreases |runs|
  {
    if runs == [] {
      assert [run][1..] == [] && [] + [run] == [run];
    } else {
      LinesOfConcat(runs[1..], run);
      assert (runs + [run])[1..] == runs[1..] + [run];
    }
  }

  // ---------- Rejoining ----------

  lemma {:induction false} SplitOfJoined(runs: seq<LineRun>)
    requires runs != []
    ensures Join(Texts(runs), '\n') == Join(Lines(runs), '\n')
    decreases |runs|
  {
    var first := Split(runs[0].text, '\n');
    JoinOfSplit(runs[0].text, '\n');
    if |runs| == 1 {
      assert first + Lines(runs[1..]) == first;
    } else {
      SplitOfJoined(runs[1..]);
      assert Texts(runs)[1..] == Texts(runs[1..]);
      assert Lines(runs[1..]) == Split(runs[1].text, '\n') + Lines(runs[1..][1..]);
      JoinOfConcat(first, Lines(runs[1..]), '\n');
    }
  }

  /** Joined with newlines, the runs are the content, character for character. */
  lemma RunsRejoin(runs: seq<LineRun>, content: string)
    requires Lines(runs) == Split(content, '\n')
    ensures runs != [] && Join(Texts(runs), '\n') == content
  {
    SplitOfJoined(runs);
    JoinOfSplit(content, '\n');
  }

  // ---------- Maximality ----------

  // The first run is the longest stretch of lines of its kind.
  lemma FirstRunIsLongest(runs: seq<LineRun>, p: SectionPatterns)
    requires Runs(runs, p) && runs != []
    ensures var n := |Split(runs[0].text, '\n')|; var lines := Lines(runs);
            && n <= |lines| && lines[..n] == Split(runs[0].text, '\n') && lines[n..] == Lines(runs[1..])
            && (forall i | 0 <= i < n :: Eligible(p, lines[i]) == runs[0].eligible)
            && (n < |lines| ==> Eligible(p, lines[n]) != runs[0].eligible)
  {
    var first, rest := Split(runs[0].text, '\n'), Lines(runs[1..]);
    var n, lines := |first|, Lines(runs);
    assert lines == first + rest;
    assert Uniform(runs[0], p);
    forall i | 0 <= i < n ensures Eligible(p, lines[i]) == runs[0].eligible { assert first[i] in first; }
    if n < |lines| {
      var second := Split(runs[1].text, '\n');
      assert rest == second + Lines(runs[1..][1..]);
      assert Uniform(runs[1], p) && second[0] in second && lines[n] == second[0];
    }
  }

  lemma StretchesAgree(lines: seq<string>, p: SectionPatterns, m: nat, n: nat, e: bool, f: bool)
    requires 0 < m <= |lines| && 0 < n <= |lines|
    requires (forall i | 0 <= i < m :: Eligible(p, lines[i]) == e) && (m < |lines| ==> Eligible(p, lines[m]) != e)
    requires (forall i | 0 <= i < n :: Eligible(p, lines[i]) == f) && (n < |lines| ==> Eligible(p, lines[n]) != f)
    ensures m == n && e == f
  {
    assert e == Eligible(p, lines[0]) == f;
  }

  /** The runs are maximal: there is no other way to cut the content into alternating runs of one kind each. */
  lemma {:induction false} RunsAreDetermined(a: seq<LineRun>, b: seq<LineRun>, p: SectionPatterns)
    requires Runs(a, p) && Runs(b, p) && Lines(a) == Lines(b)
    ensures a == b
    decreases |a|
  {
    if a != [] && b != [] {
      FirstRunIsLongest(a, p);
      FirstRunIsLongest(b, p);
      StretchesAgree(Lines(a), p, |Split(a[0].text, '\n')|, |Split(b[0].text, '\n')|, a[0].eligible, b[0].eligible);
      JoinOfSplit(a[0].text, '\n');
      JoinOfSplit(b[0].text, '\n');
      RunsAreDetermined(a[1..], b[1..], p);
      assert a == [a[0]] + a[1..] && b == [b[0]] + b[1..];
    }
  }

  // ---------- What a pattern changes ----------

  function Repeat(b: bool, n: nat): seq<bool> { seq(n, _ => b) }

  // The eligibility of each line, as the runs have it.
  function Flags(runs: seq<LineRun>): seq<bool> {
    if runs == [] then [] else Repeat(runs[0].eligible, |Split(runs[0].text, '\n')|) + Flags(runs[1..])
  }

  lemma {:induction false} FlagsAreEligibility(runs: seq<LineRun>, p: SectionPatterns)
    requires Runs(runs, p)
    ensures |Flags(runs)| == |Lines(runs)|
    ensures forall i | 0 <= i < |Lines(runs)| :: Flags(runs)[i] == Eligible(p, Lines(runs)[i])
    decreases |runs|
  {
    if runs != [] {
      var first := Split(runs[0].text, '\n');
      FlagsAreEligibility(runs[1..], p);
      assert Uniform(runs[0], p) && forall i | 0 <= i < |first| :: first[i] in first;
    }
  }

  lemma MatchesEither(a: seq<Matcher>, b: seq<Matcher>, line: string)
    ensures Matches(a + b, line) <==> Matches(a, line) || Matches(b, line)
  {
    if i :| 0 <= i < |a| && a[i](line) { assert (a + b)[i](line); }
    if i :| 0 <= i < |b| && b[i](line) { assert (a + b)[|a| + i](line); }
  }

  /** More exclude patterns only ever protect more: exactly the lines that match one of them are no longer
      compressed. */
  lemma ExcludingOnlyProtects(a: seq<LineRun>, b: seq<LineRun>, p: SectionPatterns, more: seq<Matcher>)
    requires Runs(a, p) && Runs(b, SectionPatterns(p.included, p.excluded + more)) && Lines(a) == Lines(b)
    ensures |Flags(a)| == |Flags(b)| == |Lines(a)|
    ensures forall i | 0 <= i < |Lines(a)| :: Flags(b)[i] <==> Flags(a)[i] && !Matches(more, Lines(a)[i])
  {
    FlagsAreEligibility(a, p);
    FlagsAreEligibility(b, SectionPatterns(p.included, p.excluded + more));
    forall i | 0 <= i < |Lines(a)| { MatchesEither(p.excluded, more, Lines(a)[i]); }
  }

  /** Where there are include patterns, further ones only ever offer more: a line is compressed as before or
      because the further ones, with the same exclude patterns, offer it. */
  lemma IncludingOnlyOffers(a: seq<LineRun>, b: seq<LineRun>, p: SectionPatterns, more: seq<Matcher>)
    requires p.included != [] && more != []
    requires Runs(a, p) && Runs(b, SectionPatterns(p.included + more, p.excluded)) && Lines(a) == Lines(b)
    ensures |Flags(a)| == |Flags(b)| == |Lines(a)|
    ensures forall i | 0 <= i < |Lines(a)| ::
              Flags(b)[i] <==> Flags(a)[i] || Eligible(SectionPatterns(more, p.excluded), Lines(a)[i])
  {
    FlagsAreEligibility(a, p);
    FlagsAreEligibility(b, SectionPatterns(p.included + more, p.excluded));
    forall i | 0 <= i < |Lines(a)| { MatchesEither(p.included, more, Lines(a)[i]); }
  }
}
