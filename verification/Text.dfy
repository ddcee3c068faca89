/** `str.split` with a one-character separator, `str.join`, and how they undo each other. */
module Text {
  function Split(s: string, sep: char): (parts: seq<string>)
    ensures |parts| >= 1
  {
    if s == "" then [""]
    else
      var rest := Split(s[1..], sep);
      if s[0] == sep then [""] + rest else [[s[0]] + rest[0]] + rest[1..]
  }

  function Join(parts: seq<string>, sep: char): string {
    if parts == [] then ""
    else if |parts| == 1 then parts[0]
    else parts[0] + [sep] + Join(parts[1..], sep)
  }

  predicate Free(s: string, sep: char) { forall i | 0 <= i < |s| :: s[i] != sep }

  lemma {:induction false} JoinOfSplit(s: string, sep: char)
    ensures Join(Split(s, sep), sep) == s
    ensures forall i | 0 <= i < |Split(s, sep)| :: Free(Split(s, sep)[i], sep)
  {
    if s != "" {
      var rest := Split(s[1..], sep);
      JoinOfSplit(s[1..], sep);
      if s[0] == sep {
        assert ([""] + rest)[1..] == rest;
        assert s == [sep] + s[1..];
      } else {
        var first := [s[0]] + rest[0];
        assert ([first] + rest[1..])[1..] == rest[1..];
        assert s == [s[0]] + s[1..];
        assert forall i | 0 <= i < |rest| :: Free(rest[i], sep);
        if |rest| > 1 {
          assert first + [sep] + Join(rest[1..], sep) == [s[0]] + (rest[0] + [sep] + Join(rest[1..], sep));
        }
      }
    }
  }

  lemma {:induction false} SplitOfJoin(parts: seq<string>, sep: char)
    requires parts != [] && forall i | 0 <= i < |parts| :: Free(parts[i], sep)
    ensures Split(Join(parts, sep), sep) == parts
  {
    if |parts| == 1 {
      SplitOfFree(parts[0], sep);
    } else {
      SplitOfJoin(parts[1..], sep);
      SplitAtSeparator(parts[0], Join(parts[1..], sep), sep);
      assert parts == [parts[0]] + parts[1..];
      assert parts[0] + [sep] + Join(parts[1..], sep) == parts[0] + ([sep] + Join(parts[1..], sep));
    }
  }

  lemma {:induction false} SplitOfFree(s: string, sep: char)
    requires Free(s, sep)
    ensures Split(s, sep) == [s]
  {
    if s != "" {
      SplitOfFree(s[1..], sep);
      assert s == [s[0]] + s[1..];
    }
  }

  lemma {:induction false} SplitAtSeparator(first: string, rest: string, sep: char)
    requires Free(first, sep)
    ensures Split(first + ([sep] + rest), sep) == [first] + Split(rest, sep)
  {
    if first == "" {
      assert first + ([sep] + rest) == [sep] + rest;
      assert ([sep] + rest)[1..] == rest;
    } else {
      SplitAtSeparator(first[1..], rest, sep);
      assert (first + ([sep] + rest))[1..] == first[1..] + ([sep] + rest);
      assert first == [first[0]] + first[1..];
    }
  }

  // One more character in front.
  function Prepend(c: char, parts: seq<string>, sep: char): seq<string>
    requires parts != []
  {
    if c == sep then [""] + parts else [[c] + parts[0]] + parts[1..]
  }

  lemma SplitOfCons(c: char, s: string, sep: char)
    ensures Split([c] + s, sep) == Prepend(c, Split(s, sep), sep)
  {
    assert ([c] + s)[1..] == s;
  }

  lemma PrependOfConcat(c: char, parts: seq<string>, more: seq<string>, sep: char)
    requires parts != []
    ensures Prepend(c, parts + more, sep) == Prepend(c, parts, sep) + more
  {
  }

  lemma {:induction false} SplitOfAppend(first: string, rest: string, sep: char)
    ensures Split(first + ([sep] + rest), sep) == Split(first, sep) + Split(rest, sep)
  {
    if first == "" {
      assert "" + ([sep] + rest) == [sep] + rest;
      SplitOfCons(sep, rest, sep);
    } else {
      var c, tail := first[0], first[1..];
      assert first == [c] + tail && first + ([sep] + rest) == [c] + (tail + ([sep] + rest));
      SplitOfAppend(tail, rest, sep);
      SplitOfCons(c, tail, sep);
      SplitOfCons(c, tail + ([sep] + rest), sep);
      PrependOfConcat(c, Split(tail, sep), Split(rest, sep), sep);
    }
  }

  lemma {:induction false} JoinOfConcat(xs: seq<string>, ys: seq<string>, sep: char)
    requires xs != [] && ys != []
    ensures Join(xs + ys, sep) == Join(xs, sep) + [sep] + Join(ys, sep)
  {
    if |xs| == 1 {
      assert (xs + ys)[1..] == ys;
    } else {
      JoinOfConcat(xs[1..], ys, sep);
      assert (xs + ys)[1..] == xs[1..] + ys;
      assert xs[0] + [sep] + (Join(xs[1..], sep) + [sep] + Join(ys, sep))
          == xs[0] + [sep] + Join(xs[1..], sep) + [sep] + Join(ys, sep);
    }
  }

  // `parts` with the `gaps` before, between and after them.
  function Weave(gaps: seq<string>, parts: seq<string>): string
    requires |gaps| == |parts| + 1
    decreases |parts|
  {
    if parts == [] then gaps[0] else gaps[0] + parts[0] + Weave(gaps[1..], parts[1..])
  }

  lemma WeaveFirst(gap: string, gaps: seq<string>, part: string, parts: seq<string>)
    requires |gaps| == |parts| + 1
    ensures Weave([gap] + gaps, [part] + parts) == gap + part + Weave(gaps, parts)
  {
    assert ([gap] + gaps)[1..] == gaps && ([part] + parts)[1..] == parts;
  }
}
