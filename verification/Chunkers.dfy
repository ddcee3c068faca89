/** How the store cuts plain text into searchable records: overlapping word windows for a long single line,
    greedy packs of lines for everything else. */
module Chunkers {
  import opened Text

  // `first` and `last` are 1-based word or line numbers.
  datatype Chunk = Chunk(text: string, index: nat, first: nat, last: nat)

  // ---------- Word windows ----------

  const MAX_WORDS := 350
  const OVERLAP_WORDS := 50

  // The `i`th window: 350 words from word 300 * `i` on, or as many as there are.
  ghost predicate IsWindow(item: Chunk, words: seq<string>, i: nat) {
    && item.index == i && item.first == 300 * i + 1 <= |words|
    && item.last == (if |words| < 300 * i + 350 then |words| else 300 * i + 350)
    && item.text == Join(words[item.first - 1..item.last], ' ')
  }

  // Every window up to the one that ends with the last word.
  ghost predicate Windows(items: seq<Chunk>, words: seq<string>) {
    && items != []
    && forall i | 0 <= i < |items| ::
         IsWindow(items[i], words, i) && (items[i].last == |words| <==> i == |items| - 1)
  }

  // The records of one long line.
  ghost predicate WordRecords(items: seq<Chunk>, normalized: string, words: seq<string>) {
    if words == [] then items == []
    else if |words| <= 350 then items == [Chunk(normalized, 0, 1, |words|)]
    else Windows(items, words)
  }

  method WordChunks(normalized: string, words: seq<string>) returns (items: seq<Chunk>)
    ensures WordRecords(items, normalized, words)
  {
    if words == [] {
      return [];
    }
    if |words| <= MAX_WORDS {
      return [Chunk(normalized, 0, 1, |words|)];
    }
    items := WordWindows(words);
  }

  method WordWindows(words: seq<string>) returns (items: seq<Chunk>)
    requires |words| > MAX_WORDS
    ensures Windows(items, words)
  {
    items := [];
    var start, index := 0, 0;
    var step := MAX_WORDS - OVERLAP_WORDS;
    while start < |words|
      invariant index == |items| && start == 300 * index < |words|
      invariant forall i | 0 <= i < |items| :: IsWindow(items[i], words, i) && items[i].last < |words|
      decreases |words| - start
    {
      var end := if |words| < start + MAX_WORDS then |words| else start + MAX_WORDS;
      items := items + [Chunk(Join(words[start..end], ' '), index, start + 1, end)];
      assert IsWindow(items[index], words, index);
      if end == |words| {
        break;
      }
      start := start + step;
      index := index + 1;
    }
  }

  // The words `a .. a + len` lie wholly inside the record.
  predicate Inside(item: Chunk, a: nat, len: nat) { item.first - 1 <= a && a + len <= item.last }

  predicate Covered(items: seq<Chunk>, a: nat, len: nat) { exists i | 0 <= i < |items| :: Inside(items[i], a, len) }

  /** Every run of up to 51 consecutive words lies wholly inside some record, also where the last one is cut
      short, and 51 is the most: of every greater length some run is split. */
  lemma OverlapIsExact(items: seq<Chunk>, words: seq<string>, len: nat)
    requires |words| > 350 && Windows(items, words) && len <= |words|
    ensures (forall a: nat | a + len <= |words| :: Covered(items, a, len)) <==> len <= 51
  {
    if len <= 51 {
      forall a: nat | a + len <= |words| ensures Covered(items, a, len) { var i := RunIsInside(items, words, a, len); }
    } else {
      var a: nat := if 299 < |words| - len then 299 else |words| - len;
      forall i | 0 <= i < |items| ensures !Inside(items[i], a, len) {
        assert IsWindow(items[i], words, i);
      }
      assert !Covered(items, a, len);
    }
  }

  lemma RunIsInside(items: seq<Chunk>, words: seq<string>, a: nat, len: nat) returns (i: nat)
    requires Windows(items, words) && len <= 51 && a + len <= |words|
    ensures i < |items| && Inside(items[i], a, len)
  {
    i := if a / 300 < |items| then a / 300 else |items| - 1;
    assert IsWindow(items[i], words, i);
  }

  lemma TextHoldsWords(item: Chunk, words: seq<string>, i: nat)
    requires IsWindow(item, words, i) && forall w | w in words :: ' ' !in w
    ensures Split(item.text, ' ') == words[item.first - 1..item.last]
  {
    var part := words[item.first - 1..item.last];
    forall j | 0 <= j < |part| ensures Free(part[j], ' ') { NoSpaceIsFree(words, item.first - 1 + j); }
    SplitOfJoin(part, ' ');
  }

  lemma NoSpaceIsFree(words: seq<string>, j: nat)
    requires j < |words| && forall w | w in words :: ' ' !in w
    ensures Free(words[j], ' ')
  {
    var w := words[j];
    assert w in words;
    forall k | 0 <= k < |w| ensures w[k] != ' ' { assert w[k] in w; }
  }

  lemma PartOfPart(words: seq<string>, lo: nat, hi: nat, a: nat, b: nat)
    requires lo <= a <= b <= hi <= |words|
    ensures words[lo..hi][a - lo..b - lo] == words[a..b]
  {
    var x, y := words[lo..hi][a - lo..b - lo], words[a..b];
    assert |x| == |y| && forall k | 0 <= k < |y| :: x[k] == y[k];
  }

  /** So every run of up to 51 words stands in the text of some record, and every word does. */
  lemma RunStandsInText(items: seq<Chunk>, words: seq<string>, a: nat, len: nat) returns (i: nat)
    requires |words| > 350 && Windows(items, words) && len <= 51 && a + len <= |words|
    requires forall w | w in words :: ' ' !in w
    ensures i < |items| && 1 <= items[i].first <= a + 1 && a + len <= items[i].last
    ensures var from := a + 1 - items[i].first; var text := Split(items[i].text, ' ');
            from + len <= |text| && text[from..from + len] == words[a..a + len]
  {
    i := RunIsInside(items, words, a, len);
    assert IsWindow(items[i], words, i);
    TextHoldsWords(items[i], words, i);
    PartOfPart(words, items[i].first - 1, items[i].last, a, a + len);
  }

  // ---------- Packs of lines ----------

  const MAX_CHARS := 2000

  // The characters of the lines, each with its newline.
  function Cost(lines: seq<string>): nat {
    if lines == [] then 0 else Cost(lines[..|lines| - 1]) + |lines[|lines| - 1]| + 1
  }

  predicate Fits(lines: seq<string>) { |lines| == 1 || (lines != [] && Cost(lines) <= MAX_CHARS) }

  function Concat(packs: seq<seq<string>>): seq<string> {
    if packs == [] then [] else packs[0] + Concat(packs[1..])
  }

  // Cuts the lines, in order, into packs that fit.
  ghost predicate Packing(packs: seq<seq<string>>, lines: seq<string>) {
    Concat(packs) == lines && forall i | 0 <= i < |packs| :: Fits(packs[i])
  }

  // The loop, from the lines collected so far and the ones to come.
  function Pack(current: seq<string>, rest: seq<string>): seq<seq<string>>
    decreases |rest|
  {
    if rest == [] then if current == [] then [] else [current]
    else if current != [] && Cost(current) + |rest[0]| + 1 > MAX_CHARS then [current] + Pack([rest[0]], rest[1..])
    else Pack(current + [rest[0]], rest[1..])
  }

  lemma CostOneMore(lines: seq<string>, line: string)
    ensures Cost(lines + [line]) == Cost(lines) + |line| + 1
  {
    assert (lines + [line])[..|lines|] == lines;
  }

  lemma {:induction false} CostOfConcat(xs: seq<string>, ys: seq<string>)
    ensures Cost(xs + ys) == Cost(xs) + Cost(ys)
  {
    if ys == [] {
      assert xs + ys == xs;
    } else {
      var front, last := ys[..|ys| - 1], ys[|ys| - 1];
      CostOfConcat(xs, front);
      CostOneMore(xs + front, last);
      assert xs + ys == (xs + front) + [last];
    }
  }

  lemma {:induction false} PackIsPacking(current: seq<string>, rest: seq<string>)
    requires current == [] || Fits(current)
    ensures Packing(Pack(current, rest), current + rest)
    decreases |rest|
  {
    if rest == [] {
      assert current + rest == current;
      if current != [] { assert [current][1..] == [] && current + [] == current; }
    } else if current != [] && Cost(current) + |rest[0]| + 1 > MAX_CHARS {
      var tail := Pack([rest[0]], rest[1..]);
      PackIsPacking([rest[0]], rest[1..]);
      assert ([current] + tail)[1..] == tail;
      assert [rest[0]] + rest[1..] == rest;
    } else {
      CostOneMore(current, rest[0]);
      PackIsPacking(current + [rest[0]], rest[1..]);
      assert current + [rest[0]] + rest[1..] == current + rest;
    }
  }

  // The first pack is the longest prefix that fits.
  lemma {:induction false} FirstPackIsLongest(current: seq<string>, rest: seq<string>) returns (n: nat)
    requires Fits(current)
    ensures n <= |rest| && Pack(current, rest) == [current + rest[..n]] + Pack([], rest[n..])
    ensures forall m | n < m <= |rest| :: !Fits(current + rest[..m])
    decreases |rest|
  {
    assert current + rest[..0] == current && rest[0..] == rest;
    if rest == [] {
      n := 0;
      assert [current] + [] == [current];
    } else if Cost(current) + |rest[0]| + 1 > MAX_CHARS {
      n := 0;
      assert [] + [rest[0]] == [rest[0]];
      forall m | 0 < m <= |rest| ensures !Fits(current + rest[..m]) { NoLongerFits(current, rest, m); }
    } else {
      CostOneMore(current, rest[0]);
      var k := FirstPackIsLongest(current + [rest[0]], rest[1..]);
      n := k + 1;
      Regroup(current, rest, n);
      forall m | n < m <= |rest| ensures !Fits(current + rest[..m]) { Regroup(current, rest, m); }
    }
  }

  lemma Regroup(current: seq<string>, rest: seq<string>, m: nat)
    requires 0 < m <= |rest|
    ensures current + rest[..m] == current + [rest[0]] + rest[1..][..m - 1] && rest[1..][m - 1..] == rest[m..]
  {
  }

  lemma NoLongerFits(current: seq<string>, rest: seq<string>, m: nat)
    requires current != [] && 0 < m <= |rest| && Cost(current) + |rest[0]| + 1 > MAX_CHARS
    ensures !Fits(current + rest[..m])
  {
    CostOneMore(current, rest[0]);
    CostOfConcat(current + [rest[0]], rest[1..][..m - 1]);
    Regroup(current, rest, m);
  }

  // Leaving out leading lines never needs more packs.
  lemma {:induction false} DropLine(packs: seq<seq<string>>, line: string, lines: seq<string>)
    returns (packs': seq<seq<string>>)
    requires Packing(packs, [line] + lines)
    ensures Packing(packs', lines) && |packs'| <= |packs|
  {
    assert packs[0] != [];
    var first, tail := packs[0][1..], packs[1..];
    assert Concat(packs) == packs[0] + Concat(tail);
    assert packs[0] == [packs[0][0]] + first && (packs[0] + Concat(tail))[0] == packs[0][0];
    assert packs[0] == [line] + first && lines == ([line] + lines)[1..] == first + Concat(tail);
    CostOfConcat([line], first);
    if first == [] {
      packs' := tail;
      assert lines == Concat(tail);
    } else {
      packs' := [first] + tail;
      assert packs'[1..] == tail;
    }
  }

  lemma {:induction false} DropLines(packs: seq<seq<string>>, n: nat, lines: seq<string>)
    returns (packs': seq<seq<string>>)
    requires Packing(packs, lines) && n <= |lines|
    ensures Packing(packs', lines[n..]) && |packs'| <= |packs|
    decreases n
  {
    if n == 0 {
      packs' := packs;
      assert lines[0..] == lines;
    } else {
      assert lines == [lines[0]] + lines[1..];
      var fewer := DropLine(packs, lines[0], lines[1..]);
      packs' := DropLines(fewer, n - 1, lines[1..]);
      assert lines[1..][n - 1..] == lines[n..];
    }
  }

  /** No other way of cutting the lines into packs that fit needs fewer packs. */
  lemma {:induction false} PackIsOptimal(lines: seq<string>, packs: seq<seq<string>>)
    requires Packing(packs, lines)
    ensures |Pack([], lines)| <= |packs|
    decreases |lines|
  {
    if lines != [] {
      var n := FirstPackIsLongest([lines[0]], lines[1..]);
      assert [] + [lines[0]] == [lines[0]];
      var other, tail := packs[0], packs[1..];
      assert Concat(packs) == other + Concat(tail);
      assert other == [lines[0]] + lines[1..][..|other| - 1];
      assert Fits([lines[0]] + lines[1..][..|other| - 1]);
      assert Concat(tail) == lines[|other|..];
      var fewer := DropLines(tail, n + 1 - |other|, lines[|other|..]);
      assert lines[|other|..][n + 1 - |other|..] == lines[1..][n..];
      PackIsOptimal(lines[1..][n..], fewer);
    }
  }

  // ---------- Records of packs ----------

  function Before(packs: seq<seq<string>>, i: nat): nat
    requires i <= |packs|
  {
    if i == 0 then 0 else Before(packs, i - 1) + |packs[i - 1]|
  }

  function Record(packs: seq<seq<string>>, i: nat): Chunk
    requires i < |packs|
  {
    Chunk(Join(packs[i], '\n'), i, Before(packs, i) + 1, Before(packs, i + 1))
  }

  // One record a pack, with consecutive indices and line numbers.
  ghost predicate Records(items: seq<Chunk>, packs: seq<seq<string>>) {
    |items| == |packs| && forall i | 0 <= i < |items| :: items[i] == Record(packs, i)
  }

  lemma {:induction false} BeforeOfPrefix(packs: seq<seq<string>>, more: seq<seq<string>>, i: nat)
    requires i <= |packs|
    ensures Before(packs + more, i) == Before(packs, i)
  {
    if i > 0 { BeforeOfPrefix(packs, more, i - 1); }
  }

  lemma RecordOfPrefix(packs: seq<seq<string>>, pack: seq<string>, i: nat)
    requires i < |packs|
    ensures Record(packs + [pack], i) == Record(packs, i)
  {
    BeforeOfPrefix(packs, [pack], i);
    BeforeOfPrefix(packs, [pack], i + 1);
  }

  lemma BeforeLast(packs: seq<seq<string>>, pack: seq<string>)
    ensures Before(packs + [pack], |packs|) == Before(packs, |packs|)
    ensures Before(packs + [pack], |packs| + 1) == Before(packs, |packs|) + |pack|
  {
    BeforeOfPrefix(packs, [pack], |packs|);
    assert (packs + [pack])[|packs|] == pack;
  }

  lemma RecordAt(packs: seq<seq<string>>, i: nat, pack: seq<string>, from: nat, to: nat)
    requires i < |packs| && packs[i] == pack && Before(packs, i) == from && Before(packs, i + 1) == to
    ensures Record(packs, i) == Chunk(Join(pack, '\n'), i, from + 1, to)
  {
  }

  lemma RecordsOneMore(items: seq<Chunk>, packs: seq<seq<string>>, pack: seq<string>, first: nat, last: nat)
    requires Records(items, packs) && first == Before(packs, |packs|) + 1 && last + 1 == first + |pack|
    ensures Records(items + [Chunk(Join(pack, '\n'), |items|, first, last)], packs + [pack])
    ensures Before(packs + [pack], |packs| + 1) == last
  {
    forall i | 0 <= i < |packs| { RecordOfPrefix(packs, pack, i); }
    BeforeLast(packs, pack);
    RecordAt(packs + [pack], |packs|, pack, first - 1, last);
  }

  // The first `i` lines are in `items`, whose packs are `packs`, and in `current`, which starts at `lineStart`.
  ghost predicate Packed(items: seq<Chunk>, packs: seq<seq<string>>, current: seq<string>, lines: seq<string>, i: nat,
                         lineStart: nat, charCount: nat) {
    && i <= |lines| && Records(items, packs) && packs + Pack(current, lines[i..]) == Pack([], lines)
    && charCount == Cost(current) && lineStart == Before(packs, |packs|) + 1 && i + 1 == lineStart + |current|
  }

  lemma PackIsFull(items: seq<Chunk>, packs: seq<seq<string>>, current: seq<string>, lines: seq<string>, i: nat,
                   lineStart: nat, charCount: nat)
    requires Packed(items, packs, current, lines, i, lineStart, charCount)
    requires i < |lines| && current != [] && charCount + |lines[i]| + 1 > MAX_CHARS
    ensures Packed(items + [Chunk(Join(current, '\n'), |items|, lineStart, i)], packs + [current], [], lines, i,
                   i + 1, 0)
  {
    RecordsOneMore(items, packs, current, lineStart, i);
    var rest := lines[i..];
    assert [] + [rest[0]] == [rest[0]];
    assert packs + ([current] + Pack([], rest)) == packs + [current] + Pack([], rest);
  }

  lemma PackTakesLine(items: seq<Chunk>, packs: seq<seq<string>>, current: seq<string>, lines: seq<string>, i: nat,
                      lineStart: nat, charCount: nat)
    requires Packed(items, packs, current, lines, i, lineStart, charCount)
    requires i < |lines| && (current == [] || charCount + |lines[i]| + 1 <= MAX_CHARS)
    ensures Packed(items, packs, current + [lines[i]], lines, i + 1, lineStart, charCount + |lines[i]| + 1)
  {
    assert lines[i..][0] == lines[i] && lines[i..][1..] == lines[i + 1..];
    CostOneMore(current, lines[i]);
  }

  lemma PackStarts(lines: seq<string>)
    ensures Packed([], [], [], lines, 0, 1, 0)
  {
    assert lines[0..] == lines && [] + Pack([], lines) == Pack([], lines);
  }

  lemma PackEnds(items: seq<Chunk>, packs: seq<seq<string>>, current: seq<string>, lines: seq<string>, lineStart: nat,
                 charCount: nat)
    requires Packed(items, packs, current, lines, |lines|, lineStart, charCount)
    ensures Records(if current == [] then items
                    else items + [Chunk(Join(current, '\n'), |items|, lineStart, |lines|)], Pack([], lines))
  {
    if current == [] {
      assert packs + [] == packs;
    } else {
      RecordsOneMore(items, packs, current, lineStart, |lines|);
    }
  }

  method LineChunks(lines: seq<string>) returns (items: seq<Chunk>)
    ensures Records(items, Pack([], lines)) && (lines != [] ==> LineRecords(items, lines))
  {
    items := [];
    var current: seq<string>, lineStart: nat, charCount: nat := [], 1, 0;
    ghost var packs: seq<seq<string>> := [];
    PackStarts(lines);
    for i := 0 to |lines|
      invariant Packed(items, packs, current, lines, i, lineStart, charCount)
    {
      var lineLen := |lines[i]| + 1;
      if current != [] && charCount + lineLen > MAX_CHARS {
        PackIsFull(items, packs, current, lines, i, lineStart, charCount);
        items := items + [Chunk(Join(current, '\n'), |items|, lineStart, i)];
        packs := packs + [current];
        current := [];
        lineStart := i + 1;
        charCount := 0;
      }
      PackTakesLine(items, packs, current, lines, i, lineStart, charCount);
      current := current + [lines[i]];
      charCount := charCount + lineLen;
    }
    PackEnds(items, packs, current, lines, lineStart, charCount);
    if current != [] {
      items := items + [Chunk(Join(current, '\n'), |items|, lineStart, |lines|)];
    }
    if lines != [] { LineChunksAreLossless(lines, items); }
  }

  function Texts(items: seq<Chunk>): seq<string> { seq(|items|, i requires 0 <= i < |items| => items[i].text) }

  function Joined(packs: seq<seq<string>>): seq<string> {
    seq(|packs|, i requires 0 <= i < |packs| => Join(packs[i], '\n'))
  }

  lemma {:induction false} JoinOfPacks(packs: seq<seq<string>>)
    requires packs != [] && forall i | 0 <= i < |packs| :: packs[i] != []
    ensures Join(Joined(packs), '\n') == Join(Concat(packs), '\n')
  {
    if |packs| == 1 {
      assert Concat(packs[1..]) == [] && packs[0] + [] == packs[0];
    } else {
      JoinOfPacks(packs[1..]);
      assert Joined(packs)[1..] == Joined(packs[1..]);
      assert packs[1..][0] != [] && Concat(packs[1..]) != [];
      JoinOfConcat(packs[0], Concat(packs[1..]), '\n');
    }
  }

  lemma {:induction false} BeforeAll(packs: seq<seq<string>>)
    ensures Before(packs, |packs|) == |Concat(packs)|
    decreases |packs|
  {
    if packs != [] {
      BeforeAll(packs[1..]);
      BeforeShifts(packs, |packs|);
    }
  }

  lemma {:induction false} BeforeShifts(packs: seq<seq<string>>, i: nat)
    requires 0 < i <= |packs|
    ensures Before(packs, i) == |packs[0]| + Before(packs[1..], i - 1)
  {
    if i > 1 { BeforeShifts(packs, i - 1); }
  }

  lemma {:induction false} JoinedLength(lines: seq<string>)
    requires lines != []
    ensures |Join(lines, '\n')| == Cost(lines) - 1
  {
    if |lines| == 1 {
      assert lines == [] + [lines[0]];
      CostOneMore([], lines[0]);
    } else {
      JoinedLength(lines[1..]);
      CostOneMore([], lines[0]);
      CostOfConcat([lines[0]], lines[1..]);
      assert lines == [lines[0]] + lines[1..] && [] + [lines[0]] == [lines[0]];
    }
  }

  // A record's text is one line or short, and it has lines at all.
  lemma RecordOfPack(pack: seq<string>)
    requires Fits(pack)
    ensures |pack| >= 1 && (|pack| == 1 || |Join(pack, '\n')| < MAX_CHARS)
  {
    JoinedLength(pack);
  }

  // Records of consecutive stretches of the lines, from the first to the last, each a single line or shorter than
  // 2000 characters.
  ghost predicate LineRecords(items: seq<Chunk>, lines: seq<string>) {
    && items != [] && items[0].first == 1 && items[|items| - 1].last == |lines|
    && (forall i | 0 < i < |items| :: items[i].first == items[i - 1].last + 1)
    && forall i | 0 <= i < |items| ::
         && items[i].index == i && 1 <= items[i].first <= items[i].last <= |lines|
         && items[i].text == Join(lines[items[i].first - 1..items[i].last], '\n')
         && (items[i].first == items[i].last || |items[i].text| < 2000)
  }

  lemma {:induction false} PackAt(packs: seq<seq<string>>, i: nat)
    requires i < |packs|
    ensures Before(packs, i + 1) <= |Concat(packs)|
    ensures Concat(packs)[Before(packs, i)..Before(packs, i + 1)] == packs[i]
  {
    var all := Concat(packs);
    assert all == packs[0] + Concat(packs[1..]);
    BeforeShifts(packs, i + 1);
    if i == 0 {
      assert Before(packs, 1) == |packs[0]|;
    } else {
      BeforeShifts(packs, i);
      PackAt(packs[1..], i - 1);
      SliceShifts(packs[0], Concat(packs[1..]), Before(packs[1..], i - 1), Before(packs[1..], i));
    }
  }

  lemma SliceShifts(first: seq<string>, rest: seq<string>, from: nat, to: nat)
    requires from <= to <= |rest|
    ensures (first + rest)[|first| + from..|first| + to] == rest[from..to]
  {
  }

  lemma RecordIsStretch(lines: seq<string>, packs: seq<seq<string>>, i: nat)
    requires Packing(packs, lines) && i < |packs|
    ensures var item := Record(packs, i);
            && item.index == i && 1 <= item.first <= item.last <= |lines|
            && item.text == Join(lines[item.first - 1..item.last], '\n')
            && (item.first == item.last || |item.text| < 2000)
  {
    PackAt(packs, i);
    RecordOfPack(packs[i]);
  }

  /** The records of a text lose nothing: they are consecutive stretches of its lines, and joined with newlines they
      are the text. */
  lemma RecordsAreLossless(lines: seq<string>, items: seq<Chunk>, packs: seq<seq<string>>)
    requires lines != [] && Packing(packs, lines) && Records(items, packs)
    ensures Join(Texts(items), '\n') == Join(lines, '\n') && LineRecords(items, lines)
  {
    assert packs != [];
    JoinOfPacks(packs);
    TextsAreJoined(items, packs);
    BeforeAll(packs);
    forall i | 0 <= i < |items| { RecordIsStretch(lines, packs, i); }
  }

  lemma TextsAreJoined(items: seq<Chunk>, packs: seq<seq<string>>)
    requires Records(items, packs)
    ensures Texts(items) == Joined(packs)
  {
    forall i | 0 <= i < |items| ensures Texts(items)[i] == Joined(packs)[i] {
      assert items[i].text == Join(packs[i], '\n');
    }
  }

  lemma LineChunksAreLossless(lines: seq<string>, items: seq<Chunk>)
    requires lines != [] && Records(items, Pack([], lines))
    ensures Join(Texts(items), '\n') == Join(lines, '\n') && LineRecords(items, lines)
  {
    PackIsPacking([], lines);
    assert [] + lines == lines;
    RecordsAreLossless(lines, items, Pack([], lines));
  }

  lemma FitsSpelled(pack: seq<string>)
    ensures Fits(pack) <==> |pack| == 1 || (pack != [] && |Join(pack, '\n')| < 2000)
  {
    if pack != [] { JoinedLength(pack); }
  }

  /** No other way of cutting the lines, in order, into stretches that are each a single line or shorter than 2000
      characters needs fewer of them. */
  lemma RecordsAreFewest(lines: seq<string>, items: seq<Chunk>, others: seq<seq<string>>)
    requires Records(items, Pack([], lines)) && Concat(others) == lines
    requires forall i | 0 <= i < |others| ::
               |others[i]| == 1 || (others[i] != [] && |Join(others[i], '\n')| < 2000)
    ensures |items| <= |others|
  {
    forall i | 0 <= i < |others| { FitsSpelled(others[i]); }
    PackIsOptimal(lines, others);
  }

  // ---------- A whole text ----------

  function ReplaceCrLf(s: string): string {
    if s == "" then ""
    else if s[0] == '\r' && |s| > 1 && s[1] == '\n' then "\n" + ReplaceCrLf(s[2..])
    else [s[0]] + ReplaceCrLf(s[1..])
  }

  function ReplaceCr(s: string): string { seq(|s|, i requires 0 <= i < |s| => if s[i] == '\r' then '\n' else s[i]) }

  function Normalize(text: string): string { ReplaceCr(ReplaceCrLf(text)) }

  /** Line ends become newlines, and nothing else changes: what that means for the first characters of a text. */
  lemma NormalizeFromTheFront(c: char, rest: string)
    ensures Normalize("") == ""
    ensures Normalize("\r\n" + rest) == "\n" + Normalize(rest)
    ensures (rest == "" || rest[0] != '\n') ==> Normalize("\r" + rest) == "\n" + Normalize(rest)
    ensures c != '\r' ==> Normalize([c] + rest) == [c] + Normalize(rest)
  {
    assert ("\r\n" + rest)[2..] == rest && ("\r" + rest)[1..] == rest && ([c] + rest)[1..] == rest;
    ReplaceCrFront('\n', ReplaceCrLf(rest));
    ReplaceCrFront('\r', ReplaceCrLf(rest));
    ReplaceCrFront(c, ReplaceCrLf(rest));
  }

  lemma ReplaceCrFront(c: char, rest: string)
    ensures ReplaceCr([c] + rest) == [if c == '\r' then '\n' else c] + ReplaceCr(rest)
  {
  }

  /** A text without carriage returns is left alone. */
  lemma {:induction false} NormalizeIsIdentity(text: string)
    requires '\r' !in text
    ensures Normalize(text) == text
  {
    if text != "" {
      assert text == [text[0]] + text[1..];
      NormalizeIsIdentity(text[1..]);
      NormalizeFromTheFront(text[0], text[1..]);
    }
  }

  // `str.split()`: the maximal runs of characters that are no white space.
  function Words(s: string, isSpace: char -> bool, word: string): seq<string> {
    if s == "" then if word == "" then [] else [word]
    else if isSpace(s[0]) then (if word == "" then [] else [word]) + Words(s[1..], isSpace, "")
    else Words(s[1..], isSpace, word + [s[0]])
  }

  // `words` are not empty and hold no white space; the gaps are nothing but white space, and there is some between
  // any two words.
  ghost predicate Separates(gaps: seq<string>, words: seq<string>, isSpace: char -> bool) {
    && |gaps| == |words| + 1
    && (forall w | w in words :: w != "" && forall c | c in w :: !isSpace(c))
    && (forall g | g in gaps :: forall c | c in g :: isSpace(c))
    && forall i | 0 < i < |words| :: gaps[i] != ""
  }

  // One more character of white space before the first gap.
  lemma GapGrows(c: char, gap: string, rest: seq<string>, words: seq<string>, isSpace: char -> bool)
    requires Separates([gap] + rest, words, isSpace) && isSpace(c)
    ensures Separates([[c] + gap] + rest, words, isSpace)
  {
    var before, grown := [gap] + rest, [[c] + gap] + rest;
    forall g, d | g in grown && d in g ensures isSpace(d) {
      assert gap in before;
      if g in rest { assert g in before; }
    }
    assert forall i | 0 < i < |words| :: grown[i] == before[i];
  }

  lemma WeaveGrows(c: char, gap: string, rest: seq<string>, words: seq<string>)
    requires |rest| == |words|
    ensures Weave([[c] + gap] + rest, words) == [c] + Weave([gap] + rest, words)
  {
    if words != [] {
      WeaveUnfolds(gap, rest, words);
      WeaveUnfolds([c] + gap, rest, words);
      ConsThree(c, gap, words[0], Weave(rest, words[1..]));
    }
  }

  lemma WeaveUnfolds(gap: string, rest: seq<string>, words: seq<string>)
    requires words != [] && |rest| == |words|
    ensures Weave([gap] + rest, words) == gap + words[0] + Weave(rest, words[1..])
  {
    assert ([gap] + rest)[1..] == rest;
  }

  lemma ConsThree(c: char, x: string, y: string, z: string)
    ensures [c] + x + y + z == [c] + (x + y + z)
  {
  }

  // A word before the first gap.
  lemma WordBefore(word: string, gaps: seq<string>, words: seq<string>, isSpace: char -> bool)
    requires Separates(gaps, words, isSpace) && (words != [] ==> gaps[0] != "")
    requires word != "" && forall d | d in word :: !isSpace(d)
    ensures Separates([""] + gaps, [word] + words, isSpace)
    ensures Weave([""] + gaps, [word] + words) == word + Weave(gaps, words)
  {
    WeaveFirst("", gaps, word, words);
    assert "" + word + Weave(gaps, words) == word + Weave(gaps, words);
    assert forall i | 0 < i < |[word] + words| :: ([""] + gaps)[i] == gaps[i - 1];
  }

  // White space after `word`, which may be empty.
  lemma WordEnds(word: string, c: char, gaps: seq<string>, words: seq<string>, isSpace: char -> bool)
    returns (gaps': seq<string>)
    requires Separates(gaps, words, isSpace) && isSpace(c) && forall d | d in word :: !isSpace(d)
    ensures Separates(gaps', (if word == "" then [] else [word]) + words, isSpace)
    ensures Weave(gaps', (if word == "" then [] else [word]) + words) == word + ([c] + Weave(gaps, words))
  {
    assert gaps == [gaps[0]] + gaps[1..];
    GapGrows(c, gaps[0], gaps[1..], words, isSpace);
    WeaveGrows(c, gaps[0], gaps[1..], words);
    gaps' := [[c] + gaps[0]] + gaps[1..];
    if word == "" {
      assert [] + words == words;
    } else {
      WordBefore(word, gaps', words, isSpace);
      gaps' := [""] + gaps';
    }
  }

  lemma LastWord(word: string, isSpace: char -> bool) returns (gaps: seq<string>)
    requires forall c | c in word :: !isSpace(c)
    ensures Separates(gaps, if word == "" then [] else [word], isSpace)
    ensures Weave(gaps, if word == "" then [] else [word]) == word
  {
    gaps := [""];
    if word != "" {
      WordBefore(word, gaps, [], isSpace);
      assert [word] + [] == [word];
      gaps := [""] + gaps;
    }
  }

  lemma TakeChar(word: string, s: string)
    requires s != ""
    ensures word + ([s[0]] + s[1..]) == word + s && word + [s[0]] + s[1..] == word + s
  {
    assert s == [s[0]] + s[1..];
  }

  /** The words are the maximal runs without white space, in order: the text is woven of them and of gaps of white
      space, which separate them. */
  lemma {:induction false} WordsAreRuns(s: string, isSpace: char -> bool, word: string) returns (gaps: seq<string>)
    requires forall c | c in word :: !isSpace(c)
    ensures Separates(gaps, Words(s, isSpace, word), isSpace)
    ensures Weave(gaps, Words(s, isSpace, word)) == word + s
    decreases |s|
  {
    if s == "" {
      gaps := LastWord(word, isSpace);
      assert word + s == word;
    } else {
      TakeChar(word, s);
      if isSpace(s[0]) {
        var more := WordsAreRuns(s[1..], isSpace, "");
        assert "" + s[1..] == s[1..];
        gaps := WordEnds(word, s[0], more, Words(s[1..], isSpace, ""), isSpace);
      } else {
        gaps := WordsAreRuns(s[1..], isSpace, word + [s[0]]);
      }
    }
  }

  /** The records of any text: none for white space alone; of several lines packs that give back every character
      but the carriage returns; of one line its words, in windows if there are many. */
  method PlainTextItems(text: string, isSpace: char -> bool) returns (items: seq<Chunk>)
    ensures var lines := Split(Normalize(text), '\n'); var words := Words(Normalize(text), isSpace, "");
            && (Words(text, isSpace, "") == [] ==> items == [])
            && (Words(text, isSpace, "") != [] && |lines| > 1 ==>
                  LineRecords(items, lines) && Records(items, Pack([], lines)) &&
                  Join(Texts(items), '\n') == Normalize(text))
            && (Words(text, isSpace, "") != [] && |lines| == 1 ==> WordRecords(items, Normalize(text), words))
  {
    if Words(text, isSpace, "") == [] {
      return [];
    }
    var normalized := Normalize(text);
    var lines := Split(normalized, '\n');
    if |lines| > 1 {
      items := LineChunks(lines);
      LineChunksAreLossless(lines, items);
      JoinOfSplit(normalized, '\n');
    } else {
      items := WordChunks(normalized, Words(normalized, isSpace, ""));
    }
  }
}
