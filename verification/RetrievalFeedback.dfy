/** The sliding-window aggregator of retrieval signals, against the log of everything ever recorded.

    Calls are sequential and read a clock that never goes backwards. */
module RetrievalFeedback {
  import opened Wrappers

  datatype ShapeKey = ShapeKey(tool: string, contentType: string)

  datatype Config = Config(window: real, hintMin: int, skipMin: int, multiplier: real, maxEvents: int, maxShapes: int)

  datatype ConfigError = BadWindow | BadHintMin | SkipBelowHint | BadMultiplier | EventsBelowSkip | BadMaxShapes

  datatype Hints = Hints(multiplier: real, skip: bool, retrievals: nat)

  datatype Event = Event(shape: ShapeKey, at: real)

  // The tunables under which the loop is coherent.
  predicate Coherent(c: Config) {
    0.0 < c.window && 1 <= c.hintMin <= c.skipMin <= c.maxEvents && 1.0 <= c.multiplier && 1 <= c.maxShapes
  }

  function Anonymous(s: ShapeKey): ShapeKey { ShapeKey("", s.contentType) }

  function Min(a: nat, b: nat): nat { if a < b then a else b }

  // The verdict on a number of in-window retrievals.
  function Verdict(c: Config, count: nat): Hints {
    if count >= c.skipMin then Hints(c.multiplier, true, count)
    else if count >= c.hintMin then Hints(c.multiplier, false, count)
    else Hints(1.0, false, count)
  }

  // ---------- Timestamps ----------

  ghost predicate Sorted(ts: seq<real>) {
    forall i, j | 0 <= i < j < |ts| :: ts[i] <= ts[j]
  }

  function CountAfter(ts: seq<real>, cutoff: real): (n: nat)
    ensures n <= |ts|
  {
    if ts == [] then 0 else (if ts[0] > cutoff then 1 else 0) + CountAfter(ts[1..], cutoff)
  }

  function Prune(ts: seq<real>, cutoff: real): seq<real> {
    if ts != [] && ts[0] <= cutoff then Prune(ts[1..], cutoff) else ts
  }

  lemma {:induction false} PruneDropsTheAged(ts: seq<real>, cutoff: real)
    ensures var r := Prune(ts, cutoff);
            && |r| <= |ts| && r == ts[|ts| - |r|..]
            && (forall i | 0 <= i < |ts| - |r| :: ts[i] <= cutoff)
            && (r != [] ==> r[0] > cutoff)
  {
    if ts != [] && ts[0] <= cutoff {
      PruneDropsTheAged(ts[1..], cutoff);
      var r := Prune(ts[1..], cutoff);
      assert ts[1..][|ts[1..]| - |r|..] == ts[|ts| - |r|..];
      forall i | 0 <= i < |ts| - |r| ensures ts[i] <= cutoff {
        if i > 0 { assert ts[i] == ts[1..][i - 1]; }
      }
    }
  }

  // Appending to a deque of bounded length.
  function Append(ts: seq<real>, t: real, bound: int): seq<real>
    requires bound >= 1
  {
    (if |ts| >= bound then ts[1..] else ts) + [t]
  }

  lemma {:induction false} AllAfter(ts: seq<real>, cutoff: real)
    requires Sorted(ts) && (ts != [] ==> ts[0] > cutoff)
    ensures CountAfter(ts, cutoff) == |ts|
  {
    if ts != [] { AllAfter(ts[1..], cutoff); }
  }

  lemma {:induction false} NoneAfter(ts: seq<real>, cutoff: real)
    requires forall i | 0 <= i < |ts| :: ts[i] <= cutoff
    ensures CountAfter(ts, cutoff) == 0
  {
    if ts != [] { NoneAfter(ts[1..], cutoff); }
  }

  /** Of a sorted log, the last `n` timestamps hold the in-window ones, up to `n` of them. */
  lemma {:induction false} SuffixCount(ts: seq<real>, n: nat, cutoff: real)
    requires Sorted(ts) && n <= |ts|
    ensures CountAfter(ts[|ts| - n..], cutoff) == Min(n, CountAfter(ts, cutoff))
  {
    if n == |ts| {
      assert ts[|ts| - n..] == ts;
    } else {
      assert ts[1..][|ts[1..]| - n..] == ts[|ts| - n..];
      SuffixCount(ts[1..], n, cutoff);
      if ts[0] > cutoff { AllAfter(ts, cutoff); AllAfter(ts[1..], cutoff); }
    }
  }

  // ---------- Buckets against the log ----------

  type Buckets = map<ShapeKey, seq<real>>

  function Times(log: seq<Event>, s: ShapeKey): seq<real> {
    if log == [] then []
    else
      var e := log[|log| - 1];
      Times(log[..|log| - 1], s) + if e.shape == s then [e.at] else []
  }

  function Bucket(b: Buckets, s: ShapeKey): seq<real> { if s in b then b[s] else [] }

  function Put(b: Buckets, s: ShapeKey, ts: seq<real>): Buckets {
    if ts == [] then b - {s} else b[s := ts]
  }

  // What is left of a shape's timestamps: the newest ones. Those dropped were dropped for the bound on the
  // bucket, or lie at or below `floor`.
  ghost predicate Remembers(c: Config, bucket: seq<real>, all: seq<real>, floor: real) {
    && Sorted(all) && Sorted(bucket) && |bucket| <= |all| && bucket == all[|all| - |bucket|..]
    && |bucket| <= c.maxEvents
    && (|bucket| == c.maxEvents || forall i | 0 <= i < |all| - |bucket| :: all[i] <= floor)
  }

  // `lost` maps a shape that was evicted for capacity to the newest timestamp that went with it.
  function Floor(c: Config, lost: map<ShapeKey, real>, s: ShapeKey, now: real): real {
    if s in lost && lost[s] > now - c.window then lost[s] else now - c.window
  }

  ghost predicate TracksShape(c: Config, b: Buckets, log: seq<Event>, lost: map<ShapeKey, real>, now: real,
                              s: ShapeKey) {
    && Remembers(c, Bucket(b, s), Times(log, s), Floor(c, lost, s, now))
    && (s in b ==> b[s] != [])
  }

  ghost predicate Tracks(c: Config, b: Buckets, log: seq<Event>, lost: map<ShapeKey, real>, now: real) {
    && |b| <= c.maxShapes
    && (forall e | e in log :: e.at <= now)
    && (forall s :: TracksShape(c, b, log, lost, now, s))
  }

  lemma {:induction false} TimesAreLogged(log: seq<Event>, s: ShapeKey)
    ensures forall t | t in Times(log, s) :: Event(s, t) in log
  {
    if log != [] {
      TimesAreLogged(log[..|log| - 1], s);
      assert log == log[..|log| - 1] + [log[|log| - 1]];
    }
  }

  lemma TracksLater(c: Config, b: Buckets, log: seq<Event>, lost: map<ShapeKey, real>, now: real, later: real)
    requires Tracks(c, b, log, lost, now) && now <= later
    ensures Tracks(c, b, log, lost, later)
  {
    forall s ensures TracksShape(c, b, log, lost, later, s) {
      assert TracksShape(c, b, log, lost, now, s);
    }
  }

  lemma PruneRemembers(c: Config, bucket: seq<real>, all: seq<real>, floor: real, cutoff: real)
    requires Remembers(c, bucket, all, floor) && cutoff <= floor
    ensures Remembers(c, Prune(bucket, cutoff), all, floor)
  {
    var r := Prune(bucket, cutoff);
    PruneDropsTheAged(bucket, cutoff);
    if r != bucket {
      forall i | 0 <= i < |all| - |r| ensures all[i] <= floor {
        if i < |all| - |bucket| {
          assert all[i] <= all[|all| - |bucket|] == bucket[0];
        } else {
          assert all[i] == bucket[i - (|all| - |bucket|)];
        }
      }
    }
  }

  // Replacing one bucket by another that remembers as well.
  lemma PutTracks(c: Config, b: Buckets, log: seq<Event>, lost: map<ShapeKey, real>, now: real, s: ShapeKey,
                  ts: seq<real>)
    requires Tracks(c, b, log, lost, now) && (ts == [] || s in b)
    requires Remembers(c, ts, Times(log, s), Floor(c, lost, s, now))
    ensures Tracks(c, Put(b, s, ts), log, lost, now)
  {
    var b' := Put(b, s, ts);
    ShrinkIsSmaller(b, b', s);
    forall x ensures TracksShape(c, b', log, lost, now, x) {
      assert TracksShape(c, b, log, lost, now, x);
      assert Bucket(b', x) == if x == s then ts else Bucket(b, x);
    }
  }

  lemma ShapeRemembers(c: Config, b: Buckets, log: seq<Event>, lost: map<ShapeKey, real>, now: real, s: ShapeKey)
    requires Tracks(c, b, log, lost, now)
    ensures Remembers(c, Bucket(b, s), Times(log, s), Floor(c, lost, s, now)) && Sorted(Bucket(b, s))
    ensures s in b <==> Bucket(b, s) != []
  {
    assert TracksShape(c, b, log, lost, now, s);
  }

  lemma PruneTracks(c: Config, b: Buckets, log: seq<Event>, lost: map<ShapeKey, real>, now: real, s: ShapeKey)
    requires Tracks(c, b, log, lost, now)
    ensures Tracks(c, Put(b, s, Prune(Bucket(b, s), now - c.window)), log, lost, now)
    ensures |Prune(Bucket(b, s), now - c.window)| == CountIn(b, s, now - c.window)
  {
    ShapeRemembers(c, b, log, lost, now, s);
    PruneKeepsMemory(c, b, log, lost, now, s, Bucket(b, s), Times(log, s), Floor(c, lost, s, now));
  }

  lemma PruneKeepsMemory(c: Config, b: Buckets, log: seq<Event>, lost: map<ShapeKey, real>, now: real, s: ShapeKey,
                         bucket: seq<real>, all: seq<real>, floor: real)
    requires Tracks(c, b, log, lost, now) && bucket == Bucket(b, s) && all == Times(log, s)
    requires floor == Floor(c, lost, s, now) && Remembers(c, bucket, all, floor)
    ensures Tracks(c, Put(b, s, Prune(bucket, now - c.window)), log, lost, now)
    ensures |Prune(bucket, now - c.window)| == CountAfter(bucket, now - c.window)
  {
    PruneRemembers(c, bucket, all, floor, now - c.window);
    PutTracks(c, b, log, lost, now, s, Prune(bucket, now - c.window));
    PruneCounts(bucket, now - c.window);
  }

  lemma ShrinkIsSmaller(b: Buckets, b': Buckets, s: ShapeKey)
    requires b' == b - {s} || (s in b && b'.Keys == b.Keys)
    ensures |b'| <= |b|
  {
    SubsetIsSmaller(b'.Keys, b.Keys);
  }

  lemma PruneCounts(bucket: seq<real>, cutoff: real)
    requires Sorted(bucket)
    ensures |Prune(bucket, cutoff)| == CountAfter(bucket, cutoff)
  {
    var r := Prune(bucket, cutoff);
    PruneDropsTheAged(bucket, cutoff);
    SuffixCount(bucket, |r|, cutoff);
    AllAfter(r, cutoff);
    DroppedDoNotCount(bucket, |r|, cutoff);
  }

  // ---------- The verdict ----------

  // Nothing that could still count has been lost with an eviction of `s`.
  predicate Intact(c: Config, lost: map<ShapeKey, real>, s: ShapeKey, now: real) {
    s in lost ==> lost[s] <= now - c.window
  }

  function CountIn(b: Buckets, s: ShapeKey, cutoff: real): nat { CountAfter(Bucket(b, s), cutoff) }

  // What a lookup of `s` counts: its own bucket and, for a named tool, that of the anonymous tool.
  function Lookup(b: Buckets, s: ShapeKey, cutoff: real): nat {
    CountIn(b, s, cutoff) + if s.tool != "" then CountIn(b, Anonymous(s), cutoff) else 0
  }

  // The events of the whole log that a lookup of `s` counts: those of its own shape and, for a named tool, those of
  // the anonymous tool with its content type, after the cutoff.
  ghost function Counted(log: seq<Event>, s: ShapeKey, cutoff: real): set<int> {
    set i | 0 <= i < |log| && log[i].at > cutoff &&
            (log[i].shape == s || (s.tool != "" && log[i].shape == ShapeKey("", s.contentType)))
  }

  ghost function TrueLookup(log: seq<Event>, s: ShapeKey, cutoff: real): nat { |Counted(log, s, cutoff)| }

  /** One more event counts towards a lookup if and only if it is in the window and has the looked-up shape, or,
      for a named tool, no tool and the looked-up content type. */
  lemma EventCounts(log: seq<Event>, e: Event, s: ShapeKey, cutoff: real)
    ensures TrueLookup(log + [e], s, cutoff) == TrueLookup(log, s, cutoff) +
              if e.at > cutoff && (e.shape == s || (s.tool != "" && e.shape.tool == "" &&
                                                    e.shape.contentType == s.contentType)) then 1 else 0
  {
    var before, after := Counted(log, s, cutoff), Counted(log + [e], s, cutoff);
    if |log| in after {
      assert after == before + {|log|};
    } else {
      assert after == before;
    }
  }

  lemma {:induction false} CountOneMore(ts: seq<real>, t: real, cutoff: real)
    ensures CountAfter(ts + [t], cutoff) == CountAfter(ts, cutoff) + if t > cutoff then 1 else 0
  {
    if ts == [] {
      assert [] + [t] == [t] && [t][1..] == [];
    } else {
      assert (ts + [t])[1..] == ts[1..] + [t];
      CountOneMore(ts[1..], t, cutoff);
    }
  }

  lemma {:induction false} CountedByShape(log: seq<Event>, s: ShapeKey, cutoff: real)
    ensures TrueLookup(log, s, cutoff) == CountAfter(Times(log, s), cutoff) +
              if s.tool != "" then CountAfter(Times(log, ShapeKey("", s.contentType)), cutoff) else 0
    decreases |log|
  {
    if log == [] {
      assert Counted(log, s, cutoff) == {};
    } else {
      var front, e := log[..|log| - 1], log[|log| - 1];
      assert log == front + [e];
      CountedByShape(front, s, cutoff);
      EventCounts(front, e, s, cutoff);
      TimesCountOneMore(front, e, s, cutoff);
      TimesCountOneMore(front, e, ShapeKey("", s.contentType), cutoff);
    }
  }

  lemma TimesCountOneMore(log: seq<Event>, e: Event, s: ShapeKey, cutoff: real)
    ensures CountAfter(Times(log + [e], s), cutoff) ==
            CountAfter(Times(log, s), cutoff) + if e.shape == s && e.at > cutoff then 1 else 0
  {
    TimesOneMore(log, e, s);
    CountOneMore(Times(log, s), e.at, cutoff);
  }

  /** A bucket counts no more than was recorded, and exactly that, up to its bound, while nothing is lost. */
  lemma BucketCounts(c: Config, b: Buckets, log: seq<Event>, lost: map<ShapeKey, real>, now: real, s: ShapeKey)
    requires Tracks(c, b, log, lost, now) && c.maxEvents >= 1
    ensures var n := CountIn(b, s, now - c.window); var m := CountAfter(Times(log, s), now - c.window);
            n <= m && (Intact(c, lost, s, now) ==> n == Min(c.maxEvents, m))
  {
    assert TracksShape(c, b, log, lost, now, s);
    RememberedCounts(c, Bucket(b, s), Times(log, s), Floor(c, lost, s, now), now - c.window);
  }

  lemma RememberedCounts(c: Config, bucket: seq<real>, all: seq<real>, floor: real, cutoff: real)
    requires Remembers(c, bucket, all, floor) && c.maxEvents >= 1
    ensures CountAfter(bucket, cutoff) <= CountAfter(all, cutoff)
    ensures floor <= cutoff ==> CountAfter(bucket, cutoff) == Min(c.maxEvents, CountAfter(all, cutoff))
  {
    BucketIsSuffix(bucket, all, cutoff);
    if floor <= cutoff && |bucket| != c.maxEvents { ForgottenDoNotCount(c, bucket, all, floor, cutoff); }
  }

  lemma BucketIsSuffix(bucket: seq<real>, all: seq<real>, cutoff: real)
    requires Sorted(all) && |bucket| <= |all| && bucket == all[|all| - |bucket|..]
    ensures CountAfter(bucket, cutoff) == Min(|bucket|, CountAfter(all, cutoff))
  {
    SuffixCount(all, |bucket|, cutoff);
  }

  lemma ForgottenDoNotCount(c: Config, bucket: seq<real>, all: seq<real>, floor: real, cutoff: real)
    requires Remembers(c, bucket, all, floor) && floor <= cutoff && |bucket| != c.maxEvents
    ensures CountAfter(all, cutoff) <= |bucket|
  {
    DroppedDoNotCount(all, |bucket|, cutoff);
  }

  lemma {:induction false} DroppedDoNotCount(all: seq<real>, n: nat, cutoff: real)
    requires n <= |all| && forall i | 0 <= i < |all| - n :: all[i] <= cutoff
    ensures CountAfter(all, cutoff) <= n
  {
    if |all| > n { DroppedDoNotCount(all[1..], n, cutoff); }
  }

  // The decision that `m` retrievals in the window call for.
  predicate Decides(c: Config, h: Hints, m: nat) {
    && (h.skip <==> m >= c.skipMin)
    && h.multiplier == (if m >= c.hintMin then c.multiplier else 1.0)
    && (h.retrievals == 0 <==> m == 0)
  }

  // No hint that `m` retrievals do not call for.
  predicate AsksNoMore(c: Config, h: Hints, m: nat) {
    && (h.skip ==> m >= c.skipMin)
    && (h.multiplier == 1.0 || (h.multiplier == c.multiplier && m >= c.hintMin))
    && h.retrievals <= m
  }

  // `h` is the decision that the whole log calls for, unless something that could still count has been lost;
  // then it asks for no more.
  ghost predicate Justified(c: Config, h: Hints, log: seq<Event>, lost: map<ShapeKey, real>, now: real, s: ShapeKey) {
    var m := TrueLookup(log, s, now - c.window);
    && AsksNoMore(c, h, m)
    && (Intact(c, lost, s, now) && Intact(c, lost, ShapeKey("", s.contentType), now) ==> Decides(c, h, m))
  }

  /** While no still-live shape of the lookup has been evicted, the bounded window decides as the unbounded log
      would; otherwise it never asks for more than the log would. */
  lemma VerdictMatchesLog(c: Config, b: Buckets, log: seq<Event>, lost: map<ShapeKey, real>, now: real, s: ShapeKey)
    requires Coherent(c) && Tracks(c, b, log, lost, now)
    ensures Justified(c, Verdict(c, Lookup(b, s, now - c.window)), log, lost, now, s)
  {
    LookupCounts(c, b, log, lost, now, s);
    SameVerdict(c, Lookup(b, s, now - c.window), TrueLookup(log, s, now - c.window));
  }

  lemma LookupCounts(c: Config, b: Buckets, log: seq<Event>, lost: map<ShapeKey, real>, now: real, s: ShapeKey)
    requires Coherent(c) && Tracks(c, b, log, lost, now)
    ensures var n, m := Lookup(b, s, now - c.window), TrueLookup(log, s, now - c.window);
            && n <= m
            && (Intact(c, lost, s, now) && Intact(c, lost, ShapeKey("", s.contentType), now) ==>
                  n == m || n >= c.maxEvents)
  {
    CountedByShape(log, s, now - c.window);
    BucketCounts(c, b, log, lost, now, s);
    if s.tool != "" { BucketCounts(c, b, log, lost, now, Anonymous(s)); }
  }

  lemma SameVerdict(c: Config, n: nat, m: nat)
    requires Coherent(c) && n <= m
    ensures AsksNoMore(c, Verdict(c, n), m)
    ensures n == m || n >= c.maxEvents ==> Decides(c, Verdict(c, n), m)
  {
  }

  // ---------- Making room ----------

  function Newest(ts: seq<real>): real
    requires ts != []
  {
    ts[|ts| - 1]
  }

  function Reaped(b: Buckets, cutoff: real): Buckets {
    map s | s in b && b[s] != [] && Newest(b[s]) > cutoff :: b[s]
  }

  /** Reaping the decayed buckets changes no count, at that time or later. */
  lemma ReapingIsInvisible(c: Config, b: Buckets, log: seq<Event>, lost: map<ShapeKey, real>, now: real)
    requires Tracks(c, b, log, lost, now) && c.maxEvents >= 0
    ensures Tracks(c, Reaped(b, now - c.window), log, lost, now)
    ensures forall s, cutoff | cutoff >= now - c.window ::
              CountIn(Reaped(b, now - c.window), s, cutoff) == CountIn(b, s, cutoff)
  {
    ReapedTracks(c, b, log, lost, now);
    forall s, cutoff | cutoff >= now - c.window
      ensures CountIn(Reaped(b, now - c.window), s, cutoff) == CountIn(b, s, cutoff)
    {
      ReapedCounts(c, b, log, lost, now, s, cutoff);
    }
  }

  lemma ReapedTracks(c: Config, b: Buckets, log: seq<Event>, lost: map<ShapeKey, real>, now: real)
    requires Tracks(c, b, log, lost, now) && c.maxEvents >= 0
    ensures Tracks(c, Reaped(b, now - c.window), log, lost, now)
  {
    var r := Reaped(b, now - c.window);
    ReapedIsSmaller(b, now - c.window);
    forall s ensures TracksShape(c, r, log, lost, now, s) { ReapedTracksShape(c, b, log, lost, now, s); }
  }

  lemma ReapedTracksShape(c: Config, b: Buckets, log: seq<Event>, lost: map<ShapeKey, real>, now: real, s: ShapeKey)
    requires Tracks(c, b, log, lost, now) && c.maxEvents >= 0
    ensures TracksShape(c, Reaped(b, now - c.window), log, lost, now, s)
  {
    assert TracksShape(c, b, log, lost, now, s);
    if s in b && s !in Reaped(b, now - c.window) {
      EmptyRemembers(c, b[s], Times(log, s), Floor(c, lost, s, now));
    }
  }

  lemma ReapedCounts(c: Config, b: Buckets, log: seq<Event>, lost: map<ShapeKey, real>, now: real, s: ShapeKey,
                     cutoff: real)
    requires Tracks(c, b, log, lost, now) && cutoff >= now - c.window
    ensures CountIn(Reaped(b, now - c.window), s, cutoff) == CountIn(b, s, cutoff)
  {
    if s in b && s !in Reaped(b, now - c.window) {
      ShapeRemembers(c, b, log, lost, now, s);
      NoneAfterNewest(b[s], cutoff);
    }
  }

  lemma NoneAfterNewest(ts: seq<real>, cutoff: real)
    requires Sorted(ts) && ts != [] && Newest(ts) <= cutoff
    ensures CountAfter(ts, cutoff) == 0
  {
    NoneAfter(ts, cutoff);
  }

  lemma ReapedIsWithout(b: Buckets, cutoff: real, decayed: set<ShapeKey>)
    requires decayed == set s | s in b && (b[s] == [] || Newest(b[s]) <= cutoff)
    ensures b - decayed == Reaped(b, cutoff)
  {
  }

  lemma ReapedIsSmaller(b: Buckets, cutoff: real)
    ensures |Reaped(b, cutoff)| <= |b|
  {
    SubsetIsSmaller(Reaped(b, cutoff).Keys, b.Keys);
  }

  // Dropping a whole bucket whose newest event lies at or below the floor.
  lemma EmptyRemembers(c: Config, bucket: seq<real>, all: seq<real>, floor: real)
    requires Remembers(c, bucket, all, floor) && c.maxEvents >= 0 && bucket != [] && Newest(bucket) <= floor
    ensures Remembers(c, [], all, floor)
    ensures Newest(bucket) == Newest(all)
  {
    assert all[|all|..] == [];
    forall i | 0 <= i < |all| ensures all[i] <= floor {
      assert all[i] <= Newest(all) == Newest(bucket);
    }
  }

  // `v` is the shape whose newest event is no later than that of any other.
  ghost predicate Stalest(b: Buckets, v: ShapeKey) {
    v in b && b[v] != [] && forall s | s in b && b[s] != [] :: Newest(b[v]) <= Newest(b[s])
  }

  // From `b` and `lost`, evicting `v` has led to `b'` and `lost'`.
  ghost predicate EvictsStalest(b: Buckets, lost: map<ShapeKey, real>, b': Buckets, lost': map<ShapeKey, real>,
                                v: ShapeKey) {
    Stalest(b, v) && b' == b - {v} && lost' == lost[v := Later(Newest(b[v]), lost, v)]
  }

  // From `b` and `lost`, making room for one shape has led to `b'` and `lost'`: the decayed buckets have gone
  // and, if none had decayed, the stalest one.
  ghost predicate OneEvicted(c: Config, b: Buckets, lost: map<ShapeKey, real>, now: real, b': Buckets,
                             lost': map<ShapeKey, real>) {
    var r := Reaped(b, now - c.window);
    if |r| < c.maxShapes then b' == r && lost' == lost else exists v :: EvictsStalest(r, lost, b', lost', v)
  }

  // How the buckets other than that of `s` have become `rest`, so that `s` can be recorded: they have changed
  // only if `s` is new and every bucket was taken.
  ghost predicate RoomMade(c: Config, b: Buckets, lost: map<ShapeKey, real>, s: ShapeKey, now: real, rest: Buckets,
                           lost': map<ShapeKey, real>) {
    if s in b || |b| < c.maxShapes then rest == b - {s} && lost' == lost
    else OneEvicted(c, b, lost, now, rest, lost')
  }

  lemma WithoutAbsent(b: Buckets, s: ShapeKey)
    requires s !in b
    ensures b - {s} == b
  {
  }

  function Later(a: real, lost: map<ShapeKey, real>, s: ShapeKey): real {
    if s in lost && lost[s] > a then lost[s] else a
  }

  lemma EvictionTracks(c: Config, b: Buckets, log: seq<Event>, lost: map<ShapeKey, real>, now: real, v: ShapeKey)
    requires Tracks(c, b, log, lost, now) && v in b && b[v] != [] && c.maxEvents >= 0
    ensures Tracks(c, b - {v}, log, lost[v := Later(Newest(b[v]), lost, v)], now)
    ensures |b - {v}| == |b| - 1
  {
    var b', lost' := b - {v}, lost[v := Later(Newest(b[v]), lost, v)];
    forall s ensures TracksShape(c, b', log, lost', now, s) {
      assert TracksShape(c, b, log, lost, now, s);
      if s == v {
        var all := Times(log, s);
        RemembersAbove(c, b[s], all, Floor(c, lost, s, now), Floor(c, lost', s, now));
        EmptyRemembers(c, b[s], all, Floor(c, lost', s, now));
      }
    }
  }

  lemma RemembersAbove(c: Config, bucket: seq<real>, all: seq<real>, floor: real, floor': real)
    requires Remembers(c, bucket, all, floor) && floor <= floor'
    ensures Remembers(c, bucket, all, floor')
  {
  }

  lemma AppendTracks(c: Config, b: Buckets, log: seq<Event>, lost: map<ShapeKey, real>, now: real, s: ShapeKey)
    requires Coherent(c) && Tracks(c, b, log, lost, now) && (s in b || |b| < c.maxShapes)
    ensures Tracks(c, b[s := Append(Bucket(b, s), now, c.maxEvents)], log + [Event(s, now)], lost, now)
  {
    var b', log' := b[s := Append(Bucket(b, s), now, c.maxEvents)], log + [Event(s, now)];
    OneMoreBucket(b, s, Append(Bucket(b, s), now, c.maxEvents));
    forall x ensures TracksShape(c, b', log', lost, now, x) { AppendTracksShape(c, b, log, lost, now, s, x); }
  }

  lemma OneMoreBucket(b: Buckets, s: ShapeKey, ts: seq<real>)
    ensures |b[s := ts]| == if s in b then |b| else |b| + 1
  {
    assert |b[s := ts]| == |b[s := ts].Keys| && |b| == |b.Keys|;
    assert b[s := ts].Keys == b.Keys + {s};
  }

  lemma AppendTracksShape(c: Config, b: Buckets, log: seq<Event>, lost: map<ShapeKey, real>, now: real, s: ShapeKey,
                          x: ShapeKey)
    requires Coherent(c) && Tracks(c, b, log, lost, now)
    ensures TracksShape(c, b[s := Append(Bucket(b, s), now, c.maxEvents)], log + [Event(s, now)], lost, now, x)
  {
    assert TracksShape(c, b, log, lost, now, x);
    TimesOneMore(log, Event(s, now), x);
    if x == s {
      TimesAreLogged(log, s);
      RemembersOneMore(c, Bucket(b, s), Times(log, s), Floor(c, lost, s, now), now);
    }
  }

  lemma TimesOneMore(log: seq<Event>, e: Event, x: ShapeKey)
    ensures Times(log + [e], x) == if e.shape == x then Times(log, x) + [e.at] else Times(log, x)
  {
    assert (log + [e])[..|log|] == log;
  }

  lemma RemembersOneMore(c: Config, bucket: seq<real>, all: seq<real>, floor: real, t: real)
    requires c.maxEvents >= 1 && Remembers(c, bucket, all, floor) && forall x | x in all :: x <= t
    ensures Remembers(c, Append(bucket, t, c.maxEvents), all + [t], floor)
  {
    var bucket', all' := Append(bucket, t, c.maxEvents), all + [t];
    forall i | 0 <= i < |all| ensures all[i] <= t { assert all[i] in all; }
    assert bucket' == all'[|all'| - |bucket'|..];
  }

  // ---------- When room has to be made ----------

  ghost function LiveShapes(log: seq<Event>, cutoff: real): set<ShapeKey> {
    set e | e in log && e.at > cutoff :: e.shape
  }

  ghost predicate Forced(c: Config, b: Buckets, s: ShapeKey, now: real) {
    s !in b && |b| >= c.maxShapes && |Reaped(b, now - c.window)| >= c.maxShapes
  }

  /** As long as nothing live has been lost, a live shape is evicted exactly when the log holds more live
      shapes, the recorded one included, than there are buckets. */
  lemma ForcedIffTooManyLive(c: Config, b: Buckets, log: seq<Event>, lost: map<ShapeKey, real>, now: real, s: ShapeKey)
    requires Coherent(c) && Tracks(c, b, log, lost, now) && forall x | x in lost :: lost[x] <= now - c.window
    ensures Forced(c, b, s, now) <==> |LiveShapes(log, now - c.window) + {s}| > c.maxShapes
  {
    LiveAreReaped(c, b, log, lost, now);
    RoomCount(b, Reaped(b, now - c.window), s, c.maxShapes);
  }

  lemma LiveAreReaped(c: Config, b: Buckets, log: seq<Event>, lost: map<ShapeKey, real>, now: real)
    requires Coherent(c) && Tracks(c, b, log, lost, now) && forall x | x in lost :: lost[x] <= now - c.window
    ensures Reaped(b, now - c.window).Keys == LiveShapes(log, now - c.window)
  {
    var r, live := Reaped(b, now - c.window), LiveShapes(log, now - c.window);
    forall x ensures x in r.Keys <==> x in live { LiveIffReaped(c, b, log, lost, now, x); }
  }

  lemma RoomCount(b: Buckets, r: Buckets, s: ShapeKey, bound: int)
    requires r.Keys <= b.Keys && |b| <= bound
    ensures s !in b && |b| >= bound && |r| >= bound <==> |r.Keys + {s}| > bound
  {
    assert |r| == |r.Keys| && |b| == |b.Keys|;
    SubsetIsSmaller(r.Keys, b.Keys);
    if s in b {
      SubsetIsSmaller(r.Keys + {s}, b.Keys);
    } else {
      assert s !in r.Keys;
    }
  }

  lemma SubsetIsSmaller(small: set<ShapeKey>, large: set<ShapeKey>)
    requires small <= large
    ensures |small| <= |large|
  {
    assert large == small + (large - small);
  }

  lemma LiveIffReaped(c: Config, b: Buckets, log: seq<Event>, lost: map<ShapeKey, real>, now: real, x: ShapeKey)
    requires Coherent(c) && Tracks(c, b, log, lost, now) && Intact(c, lost, x, now)
    ensures x in Reaped(b, now - c.window) <==> x in LiveShapes(log, now - c.window)
  {
    var all, cutoff := Times(log, x), now - c.window;
    assert TracksShape(c, b, log, lost, now, x);
    NewestKept(c, Bucket(b, x), all, Floor(c, lost, x, now));
    TimesAreLogged(log, x);
    if x in LiveShapes(log, cutoff) {
      var e :| e in log && e.at > cutoff && e.shape == x;
      LoggedAreTimes(log, e);
    }
    if x in Reaped(b, cutoff) {
      assert Event(x, Newest(all)) in log;
    }
  }

  lemma NewestKept(c: Config, bucket: seq<real>, all: seq<real>, floor: real)
    requires Remembers(c, bucket, all, floor) && c.maxEvents >= 1
    ensures bucket != [] ==> all != [] && Newest(bucket) == Newest(all) && Newest(all) in all
    ensures forall t | t in all && t > floor :: bucket != [] && t <= Newest(bucket)
  {
  }

  lemma {:induction false} LoggedAreTimes(log: seq<Event>, e: Event)
    requires e in log
    ensures e.at in Times(log, e.shape)
  {
    var front, last := log[..|log| - 1], log[|log| - 1];
    assert log == front + [last];
    if e in front { LoggedAreTimes(front, e); }
  }

  // ---------- The aggregator ----------

  function Check(c: Config): (r: Result<(), ConfigError>)
    ensures r.Success? <==> Coherent(c)
  {
    if c.window <= 0.0 then Failure(BadWindow)
    else if c.hintMin < 1 then Failure(BadHintMin)
    else if c.skipMin < c.hintMin then Failure(SkipBelowHint)
    else if c.multiplier < 1.0 then Failure(BadMultiplier)
    else if c.maxEvents < c.skipMin then Failure(EventsBelowSkip)
    else if c.maxShapes < 1 then Failure(BadMaxShapes)
    else Success(())
  }

  class RetrievalFeedback {
    const config: Config
    var events: Buckets
    ghost var log: seq<Event>
    ghost var lost: map<ShapeKey, real>
    ghost var clock: real

    ghost predicate Valid()
      reads this
    {
      Coherent(config) && Tracks(config, events, log, lost, clock)
    }

    constructor (config: Config, start: real)
      requires Check(config).Success?
      ensures Valid() && this.config == config && events == map[] && log == [] && lost == map[] && clock == start
    {
      this.config, events, log, lost, clock := config, map[], [], map[], start;
    }

    // `__init__`, whose checks raise.
    static method Create(config: Config, start: real) returns (r: Result<RetrievalFeedback, ConfigError>)
      ensures r.Success? <==>
                && config.window > 0.0 && config.hintMin >= 1 && config.skipMin >= config.hintMin
                && config.multiplier >= 1.0 && config.maxEvents >= config.skipMin && config.maxShapes >= 1
      ensures r.Failure? ==> Check(config) == Failure(r.error)
      ensures r.Success? ==> fresh(r.value) && r.value.Valid() && r.value.config == config && r.value.events == map[]
    {
      var checked := Check(config);
      if checked.Failure? {
        return Failure(checked.error);
      }
      var feedback := new RetrievalFeedback(config, start);
      return Success(feedback);
    }

    /** Records one retrieval. Only when every bucket is taken by a live shape does one of those have to go: the
        one with the oldest newest event. */
    method RecordRetrieval(shape: ShapeKey, now: real)
      requires Valid() && clock <= now
      modifies this
      ensures Valid() && clock == now && log == old(log) + [Event(shape, now)]
      ensures Bucket(events, shape) == Append(Bucket(old(events), shape), now, config.maxEvents)
      ensures RoomMade(config, old(events), old(lost), shape, now, events - {shape}, lost)
    {
      TracksLater(config, events, log, lost, clock, now);
      clock := now;
      MakeRoom(shape, now);
      AppendEvent(shape, now);
    }

    method AppendEvent(shape: ShapeKey, now: real)
      requires Valid() && clock == now && (shape in events || |events| < config.maxShapes)
      modifies this`events, this`log
      ensures Valid() && log == old(log) + [Event(shape, now)]
      ensures Bucket(events, shape) == Append(Bucket(old(events), shape), now, config.maxEvents)
      ensures events - {shape} == old(events) - {shape}
    {
      AppendTracks(config, events, log, lost, now, shape);
      events := events[shape := Append(Bucket(events, shape), now, config.maxEvents)];
      log := log + [Event(shape, now)];
    }

    method MakeRoom(shape: ShapeKey, now: real)
      requires Valid() && clock == now
      modifies this`events, this`lost
      ensures Valid() && (shape in events || |events| < config.maxShapes)
      ensures Bucket(events, shape) == Bucket(old(events), shape)
      ensures RoomMade(config, old(events), old(lost), shape, now, events - {shape}, lost)
    {
      if shape !in events {
        if |events| >= config.maxShapes {
          EvictOneShape(now);
          WithoutAbsent(events, shape);
        }
      }
    }

    method EvictOneShape(now: real)
      requires Valid() && clock == now && |events| >= config.maxShapes
      modifies this`events, this`lost
      ensures Valid() && |events| < config.maxShapes && events.Keys <= old(events).Keys
      ensures OneEvicted(config, old(events), old(lost), now, events, lost)
    {
      ReapDecayed(now);
      if |events| < config.maxShapes {
        return;
      }
      EvictStalest(now);
    }

    method ReapDecayed(now: real)
      requires Valid() && clock == now
      modifies this`events
      ensures Valid() && events == Reaped(old(events), now - config.window) && |events| <= |old(events)|
    {
      var cutoff := now - config.window;
      var decayed := set s | s in events && (events[s] == [] || Newest(events[s]) <= cutoff);
      ReapingIsInvisible(config, events, log, lost, now);
      ReapedIsSmaller(events, cutoff);
      ReapedIsWithout(events, cutoff, decayed);
      events := events - decayed;
    }

    method EvictStalest(now: real)
      requires Valid() && clock == now && events != map[]
      modifies this`events, this`lost
      ensures Valid() && |events| == |old(events)| - 1
      ensures exists v :: EvictsStalest(old(events), old(lost), events, lost, v)
    {
      var stalest := FindStalest();
      EvictionTracks(config, events, log, lost, now, stalest);
      lost := lost[stalest := Later(Newest(events[stalest]), lost, stalest)];
      events := events - {stalest};
      assert EvictsStalest(old(events), old(lost), events, lost, stalest);
    }

    method FindStalest() returns (stalest: ShapeKey)
      requires Valid() && events != map[]
      ensures Stalest(events, stalest)
    {
      forall s | s in events ensures events[s] != [] {
        ShapeRemembers(config, events, log, lost, clock, s);
      }
      stalest :| stalest in events;
      var rest := events.Keys - {stalest};
      while rest != {}
        invariant rest <= events.Keys && stalest in events
        invariant forall s | s in events && s !in rest :: Newest(events[stalest]) <= Newest(events[s])
        decreases rest
      {
        var s :| s in rest;
        if Newest(events[s]) < Newest(events[stalest]) {
          stalest := s;
        }
        rest := rest - {s};
      }
    }

    method CountInWindow(shape: ShapeKey, now: real) returns (count: nat)
      requires Valid() && clock == now
      modifies this`events
      ensures Valid()
      ensures count == CountIn(old(events), shape, now - config.window)
      ensures events == Put(old(events), shape, Prune(Bucket(old(events), shape), now - config.window))
    {
      var cutoff := now - config.window;
      PruneTracks(config, events, log, lost, now, shape);
      if shape !in events {
        assert events - {shape} == events;
        return 0;
      }
      var bucket := events[shape];
      while bucket != [] && bucket[0] <= cutoff
        invariant Prune(bucket, cutoff) == Prune(old(events)[shape], cutoff)
      {
        bucket := bucket[1..];
      }
      if bucket == [] {
        events := events - {shape};
        return 0;
      }
      events := events[shape := bucket];
      return |bucket|;
    }

    /** The hints for a shape are the verdict on what its buckets hold, which is the verdict of the whole log
        unless a shape of this lookup was evicted while it was live. */
    method GetHints(shape: ShapeKey, now: real) returns (h: Hints)
      requires Valid() && clock <= now
      modifies this`events, this`clock
      ensures Valid() && clock == now
      ensures h.retrievals == CountIn(old(events), shape, now - config.window) +
                if shape.tool != "" then CountIn(old(events), ShapeKey("", shape.contentType), now - config.window)
                else 0
      ensures Decides(config, h, h.retrievals)
      ensures Justified(config, h, log, lost, now, shape)
    {
      TracksLater(config, events, log, lost, clock, now);
      clock := now;
      VerdictMatchesLog(config, events, log, lost, now, shape);
      var count := CountBoth(shape, now);
      h := Verdict(config, count);
    }

    method CountBoth(shape: ShapeKey, now: real) returns (count: nat)
      requires Valid() && clock == now
      modifies this`events
      ensures Valid() && count == Lookup(old(events), shape, now - config.window)
    {
      count := CountInWindow(shape, now);
      if shape.tool != "" {
        assert Bucket(events, Anonymous(shape)) == Bucket(old(events), Anonymous(shape));
        var more := CountInWindow(Anonymous(shape), now);
        count := count + more;
      }
    }

    method Clear()
      requires Valid()
      modifies this
      ensures Valid() && events == map[] && log == [] && lost == map[] && clock == old(clock)
    {
      events, log, lost := map[], [], map[];
    }
  }
}
