/** Calls that reach the states in which the store departs from its description. */
module Departures {
  import opened Order
  import opened StoreSpec
  import opened Eviction
  import opened Retention
  import opened Wrappers

  // A sound two-tier state with no expired primary row.
  ghost predicate Steady(s: State, now: real) {
    Sound(s) && s.spill.Some? && forall k | k in s.backend :: !s.backend[k].Expired(now)
  }

  lemma SteadyIsClean(s: State, now: real)
    requires Steady(s, now)
    ensures Unexpired(s.backend, now) == s.backend && CleanExpired(s, now).backend == s.backend
  {
  }

  lemma TableOfSize(t: Table, ks: set<Key>)
    requires t.Keys == ks
    ensures |t| == |ks|
  {
    assert |t| == |t.Keys|;
  }

  // ---------- Single stores ----------

  /** With room for one more, nothing is evicted. */
  lemma StoreWithRoom(s: State, k: Key, e: Entry, now: real)
    requires Steady(s, now) && |s.backend| < s.cap && k !in s.backend
    ensures var r := Store(s, k, e, now, NO_FAULTS);
            Sound(r) && r.cap == s.cap && r.backend == s.backend[k := e] && r.spill == s.spill
  {
    SteadyIsClean(s, now);
    EvictKeepsSound(s, now, NO_FAULTS);
    SubTableIsSmaller(Evict(s, now, NO_FAULTS).backend, s.backend);
    NothingDemoted(s.spill, s.backend, NO_FAULTS);
    StoreKeepsSound(s, k, e, now, NO_FAULTS);
  }

  lemma EvictsTo(s: State, kept: Table, now: real)
    requires Steady(s, now) && |s.backend| >= s.cap && |kept| == Room(s.cap) && KeepsNewest(s.backend, kept)
    ensures var r := Evict(s, now, NO_FAULTS);
            r.backend == kept && r.spill == Demoted(s.spill, s.backend, kept, NO_FAULTS)
  {
    SteadyIsClean(s, now);
    EvictKeepsSound(s, now, NO_FAULTS);
    SubTableIsSmaller(kept, s.backend);
    NewestAreDetermined(s.backend, Evict(s, now, NO_FAULTS).backend, kept);
  }

  // Evicting all but `kept`, to which `k` is then added.
  lemma StoreEvicts(s: State, kept: Table, k: Key, e: Entry, now: real)
    requires Steady(s, now) && |s.backend| >= s.cap && |kept| == Room(s.cap) && KeepsNewest(s.backend, kept)
    requires k !in kept
    ensures var r := Store(s, k, e, now, NO_FAULTS);
            && Sound(r) && r.cap == s.cap && r.backend == kept[k := e]
            && r.spill == Demoted(s.spill, s.backend, kept, NO_FAULTS)
  {
    EvictsTo(s, kept, now);
    StoreKeepsSound(s, k, e, now, NO_FAULTS);
  }

  /** With room for one, the entry that is there goes to the spill tier. */
  lemma StoreOverOnly(s: State, only: Key, k: Key, e: Entry, now: real)
    requires Steady(s, now) && s.cap == 1 && s.backend.Keys == {only}
    ensures var r := Store(s, k, e, now, NO_FAULTS);
            && Sound(r) && r.cap == 1 && r.backend == map[k := e]
            && r.spill == Some(s.spill.value[only := s.backend[only]])
  {
    TableOfSize(s.backend, {only});
    StoreEvicts(s, map[], k, e, now);
    OneDemoted(s.spill.value, s.backend, only, map[]);
  }

  lemma NewerIsKept(t: Table, older: Key, newer: Key)
    requires older != newer && t.Keys == {older, newer} && t[older].created < t[newer].created
    ensures var kept := map[newer := t[newer]];
            KeepsNewest(t, kept) && |kept| == 1 && |t| == 2 && t.Keys == kept.Keys + {older}
  {
    TableOfSize(t, {older, newer});
  }

  /** With room for two, the older of two entries goes to the spill tier. */
  lemma StoreOverTwo(s: State, older: Key, newer: Key, k: Key, e: Entry, now: real)
    requires Steady(s, now) && s.cap == 2 && older != newer && k != newer
    requires s.backend.Keys == {older, newer} && s.backend[older].created < s.backend[newer].created
    ensures var r := Store(s, k, e, now, NO_FAULTS);
            && Sound(r) && r.cap == 2 && r.backend == map[newer := s.backend[newer], k := e]
            && r.spill == Some(s.spill.value[older := s.backend[older]])
  {
    var kept := map[newer := s.backend[newer]];
    NewerIsKept(s.backend, older, newer);
    StoreEvicts(s, kept, k, e, now);
    OneDemoted(s.spill.value, s.backend, older, kept);
  }

  lemma OneDemoted(spill: Table, all: Table, k: Key, kept: Table)
    requires k in all && all.Keys == kept.Keys + {k} && k !in kept
    ensures Demoted(Some(spill), all, kept, NO_FAULTS) == Some(spill[k := all[k]])
  {
    var victims := map v | v in all && v !in kept && v !in NO_FAULTS.write :: all[v];
    assert victims == map[k := all[k]];
    assert spill + victims == spill[k := all[k]];
  }

  // ---------- Runs ----------

  function Fresh(original: string, created: real, ttl: real): Entry { Entry(original, "", created, ttl, 0) }

  function Stored(k: Key, e: Entry): Op { StoreOp(k, e, e.created, NO_FAULTS) }

  lemma {:induction false} RunOneMore(s: State, ops: seq<Op>, op: Op)
    ensures Run(s, ops + [op]) == Step(Run(s, ops), op)
    decreases ops
  {
    if ops == [] {
      assert [] + [op] == [op] && [op][1..] == [];
    } else {
      assert (ops + [op])[1..] == ops[1..] + [op];
      RunOneMore(Step(s, ops[0]), ops[1..], op);
    }
  }

  lemma OneStored(cap: int, k: Key, e: Entry)
    requires cap >= 1 && e.ttl >= 0.0
    ensures var s := Run(Empty(cap, Some(map[])), [Stored(k, e)]);
            Sound(s) && s.cap == cap && s.backend == map[k := e] && s.spill == Some(map[])
  {
    var s0 := Empty(cap, Some(map[]));
    EmptyIsSound(cap, Some(map[]));
    StoreWithRoom(s0, k, e, e.created);
    RunOneMore(s0, [], Stored(k, e));
    assert [] + [Stored(k, e)] == [Stored(k, e)];
  }

  // One more store at the end of a run, over the only entry there is.
  lemma StoredOverOnly(ops: seq<Op>, only: Key, k: Key, e: Entry)
    requires var s := Run(Empty(1, Some(map[])), ops);
             Steady(s, e.created) && s.cap == 1 && s.backend.Keys == {only}
    ensures var s, r := Run(Empty(1, Some(map[])), ops), Run(Empty(1, Some(map[])), ops + [Stored(k, e)]);
            && Sound(r) && r.cap == 1 && r.backend == map[k := e]
            && r.spill == Some(s.spill.value[only := s.backend[only]])
  {
    RunOneMore(Empty(1, Some(map[])), ops, Stored(k, e));
    StoreOverOnly(Run(Empty(1, Some(map[])), ops), only, k, e, e.created);
  }

  // A long-lived entry is evicted for another one, and then stored again with a shorter life.
  function HidingRun(k: Key, x: Key, content: string): seq<Op> {
    [Stored(k, Fresh(content, 0.0, 100.0))] + [Stored(x, Fresh("", 1.0, 100.0))] +
    [Stored(k, Fresh(content, 2.0, 10.0))]
  }

  lemma HidingRunEnds(k: Key, x: Key, content: string)
    requires k != x
    ensures var s := Run(Empty(1, Some(map[])), HidingRun(k, x, content));
            && s.backend == map[k := Fresh(content, 2.0, 10.0)]
            && s.spill == Some(map[k := Fresh(content, 0.0, 100.0), x := Fresh("", 1.0, 100.0)])
  {
    var first, other, again := Fresh(content, 0.0, 100.0), Fresh("", 1.0, 100.0), Fresh(content, 2.0, 10.0);
    OneStored(1, k, first);
    StoredOverOnly([Stored(k, first)], k, x, other);
    StoredOverOnly([Stored(k, first)] + [Stored(x, other)], x, k, again);
  }

  /** Three stores reach a state in which an expired primary row hides a live spill row: the read-back says that
      the key is there, the next retrieve misses, and the one after it hits. */
  lemma HiddenRowIsReached(k: Key, x: Key, content: string)
    requires k != x
    ensures var s := Run(Empty(1, Some(map[])), HidingRun(k, x, content));
            && ExistsAnyTier(s, k, 50.0, NO_FAULTS)
            && Retrieve(s, k, 50.0, NO_FAULTS).1 == None
            && Retrieve(Retrieve(s, k, 50.0, NO_FAULTS).0, k, 50.0, NO_FAULTS).1 == Some(Fresh(content, 0.0, 100.0))
  {
    HidingRunEnds(k, x, content);
  }

  lemma TwoStored(k: Key, x: Key, e: Entry, other: Entry)
    requires k != x && e.created == 0.0 && e.ttl == 100.0 && other.created == 1.0 && other.ttl == 100.0
    ensures var s := Run(Empty(2, Some(map[])), [Stored(k, e)] + [Stored(x, other)]);
            && Sound(s) && s.cap == 2 && s.backend == map[k := e, x := other] && s.spill == Some(map[])
  {
    var s0 := Empty(2, Some(map[]));
    OneStored(2, k, e);
    var s1 := Run(s0, [Stored(k, e)]);
    TableOfSize(s1.backend, {k});
    RunOneMore(s0, [Stored(k, e)], Stored(x, other));
    StoreWithRoom(s1, x, other, 1.0);
  }

  // `a` is evicted, and `b` takes its key.
  function ReplacingRun(k: Key, x: Key, a: string, b: string): seq<Op> {
    [Stored(k, Fresh(a, 0.0, 100.0))] + [Stored(x, Fresh("", 1.0, 100.0))] + [Stored(k, Fresh(b, 2.0, 100.0))]
  }

  lemma ReplacingRunEnds(k: Key, x: Key, a: string, b: string)
    requires k != x
    ensures var s := Run(Empty(2, Some(map[])), ReplacingRun(k, x, a, b));
            && Sound(s) && s.cap == 2 && s.backend == map[x := Fresh("", 1.0, 100.0), k := Fresh(b, 2.0, 100.0)]
            && s.spill == Some(map[k := Fresh(a, 0.0, 100.0)])
  {
    var first, other, again := Fresh(a, 0.0, 100.0), Fresh("", 1.0, 100.0), Fresh(b, 2.0, 100.0);
    var s0 := Empty(2, Some(map[]));
    TwoStored(k, x, first, other);
    RunOneMore(s0, [Stored(k, first)] + [Stored(x, other)], Stored(k, again));
    StoreOverTwo(Run(s0, [Stored(k, first)] + [Stored(x, other)]), k, x, k, again, 2.0);
  }

  lemma OnlyIsDropped(s: State, k: Key, e: Entry)
    requires s.backend.Keys == {k} && s.backend[k].original != e.original
    ensures Bind(s, k, e).backend == map[] && Bind(s, k, e).spill == s.spill
  {
    assert s.backend - {k} == map[];
  }

  // Storing other content over the newer of two entries, with room for two.
  lemma CollisionDrops(s: State, older: Key, k: Key, e: Entry, now: real)
    requires Steady(s, now) && s.cap == 2 && older != k && s.backend.Keys == {older, k}
    requires s.backend[older].created < s.backend[k].created && s.backend[k].original != e.original
    ensures var r := Store(s, k, e, now, NO_FAULTS);
            r.backend == map[] && r.spill == Some(s.spill.value[older := s.backend[older]])
  {
    var kept := map[k := s.backend[k]];
    NewerIsKept(s.backend, older, k);
    EvictsTo(s, kept, now);
    OneDemoted(s.spill.value, s.backend, older, kept);
    OnlyIsDropped(Evict(s, now, NO_FAULTS), k, e);
  }

  lemma CollisionServesSpill(s: State, older: Key, k: Key, e: Entry, now: real, later: real)
    requires Steady(s, now) && s.cap == 2 && older != k && s.backend.Keys == {older, k}
    requires s.backend[older].created < s.backend[k].created && s.backend[k].original != e.original
    requires SpillHas(s, k) && !s.spill.value[k].Expired(later)
    ensures var r := Store(s, k, e, now, NO_FAULTS);
            k !in r.backend && Retrieve(r, k, later, NO_FAULTS).1 == Some(s.spill.value[k])
  {
    CollisionDrops(s, older, k, e, now);
  }

  /** Four stores reach a state in which a collision does not make its key miss: `c` collides with `b`, and the
      retrieve serves `a`, whose row the spill tier has kept. */
  lemma CollisionCanBeServed(k: Key, x: Key, a: string, b: string, c: string)
    requires k != x && b != c
    ensures var s := Run(Empty(2, Some(map[])), ReplacingRun(k, x, a, b) + [Stored(k, Fresh(c, 3.0, 100.0))]);
            k !in s.backend && Retrieve(s, k, 4.0, NO_FAULTS).1 == Some(Fresh(a, 0.0, 100.0))
  {
    var s := Run(Empty(2, Some(map[])), ReplacingRun(k, x, a, b));
    ReplacingRunEnds(k, x, a, b);
    CollisionServesSpill(s, x, k, Fresh(c, 3.0, 100.0), 3.0, 4.0);
    RunOneMore(Empty(2, Some(map[])), ReplacingRun(k, x, a, b), Stored(k, Fresh(c, 3.0, 100.0)));
  }
}
