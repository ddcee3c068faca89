/** Capacity: the heap accounting of every reachable state, and what the eviction loop evicts. */
module Eviction {
  import opened Order
  import opened StoreSpec
  import opened Wrappers

  function Max(a: int, b: int): int { if a < b then b else a }

  // Every live entry has its tuple in the heap.
  ghost predicate Covered(s: State) {
    forall k | k in s.backend :: Item(s.backend[k].created, k) in s.heap
  }

  // ... and the stale counter is exactly the number of tuples beyond those.
  ghost predicate Accounted(s: State) {
    Covered(s) && |s.heap| == |s.backend| + s.stale
  }

  /** What holds of the bookkeeping between any two calls. */
  ghost predicate Sound(s: State) {
    && Accounted(s)
    && |s.backend| <= Max(1, s.cap)
    && |s.heap| <= Max(1, 2 * s.cap - 1)
  }

  ghost function Tuples(b: Table): set<Item> { set k | k in b :: Tuple(b, k) }

  lemma {:induction false} TuplesCount(b: Table)
    ensures |Tuples(b)| == |b|
    decreases |b|
  {
    if b == map[] {
      assert Tuples(b) == {};
    } else {
      var k :| k in b;
      var b' := b - {k};
      TuplesCount(b');
      forall x ensures x in Tuples(b) <==> x in Tuples(b') + {Tuple(b, k)} {
        if x in Tuples(b) && x != Tuple(b, k) {
          assert x.key in b' && Tuple(b', x.key) == x;
        }
        if x in Tuples(b') { assert Tuple(b, x.key) == x; }
      }
      assert Tuples(b) == Tuples(b') + {Tuple(b, k)};
      assert b.Keys == b'.Keys + {k};
    }
  }

  lemma LiveItemsCount(b: Table)
    ensures |LiveItems(b)| == |b|
    ensures forall x :: LiveItems(b)[x] == if x.key in b && b[x.key].created == x.created then 1 else 0
  {
    TuplesCount(b);
    assert LiveItems(b) == multiset(Tuples(b));
    forall x ensures x in Tuples(b) <==> x.key in b && b[x.key].created == x.created {
      if x.key in b && b[x.key].created == x.created { assert Tuple(b, x.key) == x; }
    }
  }

  lemma SubMultisetIsSmaller(small: multiset<Item>, large: multiset<Item>)
    requires forall x :: small[x] <= large[x]
    ensures |small| <= |large|
  {
    assert large == small + (large - small);
  }

  lemma CoveredIsCounted(s: State)
    requires Covered(s)
    ensures |s.backend| <= |s.heap|
  {
    LiveItemsCount(s.backend);
    forall x ensures LiveItems(s.backend)[x] <= s.heap[x] {
      if LiveItems(s.backend)[x] == 1 { assert Item(s.backend[x.key].created, x.key) in s.heap; }
    }
    SubMultisetIsSmaller(LiveItems(s.backend), s.heap);
  }

  // ---------- From any heap at all ----------

  lemma EvictLoopUnfolds(s: State, rebuilt: bool, f: Faults)
    requires |s.backend| >= s.cap && |s.heap| > 0
    ensures var m := Pop(s.heap);
            EvictLoop(s, rebuilt, f) ==
            if m.key in s.backend && s.backend[m.key].created == m.created
            then EvictLoop(DropOldest(s, m, f), false, f)
            else EvictLoop(DropStale(s, m), rebuilt, f)
  {
  }

  /** Whatever the heap and its counter hold, the loop ends below capacity. */
  lemma {:induction false} EvictLoopFreesCapacity(s: State, rebuilt: bool, f: Faults)
    requires rebuilt ==> s.heap == LiveItems(s.backend)
    ensures var r := EvictLoop(s, rebuilt, f);
            r.cap == s.cap && (|r.backend| < s.cap || r.backend == map[])
    decreases s.backend.Keys, !rebuilt, |s.heap|
  {
    LiveItemsCount(s.backend);
    if |s.backend| < s.cap {
    } else if |s.heap| == 0 {
      if !rebuilt && |Rebuild(s).heap| != 0 { EvictLoopFreesCapacity(Rebuild(s), true, f); }
    } else {
      var m := Pop(s.heap);
      if m.key in s.backend && s.backend[m.key].created == m.created {
        EvictLoopFreesCapacity(DropOldest(s, m, f), false, f);
      } else {
        assert !rebuilt;
        EvictLoopFreesCapacity(DropStale(s, m), rebuilt, f);
      }
    }
  }

  /** The loop's guarantee: from any state it exits within capacity, if and only if the capacity is not negative;
      and with room for one more, if and only if the capacity is at least 1. */
  lemma EvictionEndsWithinCapacity(s: State, now: real, f: Faults)
    ensures |Evict(s, now, f).backend| <= s.cap <==> s.cap >= 0
    ensures |Evict(s, now, f).backend| < s.cap <==> s.cap >= 1
  {
    EvictLoopFreesCapacity(RebuildIfStale(CleanExpired(s, now)), false, f);
  }

  /** A store leaves at most `cap` entries, from any state: ghost tuples, missing tuples, a drained heap. A
      store without capacity for a single entry still keeps the new one, and only that. */
  lemma StoreStaysWithinCapacity(s: State, k: Key, e: Entry, now: real, f: Faults)
    ensures |Store(s, k, e, now, f).backend| <= Max(1, s.cap)
    ensures |Store(s, k, e, now, f).backend| <= s.cap <==> s.cap >= 1
  {
    EvictLoopFreesCapacity(RebuildIfStale(CleanExpired(s, now)), false, f);
    var r := Evict(s, now, f);
    if s.cap < 1 { assert Store(s, k, e, now, f).backend == map[k := e]; }
  }

  // Where the spill tier stands when `all` has been cut down to `kept`.
  ghost function Demoted(spill: Option<Table>, all: Table, kept: Table, f: Faults): Option<Table> {
    if spill.None? then None
    else Some(spill.value + map v | v in all && v !in kept && v !in f.write :: all[v])
  }

  lemma NothingDemoted(spill: Option<Table>, all: Table, f: Faults)
    ensures Demoted(spill, all, all, f) == spill
  {
    if spill.Some? {
      assert Demoted(spill, all, all, f).value == spill.value;
    }
  }

  lemma DemotedInTwoParts(spill: Option<Table>, all: Table, k: Key, kept: Table, f: Faults)
    requires k in all && k !in kept
    ensures Demoted(Demote(spill, k, all[k], f), all - {k}, kept, f) == Demoted(spill, all, kept, f)
  {
    if spill.Some? {
      var first, whole := Demoted(Demote(spill, k, all[k], f), all - {k}, kept, f), Demoted(spill, all, kept, f);
      assert forall v :: v in first.value <==> v in whole.value;
      assert forall v | v in first.value :: first.value[v] == whole.value[v];
      assert first.value == whole.value;
    }
  }

  /** Whatever the heap holds, the loop only takes entries away, and what it takes it hands to the spill tier. */
  lemma {:induction false} EvictLoopOnlyMoves(s: State, rebuilt: bool, f: Faults)
    ensures var r := EvictLoop(s, rebuilt, f);
            && r.backend.Keys <= s.backend.Keys && (forall k | k in r.backend :: r.backend[k] == s.backend[k])
            && r.spill == Demoted(s.spill, s.backend, r.backend, f)
    decreases s.backend.Keys, !rebuilt, |s.heap|
  {
    NothingDemoted(s.spill, s.backend, f);
    if |s.backend| < s.cap {
    } else if |s.heap| == 0 {
      if !rebuilt && |Rebuild(s).heap| != 0 { EvictLoopOnlyMoves(Rebuild(s), true, f); }
    } else {
      var m := Pop(s.heap);
      if m.key in s.backend && s.backend[m.key].created == m.created {
        EvictLoopOnlyMoves(DropOldest(s, m, f), false, f);
        DemotedInTwoParts(s.spill, s.backend, m.key, EvictLoop(DropOldest(s, m, f), false, f).backend, f);
      } else {
        EvictLoopOnlyMoves(DropStale(s, m), rebuilt, f);
      }
    }
  }

  // ---------- From a covered heap: oldest first, and no more than needed ----------

  // `kept` is the newest part of `all`.
  ghost predicate KeepsNewest(all: Table, kept: Table) {
    && kept.Keys <= all.Keys
    && (forall k | k in kept :: kept[k] == all[k])
    && forall v, k | v in all && v !in kept && k in kept :: Before(Tuple(all, v), Tuple(all, k))
  }

  function Room(cap: int): int { Max(0, cap - 1) }

  ghost predicate Evicted(s: State, r: State, f: Faults) {
    && r.cap == s.cap
    && KeepsNewest(s.backend, r.backend)
    && |r.backend| == (if |s.backend| <= Room(s.cap) then |s.backend| else Room(s.cap))
    && r.spill == Demoted(s.spill, s.backend, r.backend, f)
  }

  /** The loop evicts the oldest entries, in `(created_at, key)` order, exactly as many as leave room for one
      more, and hands each victim to the spill tier. It keeps the accounting exact. */
  lemma {:induction false} EvictLoopDropsOldest(s: State, rebuilt: bool, f: Faults)
    requires Accounted(s)
    ensures var r := EvictLoop(s, rebuilt, f);
            && Evicted(s, r, f)
            && Accounted(r)
            && |r.heap| + |s.backend| <= |s.heap| + |r.backend|
    decreases s.backend.Keys, !rebuilt, |s.heap|
  {
    CoveredIsCounted(s);
    if |s.backend| < s.cap || |s.heap| == 0 {
      LiveItemsCount(s.backend);
      NothingDemoted(s.spill, s.backend, f);
    } else {
      var m := Pop(s.heap);
      if m.key in s.backend && s.backend[m.key].created == m.created {
        DropOldestKeepsAccount(s, m, f);
        EvictLoopDropsOldest(DropOldest(s, m, f), false, f);
        DropIsOldestFirst(s, m, f, EvictLoop(DropOldest(s, m, f), false, f));
      } else {
        DropStaleKeepsAccount(s, m);
        EvictLoopDropsOldest(DropStale(s, m), rebuilt, f);
      }
    }
  }

  lemma DropOldestKeepsAccount(s: State, m: Item, f: Faults)
    requires Accounted(s) && m in s.heap && m.key in s.backend && Tuple(s.backend, m.key) == m
    ensures var s' := DropOldest(s, m, f);
            Accounted(s') && |s'.heap| == |s.heap| - 1 && |s'.backend| == |s.backend| - 1
  {
    assert |s.backend - {m.key}| == |s.backend| - 1;
  }

  lemma DropStaleKeepsAccount(s: State, m: Item)
    requires Accounted(s) && m in s.heap && (m.key in s.backend ==> Tuple(s.backend, m.key) != m)
    ensures var s' := DropStale(s, m);
            Accounted(s') && |s'.heap| == |s.heap| - 1 && s'.backend == s.backend && s'.spill == s.spill
  {
    CoveredIsCounted(DropStale(s, m));
  }

  lemma DropIsOldestFirst(s: State, m: Item, f: Faults, r: State)
    requires Covered(s) && IsLeast(m, s.heap) && m.key in s.backend && Tuple(s.backend, m.key) == m
    requires |s.backend| >= s.cap && Evicted(DropOldest(s, m, f), r, f)
    ensures Evicted(s, r, f)
  {
    LeastIsFirst(s, m, r.backend);
    DemotedInTwoParts(s.spill, s.backend, m.key, r.backend, f);
  }

  lemma LeastIsFirst(s: State, m: Item, kept: Table)
    requires Covered(s) && IsLeast(m, s.heap) && m.key in s.backend && Tuple(s.backend, m.key) == m
    requires KeepsNewest(s.backend - {m.key}, kept)
    ensures KeepsNewest(s.backend, kept)
  {
    var b' := s.backend - {m.key};
    forall v, k | v in s.backend && v !in kept && k in kept
      ensures Before(Tuple(s.backend, v), Tuple(s.backend, k))
    {
      if v == m.key {
        BeforeIsTotalOrder(m, Tuple(s.backend, k), m);
      } else {
        assert Before(Tuple(b', v), Tuple(b', k));
      }
    }
  }

  /** Oldest-first and minimal leave no choice: there is only one such outcome. */
  lemma NewestAreDetermined(all: Table, a: Table, b: Table)
    requires KeepsNewest(all, a) && KeepsNewest(all, b) && |a| == |b|
    ensures a == b
  {
    if k :| k in a && k !in b {
      if b.Keys <= a.Keys {
        SubTableIsSmaller(b, a);
      } else {
        var j :| j in b && j !in a;
        BeforeIsTotalOrder(Tuple(all, k), Tuple(all, j), Tuple(all, k));
      }
      assert false;
    }
    SubTableIsSmaller(a, b);
  }

  // ---------- Every reachable state ----------

  // The same rows in both tiers; the heaps and counters may differ.
  ghost predicate SameRows(s: State, t: State) {
    s.cap == t.cap && s.backend == t.backend && s.spill == t.spill
  }

  lemma CleanKeepsSound(s: State, now: real)
    requires Sound(s)
    ensures Sound(CleanExpired(s, now))
  {
    SubTableIsSmaller(CleanExpired(s, now).backend, s.backend);
  }

  lemma RebuildIsSound(s: State)
    requires |s.backend| <= Max(1, s.cap)
    ensures Sound(Rebuild(s))
  {
    LiveItemsCount(s.backend);
    forall k | k in s.backend ensures Item(s.backend[k].created, k) in LiveItems(s.backend) {
      assert LiveItems(s.backend)[Item(s.backend[k].created, k)] == 1;
    }
  }

  lemma RebuildIfStaleKeepsSound(s: State)
    requires Sound(s)
    ensures var c := RebuildIfStale(s);
            Sound(c) && SameRows(c, s) && (2 * c.stale < |c.heap| || |c.heap| == 0)
  {
    RebuildIsSound(s);
    if |s.heap| > 0 && 2 * s.stale >= |s.heap| { LiveItemsCount(s.backend); }
  }

  lemma EvictKeepsSound(s: State, now: real, f: Faults)
    requires Sound(s)
    ensures var r := Evict(s, now, f);
            && Sound(r) && Evicted(CleanExpired(s, now), r, f)
            && |r.backend| <= Room(s.cap) && |r.heap| < Max(1, 2 * s.cap - 1)
  {
    CleanKeepsSound(s, now);
    RebuildIfStaleKeepsSound(CleanExpired(s, now));
    LoopKeepsSound(CleanExpired(s, now), RebuildIfStale(CleanExpired(s, now)), f);
  }

  lemma LoopKeepsSound(c: State, c': State, f: Faults)
    requires Sound(c') && SameRows(c', c) && (2 * c'.stale < |c'.heap| || |c'.heap| == 0)
    ensures var r := EvictLoop(c', false, f);
            && Sound(r) && Evicted(c, r, f)
            && |r.backend| <= Room(c.cap) && |r.heap| < Max(1, 2 * c.cap - 1)
  {
    EvictLoopDropsOldest(c', false, f);
  }

  lemma BindKeepsSound(s: State, k: Key, e: Entry)
    requires Accounted(s)
    requires |s.backend| <= Room(s.cap) && |s.heap| < Max(1, 2 * s.cap - 1)
    ensures Sound(Bind(s, k, e))
  {
    assert k in s.backend ==> |s.backend - {k}| == |s.backend| - 1;
    assert k !in s.backend ==> |s.backend[k := e]| == |s.backend| + 1;
    assert k in s.backend ==> s.backend[k := e].Keys == s.backend.Keys;
  }

  lemma UnbindKeepsSound(s: State, k: Key)
    requires Sound(s)
    ensures Sound(Unbind(s, k)) && Sound(Unspill(Unbind(s, k), k)) && Sound(Unspill(s, k))
  {
    assert k in s.backend ==> |s.backend - {k}| == |s.backend| - 1;
  }

  lemma TouchKeepsSound(s: State, k: Key, now: real)
    requires Sound(s)
    ensures Sound(Touch(s, k, now))
  {
    assert Touch(s, k, now).backend.Keys == s.backend.Keys;
    assert |Touch(s, k, now).backend| == |s.backend.Keys|;
  }

  lemma RetrieveKeepsSound(s: State, k: Key, now: real, f: Faults)
    requires Sound(s)
    ensures Sound(Retrieve(s, k, now, f).0) && Retrieve(s, k, now, f).0.cap == s.cap
  {
    UnbindKeepsSound(s, k);
    TouchKeepsSound(s, k, now);
  }

  lemma DeleteKeepsSound(s: State, k: Key, f: Faults)
    requires Sound(s)
    ensures Sound(Delete(s, k, f).0) && Delete(s, k, f).0.cap == s.cap
  {
    UnbindKeepsSound(s, k);
  }

  lemma ClearKeepsSound(s: State, f: Faults)
    ensures Sound(Clear(s, f).0) && Clear(s, f).0.cap == s.cap
  {
  }

  lemma StoreKeepsSound(s: State, k: Key, e: Entry, now: real, f: Faults)
    requires Sound(s)
    ensures Sound(Store(s, k, e, now, f)) && Store(s, k, e, now, f).cap == s.cap
  {
    EvictKeepsSound(s, now, f);
    BindKeepsSound(Evict(s, now, f), k, e);
  }

  lemma StepKeepsSound(s: State, op: Op)
    requires Sound(s)
    ensures Sound(Step(s, op)) && Step(s, op).cap == s.cap
  {
    match op
    case StoreOp(k, e, now, f) => StoreKeepsSound(s, k, e, now, f);
    case RetrieveOp(k, now, f) => RetrieveKeepsSound(s, k, now, f);
    case DeleteOp(k, _, f) => DeleteKeepsSound(s, k, f);
    case ClearOp(_, f) => ClearKeepsSound(s, f);
    case _ => UpkeepKeepsSound(s, op);
  }

  lemma UpkeepKeepsSound(s: State, op: Op)
    requires Sound(s) && (op.ReapOp? || op.TouchOp? || op.CleanOp? || op.SpillLoss?)
    ensures Sound(Step(s, op)) && Step(s, op).cap == s.cap
  {
    match op
    case ReapOp(k, now) => UnbindKeepsSound(s, k);
    case TouchOp(k, now) => TouchKeepsSound(s, k, now);
    case CleanOp(now) => CleanKeepsSound(s, now);
    case SpillLoss(rows, _) =>
  }

  /** In every state that any sequence of calls reaches, every live entry has its tuple in the heap, the stale
      counter is exactly the number of surplus tuples, at most `cap` entries are live and the heap holds at
      most `2 * cap - 1` tuples (one, when `cap` is not positive), whatever the clock and the spill tier do. */
  lemma {:induction false} ReachableStatesAreSound(s: State, ops: seq<Op>)
    requires Sound(s)
    ensures Sound(Run(s, ops)) && Run(s, ops).cap == s.cap
    decreases ops
  {
    if ops != [] {
      StepKeepsSound(s, ops[0]);
      ReachableStatesAreSound(Step(s, ops[0]), ops[1..]);
    }
  }

  /** ... in particular after any calls on a new store. */
  lemma RunsFromEmptyAreSound(cap: int, spill: Option<Table>, ops: seq<Op>)
    ensures Sound(Run(Empty(cap, spill), ops)) && Run(Empty(cap, spill), ops).cap == cap
  {
    EmptyIsSound(cap, spill);
    ReachableStatesAreSound(Empty(cap, spill), ops);
  }

  lemma EmptyIsSound(cap: int, spill: Option<Table>)
    ensures Sound(Empty(cap, spill))
  {
  }

  // ---------- The heap cannot be observed ----------

  lemma StoreForgetsHeap(s: State, t: State, k: Key, e: Entry, now: real, f: Faults)
    requires Sound(s) && Sound(t) && SameRows(s, t)
    ensures SameRows(Store(s, k, e, now, f), Store(t, k, e, now, f))
  {
    EvictKeepsSound(s, now, f);
    EvictKeepsSound(t, now, f);
    EvictedAlike(CleanExpired(s, now), CleanExpired(t, now), Evict(s, now, f), Evict(t, now, f), f);
    BindForgetsHeap(Evict(s, now, f), Evict(t, now, f), k, e);
  }

  lemma EvictedAlike(s: State, t: State, s': State, t': State, f: Faults)
    requires SameRows(s, t) && Evicted(s, s', f) && Evicted(t, t', f)
    ensures SameRows(s', t')
  {
    NewestAreDetermined(s.backend, s'.backend, t'.backend);
  }

  lemma BindForgetsHeap(s: State, t: State, k: Key, e: Entry)
    requires SameRows(s, t)
    ensures SameRows(Bind(s, k, e), Bind(t, k, e))
  {
  }

  /** The lazy heap, its counter and its rebuilds only make eviction fast: two sound states with the same rows
      keep the same rows, whatever is called and whatever their heaps hold. */
  lemma {:induction false} RunsForgetHeap(s: State, t: State, ops: seq<Op>)
    requires Sound(s) && Sound(t) && SameRows(s, t)
    ensures SameRows(Run(s, ops), Run(t, ops))
    decreases ops
  {
    if ops != [] {
      StepForgetsHeap(s, t, ops[0]);
      StepKeepsSound(s, ops[0]);
      StepKeepsSound(t, ops[0]);
      RunsForgetHeap(Step(s, ops[0]), Step(t, ops[0]), ops[1..]);
    }
  }

  lemma StepForgetsHeap(s: State, t: State, op: Op)
    requires Sound(s) && Sound(t) && SameRows(s, t)
    ensures SameRows(Step(s, op), Step(t, op))
  {
    match op
    case StoreOp(k, e, now, f) => StoreForgetsHeap(s, t, k, e, now, f);
    case RetrieveOp(k, now, f) => RetrieveForgetsHeap(s, t, k, now, f);
    case DeleteOp(k, _, f) => DeleteForgetsHeap(s, t, k, f);
    case _ =>
  }

  lemma RetrieveForgetsHeap(s: State, t: State, k: Key, now: real, f: Faults)
    requires SameRows(s, t)
    ensures SameRows(Retrieve(s, k, now, f).0, Retrieve(t, k, now, f).0)
    ensures Retrieve(s, k, now, f).1 == Retrieve(t, k, now, f).1
  {
  }

  lemma DeleteForgetsHeap(s: State, t: State, k: Key, f: Faults)
    requires SameRows(s, t)
    ensures SameRows(Delete(s, k, f).0, Delete(t, k, f).0)
  {
  }
}
