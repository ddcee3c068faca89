/** What each operation does to each row, and how long a stored row is sure to be found. */
module Laws {
  import opened Order
  import opened StoreSpec
  import opened Eviction
  import opened Retention
  import opened Wrappers

  // The row has outlived its TTL.
  predicate Dead(e: Entry, now: real) { now - e.created > e.ttl }

  // ---------- Eviction and store ----------

  // `v` comes before `k` in the order of eviction.
  predicate Older(b: Table, v: Key, k: Key)
    requires v in b && k in b
  {
    b[v].created < b[k].created || (b[v].created == b[k].created && Less(v, k))
  }

  // What eviction leaves: dead rows are gone; of the others the newest stay, as many as leave room for one more,
  // and each of the rest is in the spill tier, if there is one and its write did not raise.
  ghost predicate EvictsTo(s: State, r: State, now: real, f: Faults) {
    && (forall k | k in r.backend :: k in s.backend && !Dead(s.backend[k], now) && r.backend[k] == s.backend[k])
    && (forall v, k | v in s.backend && !Dead(s.backend[v], now) && v !in r.backend && k in r.backend ::
          Older(s.backend, v, k))
    && (forall v | v in s.backend && !Dead(s.backend[v], now) && v !in r.backend :: |r.backend| == Max(0, s.cap - 1))
    && |r.backend| <= Max(0, s.cap - 1)
    && r.spill.Some? == s.spill.Some?
    && (s.spill.Some? ==> SpillGains(s, r, now, f))
  }

  ghost predicate SpillGains(s: State, r: State, now: real, f: Faults)
    requires s.spill.Some? && r.spill.Some?
  {
    forall k ::
      if k in s.backend && !Dead(s.backend[k], now) && k !in r.backend && k !in f.write
      then k in r.spill.value && r.spill.value[k] == s.backend[k]
      else (k in r.spill.value <==> k in s.spill.value) &&
           (k in s.spill.value ==> r.spill.value[k] == s.spill.value[k])
  }

  lemma EvictRows(s: State, now: real, f: Faults)
    requires Sound(s)
    ensures EvictsTo(s, Evict(s, now, f), now, f)
  {
    var c, r := CleanExpired(s, now), Evict(s, now, f);
    EvictKeepsSound(s, now, f);
    forall v, k | v in s.backend && !Dead(s.backend[v], now) && v !in r.backend && k in r.backend
      ensures Older(s.backend, v, k)
    {
      assert Before(Tuple(c.backend, v), Tuple(c.backend, k));
    }
    if v :| v in s.backend && !Dead(s.backend[v], now) && v !in r.backend {
      assert v in c.backend;
      SubTableIsSmaller(r.backend, c.backend);
    }
  }

  /** A store evicts, and then binds its key: a key that stands for other content loses its row, and any other key
      has the new row. Nothing else changes. */
  lemma StoreRows(s: State, k: Key, e: Entry, now: real, f: Faults)
    requires Sound(s)
    ensures var m, r := Evict(s, now, f), Store(s, k, e, now, f);
            && EvictsTo(s, m, now, f) && r.spill == m.spill
            && r.backend == if k in m.backend && m.backend[k].original != e.original then m.backend - {k}
                            else m.backend[k := e]
  {
    EvictRows(s, now, f);
  }

  // ---------- Retrieve, read-back, delete ----------

  /** A live row is served and its access counted, a dead one deleted and missed; without a row the spill tier
      answers, and only loses a dead row. */
  lemma RetrieveRows(s: State, k: Key, now: real, f: Faults)
    ensures k in s.backend && !Dead(s.backend[k], now) ==>
              var e := s.backend[k].(accesses := s.backend[k].accesses + 1);
              Retrieve(s, k, now, f) == (s.(backend := s.backend[k := e]), Some(e))
    ensures k in s.backend && Dead(s.backend[k], now) ==>
              Retrieve(s, k, now, f) == (s.(backend := s.backend - {k}, stale := s.stale + 1), None)
    ensures k !in s.backend && (s.spill.None? || f.read || k !in s.spill.value) ==> Retrieve(s, k, now, f) == (s, None)
    ensures k !in s.backend && s.spill.Some? && !f.read && k in s.spill.value ==>
              Retrieve(s, k, now, f) ==
              if !Dead(s.spill.value[k], now) then (s, Some(s.spill.value[k]))
              else (if f.delete then s else s.(spill := Some(s.spill.value - {k})), None)
  {
  }

  /** The read-back says yes for a live row of either tier, and for a spill tier that cannot be read. */
  lemma ReadBackRows(s: State, k: Key, now: real, f: Faults)
    ensures ExistsAnyTier(s, k, now, f) <==>
            || (k in s.backend && !Dead(s.backend[k], now))
            || (s.spill.Some? && (f.read || (k in s.spill.value && !Dead(s.spill.value[k], now))))
  {
  }

  /** A delete takes the key from both tiers and says whether it took anything. */
  lemma DeleteRows(s: State, k: Key, f: Faults)
    ensures var (r, deleted) := Delete(s, k, f);
            && r.backend == s.backend - {k} && r.heap == s.heap && r.spill.Some? == s.spill.Some?
            && r.stale == (if k in s.backend then s.stale + 1 else s.stale)
            && (s.spill.Some? ==> r.spill.value == if f.delete then s.spill.value else s.spill.value - {k})
            && (deleted <==> k in s.backend || (s.spill.Some? && !f.delete && k in s.spill.value))
  {
  }

  // ---------- How long a row is found ----------

  // The rows that are newer than that of `k`.
  ghost function Newer(b: Table, k: Key): set<Key>
    requires k in b
  {
    set j | j in b && j != k && Older(b, k, j)
  }

  // `k` has the row `e`, and at most `n` rows are newer.
  ghost predicate Recent(s: State, k: Key, e: Entry, n: nat) {
    && k in s.backend && |Newer(s.backend, k)| <= n
    && s.backend[k].original == e.original && s.backend[k].compressed == e.compressed
    && s.backend[k].created == e.created && s.backend[k].ttl == e.ttl
  }

  function StoreCount(ops: seq<Op>): nat
    decreases ops
  {
    if ops == [] then 0 else (if ops[0].StoreOp? then 1 else 0) + StoreCount(ops[1..])
  }

  // No call stores `k` again, deletes it or clears the store.
  predicate LeavesAlone(k: Key, ops: seq<Op>) {
    forall op | op in ops :: !op.ClearOp? && !((op.StoreOp? || op.DeleteOp?) && op.key == k)
  }

  lemma FewerAreNewer(small: Table, large: Table, k: Key)
    requires k in small && small.Keys <= large.Keys && forall j | j in small :: small[j].created == large[j].created
    ensures |Newer(small, k)| <= |Newer(large, k)|
  {
    assert Newer(large, k) == Newer(small, k) + (Newer(large, k) - Newer(small, k));
  }

  lemma OneMoreIsNewer(b: Table, k: Key, j: Key, e: Entry)
    requires k in b && j != k
    ensures |Newer(b[j := e], k)| <= |Newer(b, k)| + 1
  {
    assert Newer(b[j := e], k) <= Newer(b, k) + {j};
    assert Newer(b, k) + {j} == Newer(b[j := e], k) + (Newer(b, k) + {j} - Newer(b[j := e], k));
  }

  // What eviction takes has as many newer rows as there is room for.
  lemma VictimHasNewer(s: State, r: State, k: Key, now: real, f: Faults)
    requires EvictsTo(s, r, now, f) && k in s.backend && !Dead(s.backend[k], now) && k !in r.backend
    ensures |Newer(s.backend, k)| >= s.cap - 1
  {
    assert r.backend.Keys <= Newer(s.backend, k);
    assert Newer(s.backend, k) == r.backend.Keys + (Newer(s.backend, k) - r.backend.Keys);
    assert |r.backend| == |r.backend.Keys|;
  }

  lemma RecentIsKept(s: State, r: State, k: Key, now: real, f: Faults)
    requires EvictsTo(s, r, now, f) && k in s.backend && !Dead(s.backend[k], now)
    requires |Newer(s.backend, k)| < s.cap - 1
    ensures k in r.backend && |Newer(r.backend, k)| <= |Newer(s.backend, k)|
  {
    if k !in r.backend { VictimHasNewer(s, r, k, now, f); }
    FewerAreNewer(r.backend, s.backend, k);
  }

  lemma StoreKeepsRecent(s: State, k: Key, e: Entry, n: nat, j: Key, other: Entry, now: real, f: Faults)
    requires Sound(s) && Recent(s, k, e, n) && n < s.cap - 1 && !Dead(e, now) && j != k
    ensures Recent(Store(s, j, other, now, f), k, e, n + 1)
  {
    var m := Evict(s, now, f);
    StoreRows(s, j, other, now, f);
    RecentIsKept(s, m, k, now, f);
    if j in m.backend && m.backend[j].original != other.original {
      FewerAreNewer(m.backend - {j}, m.backend, k);
    } else {
      OneMoreIsNewer(m.backend, k, j, other);
    }
  }

  // Any call but a store, a clear and a delete of `k`.
  lemma QuietKeepsRecent(s: State, k: Key, e: Entry, n: nat, op: Op)
    requires Recent(s, k, e, n) && !Dead(e, op.now)
    requires !op.StoreOp? && !op.ClearOp? && !(op.DeleteOp? && op.key == k)
    ensures Recent(Step(s, op), k, e, n)
  {
    FewerAreNewer(Step(s, op).backend, s.backend, k);
  }

  lemma {:induction false} RunKeepsRecent(s: State, k: Key, e: Entry, n: nat, ops: seq<Op>, start: real, end: real)
    requires Sound(s) && Recent(s, k, e, n) && n + StoreCount(ops) < s.cap
    requires LeavesAlone(k, ops) && ClockFrom(start, ops) && EndOf(start, ops) <= end && !Dead(e, end)
    ensures Recent(Run(s, ops), k, e, n + StoreCount(ops))
    decreases ops
  {
    if ops != [] {
      var op, rest := ops[0], ops[1..];
      assert op in ops;
      EndIsLater(op.now, rest);
      StepKeepsSound(s, op);
      if op.StoreOp? {
        StoreKeepsRecent(s, k, e, n, op.key, op.entry, op.now, op.faults);
      } else {
        QuietKeepsRecent(s, k, e, n, op);
      }
      RunKeepsRecent(Step(s, op), k, e, if op.StoreOp? then n + 1 else n, rest, op.now, end);
    }
  }

  lemma {:induction false} EndIsLater(start: real, ops: seq<Op>)
    requires ClockFrom(start, ops)
    ensures start <= EndOf(start, ops)
    decreases ops
  {
    if ops != [] { EndIsLater(ops[0].now, ops[1..]); }
  }

  lemma NoneIsNewer(b: Table, k: Key)
    requires k in b && forall j | j in b && j != k :: Older(b, j, k)
    ensures Newer(b, k) == {}
  {
    forall j | j in Newer(b, k) ensures false {
      assert Older(b, j, k) && Older(b, k, j);
      if Less(j, k) { LessIsAsymmetric(j, k); }
    }
  }

  // `k` comes after every other row in the order of eviction.
  ghost predicate Newest(b: Table, k: Key, e: Entry) {
    forall j | j in b && j != k ::
      b[j].created < e.created || (b[j].created == e.created && Less(j, k))
  }

  lemma StoredIsRecent(s: State, k: Key, e: Entry, now: real, f: Faults)
    requires Sound(s) && Newest(s.backend, k, e)
    requires k in s.backend && !Dead(s.backend[k], now) ==> s.backend[k].original == e.original
    ensures Recent(Store(s, k, e, now, f), k, e, 0)
  {
    StoreRows(s, k, e, now, f);
    var m := Evict(s, now, f).backend;
    assert m[k := e][k] == e && forall j | j in m[k := e] && j != k :: m[k := e][j] == s.backend[j];
    NoneIsNewer(m[k := e], k);
  }

  /** The recovery window: a row that was stored as the newest one, and did not collide, is found until its TTL is
      over, as long as fewer other stores follow than the store has room for and no call stores its key again,
      deletes it or clears the store. The hit has what was stored. */
  lemma RecentRowHits(s: State, k: Key, e: Entry, now: real, f: Faults, ops: seq<Op>, later: real, f': Faults)
    requires Sound(s) && Newest(s.backend, k, e)
    requires k in s.backend && !Dead(s.backend[k], now) ==> s.backend[k].original == e.original
    requires StoreCount(ops) < s.cap && LeavesAlone(k, ops)
    requires ClockFrom(now, ops) && EndOf(now, ops) <= later && later - e.created <= e.ttl
    ensures var hit := Retrieve(Run(Store(s, k, e, now, f), ops), k, later, f').1;
            && hit.Some? && hit.value.original == e.original && hit.value.compressed == e.compressed
            && hit.value.created == e.created && hit.value.ttl == e.ttl
  {
    var r := Store(s, k, e, now, f);
    StoredIsRecent(s, k, e, now, f);
    StoreKeepsSound(s, k, e, now, f);
    RunKeepsRecent(r, k, e, 0, ops, now, later);
    RetrieveRows(Run(r, ops), k, later, f');
  }
}
