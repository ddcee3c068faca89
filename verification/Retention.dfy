/** What a caller gets back: content over whole runs, purge read-backs, and the spill tier against an
    unbounded table. */
module Retention {
  import opened Order
  import opened StoreSpec
  import opened Eviction
  import opened Wrappers

  // ---------- A hit is the latest content stored ----------

  function Newer(before: Option<string>, k: Key, op: Op): Option<string> {
    if op.StoreOp? && op.key == k then Some(op.entry.original) else before
  }

  function Latest(before: Option<string>, k: Key, ops: seq<Op>): Option<string>
    decreases ops
  {
    if ops == [] then before else Latest(Newer(before, k, ops[0]), k, ops[1..])
  }

  lemma EvictOnlyMoves(s: State, now: real, f: Faults)
    ensures var c, r := CleanExpired(s, now), Evict(s, now, f);
            && r.backend.Keys <= c.backend.Keys && (forall k | k in r.backend :: r.backend[k] == c.backend[k])
            && r.spill == Demoted(c.spill, c.backend, r.backend, f)
  {
    EvictLoopOnlyMoves(RebuildIfStale(CleanExpired(s, now)), false, f);
  }

  ghost predicate Holds(s: State, k: Key, latest: Option<string>) {
    s.spill.None? && (k in s.backend ==> latest == Some(s.backend[k].original))
  }

  lemma {:induction false} RunHoldsLatest(s: State, k: Key, latest: Option<string>, ops: seq<Op>)
    requires Holds(s, k, latest)
    ensures Holds(Run(s, ops), k, Latest(latest, k, ops))
    decreases ops
  {
    if ops != [] {
      StepHoldsLatest(s, k, latest, ops[0]);
      RunHoldsLatest(Step(s, ops[0]), k, Newer(latest, k, ops[0]), ops[1..]);
    }
  }

  lemma StepHoldsLatest(s: State, k: Key, latest: Option<string>, op: Op)
    requires Holds(s, k, latest)
    ensures Holds(Step(s, op), k, Newer(latest, k, op))
  {
    if op.StoreOp? { StoreHoldsLatest(s, k, latest, op.key, op.entry, op.now, op.faults); }
  }

  lemma StoreHoldsLatest(s: State, k: Key, latest: Option<string>, key: Key, e: Entry, now: real, f: Faults)
    requires Holds(s, k, latest)
    ensures Holds(Store(s, key, e, now, f), k, if key == k then Some(e.original) else latest)
  {
    EvictOnlyMoves(s, now, f);
  }

  /** In a single-tier store, after any sequence of calls, collisions included, a hit returns the content of
      the most recent store under that key. */
  lemma HitIsLatestStored(cap: int, ops: seq<Op>, k: Key, now: real, f: Faults)
    ensures var hit := Retrieve(Run(Empty(cap, None), ops), k, now, f).1;
            hit.Some? ==> Latest(None, k, ops) == Some(hit.value.original)
  {
    RunHoldsLatest(Empty(cap, None), k, None, ops);
  }

  /** A collision leaves the key unbound, so a retrieve misses, unless the spill tier still holds a live row
      of the key: then that row is served. */
  lemma CollisionMissesUnlessSpilled(s: State, k: Key, e: Entry, now: real, f: Faults)
    requires Collides(Evict(s, now, f), k, e)
    ensures k !in Store(s, k, e, now, f).backend
    ensures Retrieve(Store(s, k, e, now, f), k, now, NO_FAULTS).1.Some? <==>
            SpillHas(s, k) && !s.spill.value[k].Expired(now)
  {
    EvictOnlyMoves(s, now, f);
  }

  // ---------- Purge read-back ----------

  ghost predicate Gone(s: State, k: Key, now: real) {
    && (k in s.backend ==> s.backend[k].Expired(now))
    && (SpillHas(s, k) ==> s.spill.value[k].Expired(now))
  }

  function EndOf(start: real, ops: seq<Op>): real
    decreases ops
  {
    if ops == [] then start else EndOf(ops[0].now, ops[1..])
  }

  predicate Stores(k: Key, ops: seq<Op>) {
    exists i | 0 <= i < |ops| :: ops[i].StoreOp? && ops[i].key == k
  }

  lemma GoneStaysGone(s: State, k: Key, now: real, op: Op)
    requires Gone(s, k, now) && now <= op.now && !(op.StoreOp? && op.key == k)
    ensures Gone(Step(s, op), k, op.now)
  {
    if op.StoreOp? { StoreKeepsGone(s, k, op.now, op.key, op.entry, op.faults); }
  }

  lemma StoreKeepsGone(s: State, k: Key, now: real, other: Key, e: Entry, f: Faults)
    requires Gone(s, k, now) && other != k
    ensures Gone(Store(s, other, e, now, f), k, now)
  {
    EvictKeepsGone(s, k, now, f);
    BindKeepsGone(Evict(s, now, f), k, now, other, e);
  }

  lemma EvictKeepsGone(s: State, k: Key, now: real, f: Faults)
    requires Gone(s, k, now)
    ensures Gone(Evict(s, now, f), k, now)
  {
    EvictOnlyMoves(s, now, f);
    assert k !in CleanExpired(s, now).backend;
  }

  lemma BindKeepsGone(s: State, k: Key, now: real, other: Key, e: Entry)
    requires Gone(s, k, now) && other != k
    ensures Gone(Bind(s, other, e), k, now)
  {
  }

  lemma {:induction false} RunKeepsGone(s: State, k: Key, now: real, ops: seq<Op>)
    requires Gone(s, k, now) && ClockFrom(now, ops) && !Stores(k, ops)
    ensures Gone(Run(s, ops), k, EndOf(now, ops))
    decreases ops
  {
    if ops != [] {
      assert !(ops[0].StoreOp? && ops[0].key == k);
      GoneStaysGone(s, k, now, ops[0]);
      assert forall i | 0 <= i < |ops[1..]| :: ops[1..][i] == ops[i + 1];
      RunKeepsGone(Step(s, ops[0]), k, ops[0].now, ops[1..]);
    }
  }

  /** When the read-back says that a key is gone, it misses from then on, whatever is called in between and
      whatever the spill tier does, until the key is stored again. */
  lemma ReadBackIsSound(s: State, k: Key, now: real, f: Faults, ops: seq<Op>, later: real, f': Faults)
    requires !ExistsAnyTier(s, k, now, f)
    requires ClockFrom(now, ops) && !Stores(k, ops) && EndOf(now, ops) <= later
    ensures Retrieve(Run(s, ops), k, later, f').1 == None
  {
    RunKeepsGone(s, k, now, ops);
  }

  /** After a collision the key misses until it is stored again, whatever is called in between, unless the spill
      tier held a live row of it. */
  lemma CollisionMissesUntilStored(s: State, k: Key, e: Entry, now: real, f: Faults, ops: seq<Op>, later: real,
                                   f': Faults)
    requires Collides(Evict(s, now, f), k, e) && (SpillHas(s, k) ==> s.spill.value[k].Expired(now))
    requires ClockFrom(now, ops) && !Stores(k, ops) && EndOf(now, ops) <= later
    ensures Retrieve(Run(Store(s, k, e, now, f), ops), k, later, f').1 == None
  {
    EvictOnlyMoves(s, now, f);
    RunKeepsGone(Store(s, k, e, now, f), k, now, ops);
  }

  /** After a delete the key misses, unless the spill tier refused and still holds a live row of it. */
  lemma DeletedKeyMisses(s: State, k: Key, now: real, f: Faults)
    ensures Retrieve(Delete(s, k, f).0, k, now, NO_FAULTS).1 == None <==>
            !(f.delete && SpillHas(s, k) && !s.spill.value[k].Expired(now))
  {
  }

  /** A clear that reports no residue emptied both tiers, even if the spill tier's own clear or count raised. The
      residue is 0 without a spill tier or after a clean clear, else the number of rows that are left, or 1 where
      they cannot be counted. */
  lemma ClearReportsResidue(s: State, f: Faults)
    ensures var (s', residue) := Clear(s, f);
            && s'.backend == map[] && s'.heap == multiset{} && s'.stale == 0 && s'.spill.Some? == s.spill.Some?
            && (residue == 0 ==> forall k, now, f' :: Retrieve(s', k, now, f').1 == None)
            && (s.spill.None? ==> residue == 0)
            && (s.spill.Some? && !f.clear ==> residue == 0 && s'.spill.value == map[])
            && (s.spill.Some? && f.clear ==>
                  && (forall k :: k in s'.spill.value <==> k in s.spill.value && k in f.kept)
                  && (forall k | k in s'.spill.value :: s'.spill.value[k] == s.spill.value[k])
                  && residue == if f.count then 1 else |s'.spill.value|)
  {
    var (s', residue) := Clear(s, f);
    if s'.spill.Some? { assert |s'.spill.value| == 0 <==> s'.spill.value == map[]; }
  }

  /** The read-back and `retrieve` answer alike, except in one state: an expired primary row hides a live
      spill row, which the read-back counts and the next retrieve misses once. */
  lemma ReadBackAgreesUnlessHidden(s: State, k: Key, now: real)
    ensures ExistsAnyTier(s, k, now, NO_FAULTS) == Retrieve(s, k, now, NO_FAULTS).1.Some? <==>
            !(k in s.backend && s.backend[k].Expired(now) && SpillHas(s, k) && !s.spill.value[k].Expired(now))
  {
  }

  // ---------- The spill tier makes eviction invisible ----------

  // The unbounded table: nothing is evicted, and access bookkeeping is left out.
  function Ideal(a: Table, op: Op): Table {
    match op
    case StoreOp(k, e, _, _) => a[k := e.Core()]
    case DeleteOp(k, _, _) => a - {k}
    case ClearOp(_, _) => map[]
    case _ => a
  }

  function IdealAnswer(a: Table, op: Op): Option<Entry> {
    if op.RetrieveOp? && op.key in a && !a[op.key].Expired(op.now) then Some(a[op.key]) else None
  }

  function Answer(s: State, op: Op): Option<Entry> {
    if op.RetrieveOp? then
      var (_, hit) := Retrieve(s, op.key, op.now, op.faults);
      if hit.Some? then Some(hit.value.Core()) else None
    else None
  }

  function IdealAnswers(a: Table, ops: seq<Op>): seq<Option<Entry>>
    decreases ops
  {
    if ops == [] then [] else [IdealAnswer(a, ops[0])] + IdealAnswers(Ideal(a, ops[0]), ops[1..])
  }

  ghost function Answers(s: State, ops: seq<Op>): seq<Option<Entry>>
    decreases ops
  {
    if ops == [] then [] else [Answer(s, ops[0])] + Answers(Step(s, ops[0]), ops[1..])
  }

  // The spill tier never fails and loses nothing, and a store over a live entry repeats its content and does
  // not shorten its life.
  predicate Admissible(a: Table, op: Op) {
    && !op.SpillLoss?
    && (op.StoreOp? || op.RetrieveOp? || op.DeleteOp? || op.ClearOp? ==> op.faults == NO_FAULTS)
    && (op.StoreOp? && op.key in a && !a[op.key].Expired(op.now) ==>
          a[op.key].original == op.entry.original && a[op.key].Deadline() <= op.entry.Deadline())
  }

  predicate AdmissibleRun(a: Table, ops: seq<Op>)
    decreases ops
  {
    ops == [] || (Admissible(a, ops[0]) && AdmissibleRun(Ideal(a, ops[0]), ops[1..]))
  }

  // The two tiers together stand for the unbounded table `a` from `now` on.
  ghost predicate StandsFor(s: State, a: Table, now: real) {
    && s.spill.Some?
    && (forall k | k in s.backend :: k in a && a[k] == s.backend[k].Core())
    && (forall k | k in a && k !in s.backend ::
          a[k].Expired(now) || (SpillHas(s, k) && s.spill.value[k].Core() == a[k]))
    && (forall k | k in s.spill.value :: s.spill.value[k].Expired(now) ||
          (k in a && s.spill.value[k].Deadline() <= a[k].Deadline() &&
           (k !in s.backend ==> a[k] == s.spill.value[k].Core())))
  }

  lemma CleanStandsFor(s: State, a: Table, now: real)
    requires StandsFor(s, a, now)
    ensures StandsFor(CleanExpired(s, now), a, now)
  {
  }

  lemma MoveStandsFor(c: State, r: State, a: Table, now: real)
    requires StandsFor(c, a, now)
    requires r.backend.Keys <= c.backend.Keys && forall k | k in r.backend :: r.backend[k] == c.backend[k]
    requires r.spill == Demoted(c.spill, c.backend, r.backend, NO_FAULTS)
    ensures StandsFor(r, a, now)
  {
    assert forall k :: k in r.spill.value <==> k in c.spill.value || (k in c.backend && k !in r.backend);
  }

  lemma BindStandsFor(s: State, a: Table, now: real, k: Key, e: Entry)
    requires StandsFor(s, a, now) && (k in s.backend ==> !s.backend[k].Expired(now))
    requires k in a && !a[k].Expired(now) ==> a[k].original == e.original && a[k].Deadline() <= e.Deadline()
    ensures StandsFor(Bind(s, k, e), a[k := e.Core()], now)
  {
    var s', a' := Bind(s, k, e), a[k := e.Core()];
    assert s'.backend == s.backend[k := e] by {
      if k in s.backend { assert a[k] == s.backend[k].Core(); }
    }
    assert s'.spill == s.spill;
    forall j | j in s'.spill.value && !s'.spill.value[j].Expired(now)
      ensures j in a' && s'.spill.value[j].Deadline() <= a'[j].Deadline()
      ensures j !in s'.backend ==> a'[j] == s'.spill.value[j].Core()
    {
      assert j in a && s.spill.value[j].Deadline() <= a[j].Deadline();
    }
  }

  lemma StoreStandsFor(s: State, a: Table, now: real, k: Key, e: Entry)
    requires StandsFor(s, a, now)
    requires k in a && !a[k].Expired(now) ==> a[k].original == e.original && a[k].Deadline() <= e.Deadline()
    ensures StandsFor(Store(s, k, e, now, NO_FAULTS), a[k := e.Core()], now)
  {
    var c, r := CleanExpired(s, now), Evict(s, now, NO_FAULTS);
    CleanStandsFor(s, a, now);
    EvictOnlyMoves(s, now, NO_FAULTS);
    MoveStandsFor(c, r, a, now);
    BindStandsFor(r, a, now, k, e);
  }

  lemma ReapStandsFor(s: State, a: Table, now: real, k: Key)
    requires StandsFor(s, a, now)
    ensures StandsFor(Reap(s, k, now), a, now)
  {
  }

  lemma TouchStandsFor(s: State, a: Table, now: real, k: Key)
    requires StandsFor(s, a, now)
    ensures StandsFor(Touch(s, k, now), a, now)
  {
    if k in s.backend && !s.backend[k].Expired(now) {
      assert Touch(s, k, now).backend[k].Core() == s.backend[k].Core();
    }
  }

  lemma RetrieveStandsFor(s: State, a: Table, now: real, k: Key)
    requires StandsFor(s, a, now)
    ensures StandsFor(Retrieve(s, k, now, NO_FAULTS).0, a, now)
    ensures Answer(s, RetrieveOp(k, now, NO_FAULTS)) == IdealAnswer(a, RetrieveOp(k, now, NO_FAULTS))
  {
    ReapStandsFor(s, a, now, k);
    TouchStandsFor(s, a, now, k);
  }

  lemma DeleteStandsFor(s: State, a: Table, now: real, k: Key)
    requires StandsFor(s, a, now)
    ensures StandsFor(Delete(s, k, NO_FAULTS).0, a - {k}, now)
  {
  }

  lemma StepStandsFor(s: State, a: Table, now: real, op: Op)
    requires StandsFor(s, a, now) && now <= op.now && Admissible(a, op)
    ensures StandsFor(Step(s, op), Ideal(a, op), op.now)
    ensures Answer(s, op) == IdealAnswer(a, op)
  {
    assert StandsFor(s, a, op.now);
    match op
    case StoreOp(k, e, t, f) => StoreStandsFor(s, a, t, k, e);
    case RetrieveOp(k, t, f) => RetrieveStandsFor(s, a, t, k);
    case DeleteOp(k, t, f) => DeleteStandsFor(s, a, t, k);
    case ClearOp(t, f) =>
    case ReapOp(k, t) => ReapStandsFor(s, a, t, k);
    case TouchOp(k, t) => TouchStandsFor(s, a, t, k);
    case CleanOp(t) => CleanStandsFor(s, a, t);
    case SpillLoss(_, _) =>
  }

  /** With a spill tier that never fails, and under `Admissible` calls, every run gives the answers of the
      unbounded table: capacity eviction cannot be observed. */
  lemma {:induction false} EvictionIsInvisible(s: State, a: Table, now: real, ops: seq<Op>)
    requires StandsFor(s, a, now) && ClockFrom(now, ops) && AdmissibleRun(a, ops)
    ensures Answers(s, ops) == IdealAnswers(a, ops)
    decreases ops
  {
    if ops != [] {
      StepStandsFor(s, a, now, ops[0]);
      EvictionIsInvisible(Step(s, ops[0]), Ideal(a, ops[0]), ops[0].now, ops[1..]);
    }
  }

  function IdealRun(a: Table, ops: seq<Op>): Table
    decreases ops
  {
    if ops == [] then a else IdealRun(Ideal(a, ops[0]), ops[1..])
  }

  lemma {:induction false} RunStandsFor(s: State, a: Table, now: real, ops: seq<Op>)
    requires StandsFor(s, a, now) && ClockFrom(now, ops) && AdmissibleRun(a, ops)
    ensures StandsFor(Run(s, ops), IdealRun(a, ops), EndOf(now, ops))
    decreases ops
  {
    if ops != [] {
      StepStandsFor(s, a, now, ops[0]);
      RunStandsFor(Step(s, ops[0]), Ideal(a, ops[0]), ops[0].now, ops[1..]);
    }
  }

  /** After such a run the read-back agrees with `retrieve`, on every key and at every later time: no call has
      hidden a live spill row. */
  lemma ReadBackAgreesAfterRun(s: State, a: Table, now: real, ops: seq<Op>, k: Key, later: real)
    requires StandsFor(s, a, now) && ClockFrom(now, ops) && AdmissibleRun(a, ops) && EndOf(now, ops) <= later
    ensures var r := Run(s, ops); ExistsAnyTier(r, k, later, NO_FAULTS) == Retrieve(r, k, later, NO_FAULTS).1.Some?
  {
    RunStandsFor(s, a, now, ops);
    ReadBackAgreesUnlessHidden(Run(s, ops), k, later);
  }

  // One TTL, keys that determine content, and entries stamped between the previous call and their own.
  ghost predicate Uniform(ttl: real, content: Key -> string, start: real, ops: seq<Op>)
    decreases ops
  {
    ops == [] ||
    (&& !ops[0].SpillLoss?
     && (ops[0].StoreOp? || ops[0].RetrieveOp? || ops[0].DeleteOp? || ops[0].ClearOp? ==> ops[0].faults == NO_FAULTS)
     && (ops[0].StoreOp? ==> ops[0].entry.ttl == ttl && ops[0].entry.original == content(ops[0].key) &&
                             start <= ops[0].entry.created <= ops[0].now)
     && Uniform(ttl, content, ops[0].now, ops[1..]))
  }

  lemma {:induction false} UniformIsAdmissible(ttl: real, content: Key -> string, a: Table, start: real, ops: seq<Op>)
    requires Uniform(ttl, content, start, ops) && ClockFrom(start, ops)
    requires forall k | k in a :: a[k].ttl == ttl && a[k].original == content(k) && a[k].created <= start
    ensures AdmissibleRun(a, ops)
    decreases ops
  {
    if ops != [] {
      UniformIsAdmissible(ttl, content, Ideal(a, ops[0]), ops[0].now, ops[1..]);
    }
  }

  /** With one TTL and keys that determine content, an empty two-tier store of any capacity answers every run
      of calls exactly as the unbounded table does. */
  lemma UniformRunsAreUnbounded(cap: int, ttl: real, content: Key -> string, start: real, ops: seq<Op>)
    requires Uniform(ttl, content, start, ops) && ClockFrom(start, ops)
    ensures Answers(Empty(cap, Some(map[])), ops) == IdealAnswers(map[], ops)
  {
    UniformIsAdmissible(ttl, content, map[], start, ops);
    EvictionIsInvisible(Empty(cap, Some(map[])), map[], start, ops);
  }

  /** Without the condition on lifetimes: a key that lies in both tiers comes back after it has expired, for
      some clock reading, if and only if its spill row outlives its primary row. */
  lemma ResurfacesIffOutlived(s: State, k: Key)
    requires k in s.backend && SpillHas(s, k)
    ensures (exists now: real ::
               && Retrieve(s, k, now, NO_FAULTS).1.None?
               && Retrieve(Retrieve(s, k, now, NO_FAULTS).0, k, now, NO_FAULTS).1.Some?) <==>
            s.backend[k].Deadline() < s.spill.value[k].Deadline()
  {
    if s.backend[k].Deadline() < s.spill.value[k].Deadline() {
      var now := s.spill.value[k].Deadline();
      assert Retrieve(s, k, now, NO_FAULTS).1.None?;
      assert Retrieve(Retrieve(s, k, now, NO_FAULTS).0, k, now, NO_FAULTS).1.Some?;
    }
  }
}
