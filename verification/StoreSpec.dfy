/** What each operation of `CompressionStore` does to the state of the store.

    The backend and the spill tier are finite maps, the eviction heap is the multiset of its tuples, and the
    clock readings of a call are its arguments. `Faults` says which spill operations raise during one call. */
module StoreSpec {
  import opened Order
  import opened Wrappers

  datatype Entry = Entry(original: string, compressed: string, created: real, ttl: real, accesses: nat) {
    predicate Expired(now: real) { now - created > ttl }

    function Deadline(): real { created + ttl }

    // The entry without its access bookkeeping.
    function Core(): (c: Entry)
      ensures c.original == original && c.compressed == compressed && c.created == created && c.ttl == ttl
    {
      this.(accesses := 0)
    }
  }

  type Table = map<Key, Entry>

  datatype Faults = Faults(write: set<Key>, read: bool, delete: bool, clear: bool, kept: set<Key>, count: bool)

  const NO_FAULTS := Faults({}, false, false, false, {}, false)

  datatype State = State(cap: int, backend: Table, heap: multiset<Item>, stale: nat, spill: Option<Table>)

  function Empty(cap: int, spill: Option<Table>): State { State(cap, map[], multiset{}, 0, spill) }

  function Tuple(b: Table, k: Key): Item
    requires k in b
  {
    Item(b[k].created, k)
  }

  function LiveItems(b: Table): multiset<Item> {
    multiset(set k | k in b :: Tuple(b, k))
  }

  // ---------- Eviction ----------

  function Unexpired(b: Table, now: real): Table {
    map k | k in b && !b[k].Expired(now) :: b[k]
  }

  lemma SubTableIsSmaller(small: Table, large: Table)
    requires small.Keys <= large.Keys
    ensures |small| <= |large|
    ensures |small| == |large| ==> small.Keys == large.Keys
  {
    assert large.Keys == small.Keys + (large.Keys - small.Keys);
    assert |small| == |small.Keys| && |large| == |large.Keys|;
  }

  function CleanExpired(s: State, now: real): State {
    var b := Unexpired(s.backend, now);
    SubTableIsSmaller(b, s.backend);
    s.(backend := b, stale := s.stale + |s.backend| - |b|)
  }

  function Rebuild(s: State): State { s.(heap := LiveItems(s.backend), stale := 0) }

  function RebuildIfStale(s: State): State {
    if |s.heap| > 0 && 2 * s.stale >= |s.heap| then Rebuild(s) else s
  }

  ghost function Pop(heap: multiset<Item>): (m: Item)
    requires |heap| > 0
    ensures IsLeast(m, heap)
  {
    LeastExists(heap);
    var m :| IsLeast(m, heap);
    m
  }

  function Demote(spill: Option<Table>, k: Key, e: Entry, f: Faults): Option<Table> {
    if spill.Some? && k !in f.write then Some(spill.value[k := e]) else spill
  }

  function DropOldest(s: State, m: Item, f: Faults): State
    requires m.key in s.backend
  {
    s.(backend := s.backend - {m.key}, heap := s.heap - multiset{m},
       spill := Demote(s.spill, m.key, s.backend[m.key], f))
  }

  function DropStale(s: State, m: Item): State {
    s.(heap := s.heap - multiset{m}, stale := if s.stale > 0 then s.stale - 1 else 0)
  }

  // The eviction loop, from any heap and any counter.
  ghost function EvictLoop(s: State, rebuilt: bool, f: Faults): (r: State)
    decreases s.backend.Keys, !rebuilt, |s.heap|
  {
    if |s.backend| < s.cap then s
    else if |s.heap| == 0 then
      if rebuilt || |Rebuild(s).heap| == 0 then (if rebuilt then s else Rebuild(s))
      else EvictLoop(Rebuild(s), true, f)
    else
      var m := Pop(s.heap);
      if m.key in s.backend && s.backend[m.key].created == m.created
      then EvictLoop(DropOldest(s, m, f), false, f)
      else EvictLoop(DropStale(s, m), rebuilt, f)
  }

  ghost function Evict(s: State, now: real, f: Faults): State {
    EvictLoop(RebuildIfStale(CleanExpired(s, now)), false, f)
  }

  // ---------- The operations ----------

  // `k` already stands for content other than that of `e`.
  predicate Collides(s: State, k: Key, e: Entry) { k in s.backend && s.backend[k].original != e.original }

  // Binds `k`, or drops the binding when `k` already stands for other content.
  function Bind(s: State, k: Key, e: Entry): State {
    if Collides(s, k, e) then
      s.(backend := s.backend - {k}, stale := s.stale + 1)
    else
      s.(backend := s.backend[k := e], heap := s.heap + multiset{Item(e.created, k)},
         stale := if k in s.backend then s.stale + 1 else s.stale)
  }

  ghost function Store(s: State, k: Key, e: Entry, now: real, f: Faults): State {
    Bind(Evict(s, now, f), k, e)
  }

  // Deletes the row of `k` from the primary tier.
  function Unbind(s: State, k: Key): State {
    if k in s.backend then s.(backend := s.backend - {k}, stale := s.stale + 1) else s
  }

  function Reap(s: State, k: Key, now: real): State {
    if k in s.backend && s.backend[k].Expired(now) then Unbind(s, k) else s
  }

  function Touch(s: State, k: Key, now: real): State {
    if k in s.backend && !s.backend[k].Expired(now)
    then s.(backend := s.backend[k := s.backend[k].(accesses := s.backend[k].accesses + 1)])
    else s
  }

  function Unspill(s: State, k: Key): State {
    if s.spill.Some? then s.(spill := Some(s.spill.value - {k})) else s
  }

  predicate SpillHas(s: State, k: Key) { s.spill.Some? && k in s.spill.value }

  function Retrieve(s: State, k: Key, now: real, f: Faults): (State, Option<Entry>) {
    if k in s.backend then
      if s.backend[k].Expired(now) then (Reap(s, k, now), None)
      else (Touch(s, k, now), Some(Touch(s, k, now).backend[k]))
    else if SpillHas(s, k) && !f.read then
      if s.spill.value[k].Expired(now) then (if f.delete then s else Unspill(s, k), None)
      else (s, Some(s.spill.value[k]))
    else (s, None)
  }

  function Delete(s: State, k: Key, f: Faults): (State, bool) {
    (if f.delete then Unbind(s, k) else Unspill(Unbind(s, k), k), k in s.backend || (!f.delete && SpillHas(s, k)))
  }

  function ClearSpill(spill: Option<Table>, f: Faults): (Option<Table>, nat) {
    if spill.None? then (None, 0)
    else if !f.clear then (Some(map[]), 0)
    else
      var left := map k | k in spill.value && k in f.kept :: spill.value[k];
      (Some(left), if f.count then 1 else |left|)
  }

  function Clear(s: State, f: Faults): (State, nat) {
    var (spill, residual) := ClearSpill(s.spill, f);
    (Empty(s.cap, spill), residual)
  }

  function ExistsAnyTier(s: State, k: Key, now: real, f: Faults): bool {
    || (k in s.backend && !s.backend[k].Expired(now))
    || (s.spill.Some? && (f.read || (k in s.spill.value && !s.spill.value[k].Expired(now))))
  }

  // ---------- Runs ----------

  // One call, with the clock reading it acts on. `SpillLoss` is the spill tier dropping rows of its own accord.
  datatype Op =
    | StoreOp(key: Key, entry: Entry, now: real, faults: Faults)
    | RetrieveOp(key: Key, now: real, faults: Faults)
    | DeleteOp(key: Key, now: real, faults: Faults)
    | ClearOp(now: real, faults: Faults)
    | ReapOp(key: Key, now: real)
    | TouchOp(key: Key, now: real)
    | CleanOp(now: real)
    | SpillLoss(rows: set<Key>, now: real)

  ghost function Step(s: State, op: Op): State {
    match op
    case StoreOp(k, e, now, f) => Store(s, k, e, now, f)
    case RetrieveOp(k, now, f) => Retrieve(s, k, now, f).0
    case DeleteOp(k, _, f) => Delete(s, k, f).0
    case ClearOp(_, f) => Clear(s, f).0
    case ReapOp(k, now) => Reap(s, k, now)
    case TouchOp(k, now) => Touch(s, k, now)
    case CleanOp(now) => CleanExpired(s, now)
    case SpillLoss(rows, _) => if s.spill.Some? then s.(spill := Some(s.spill.value - rows)) else s
  }

  ghost function Run(s: State, ops: seq<Op>): State
    decreases ops
  {
    if ops == [] then s else Run(Step(s, ops[0]), ops[1..])
  }

  predicate ClockFrom(start: real, ops: seq<Op>)
    decreases ops
  {
    ops == [] || (start <= ops[0].now && ClockFrom(ops[0].now, ops[1..]))
  }
}
