/** The store itself: the fields of `CompressionStore` and the methods that update them.

    `scan` stands for `hashes_in_text` behind its cheap pre-check, and `digest` for the truncated SHA-256 of an
    original; both belong to other components. Each method reads its clock through its arguments. */
module CompressionStore {
  import opened Order
  import R = Retention
  import opened Sequences
  import opened StoreSpec
  import opened Eviction
  import opened Wrappers
  import C = Cascade

  datatype StoreError =
    | NonPositiveTtl | NotHex | HashTooShort
    | CollisionVeto(key: Key) | NotDurable(key: Key)
    | NegativeRetries | NegativeBackoff

  const MIN_EXPLICIT_HASH_LEN := 6

  predicate IsHex(c: char) { '0' <= c <= '9' || 'a' <= c <= 'f' || 'A' <= c <= 'F' }

  function LowerHex(c: char): char { if 'A' <= c <= 'F' then c - 'A' + 'a' else c }

  function Lower(s: string): string { seq(|s|, i requires 0 <= i < |s| => LowerHex(s[i])) }

  // The key a store call files its entry under, or why it refuses. Of an explicit hash that is its digits, each in
  // lower case.
  function Admit(ttl: Option<real>, explicitHash: Option<string>, digest: Key): (r: Result<Key, StoreError>)
    ensures r.Success? <==>
            && (ttl.Some? ==> ttl.value > 0.0)
            && (explicitHash.Some? ==> |explicitHash.value| >= 6 &&
                                       forall c | c in explicitHash.value :: c in "0123456789abcdefABCDEF")
    ensures r.Success? && explicitHash.None? ==> r.value == digest
    ensures r.Success? && explicitHash.Some? ==> LowerCaseOf(r.value, explicitHash.value)
    ensures r.Success? && explicitHash.Some? && (forall c | c in "ABCDEF" :: c !in explicitHash.value) ==>
              r.value == explicitHash.value
  {
    HexSpelled();
    if ttl.Some? && ttl.value <= 0.0 then Failure(NonPositiveTtl)
    else if explicitHash.None? then Success(digest)
    else if explicitHash.value == [] || exists c | c in explicitHash.value :: !IsHex(c) then Failure(NotHex)
    else if |explicitHash.value| < MIN_EXPLICIT_HASH_LEN then Failure(HashTooShort)
    else
      LowerSpelled(explicitHash.value);
      Success(Lower(explicitHash.value))
  }

  // `key` is `h` digit by digit, with each upper-case one in lower case.
  ghost predicate LowerCaseOf(key: string, h: string) {
    && |key| == |h|
    && forall i | 0 <= i < |h| :: key[i] == if h[i] in "ABCDEF" then h[i] - 'A' + 'a' else h[i]
  }

  lemma HexSpelled()
    ensures forall c :: IsHex(c) <==> c in "0123456789abcdefABCDEF"
  {
  }

  lemma LowerSpelled(h: string)
    ensures LowerCaseOf(Lower(h), h)
    ensures (forall c | c in "ABCDEF" :: c !in h) ==> Lower(h) == h
  {
    assert forall c :: c in "ABCDEF" <==> 'A' <= c <= 'F';
    assert forall i | 0 <= i < |h| :: h[i] in h;
  }

  function Markers(scan: string -> seq<Key>, e: Entry): seq<Key> {
    Distinct(scan(e.compressed) + scan(e.original))
  }

  function GraphOf(scan: string -> seq<Key>, b: Table): C.Graph {
    map k | k in b :: Markers(scan, b[k])
  }

  // The keys whose spill row a delete removes: the deletes of those in `stuck` raise.
  function Held(spill: Option<Table>, stuck: set<Key>): set<Key> {
    if spill.Some? then spill.value.Keys - stuck else {}
  }

  // What a cascade sees of both tiers: it does not read spill rows, so they mention nothing.
  function BothTiers(scan: string -> seq<Key>, s: State, stuck: set<Key>): C.Graph {
    Unread(Held(s.spill, stuck)) + GraphOf(scan, s.backend)
  }

  function Unread(ks: set<Key>): C.Graph { map k | k in ks :: [] }

  ghost predicate SubTable(small: Table, large: Table) {
    small.Keys <= large.Keys && forall k | k in small :: small[k] == large[k]
  }

  function SpillWithout(spill: Option<Table>, gone: set<Key>): Option<Table> {
    if spill.Some? then Some(spill.value - gone) else None
  }

  // What went beside `k`, and which of the survivors a deleted entry mentions.
  ghost predicate ExactReport(scan: string -> seq<Key>, s: State, stuck: set<Key>, k: Key, outcome: C.Outcome) {
    var g := BothTiers(scan, s, stuck);
    var gone := C.Least(g, k);
    && outcome.topDeleted && NoRepeats(outcome.nestedDeleted)
    && (set h | h in outcome.nestedDeleted) == gone - {k}
    && forall h | h in g :: h in outcome.sharedSkipped <==>
         h !in gone && exists d | d in s.backend :: d in gone && h in Markers(scan, s.backend[d])
  }

  /** Exactly the least owned set is gone from both tiers, but for the spill rows whose delete raised, and
      `outcome` reports it. */
  ghost predicate ExactCascade(scan: string -> seq<Key>, s: State, s': State, stuck: set<Key>, k: Key,
                               outcome: C.Outcome) {
    var gone := C.Least(BothTiers(scan, s, stuck), k);
    && s'.backend == s.backend - gone && s'.spill == SpillWithout(s.spill, gone - stuck)
    && ExactReport(scan, s, stuck, k, outcome)
  }

  lemma CascadeIsExact(scan: string -> seq<Key>, s: State, s': State, stuck: set<Key>, k: Key, visited: set<Key>,
                       outcome: C.Outcome)
    requires k in BothTiers(scan, s, stuck) && Shrunk(s, s', stuck)
    requires C.Purge(BothTiers(scan, s, stuck), k, {}) == C.Sweep(BothTiers(scan, s', stuck), visited, outcome)
    ensures ExactCascade(scan, s, s', stuck, k, outcome)
  {
    C.PurgeRemovesLeast(BothTiers(scan, s, stuck), k);
    SurvivorsOfGraph(scan, s, s', stuck, C.Least(BothTiers(scan, s, stuck), k));
    ReportInTable(scan, s, stuck, k, outcome);
  }

  // `left` is the graph without the entries `gone`.
  ghost predicate Left(g: C.Graph, left: C.Graph, gone: set<Key>) { forall k :: k in left <==> k in g && k !in gone }

  lemma PrimarySurvivor(scan: string -> seq<Key>, s: State, s': State, stuck: set<Key>, gone: set<Key>, k: Key)
    requires Shrunk(s, s', stuck) && Left(BothTiers(scan, s, stuck), BothTiers(scan, s', stuck), gone)
    ensures k in s'.backend <==> k in s.backend && k !in gone
  {
    assert k in BothTiers(scan, s', stuck) <==> k in BothTiers(scan, s, stuck) && k !in gone;
  }

  lemma SpillSurvivor(scan: string -> seq<Key>, s: State, s': State, stuck: set<Key>, gone: set<Key>, k: Key)
    requires Shrunk(s, s', stuck) && Left(BothTiers(scan, s, stuck), BothTiers(scan, s', stuck), gone)
    requires s.spill.Some?
    ensures k in s'.spill.value <==> k in s.spill.value && k !in gone - stuck
  {
    assert k in BothTiers(scan, s', stuck) <==> k in BothTiers(scan, s, stuck) && k !in gone;
  }

  lemma SurvivorsOfGraph(scan: string -> seq<Key>, s: State, s': State, stuck: set<Key>, gone: set<Key>)
    requires Shrunk(s, s', stuck) && BothTiers(scan, s', stuck) == BothTiers(scan, s, stuck) - gone
    ensures s'.backend == s.backend - gone && s'.spill == SpillWithout(s.spill, gone - stuck)
  {
    forall k { PrimarySurvivor(scan, s, s', stuck, gone, k); }
    TablesAgree(s'.backend, s.backend, gone);
    if s.spill.Some? {
      forall k { SpillSurvivor(scan, s, s', stuck, gone, k); }
      TablesAgree(s'.spill.value, s.spill.value, gone - stuck);
    }
  }

  lemma TablesAgree(small: Table, large: Table, gone: set<Key>)
    requires SubTable(small, large) && forall k :: k in small <==> k in large && k !in gone
    ensures small == large - gone
  {
  }

  lemma AbsentChangesNothing(scan: string -> seq<Key>, s: State, s': State, stuck: set<Key>)
    requires Shrunk(s, s', stuck) && BothTiers(scan, s', stuck) == BothTiers(scan, s, stuck)
    ensures s' == s
  {
    forall k { PrimarySurvivor(scan, s, s', stuck, {}, k); }
    TablesEqual(s'.backend, s.backend);
    if s.spill.Some? {
      forall k { SpillSurvivor(scan, s, s', stuck, {}, k); }
      TablesEqual(s'.spill.value, s.spill.value);
    }
  }

  lemma TablesEqual(a: Table, b: Table)
    requires SubTable(a, b) && forall k :: k in a <==> k in b
    ensures a == b
  {
  }

  lemma ReportInTable(scan: string -> seq<Key>, s: State, stuck: set<Key>, k: Key, outcome: C.Outcome)
    requires k in BothTiers(scan, s, stuck) && C.Purge(BothTiers(scan, s, stuck), k, {}).outcome == outcome
    ensures ExactReport(scan, s, stuck, k, outcome)
  {
    var g := BothTiers(scan, s, stuck);
    C.PurgeRemovesLeast(g, k);
    C.ReportIsExact(g, k);
    forall h { MentionInTable(scan, s, stuck, g - C.Least(g, k), h); }
  }

  lemma MentionInTable(scan: string -> seq<Key>, s: State, stuck: set<Key>, left: C.Graph, h: Key)
    ensures C.MentionedByRemoved(BothTiers(scan, s, stuck), left, h) <==>
            exists d | d in s.backend :: d !in left && h in Markers(scan, s.backend[d])
  {
    var g := BothTiers(scan, s, stuck);
    if d :| d in g && d !in left && h in g[d] {
      assert d in s.backend && d !in left && h in Markers(scan, s.backend[d]);
    }
    if d :| d in s.backend && d !in left && h in Markers(scan, s.backend[d]) {
      assert d in g && d !in left && h in g[d];
    }
  }

  // Only primary rows mention anything.
  lemma SpillMentionsNothing(scan: string -> seq<Key>, s: State, stuck: set<Key>, h: Key, ignoring: set<Key>)
    ensures C.CoReferenced(GraphOf(scan, s.backend), h, ignoring) <==>
            C.CoReferenced(BothTiers(scan, s, stuck), h, ignoring)
  {
    var g, both := GraphOf(scan, s.backend), BothTiers(scan, s, stuck);
    if k :| k in g && k != h && k !in ignoring && h in g[k] { assert k in both && h in both[k]; }
    if k :| k in both && k != h && k !in ignoring && h in both[k] { assert k in g && h in g[k]; }
  }

  // ---------- The cascade, row by row ----------

  // `h` has a row that a delete removes.
  predicate Stored(s: State, h: Key, stuck: set<Key>) {
    h in s.backend || (s.spill.Some? && h in s.spill.value && h !in stuck)
  }

  // A row that stays is as it was, and one that goes leaves both tiers, unless its spill row is stuck.
  ghost predicate OnlyDeletes(s: State, s': State, stuck: set<Key>) {
    && (forall h | h in s'.backend :: h in s.backend && s'.backend[h] == s.backend[h])
    && s'.spill.Some? == s.spill.Some?
    && (s.spill.Some? ==>
          && (forall h | h in s'.spill.value :: h in s.spill.value && s'.spill.value[h] == s.spill.value[h])
          && (forall h | h in s.spill.value :: h in s'.spill.value <==> h in stuck || Stored(s', h, stuck)))
  }

  // What either text of a deleted row mentions is gone, or either text of another row that stays mentions it.
  ghost predicate NothingDangles(scan: string -> seq<Key>, s: State, s': State, stuck: set<Key>) {
    forall d, h | d in s.backend && d !in s'.backend && h != d && Stored(s, h, stuck) &&
                  (h in scan(s.backend[d].compressed) || h in scan(s.backend[d].original)) ::
      || !Stored(s', h, stuck)
      || exists q | q in s'.backend ::
           q != h && (h in scan(s'.backend[q].compressed) || h in scan(s'.backend[q].original))
  }

  // What is deleted beside `k`, another deleted row mentions, and no row that stays.
  ghost predicate NothingSharedGoes(scan: string -> seq<Key>, s: State, s': State, stuck: set<Key>, k: Key) {
    forall h | Stored(s, h, stuck) && !Stored(s', h, stuck) && h != k ::
      && (exists d | d in s.backend && d !in s'.backend ::
            d != h && (h in scan(s.backend[d].compressed) || h in scan(s.backend[d].original)))
      && (forall q | q in s'.backend ::
            h !in scan(s'.backend[q].compressed) && h !in scan(s'.backend[q].original))
  }

  // Nothing goes that could be left out: whatever holds `k` and, with a row, all that it alone mentions, holds
  // everything that is deleted.
  ghost predicate NoMoreGoes(scan: string -> seq<Key>, s: State, s': State, stuck: set<Key>, k: Key) {
    forall c: set<Key> {:trigger OwnsAll(scan, s, stuck, c)} | k in c && OwnsAll(scan, s, stuck, c) ::
      forall h | Stored(s, h, stuck) && !Stored(s', h, stuck) :: h in c
  }

  ghost predicate OwnsAll(scan: string -> seq<Key>, s: State, stuck: set<Key>, c: set<Key>) {
    forall h | Stored(s, h, stuck) &&
               (exists d | d in c && d in s.backend ::
                  h in scan(s.backend[d].compressed) || h in scan(s.backend[d].original)) &&
               (forall q | q in s.backend && q !in c && q != h ::
                  h !in scan(s.backend[q].compressed) && h !in scan(s.backend[q].original)) ::
      h in c
  }

  // The report: what went beside `k`, each once, and what stays though a deleted row mentions it.
  ghost predicate Reported(scan: string -> seq<Key>, s: State, s': State, stuck: set<Key>, k: Key,
                           outcome: C.Outcome) {
    && outcome.topDeleted && NoRepeats(outcome.nestedDeleted)
    && (forall h :: h in outcome.nestedDeleted <==> h != k && Stored(s, h, stuck) && !Stored(s', h, stuck))
    && (forall h | Stored(s, h, stuck) :: h in outcome.sharedSkipped <==>
          && Stored(s', h, stuck)
          && exists d | d in s.backend && d !in s'.backend ::
               h in scan(s.backend[d].compressed) || h in scan(s.backend[d].original))
  }

  ghost predicate RowCascade(scan: string -> seq<Key>, s: State, s': State, stuck: set<Key>, k: Key,
                             outcome: C.Outcome) {
    && !Stored(s', k, stuck) && OnlyDeletes(s, s', stuck)
    && NothingDangles(scan, s, s', stuck) && NothingSharedGoes(scan, s, s', stuck, k)
    && NoMoreGoes(scan, s, s', stuck, k) && Reported(scan, s, s', stuck, k, outcome)
  }

  lemma MentionsSpelled(scan: string -> seq<Key>, s: State, stuck: set<Key>, d: Key, h: Key)
    ensures d in s.backend ==>
              (h in BothTiers(scan, s, stuck)[d] <==>
                 h in scan(s.backend[d].compressed) || h in scan(s.backend[d].original))
    ensures d !in s.backend && d in BothTiers(scan, s, stuck) ==> BothTiers(scan, s, stuck)[d] == []
    ensures d in BothTiers(scan, s, stuck) <==> Stored(s, d, stuck)
  {
  }

  lemma StoredAfter(scan: string -> seq<Key>, s: State, s': State, stuck: set<Key>, k: Key, outcome: C.Outcome, h: Key)
    requires ExactCascade(scan, s, s', stuck, k, outcome)
    ensures Stored(s', h, stuck) <==> Stored(s, h, stuck) && h !in C.Least(BothTiers(scan, s, stuck), k)
  {
    MentionsSpelled(scan, s, stuck, h, h);
  }

  lemma CascadeOnlyDeletes(scan: string -> seq<Key>, s: State, s': State, stuck: set<Key>, k: Key, outcome: C.Outcome)
    requires ExactCascade(scan, s, s', stuck, k, outcome)
    ensures OnlyDeletes(s, s', stuck)
  {
    forall h { StoredAfter(scan, s, s', stuck, k, outcome, h); }
  }

  lemma CascadeDanglesNothing(scan: string -> seq<Key>, s: State, s': State, stuck: set<Key>, k: Key,
                              outcome: C.Outcome, d: Key, h: Key)
    requires k in BothTiers(scan, s, stuck) && ExactCascade(scan, s, s', stuck, k, outcome)
    requires d in s.backend && d !in s'.backend && h != d && Stored(s', h, stuck) && Stored(s, h, stuck)
    requires h in scan(s.backend[d].compressed) || h in scan(s.backend[d].original)
    ensures exists q | q in s'.backend ::
              q != h && (h in scan(s'.backend[q].compressed) || h in scan(s'.backend[q].original))
  {
    var g := BothTiers(scan, s, stuck);
    C.PurgeRemovesLeast(g, k);
    MentionsSpelled(scan, s, stuck, d, h);
    MentionsSpelled(scan, s, stuck, h, h);
    StoredAfter(scan, s, s', stuck, k, outcome, h);
    C.SurvivorsStayResolvable(g, k, d, h);
    var q :| q in g && q !in C.Least(g, k) && q != h && h in g[q];
    MentionsSpelled(scan, s, stuck, q, h);
    assert q in s'.backend;
  }

  lemma CascadeSparesShared(scan: string -> seq<Key>, s: State, s': State, stuck: set<Key>, k: Key,
                            outcome: C.Outcome, h: Key)
    requires k in BothTiers(scan, s, stuck) && ExactCascade(scan, s, s', stuck, k, outcome)
    requires Stored(s, h, stuck) && !Stored(s', h, stuck) && h != k
    ensures exists d | d in s.backend && d !in s'.backend ::
              d != h && (h in scan(s.backend[d].compressed) || h in scan(s.backend[d].original))
    ensures forall q | q in s'.backend :: h !in scan(s'.backend[q].compressed) && h !in scan(s'.backend[q].original)
  {
    var g := BothTiers(scan, s, stuck);
    StoredAfter(scan, s, s', stuck, k, outcome, h);
    C.LeastHasReferent(g, k, h);
    var d :| d in C.Least(g, k) && d in g && d != h && h in g[d];
    MentionsSpelled(scan, s, stuck, d, h);
    C.LeastIsOwned(g, k, h);
    forall q | q in s'.backend ensures h !in scan(s'.backend[q].compressed) && h !in scan(s'.backend[q].original) {
      MentionsSpelled(scan, s, stuck, q, h);
      assert q in g && q !in C.Least(g, k);
    }
  }

  lemma CascadeTakesNoMore(scan: string -> seq<Key>, s: State, s': State, stuck: set<Key>, k: Key,
                           outcome: C.Outcome, c: set<Key>)
    requires ExactCascade(scan, s, s', stuck, k, outcome) && k in c && OwnsAll(scan, s, stuck, c)
    ensures forall h | Stored(s, h, stuck) && !Stored(s', h, stuck) :: h in c
  {
    var g := BothTiers(scan, s, stuck);
    forall h | C.Owned(g, c, h) ensures h in c {
      var d :| d in c && d in g && h in g[d];
      MentionsSpelled(scan, s, stuck, d, h);
      MentionsSpelled(scan, s, stuck, h, h);
      forall q | q in s.backend && q !in c && q != h
        ensures h !in scan(s.backend[q].compressed) && h !in scan(s.backend[q].original)
      {
        MentionsSpelled(scan, s, stuck, q, h);
      }
    }
    assert C.Closed(g, k, c);
    forall h | Stored(s, h, stuck) && !Stored(s', h, stuck) ensures h in c {
      StoredAfter(scan, s, s', stuck, k, outcome, h);
    }
  }

  lemma CascadeReports(scan: string -> seq<Key>, s: State, s': State, stuck: set<Key>, k: Key, outcome: C.Outcome)
    requires k in BothTiers(scan, s, stuck) && ExactCascade(scan, s, s', stuck, k, outcome)
    ensures Reported(scan, s, s', stuck, k, outcome)
  {
    var g := BothTiers(scan, s, stuck);
    var gone, nested := C.Least(g, k), set h | h in outcome.nestedDeleted;
    forall h ensures h in outcome.nestedDeleted <==> h != k && Stored(s, h, stuck) && !Stored(s', h, stuck) {
      assert h in outcome.nestedDeleted <==> h in nested;
      MentionsSpelled(scan, s, stuck, h, h);
      StoredAfter(scan, s, s', stuck, k, outcome, h);
    }
    forall h | Stored(s, h, stuck)
      ensures h in outcome.sharedSkipped <==>
                && Stored(s', h, stuck)
                && exists d | d in s.backend && d !in s'.backend ::
                     h in scan(s.backend[d].compressed) || h in scan(s.backend[d].original)
    {
      MentionsSpelled(scan, s, stuck, h, h);
      StoredAfter(scan, s, s', stuck, k, outcome, h);
      MentionedSpelled(scan, s, s', stuck, k, outcome, h);
    }
  }

  lemma MentionedSpelled(scan: string -> seq<Key>, s: State, s': State, stuck: set<Key>, k: Key, outcome: C.Outcome,
                         h: Key)
    requires ExactCascade(scan, s, s', stuck, k, outcome)
    ensures (exists d | d in s.backend ::
               d in C.Least(BothTiers(scan, s, stuck), k) && h in Markers(scan, s.backend[d]))
       <==> exists d | d in s.backend && d !in s'.backend ::
              h in scan(s.backend[d].compressed) || h in scan(s.backend[d].original)
  {
    var gone := C.Least(BothTiers(scan, s, stuck), k);
    if d :| d in s.backend && d in gone && h in Markers(scan, s.backend[d]) {
      assert d in s.backend && d !in s'.backend;
    }
    if d :| d in s.backend && d !in s'.backend &&
            (h in scan(s.backend[d].compressed) || h in scan(s.backend[d].original)) {
      assert d in gone && h in Markers(scan, s.backend[d]);
    }
  }

  /** What the cascade means for the rows of both tiers, and for what their two texts mention. */
  lemma CascadeOnRows(scan: string -> seq<Key>, s: State, s': State, stuck: set<Key>, k: Key, outcome: C.Outcome)
    requires k in BothTiers(scan, s, stuck) && ExactCascade(scan, s, s', stuck, k, outcome)
    ensures RowCascade(scan, s, s', stuck, k, outcome)
  {
    C.PurgeRemovesLeast(BothTiers(scan, s, stuck), k);
    StoredAfter(scan, s, s', stuck, k, outcome, k);
    CascadeOnlyDeletes(scan, s, s', stuck, k, outcome);
    forall d, h | d in s.backend && d !in s'.backend && h != d && Stored(s, h, stuck) && Stored(s', h, stuck) &&
                  (h in scan(s.backend[d].compressed) || h in scan(s.backend[d].original)) {
      CascadeDanglesNothing(scan, s, s', stuck, k, outcome, d, h);
    }
    forall h | Stored(s, h, stuck) && !Stored(s', h, stuck) && h != k {
      CascadeSparesShared(scan, s, s', stuck, k, outcome, h);
    }
    forall c: set<Key> | k in c && OwnsAll(scan, s, stuck, c) { CascadeTakesNoMore(scan, s, s', stuck, k, outcome, c); }
    CascadeReports(scan, s, s', stuck, k, outcome);
  }

  // Whatever the report calls deleted is in neither tier, unless its spill row is stuck.
  lemma ReportedIsGone(scan: string -> seq<Key>, s: State, s': State, stuck: set<Key>, k: Key, outcome: C.Outcome,
                       h: Key)
    requires ExactCascade(scan, s, s', stuck, k, outcome) && k in BothTiers(scan, s, stuck)
    requires (h == k || h in outcome.nestedDeleted) && h !in stuck
    ensures h !in s'.backend && !SpillHas(s', h)
  {
    var g := BothTiers(scan, s, stuck);
    var gone, nested := C.Least(g, k), set x | x in outcome.nestedDeleted;
    C.PurgeRemovesLeast(g, k);
    assert k in gone && nested == gone - {k};
    if h != k { assert h in nested; }
    assert h in gone;
  }

  /** What the purge promises: whatever the report calls deleted, and whose spill row did not refuse, misses from
      then on, whatever is called in between, until it is stored again. */
  lemma PurgedTreeMisses(scan: string -> seq<Key>, s: State, s': State, stuck: set<Key>, k: Key, outcome: C.Outcome,
                         h: Key, now: real, ops: seq<Op>, later: real, f: Faults)
    requires ExactCascade(scan, s, s', stuck, k, outcome) && k in BothTiers(scan, s, stuck)
    requires (h == k || h in outcome.nestedDeleted) && h !in stuck
    requires ClockFrom(now, ops) && !R.Stores(h, ops) && R.EndOf(now, ops) <= later
    ensures !StoreSpec.ExistsAnyTier(s', h, now, NO_FAULTS)
    ensures StoreSpec.Retrieve(Run(s', ops), h, later, f).1 == None
  {
    ReportedIsGone(scan, s, s', stuck, k, outcome, h);
    R.ReadBackIsSound(s', h, now, NO_FAULTS, ops, later, f);
  }

  // Rows have gone, each key from both tiers unless its spill row is stuck, and each primary row leaving its
  // tuple stale; nothing else has changed.
  ghost predicate Shrunk(s: State, s': State, stuck: set<Key>) {
    && SubTable(s'.backend, s.backend)
    && s' == State(s.cap, s'.backend, s.heap, s'.stale, s'.spill)
    && s'.stale + |s'.backend| == s.stale + |s.backend|
    && s'.spill.Some? == s.spill.Some? && (s.spill.Some? ==> SubTable(s'.spill.value, s.spill.value))
    && (forall k | k in s.backend && k !in s'.backend :: SpillHas(s', k) ==> k in stuck)
    && (forall k | SpillHas(s, k) && !SpillHas(s', k) :: k !in stuck && k !in s'.backend)
  }

  lemma ShrunkIsReflexive(s: State, stuck: set<Key>)
    ensures Shrunk(s, s, stuck)
  {
  }

  lemma ShrunkIsTransitive(s: State, s': State, s'': State, stuck: set<Key>)
    requires Shrunk(s, s', stuck) && Shrunk(s', s'', stuck)
    ensures Shrunk(s, s'', stuck)
  {
  }

  // The faults of a delete of `k` by a cascade.
  function DeleteFaults(k: Key, stuck: set<Key>): Faults { NO_FAULTS.(delete := k in stuck) }

  lemma DeleteShrinks(s: State, k: Key, stuck: set<Key>)
    ensures Shrunk(s, StoreSpec.Delete(s, k, DeleteFaults(k, stuck)).0, stuck)
  {
    if k in s.backend { assert |s.backend - {k}| == |s.backend| - 1; }
  }

  lemma DeleteInGraph(scan: string -> seq<Key>, s: State, k: Key, stuck: set<Key>)
    ensures var (s', deleted) := StoreSpec.Delete(s, k, DeleteFaults(k, stuck));
            && BothTiers(scan, s', stuck) == BothTiers(scan, s, stuck) - {k}
            && (deleted <==> k in BothTiers(scan, s, stuck))
  {
    var s' := StoreSpec.Delete(s, k, DeleteFaults(k, stuck)).0;
    assert s'.backend == s.backend - {k};
    assert Held(s'.spill, stuck) == Held(s.spill, stuck) - {k};
    BothTiersWithout(scan, s.backend, Held(s.spill, stuck), k);
  }

  lemma BothTiersWithout(scan: string -> seq<Key>, b: Table, held: set<Key>, k: Key)
    ensures Unread(held - {k}) + GraphOf(scan, b - {k}) == Unread(held) + GraphOf(scan, b) - {k}
  {
  }

  lemma ShrunkIsSound(s: State, s': State, stuck: set<Key>)
    requires Sound(s) && Shrunk(s, s', stuck)
    ensures Sound(s')
  {
    SubTableIsSmaller(s'.backend, s.backend);
  }

  class CompressionStore {
    const maxEntries: int
    const defaultTtl: real
    const scan: string -> seq<Key>
    const retryAttempts: nat
    var backend: Table
    var heap: multiset<Item>
    var stale: nat
    var spill: Option<Table>

    ghost function View(): State
      reads this
    {
      State(maxEntries, backend, heap, stale, spill)
    }

    ghost predicate Valid()
      reads this
    {
      Sound(View())
    }

    // The backend may come with rows, as a durable one does that is opened again; the heap starts without them.
    constructor (maxEntries: int, defaultTtl: real, scan: string -> seq<Key>, backend: Table, spill: Option<Table>,
                 retryAttempts: nat)
      ensures View() == State(maxEntries, backend, multiset{}, 0, spill)
      ensures this.defaultTtl == defaultTtl && this.scan == scan && this.retryAttempts == retryAttempts
      ensures backend == map[] ==> Valid()
    {
      this.maxEntries, this.defaultTtl, this.scan, this.retryAttempts := maxEntries, defaultTtl, scan, retryAttempts;
      this.backend, this.heap, this.stale, this.spill := backend, multiset{}, 0, spill;
    }

    // `__init__`, whose checks raise.
    static method Create(maxEntries: int, defaultTtl: real, scan: string -> seq<Key>, backend: Table,
                         spill: Option<Table>, retryAttempts: int, baseBackoff: real, maxBackoff: real)
      returns (r: Result<CompressionStore, StoreError>)
      ensures r.Success? <==> retryAttempts >= 0 && baseBackoff >= 0.0 && maxBackoff >= 0.0
      ensures r.Failure? ==> r.error == if retryAttempts < 0 then NegativeRetries else NegativeBackoff
      ensures r.Success? ==> fresh(r.value) && r.value.View() == State(maxEntries, backend, multiset{}, 0, spill)
    {
      if retryAttempts < 0 {
        return Failure(NegativeRetries);
      }
      if baseBackoff < 0.0 || maxBackoff < 0.0 {
        return Failure(NegativeBackoff);
      }
      var store := new CompressionStore(maxEntries, defaultTtl, scan, backend, spill, retryAttempts);
      return Success(store);
    }

    // ---------- Capacity ----------

    // `heappop`.
    method PopLeast() returns (m: Item)
      requires |heap| > 0
      modifies this`heap
      ensures m == Pop(old(heap)) && heap == old(heap) - multiset{m}
    {
      LeastExists(heap);
      m :| IsLeast(m, heap);
      LeastIsUnique(m, Pop(heap), heap);
      heap := heap - multiset{m};
    }

    method CleanExpired(now: real)
      modifies this`backend, this`stale
      ensures View() == StoreSpec.CleanExpired(old(View()), now)
    {
      var purged := set k | k in backend && backend[k].Expired(now);
      assert backend.Keys == Unexpired(backend, now).Keys + purged;
      assert |Unexpired(backend, now)| == |Unexpired(backend, now).Keys|;
      backend := backend - purged;
      assert backend == Unexpired(old(backend), now);
      stale := stale + |purged|;
    }

    method RebuildHeap()
      modifies this`heap, this`stale
      ensures View() == Rebuild(old(View()))
    {
      heap := LiveItems(backend);
      stale := 0;
    }

    method SpillEvicted(k: Key, e: Entry, f: Faults)
      modifies this`spill
      ensures spill == Demote(old(spill), k, e, f)
    {
      if spill.Some? {
        if k !in f.write {
          spill := Some(spill.value[k := e]);
        }
      }
    }

    // One turn of the eviction loop: evicts the entry of the least tuple, or finds the tuple stale.
    method PopOnce(f: Faults) returns (evicted: bool)
      requires |heap| > 0
      modifies this
      ensures var m := Pop(old(heap));
              evicted == (m.key in old(backend) && old(backend)[m.key].created == m.created) &&
              View() == if evicted then DropOldest(old(View()), m, f) else DropStale(old(View()), m)
    {
      var m := PopLeast();
      if m.key in backend && backend[m.key].created == m.created {
        SpillEvicted(m.key, backend[m.key], f);
        backend := backend - {m.key};
        return true;
      }
      if stale > 0 {
        stale := stale - 1;
      }
      return false;
    }

    /** Makes room for one more entry, from any heap and any counter. */
    method EvictIfNeeded(now: real, f: Faults)
      modifies this
      ensures View() == Evict(old(View()), now, f)
      ensures |backend| < maxEntries || backend == map[]
    {
      CleanExpired(now);
      if |heap| > 0 {
        if 2 * stale >= |heap| {
          RebuildHeap();
        }
      }
      ghost var start := View();
      var rebuilt := false;
      while |backend| >= maxEntries
        invariant EvictLoop(View(), rebuilt, f) == EvictLoop(start, false, f)
        decreases backend.Keys, !rebuilt, |heap|
      {
        if |heap| == 0 {
          if rebuilt {
            break;
          }
          RebuildHeap();
          if |heap| == 0 {
            break;
          }
          rebuilt := true;
          continue;
        }
        EvictLoopUnfolds(View(), rebuilt, f);
        var evicted := PopOnce(f);
        if evicted {
          rebuilt := false;
        }
      }
      EvictLoopFreesCapacity(start, false, f);
    }

    // ---------- Store, retrieve, delete, clear ----------

    // Some write attempt, the first or one of the retries, reaches durable storage.
    ghost predicate Lands(reaches: nat -> bool) { exists i | 0 <= i <= retryAttempts :: reaches(i) }

    /** `reaches` says of each write attempt whether it reaches durable storage. A caller that requires this is
        refused when none does, or when a collision has dropped the binding; the state is the same. */
    method Store(original: string, compressed: string, ttl: Option<real>, explicitHash: Option<string>, digest: Key,
                 requireDurable: bool, reaches: nat -> bool, created: real, now: real, f: Faults)
      returns (r: Result<Key, StoreError>)
      modifies this
      ensures Admit(ttl, explicitHash, digest).Failure? ==>
                r == Admit(ttl, explicitHash, digest) && View() == old(View())
      ensures Admit(ttl, explicitHash, digest).Success? ==>
                var key := Admit(ttl, explicitHash, digest).value;
                var e := Entry(original, compressed, created, if ttl.Some? then ttl.value else defaultTtl, 0);
                && View() == StoreSpec.Store(old(View()), key, e, now, f)
                && r == if !requireDurable then Success(key)
                        else if Collides(Evict(old(View()), now, f), key, e) then Failure(CollisionVeto(key))
                        else if Lands(reaches) then Success(key)
                        else Failure(NotDurable(key))
      ensures r.Success? && explicitHash.Some? ==> LowerCaseOf(r.value, explicitHash.value)
      ensures r.Success? && requireDurable ==>
                && r.value in backend && backend[r.value].original == original
                && backend[r.value].compressed == compressed && backend[r.value].created == created
                && backend[r.value].ttl == (if ttl.Some? then ttl.value else defaultTtl)
      ensures Admit(ttl, explicitHash, digest).Success? ==> |backend| <= Max(1, maxEntries)
      ensures old(Valid()) ==> Valid()
    {
      var admitted := AdmitCall(ttl, explicitHash, digest);
      if admitted.Failure? {
        return admitted;
      }
      var key := admitted.value;
      var entry := Entry(original, compressed, created, if ttl.Some? then ttl.value else defaultTtl, 0);
      r := StoreEntry(key, entry, requireDurable, reaches, now, f);
    }

    // What `store` does with an admitted key.
    method StoreEntry(key: Key, entry: Entry, requireDurable: bool, reaches: nat -> bool, now: real, f: Faults)
      returns (r: Result<Key, StoreError>)
      modifies this
      ensures View() == StoreSpec.Store(old(View()), key, entry, now, f)
      ensures r == if !requireDurable then Success(key)
                   else if Collides(Evict(old(View()), now, f), key, entry) then Failure(CollisionVeto(key))
                   else if Lands(reaches) then Success(key)
                   else Failure(NotDurable(key))
      ensures r.Success? ==> r.value == key && (requireDurable ==> key in backend && backend[key] == entry)
      ensures |backend| <= Max(1, maxEntries)
      ensures old(Valid()) ==> Valid()
    {
      var dropped, durable := StoreAdmitted(key, entry, reaches(0), now, f);
      if !requireDurable {
        return Success(key);
      }
      if dropped {
        return Failure(CollisionVeto(key));
      }
      if !durable {
        durable := RetryDurablePersist(key, entry, reaches);
      }
      return if durable then Success(key) else Failure(NotDurable(key));
    }

    // The checks of `store`, and its key.
    method AdmitCall(ttl: Option<real>, explicitHash: Option<string>, digest: Key)
      returns (r: Result<Key, StoreError>)
      ensures r == Admit(ttl, explicitHash, digest)
      ensures r.Success? && explicitHash.Some? ==> LowerCaseOf(r.value, explicitHash.value)
    {
      if ttl.Some? && ttl.value <= 0.0 {
        return Failure(NonPositiveTtl);
      }
      if explicitHash.None? {
        return Success(digest);
      }
      var h := explicitHash.value;
      if h == [] || exists c | c in h :: !IsHex(c) {
        return Failure(NotHex);
      }
      if |h| < MIN_EXPLICIT_HASH_LEN {
        return Failure(HashTooShort);
      }
      LowerSpelled(h);
      return Success(Lower(h));
    }

    // What `store` does under its lock.
    method StoreAdmitted(key: Key, entry: Entry, reached: bool, now: real, f: Faults)
      returns (dropped: bool, durable: bool)
      modifies this
      ensures View() == StoreSpec.Store(old(View()), key, entry, now, f)
      ensures dropped <==> Collides(Evict(old(View()), now, f), key, entry)
      ensures !dropped ==> durable == reached && key in backend && backend[key] == entry
      ensures |backend| <= Max(1, maxEntries)
      ensures old(Valid()) ==> Valid()
    {
      EvictIfNeeded(now, f);
      dropped := BindEntry(key, entry);
      durable := !dropped && reached;
      StoreStaysWithinCapacity(old(View()), key, entry, now, f);
      if old(Valid()) {
        StoreKeepsSound(old(View()), key, entry, now, f);
      }
    }

    // The collision rule: a key that stands for other content loses its binding, and gains no new one.
    method BindEntry(key: Key, entry: Entry) returns (dropped: bool)
      modifies this`backend, this`heap, this`stale
      ensures View() == Bind(old(View()), key, entry) && dropped == Collides(old(View()), key, entry)
    {
      dropped := false;
      if key in backend {
        if backend[key].original != entry.original {
          backend := backend - {key};
          stale := stale + 1;
          dropped := true;
        } else {
          stale := stale + 1;
        }
      }
      if !dropped {
        backend := backend[key := entry];
        heap := heap + multiset{Item(entry.created, key)};
      }
    }

    // Writes the same row again until it reaches durable storage or the attempts are spent.
    method RetryDurablePersist(key: Key, entry: Entry, reaches: nat -> bool) returns (durable: bool)
      requires key in backend && backend[key] == entry
      modifies this`backend
      ensures View() == old(View())
      ensures durable <==> exists i | 1 <= i <= retryAttempts :: reaches(i)
    {
      for attempt := 1 to retryAttempts + 1
        invariant View() == old(View()) && forall i | 1 <= i < attempt :: !reaches(i)
      {
        backend := backend[key := entry];
        assert backend == old(backend);
        if reaches(attempt) {
          return true;
        }
      }
      return false;
    }

    method Retrieve(k: Key, now: real, f: Faults) returns (hit: Option<Entry>)
      modifies this
      ensures (View(), hit) == StoreSpec.Retrieve(old(View()), k, now, f)
      ensures old(Valid()) ==> Valid()
    {
      if old(Valid()) { RetrieveKeepsSound(View(), k, now, f); }
      if k !in backend {
        hit := RecoverFromSpill(k, now, f);
        return;
      }
      if backend[k].Expired(now) {
        backend := backend - {k};
        stale := stale + 1;
        return None;
      }
      var entry := backend[k];
      entry := entry.(accesses := entry.accesses + 1);
      backend := backend[k := entry];
      return Some(entry);
    }

    method RecoverFromSpill(k: Key, now: real, f: Faults) returns (hit: Option<Entry>)
      requires k !in backend
      modifies this`spill
      ensures (View(), hit) == StoreSpec.Retrieve(old(View()), k, now, f)
    {
      if spill.None? || f.read || k !in spill.value {
        return None;
      }
      var entry := spill.value[k];
      if entry.Expired(now) {
        if !f.delete {
          spill := Some(spill.value - {k});
        }
        return None;
      }
      return Some(entry);
    }

    method ExistsAnyTier(k: Key, now: real, f: Faults) returns (present: bool)
      ensures present == StoreSpec.ExistsAnyTier(View(), k, now, f)
    {
      if k in backend && !backend[k].Expired(now) {
        return true;
      }
      if spill.None? {
        return false;
      }
      if f.read {
        return true;
      }
      return k in spill.value && !spill.value[k].Expired(now);
    }

    method Exists(k: Key, cleanExpired: bool, now: real) returns (present: bool)
      modifies this
      ensures present <==> k in old(backend) && !old(backend)[k].Expired(now)
      ensures View() == if cleanExpired then Reap(old(View()), k, now) else old(View())
      ensures old(Valid()) ==> Valid()
    {
      if old(Valid()) { UnbindKeepsSound(View(), k); }
      if k !in backend {
        return false;
      }
      if backend[k].Expired(now) {
        if cleanExpired {
          backend := backend - {k};
          stale := stale + 1;
        }
        return false;
      }
      return true;
    }

    method Delete(k: Key, f: Faults) returns (deleted: bool)
      modifies this
      ensures (View(), deleted) == StoreSpec.Delete(old(View()), k, f)
      ensures old(Valid()) ==> Valid()
    {
      if old(Valid()) { DeleteKeepsSound(View(), k, f); }
      var primaryDeleted := k in backend;
      if primaryDeleted {
        backend := backend - {k};
        stale := stale + 1;
      }
      assert View() == Unbind(old(View()), k);
      var spillDeleted := DeleteFromSpill(k, f);
      return primaryDeleted || spillDeleted;
    }

    method DeleteFromSpill(k: Key, f: Faults) returns (deleted: bool)
      modifies this`spill
      ensures View() == if f.delete then old(View()) else Unspill(old(View()), k)
      ensures deleted <==> !f.delete && SpillHas(old(View()), k)
    {
      if spill.None? || f.delete {
        return false;
      }
      deleted := k in spill.value;
      spill := Some(spill.value - {k});
    }

    method Clear(f: Faults) returns (residue: nat)
      modifies this
      ensures (View(), residue) == StoreSpec.Clear(old(View()), f)
      ensures Valid()
    {
      backend := map[];
      residue := ClearSpillResidual(f);
      heap := multiset{};
      stale := 0;
      residue := |backend| + residue;
    }

    method ClearSpillResidual(f: Faults) returns (residue: nat)
      modifies this`spill
      ensures (spill, residue) == ClearSpill(old(spill), f)
    {
      if spill.None? {
        return 0;
      }
      if !f.clear {
        spill := Some(map[]);
        return 0;
      }
      spill := Some(map k | k in spill.value && k in f.kept :: spill.value[k]);
      return if f.count then 1 else |spill.value|;
    }

    // ---------- The cascade ----------

    /** The hashes that either text mentions, but for the excluded one, each once, in the order in which the
        compressed text and then the original one mention them first. */
    method EntryMarkerHashes(e: Entry, exclude: Key) returns (hashes: seq<Key>)
      ensures hashes == C.Without(Markers(scan, e), exclude)
      ensures NoRepeats(hashes) && InOrderOf(hashes, scan(e.compressed) + scan(e.original))
      ensures forall h :: h in hashes <==> h != exclude && (h in scan(e.compressed) || h in scan(e.original))
    {
      var all := scan(e.compressed) + scan(e.original);
      var seen: seq<Key> := [];
      for i := 0 to |all|
        invariant seen == Distinct(all[..i])
      {
        assert all[..i + 1][..i] == all[..i];
        if all[i] !in seen {
          seen := seen + [all[i]];
        }
      }
      assert all[..|all|] == all;
      hashes := C.Without(seen, exclude);
      C.WithoutKeepsDistinct(seen, exclude);
      DistinctIsInOrder(all);
      C.WithoutKeepsOrder(seen, exclude, all);
    }

    /** Whether another stored entry, and not one of the ignored, mentions the hash in either text. */
    method IsCoReferenced(h: Key, ignoring: set<Key>) returns (found: bool)
      ensures found <==> C.CoReferenced(GraphOf(scan, backend), h, ignoring)
      ensures found <==> exists k | k in backend ::
                k != h && k !in ignoring && (h in scan(backend[k].compressed) || h in scan(backend[k].original))
    {
      var pending := backend.Keys;
      while pending != {}
        invariant pending <= backend.Keys
        invariant forall k | k in backend && k !in pending ::
                    k == h || k in ignoring || (h !in scan(backend[k].compressed) && h !in scan(backend[k].original))
        decreases pending
      {
        var k :| k in pending;
        pending := pending - {k};
        if k == h || k in ignoring {
          continue;
        }
        if h in scan(backend[k].compressed) || h in scan(backend[k].original) {
          assert h in GraphOf(scan, backend)[k];
          return true;
        }
      }
      return false;
    }

    ghost function Graph(stuck: set<Key>): C.Graph
      reads this
    {
      BothTiers(scan, View(), stuck)
    }

    // Reads the markers of an entry, then deletes it.
    method DeleteReading(k: Key, stuck: set<Key>) returns (nested: seq<Key>, deleted: bool)
      modifies this
      ensures deleted <==> k in old(Graph(stuck))
      ensures nested == if deleted then C.Without(old(Graph(stuck))[k], k) else []
      ensures Graph(stuck) == old(Graph(stuck)) - {k} && Shrunk(old(View()), View(), stuck)
    {
      nested := [];
      if k in backend {
        nested := EntryMarkerHashes(backend[k], k);
      }
      deleted := Delete(k, DeleteFaults(k, stuck));
      DeleteShrinks(old(View()), k, stuck);
      DeleteInGraph(scan, old(View()), k, stuck);
    }

    // What the cascade does with one marker of an entry it has deleted; `rest` are the markers after it.
    method FollowMarker(h: Key, visited: set<Key>, deleted: seq<Key>, skipped: seq<Key>, stuck: set<Key>,
                        ghost goal: C.Sweep, ghost rest: seq<Key>)
      returns (deleted': seq<Key>, skipped': seq<Key>, visited': set<Key>)
      requires C.OnTheWay(goal, Graph(stuck), [h] + rest, visited, deleted, skipped)
      modifies this
      ensures C.OnTheWay(goal, Graph(stuck), rest, visited', deleted', skipped')
      ensures Shrunk(old(View()), View(), stuck)
      decreases Graph(stuck).Keys, 1
    {
      ghost var g := Graph(stuck);
      ShrunkIsReflexive(View(), stuck);
      deleted', skipped', visited' := deleted, skipped, visited;
      if h in visited {
        C.OnTheWayPastVisited(goal, g, h, rest, visited, deleted, skipped);
        return;
      }
      var shared := IsCoReferenced(h, visited);
      SpillMentionsNothing(scan, View(), stuck, h, visited);
      if shared {
        C.OnTheWayPastShared(goal, g, h, rest, visited, deleted, skipped);
        skipped' := skipped + [h];
        return;
      }
      C.OnTheWayPastChild(goal, g, h, rest, visited, deleted, skipped);
      var child;
      child, visited' := Cascade(h, visited, stuck);
      deleted' := deleted + C.Removed(child, h);
      skipped' := skipped + child.sharedSkipped;
    }

    /** `delete_cascade_detailed` with the set it shares between its calls. */
    method Cascade(k: Key, visited: set<Key>, stuck: set<Key>) returns (outcome: C.Outcome, visited': set<Key>)
      modifies this
      ensures C.Purge(old(Graph(stuck)), k, visited) == C.Sweep(Graph(stuck), visited', outcome)
      ensures Shrunk(old(View()), View(), stuck)
      decreases Graph(stuck).Keys, 0
    {
      if k in visited {
        ShrunkIsReflexive(View(), stuck);
        return C.Outcome(false, [], []), visited;
      }
      visited' := visited + {k};
      ghost var g := Graph(stuck);
      var nested, topDeleted := DeleteReading(k, stuck);
      C.SetsOut(g, k, visited);
      var deleted: seq<Key>, skipped: seq<Key> := [], [];
      if topDeleted {
        ghost var before := View();
        deleted, skipped, visited' := FollowMarkers(nested, visited', stuck, C.AfterDeleting(g, k, visited));
        ShrunkIsTransitive(old(View()), before, View(), stuck);
      }
      C.Arrives(g, k, visited, Graph(stuck), visited', deleted, skipped);
      outcome := C.Outcome(topDeleted, deleted, C.Keep(skipped, deleted));
    }

    // The loop over the markers of a deleted entry.
    method FollowMarkers(nested: seq<Key>, visited: set<Key>, stuck: set<Key>, ghost goal: C.Sweep)
      returns (deleted: seq<Key>, skipped: seq<Key>, visited': set<Key>)
      requires C.OnTheWay(goal, Graph(stuck), nested, visited, [], [])
      modifies this
      ensures C.OnTheWay(goal, Graph(stuck), [], visited', deleted, skipped)
      ensures Shrunk(old(View()), View(), stuck)
      decreases Graph(stuck).Keys, 2
    {
      deleted, skipped, visited' := [], [], visited;
      var rest := nested;
      ShrunkIsReflexive(View(), stuck);
      while rest != []
        invariant Shrunk(old(View()), View(), stuck)
        invariant C.OnTheWay(goal, Graph(stuck), rest, visited', deleted, skipped)
        decreases |rest|
      {
        ghost var before := View();
        var h, tail := rest[0], rest[1..];
        assert rest == [h] + tail;
        deleted, skipped, visited' := FollowMarker(h, visited', deleted, skipped, stuck, goal, tail);
        ShrunkIsTransitive(old(View()), before, View(), stuck);
        rest := tail;
      }
    }

    /** Deletes a stored entry and everything it alone owns, from both tiers: exactly the least such set goes,
        but for the spill rows whose delete raises, every other row stays as it was, and the report says so. A
        row that only the spill tier holds counts as an entry that mentions nothing. */
    method DeleteCascadeDetailed(k: Key, stuck: set<Key>) returns (outcome: C.Outcome)
      modifies this
      ensures Stored(old(View()), k, stuck) ==>
                && ExactCascade(scan, old(View()), View(), stuck, k, outcome)
                && RowCascade(scan, old(View()), View(), stuck, k, outcome)
      ensures !Stored(old(View()), k, stuck) ==> View() == old(View()) && outcome == C.Outcome(false, [], [])
      ensures Shrunk(old(View()), View(), stuck)
      ensures old(Valid()) ==> Valid()
    {
      var visited;
      outcome, visited := Cascade(k, {}, stuck);
      MentionsSpelled(scan, old(View()), stuck, k, k);
      if k in old(Graph(stuck)) {
        CascadeIsExact(scan, old(View()), View(), stuck, k, visited, outcome);
        CascadeOnRows(scan, old(View()), View(), stuck, k, outcome);
      } else {
        AbsentChangesNothing(scan, old(View()), View(), stuck);
      }
      if old(Valid()) {
        ShrunkIsSound(old(View()), View(), stuck);
      }
    }
  }
}
