/** The recursive purge of `CompressionStore.delete_cascade_detailed`, on the reference graph of the store.

    A `Graph` holds one node for each stored entry and, in first-seen order, the marker hashes its texts
    mention. Hashes of absent entries may be mentioned, entries may mention themselves, and cycles are allowed.
    `Purge` follows the recursion branch by branch; the rest of the module says what it achieves. */
module Cascade {
  import opened Sequences

  type Key = string
  type Graph = map<Key, seq<Key>>

  datatype Outcome = Outcome(topDeleted: bool, nestedDeleted: seq<Key>, sharedSkipped: seq<Key>)

  // What one call, or the loop over one entry's markers, leaves behind.
  datatype Sweep = Sweep(graph: Graph, visited: set<Key>, outcome: Outcome)

  function Without(hs: seq<Key>, k: Key): (r: seq<Key>)
    ensures forall h :: h in r <==> h in hs && h != k
  {
    if hs == [] then [] else (if hs[0] == k then [] else [hs[0]]) + Without(hs[1..], k)
  }

  lemma {:induction false} WithoutKeepsDistinct(hs: seq<Key>, k: Key)
    requires NoRepeats(hs)
    ensures NoRepeats(Without(hs, k))
  {
    if hs != [] {
      assert hs[0] !in hs[1..];
      WithoutKeepsDistinct(hs[1..], k);
    }
  }

  lemma {:induction false} WithoutOfConcat(xs: seq<Key>, ys: seq<Key>, k: Key)
    ensures Without(xs + ys, k) == Without(xs, k) + Without(ys, k)
  {
    if xs == [] {
      assert xs + ys == ys;
    } else {
      assert (xs + ys)[1..] == xs[1..] + ys;
      WithoutOfConcat(xs[1..], ys, k);
    }
  }

  lemma WithoutKeepsOrder(hs: seq<Key>, k: Key, xs: seq<Key>)
    requires NoRepeats(hs) && InOrderOf(hs, xs)
    ensures InOrderOf(Without(hs, k), xs)
  {
    if k in hs {
      var m: nat :| m < |hs| && hs[m] == k;
      AroundItem(hs, m);
      WithoutOnly(hs[..m], k, hs[m + 1..]);
      OrderOfRest(hs, m, xs);
    } else {
      WithoutAbsent(hs, k);
    }
  }

  lemma AroundItem(hs: seq<Key>, m: nat)
    requires NoRepeats(hs) && m < |hs|
    ensures hs == hs[..m] + ([hs[m]] + hs[m + 1..]) && hs[m] !in hs[..m] && hs[m] !in hs[m + 1..]
  {
  }

  lemma WithoutOnly(front: seq<Key>, k: Key, back: seq<Key>)
    requires k !in front && k !in back
    ensures Without(front + ([k] + back), k) == front + back
  {
    WithoutOfConcat(front, [k] + back, k);
    assert ([k] + back)[1..] == back && [] + Without(back, k) == Without(back, k);
    WithoutAbsent(front, k);
    WithoutAbsent(back, k);
  }

  lemma {:induction false} WithoutAbsent(hs: seq<Key>, k: Key)
    requires k !in hs
    ensures Without(hs, k) == hs
  {
    if hs != [] {
      assert hs == [hs[0]] + hs[1..];
      WithoutAbsent(hs[1..], k);
    }
  }

  lemma OrderOfRest(hs: seq<Key>, m: nat, xs: seq<Key>)
    requires m < |hs| && InOrderOf(hs, xs)
    ensures InOrderOf(hs[..m] + hs[m + 1..], xs)
  {
    var r := hs[..m] + hs[m + 1..];
    forall n, i, j | 0 <= n <= |xs| && 0 <= i < j < |r| && r[j] in xs[..n] ensures r[i] in xs[..n] {
      var i', j' := if i < m then i else i + 1, if j < m then j else j + 1;
      assert r[i] == hs[i'] && r[j] == hs[j'];
    }
  }

  function Keep(hs: seq<Key>, drop: seq<Key>): (r: seq<Key>)
    ensures forall h :: h in r <==> h in hs && h !in drop
  {
    if hs == [] then [] else (if hs[0] in drop then [] else [hs[0]]) + Keep(hs[1..], drop)
  }

  // An entry other than `h` itself, and outside `ignoring`, still mentions `h`.
  predicate CoReferenced(g: Graph, h: Key, ignoring: set<Key>) {
    exists k | k in g :: k != h && k !in ignoring && h in g[k]
  }

  function Purge(g: Graph, k: Key, visited: set<Key>): (r: Sweep)
    ensures r.graph.Keys <= g.Keys
    decreases g.Keys, 0
  {
    if k in visited then Sweep(g, visited, Outcome(false, [], []))
    else if k !in g then Sweep(g, visited + {k}, Outcome(false, [], []))
    else
      var s := PurgeNested(g - {k}, Without(g[k], k), visited + {k});
      s.(outcome := Outcome(true, s.outcome.nestedDeleted, Keep(s.outcome.sharedSkipped, s.outcome.nestedDeleted)))
  }

  // The loop over the markers of an entry that has just been deleted. Its `topDeleted` has no meaning.
  function PurgeNested(g: Graph, nested: seq<Key>, visited: set<Key>): (r: Sweep)
    ensures r.graph.Keys <= g.Keys
    decreases g.Keys, |nested| + 1
  {
    if nested == [] then Sweep(g, visited, Outcome(false, [], []))
    else if nested[0] in visited then PurgeNested(g, nested[1..], visited)
    else if CoReferenced(g, nested[0], visited) then
      var rest := PurgeNested(g, nested[1..], visited);
      rest.(outcome := rest.outcome.(sharedSkipped := [nested[0]] + rest.outcome.sharedSkipped))
    else
      var child := Purge(g, nested[0], visited);
      var rest := PurgeNested(child.graph, nested[1..], child.visited);
      rest.(outcome := Outcome(false, Removed(child.outcome, nested[0]) + rest.outcome.nestedDeleted,
                               child.outcome.sharedSkipped + rest.outcome.sharedSkipped))
  }

  function Removed(child: Outcome, h: Key): seq<Key> {
    (if child.topDeleted then [h] else []) + child.nestedDeleted
  }

  // The loop has come to `rest` with `deleted` and `skipped` collected, and is still on its way to `goal`.
  ghost predicate OnTheWay(goal: Sweep, g: Graph, rest: seq<Key>, visited: set<Key>, deleted: seq<Key>,
                           skipped: seq<Key>) {
    var s := PurgeNested(g, rest, visited);
    && goal.graph == s.graph && goal.visited == s.visited
    && goal.outcome.nestedDeleted == deleted + s.outcome.nestedDeleted
    && goal.outcome.sharedSkipped == skipped + s.outcome.sharedSkipped
  }

  lemma OnTheWayPastVisited(goal: Sweep, g: Graph, h: Key, rest: seq<Key>, visited: set<Key>, deleted: seq<Key>,
                            skipped: seq<Key>)
    requires h in visited && OnTheWay(goal, g, [h] + rest, visited, deleted, skipped)
    ensures OnTheWay(goal, g, rest, visited, deleted, skipped)
  {
    assert ([h] + rest)[1..] == rest;
  }

  lemma OnTheWayPastShared(goal: Sweep, g: Graph, h: Key, rest: seq<Key>, visited: set<Key>, deleted: seq<Key>,
                           skipped: seq<Key>)
    requires h !in visited && CoReferenced(g, h, visited)
    requires OnTheWay(goal, g, [h] + rest, visited, deleted, skipped)
    ensures OnTheWay(goal, g, rest, visited, deleted, skipped + [h])
  {
    assert ([h] + rest)[1..] == rest;
    var tail := PurgeNested(g, rest, visited).outcome.sharedSkipped;
    assert skipped + ([h] + tail) == skipped + [h] + tail;
  }

  lemma OnTheWayPastChild(goal: Sweep, g: Graph, h: Key, rest: seq<Key>, visited: set<Key>, deleted: seq<Key>,
                          skipped: seq<Key>)
    requires h !in visited && !CoReferenced(g, h, visited)
    requires OnTheWay(goal, g, [h] + rest, visited, deleted, skipped)
    ensures var child := Purge(g, h, visited);
            OnTheWay(goal, child.graph, rest, child.visited, deleted + Removed(child.outcome, h),
                     skipped + child.outcome.sharedSkipped)
  {
    assert ([h] + rest)[1..] == rest;
    var child := Purge(g, h, visited);
    var tail := PurgeNested(child.graph, rest, child.visited).outcome;
    assert deleted + (Removed(child.outcome, h) + tail.nestedDeleted)
        == deleted + Removed(child.outcome, h) + tail.nestedDeleted;
    assert skipped + (child.outcome.sharedSkipped + tail.sharedSkipped)
        == skipped + child.outcome.sharedSkipped + tail.sharedSkipped;
  }

  // What the loop over the markers of `k` comes to.
  ghost function AfterDeleting(g: Graph, k: Key, visited: set<Key>): Sweep {
    PurgeNested(g - {k}, if k in g then Without(g[k], k) else [], visited + {k})
  }

  lemma SetsOut(g: Graph, k: Key, visited: set<Key>)
    ensures OnTheWay(AfterDeleting(g, k, visited), g - {k}, if k in g then Without(g[k], k) else [], visited + {k},
                     [], [])
  {
    var r := AfterDeleting(g, k, visited).outcome;
    assert [] + r.nestedDeleted == r.nestedDeleted && [] + r.sharedSkipped == r.sharedSkipped;
  }

  lemma Arrives(g: Graph, k: Key, visited: set<Key>, g': Graph, visited': set<Key>, deleted: seq<Key>,
                skipped: seq<Key>)
    requires k !in visited
    requires OnTheWay(AfterDeleting(g, k, visited), g', [], visited', deleted, skipped)
    ensures Purge(g, k, visited) == Sweep(g', visited', Outcome(k in g, deleted, Keep(skipped, deleted)))
  {
    assert deleted + [] == deleted && skipped + [] == skipped;
    if k !in g { assert g - {k} == g; }
  }

  // ---------- What the purge should remove ----------

  ghost predicate OnlyFrom(g: Graph, h: Key, removed: set<Key>) {
    forall k | k in g && k != h && h in g[k] :: k in removed
  }

  // A member of `removed` mentions `h`, and so does no other stored entry outside `removed`.
  ghost predicate Owned(g: Graph, removed: set<Key>, h: Key) {
    && h in g
    && (exists d | d in removed && d in g :: h in g[d])
    && OnlyFrom(g, h, removed)
  }

  ghost predicate Closed(g: Graph, top: Key, removed: set<Key>) {
    && top in removed
    && forall h | Owned(g, removed, h) :: h in removed
  }

  // The least closed set: the top hash and everything that it alone owns, directly or through what it owns.
  ghost function Least(g: Graph, top: Key): set<Key> {
    set h | h in g && forall c: set<Key> {:trigger Closed(g, top, c)} | Closed(g, top, c) :: h in c
  }

  ghost predicate SubGraph(g: Graph, whole: Graph) {
    forall k | k in g :: k in whole && g[k] == whole[k]
  }

  lemma OwnedMonotone(g: Graph, small: set<Key>, large: set<Key>, h: Key)
    requires small <= large && Owned(g, small, h)
    ensures Owned(g, large, h)
  {
  }

  // Nothing outside a closed set is ever removed.
  lemma {:induction false} PurgeStaysWithin(whole: Graph, top: Key, c: set<Key>, g: Graph, k: Key, visited: set<Key>)
    requires Closed(whole, top, c) && SubGraph(g, whole) && whole.Keys - g.Keys <= c
    requires visited !! g.Keys && (k in g ==> k in c)
    ensures var r := Purge(g, k, visited);
            SubGraph(r.graph, whole) && whole.Keys - r.graph.Keys <= c && r.visited !! r.graph.Keys
    decreases g.Keys, 0
  {
    if k !in visited && k in g {
      NestedStaysWithin(whole, top, c, g - {k}, k, Without(g[k], k), visited + {k});
    }
  }

  lemma {:induction false} NestedStaysWithin(whole: Graph, top: Key, c: set<Key>, g: Graph, parent: Key,
                                             nested: seq<Key>, visited: set<Key>)
    requires Closed(whole, top, c) && SubGraph(g, whole) && whole.Keys - g.Keys <= c
    requires visited !! g.Keys
    requires parent in whole && parent !in g && forall h | h in nested :: h in whole[parent]
    ensures var r := PurgeNested(g, nested, visited);
            SubGraph(r.graph, whole) && whole.Keys - r.graph.Keys <= c && r.visited !! r.graph.Keys
    decreases g.Keys, |nested| + 1
  {
    if nested == [] {
    } else if nested[0] in visited || CoReferenced(g, nested[0], visited) {
      NestedStaysWithin(whole, top, c, g, parent, nested[1..], visited);
    } else {
      var h := nested[0];
      if h in g {
        forall k | k in whole && k != h && h in whole[k] ensures k in c {
          if k in g { assert CoReferenced(g, h, visited); }
        }
        assert parent in c && h in whole[parent];
        assert Owned(whole, c, h);
      }
      PurgeStaysWithin(whole, top, c, g, h, visited);
      var child := Purge(g, h, visited);
      NestedStaysWithin(whole, top, c, child.graph, parent, nested[1..], child.visited);
    }
  }

  // When a call returns, every stored entry that has lost all its referents is one the callers still
  // have to look at (`pending`).
  lemma {:induction false} PurgeLeavesNothingOwned(whole: Graph, g: Graph, k: Key, visited: set<Key>, pending: set<Key>)
    requires SubGraph(g, whole) && visited !! g.Keys
    requires forall h | h in g && Owned(whole, whole.Keys - g.Keys, h) :: h in pending || h == k
    ensures var r := Purge(g, k, visited);
            && SubGraph(r.graph, whole) && r.visited !! r.graph.Keys
            && forall h | h in r.graph && Owned(whole, whole.Keys - r.graph.Keys, h) :: h in pending
    decreases g.Keys, 0
  {
    if k !in visited && k in g {
      var g' := g - {k};
      var nested := Without(g[k], k);
      forall h | h in g' && Owned(whole, whole.Keys - g'.Keys, h) ensures h in pending || h in nested {
        if h !in nested {
          assert h !in whole[k];
          var d :| d in whole.Keys - g'.Keys && d in whole && h in whole[d];
          assert d in whole.Keys - g.Keys;
          assert Owned(whole, whole.Keys - g.Keys, h);
        }
      }
      NestedLeavesNothingOwned(whole, g', nested, visited + {k}, pending);
    }
  }

  lemma {:induction false} NestedLeavesNothingOwned(whole: Graph, g: Graph, nested: seq<Key>, visited: set<Key>,
                                                    pending: set<Key>)
    requires SubGraph(g, whole) && visited !! g.Keys
    requires forall h | h in g && Owned(whole, whole.Keys - g.Keys, h) :: h in pending || h in nested
    ensures var r := PurgeNested(g, nested, visited);
            && SubGraph(r.graph, whole) && r.visited !! r.graph.Keys
            && forall h | h in r.graph && Owned(whole, whole.Keys - r.graph.Keys, h) :: h in pending
    decreases g.Keys, |nested| + 1
  {
    if nested == [] {
    } else {
      var h0, tail := nested[0], nested[1..];
      assert forall h :: h in nested <==> h == h0 || h in tail;
      if h0 in visited {
        NestedLeavesNothingOwned(whole, g, tail, visited, pending);
      } else if CoReferenced(g, h0, visited) {
        var k :| k in g && k != h0 && h0 in g[k];
        assert !Owned(whole, whole.Keys - g.Keys, h0);
        NestedLeavesNothingOwned(whole, g, tail, visited, pending);
      } else {
        var still := pending + set h | h in tail;
        PurgeLeavesNothingOwned(whole, g, h0, visited, still);
        var child := Purge(g, h0, visited);
        NestedLeavesNothingOwned(whole, child.graph, tail, child.visited, pending);
      }
    }
  }

  lemma PurgeIsClosed(g: Graph, top: Key)
    requires top in g
    ensures Closed(g, top, g.Keys - Purge(g, top, {}).graph.Keys)
    ensures SubGraph(Purge(g, top, {}).graph, g)
  {
    PurgeLeavesNothingOwned(g, g, top, {}, {});
    assert Purge(g, top, {}).graph.Keys <= (g - {top}).Keys;
  }

  lemma PurgeRemovesWithinLeast(g: Graph, top: Key, h: Key)
    requires top in g && h in g && h !in Purge(g, top, {}).graph
    ensures h in Least(g, top)
  {
    forall c: set<Key> | Closed(g, top, c) ensures h in c {
      PurgeStaysWithin(g, top, c, g, top, {});
    }
  }

  /** The purge of a stored hash removes exactly the least set that holds it and everything owned by the set. */
  lemma PurgeRemovesLeast(g: Graph, top: Key)
    requires top in g
    ensures Closed(g, top, Least(g, top))
    ensures Purge(g, top, {}).graph == g - Least(g, top)
  {
    PurgeIsClosed(g, top);
    forall h | h in g && h !in Purge(g, top, {}).graph ensures h in Least(g, top) {
      PurgeRemovesWithinLeast(g, top, h);
    }
    SmallestClosedIsLeast(g, top, Purge(g, top, {}).graph);
  }

  lemma SmallestClosedIsLeast(g: Graph, top: Key, left: Graph)
    requires SubGraph(left, g) && Closed(g, top, g.Keys - left.Keys) && g.Keys - left.Keys <= Least(g, top)
    ensures g.Keys - left.Keys == Least(g, top) && left == g - Least(g, top)
  {
  }

  // ---------- What it leaves ----------

  lemma LeastIsOwned(g: Graph, top: Key, h: Key)
    requires top in g && h in Least(g, top) && h != top
    ensures Owned(g, Least(g, top), h)
  {
    PurgeRemovesLeast(g, top);
    var least := Least(g, top);
    if !Owned(g, least, h) {
      forall x | Owned(g, least - {h}, x) ensures x in least - {h} {
        OwnedMonotone(g, least - {h}, least, x);
      }
      assert Closed(g, top, least - {h});
    }
  }

  // ... and some other deleted entry mentions it.
  lemma LeastHasReferent(g: Graph, top: Key, h: Key)
    requires top in g && h in Least(g, top) && h != top
    ensures exists d | d in Least(g, top) && d in g :: d != h && h in g[d]
  {
    PurgeRemovesLeast(g, top);
    var least := Least(g, top);
    if !exists d | d in least && d in g :: d != h && h in g[d] {
      forall x | Owned(g, least - {h}, x) ensures x in least - {h} {
        OwnedMonotone(g, least - {h}, least, x);
      }
      assert Closed(g, top, least - {h});
    }
  }

  /** No surviving entry mentions a deleted hash other than the one the caller named, and a surviving entry
      that a deleted one mentioned is still mentioned by another survivor. */
  lemma SurvivorsStayResolvable(g: Graph, top: Key, k: Key, h: Key)
    requires top in g
    requires k in g && h in g && k != h && h in g[k]
    ensures var left := Purge(g, top, {}).graph;
            && (k in left && h !in left ==> h == top)
            && (k !in left && h in left ==> exists q | q in left :: q != h && h in left[q])
  {
    PurgeRemovesLeast(g, top);
    var left := Purge(g, top, {}).graph;
    if k in left && h !in left && h != top {
      LeastIsOwned(g, top, h);
    }
    if k !in left && h in left {
      assert !Owned(g, Least(g, top), h);
      var q :| q in g && q != h && h in g[q] && q !in Least(g, top);
      assert q in left && h in left[q];
    }
  }

  /** The order in which an entry lists its markers, and how often it lists them, is immaterial. */
  lemma MarkerOrderIsImmaterial(g1: Graph, g2: Graph, top: Key)
    requires top in g1 && g1.Keys == g2.Keys
    requires forall k, h | k in g1 :: h in g1[k] <==> h in g2[k]
    ensures Purge(g1, top, {}).graph.Keys == Purge(g2, top, {}).graph.Keys
  {
    PurgeRemovesLeast(g1, top);
    PurgeRemovesLeast(g2, top);
    forall c: set<Key>, h ensures Owned(g1, c, h) <==> Owned(g2, c, h) {
      if Owned(g1, c, h) {
        var d :| d in c && d in g1 && h in g1[d];
        assert d in g2 && h in g2[d];
      }
      if Owned(g2, c, h) {
        var d :| d in c && d in g2 && h in g2[d];
        assert d in g1 && h in g1[d];
      }
    }
    assert forall c: set<Key> :: Closed(g1, top, c) <==> Closed(g2, top, c);
    assert Least(g1, top) == Least(g2, top);
  }

  // ---------- The report ----------

  ghost predicate MentionedByRemoved(g: Graph, left: Graph, h: Key) {
    exists d | d in g && d !in left :: h in g[d]
  }

  // `hs` lists, without repetition, exactly the entries of `g` that `left` no longer has.
  ghost predicate Lists(hs: seq<Key>, g: Graph, left: Graph) {
    && NoRepeats(hs)
    && forall h :: h in hs <==> h in g && h !in left
  }

  lemma {:induction false} PurgeReports(g: Graph, k: Key, visited: set<Key>)
    requires visited !! g.Keys
    ensures var r := Purge(g, k, visited);
            && SubGraph(r.graph, g) && r.visited !! r.graph.Keys && visited <= r.visited
            && (r.outcome.topDeleted <==> k in g)
            && Lists(Removed(r.outcome, k), g, r.graph)
            && (forall h | h in r.outcome.sharedSkipped ::
                  h !in visited && h != k && h !in r.outcome.nestedDeleted && MentionedByRemoved(g, r.graph, h))
            && (forall h | h in r.graph && MentionedByRemoved(g, r.graph, h) :: h in r.outcome.sharedSkipped)
    decreases g.Keys, 0
  {
    if k in g {
      var g', nested := g - {k}, Without(g[k], k);
      var r := Purge(g, k, visited);
      NestedReports(g', nested, visited + {k});
      var s := PurgeNested(g', nested, visited + {k});
      assert k !in s.graph;
      forall h | h in r.graph && MentionedByRemoved(g, r.graph, h) ensures h in r.outcome.sharedSkipped {
        var d :| d in g && d !in r.graph && h in g[d];
        if d == k {
          assert h in nested;
        } else {
          assert d in g' && h in g'[d];
          assert MentionedByRemoved(g', s.graph, h);
        }
      }
      forall h | h in r.outcome.sharedSkipped ensures MentionedByRemoved(g, r.graph, h) {
        if h in nested {
          assert h in g[k];
        } else {
          var d :| d in g' && d !in s.graph && h in g'[d];
          assert d in g && h in g[d];
        }
      }
    }
  }

  lemma {:induction false} NestedReports(g: Graph, nested: seq<Key>, visited: set<Key>)
    requires visited !! g.Keys
    ensures var r := PurgeNested(g, nested, visited);
            && SubGraph(r.graph, g) && r.visited !! r.graph.Keys && visited <= r.visited
            && Lists(r.outcome.nestedDeleted, g, r.graph)
            && (forall h | h in r.outcome.sharedSkipped ::
                  h !in visited && (h in nested || MentionedByRemoved(g, r.graph, h)))
            && (forall h | h in r.graph && (h in nested || MentionedByRemoved(g, r.graph, h)) ::
                  h in r.outcome.sharedSkipped)
    decreases g.Keys, |nested| + 1
  {
    if nested == [] {
    } else {
      var h0, tail := nested[0], nested[1..];
      assert forall h :: h in nested <==> h == h0 || h in tail;
      if h0 in visited || CoReferenced(g, h0, visited) {
        NestedReports(g, tail, visited);
      } else {
        PurgeReports(g, h0, visited);
        var child := Purge(g, h0, visited);
        NestedReports(child.graph, tail, child.visited);
        var rest := PurgeNested(child.graph, tail, child.visited);
        JoinReports(g, child, h0, rest, tail);
      }
    }
  }

  lemma JoinedWithoutRepeats(xs: seq<Key>, ys: seq<Key>)
    requires NoRepeats(xs) && NoRepeats(ys) && forall h | h in xs :: h !in ys
    ensures NoRepeats(xs + ys)
  {
    forall i, j | 0 <= i < j < |xs + ys| ensures (xs + ys)[i] != (xs + ys)[j] {
      if i < |xs| <= j { assert xs[i] !in ys; }
    }
  }

  // The child's report and that of the rest of the loop combine.
  lemma JoinReports(g: Graph, child: Sweep, h0: Key, rest: Sweep, tail: seq<Key>)
    requires SubGraph(child.graph, g) && SubGraph(rest.graph, child.graph)
    requires Lists(Removed(child.outcome, h0), g, child.graph)
    requires Lists(rest.outcome.nestedDeleted, child.graph, rest.graph)
    ensures Lists(Removed(child.outcome, h0) + rest.outcome.nestedDeleted, g, rest.graph)
    ensures forall h :: MentionedByRemoved(g, rest.graph, h) <==>
                        MentionedByRemoved(g, child.graph, h) || MentionedByRemoved(child.graph, rest.graph, h)
  {
    var both := Removed(child.outcome, h0) + rest.outcome.nestedDeleted;
    JoinedWithoutRepeats(Removed(child.outcome, h0), rest.outcome.nestedDeleted);
    assert forall h :: h in both <==> h in Removed(child.outcome, h0) || h in rest.outcome.nestedDeleted;
    forall h ensures MentionedByRemoved(g, rest.graph, h) <==>
                     MentionedByRemoved(g, child.graph, h) || MentionedByRemoved(child.graph, rest.graph, h) {
      if MentionedByRemoved(g, rest.graph, h) {
        var d :| d in g && d !in rest.graph && h in g[d];
        if d in child.graph { assert h in child.graph[d]; }
      }
      if MentionedByRemoved(child.graph, rest.graph, h) {
        var d :| d in child.graph && d !in rest.graph && h in child.graph[d];
        assert d in g && h in g[d];
      }
    }
  }

  /** The report of a cascade is exact: `nestedDeleted` lists without repetition what went beside the named
      hash, it shares nothing with `sharedSkipped`, and the stored hashes in `sharedSkipped` are exactly the
      survivors that a deleted entry mentions, each of them still mentioned by another survivor. */
  lemma ReportIsExact(g: Graph, top: Key)
    requires top in g
    ensures var r := Purge(g, top, {});
            && r.outcome.topDeleted
            && NoRepeats(r.outcome.nestedDeleted)
            && (set h | h in r.outcome.nestedDeleted) == Least(g, top) - {top}
            && (forall h | h in r.outcome.sharedSkipped :: h !in r.outcome.nestedDeleted && h != top)
            && (forall h | h in g :: h in r.outcome.sharedSkipped <==>
                  h in r.graph && MentionedByRemoved(g, r.graph, h))
            && (forall h | h in g && h in r.outcome.sharedSkipped ::
                  exists q | q in r.graph :: q != h && h in r.graph[q])
  {
    var r := Purge(g, top, {});
    PurgeReports(g, top, {});
    PurgeRemovesLeast(g, top);
    var all := Removed(r.outcome, top);
    assert all == [top] + r.outcome.nestedDeleted;
    assert forall i | 0 <= i < |r.outcome.nestedDeleted| :: r.outcome.nestedDeleted[i] == all[i + 1];
    assert top in Least(g, top);
    forall h ensures h in r.outcome.nestedDeleted <==> h in Least(g, top) - {top} {
      assert h in all <==> h in Least(g, top);
      assert h in all <==> h == top || h in r.outcome.nestedDeleted;
      assert top !in r.outcome.nestedDeleted by { assert all[0] == top; }
    }
    forall h | h in g && h in r.outcome.sharedSkipped
      ensures h in r.graph && exists q | q in r.graph :: q != h && h in r.graph[q]
    {
      assert h !in all;
      var d :| d in g && d !in r.graph && h in g[d];
      SurvivorsStayResolvable(g, top, d, h);
    }
  }

  /** For a hash that is not stored the report can be wrong: `a` and `b`, both deleted, mention `c`; the purge
      skips `c` as shared when it meets it under `a`, and in the end no survivor mentions it. */
  lemma AbsentHashReportedShared(t: Key, a: Key, b: Key, c: Key)
    requires t != a && t != b && t != c && a != b && a != c && b != c
    ensures var r := Purge(map[t := [a, b], a := [c], b := [c]], t, {});
            r.graph == map[] && r.outcome == Outcome(true, [a, b], [c])
  {
    var g: Graph := map[t := [a, b], a := [c], b := [c]];
    var ga: Graph := map[a := [c], b := [c]];
    var gb: Graph := map[b := [c]];
    assert g - {t} == ga && ga - {a} == gb && gb - {b} == map[];
    WithoutShort(a, b, t);
    PurgeSkips(gb, ga, a, b, c, {t});
    PurgeForgets(gb, b, c, {t} + {a});
    SkippedThenOrphaned(ga, gb, a, b, c, {t});
    assert {} + {t} == {t} && g[t] == [a, b];
    assert Keep([c], [a, b]) == [c] by { assert [c][1..] == []; }
  }

  lemma SkippedThenOrphaned(ga: Graph, gb: Graph, a: Key, b: Key, c: Key, visited: set<Key>)
    requires a != b && a != c && b != c && a !in visited && b !in visited
    requires gb == map[b := [c]] && ga == map[a := [c], b := [c]]
    requires Purge(ga, a, visited) == Sweep(gb, visited + {a}, Outcome(true, [], [c]))
    requires Purge(gb, b, visited + {a}) == Sweep(map[], visited + {a} + {b} + {c}, Outcome(true, [], []))
    ensures PurgeNested(ga, [a, b], visited).graph == map[]
    ensures PurgeNested(ga, [a, b], visited).outcome == Outcome(false, [a, b], [c])
  {
    var va, vc, none: Graph := visited + {a}, visited + {a} + {b} + {c}, map[];
    assert !CoReferenced(ga, a, visited) && !CoReferenced(gb, b, va);
    assert PurgeNested(gb, [b], va) == Sweep(none, vc, Outcome(false, [b], [])) by {
      assert [b][1..] == [];
      assert PurgeNested(none, [], vc) == Sweep(none, vc, Outcome(false, [], []));
    }
    assert [a, b][1..] == [b];
  }

  lemma WithoutShort(x: Key, y: Key, k: Key)
    requires x != k && y != k
    ensures Without([x], k) == [x] && Without([x, y], k) == [x, y]
  {
    assert [x][1..] == [] && [x, y][1..] == [y] && [y][1..] == [];
  }

  lemma PurgeSkips(gb: Graph, ga: Graph, a: Key, b: Key, c: Key, visited: set<Key>)
    requires a != b && a != c && b != c && a !in visited && b !in visited && c !in visited
    requires gb == map[b := [c]] && ga == map[a := [c], b := [c]]
    ensures Purge(ga, a, visited) == Sweep(gb, visited + {a}, Outcome(true, [], [c]))
  {
    WithoutShort(c, c, a);
    assert ga - {a} == gb;
    var v := visited + {a};
    assert CoReferenced(gb, c, v) by { assert b in gb; }
    assert PurgeNested(gb, [c], v) == Sweep(gb, v, Outcome(false, [], [c])) by {
      assert PurgeNested(gb, [], v) == Sweep(gb, v, Outcome(false, [], []));
      assert [c][1..] == [];
    }
    assert ga[a] == [c];
    assert Keep([c], []) == [c] by { assert [c][1..] == []; }
  }

  lemma PurgeForgets(gb: Graph, b: Key, c: Key, visited: set<Key>)
    requires b != c && b !in visited && c !in visited && gb == map[b := [c]]
    ensures Purge(gb, b, visited) == Sweep(map[], visited + {b} + {c}, Outcome(true, [], []))
  {
    WithoutShort(c, c, b);
    var none: Graph := map[];
    var v := visited + {b};
    assert gb - {b} == none && gb[b] == [c];
    assert PurgeNested(none, [c], v) == Sweep(none, v + {c}, Outcome(false, [], [])) by {
      assert Purge(none, c, v) == Sweep(none, v + {c}, Outcome(false, [], []));
      assert PurgeNested(none, [], v + {c}) == Sweep(none, v + {c}, Outcome(false, [], []));
      assert [c][1..] == [];
    }
  }

  // ---------- Hashes that are not stored ----------

  // Every skipped hash is one that a survivor mentions.
  ghost predicate Honest(r: Sweep) {
    forall h | h in r.outcome.sharedSkipped :: exists q | q in r.graph :: q != h && h in r.graph[q]
  }

  // The entries mention the same hashes, in any order.
  ghost predicate SameMarkers(g: Graph, g': Graph) {
    g.Keys == g'.Keys && forall k, h | k in g :: h in g[k] <==> h in g'[k]
  }

  // Two of the entries that go mention `h`, and none of those that stay.
  ghost predicate Orphaned(g: Graph, top: Key, h: Key) {
    && (exists d, q | d in Least(g, top) && q in Least(g, top) :: d != q && h in g[d] && h in g[q])
    && forall k | k in g && h in g[k] :: k in Least(g, top)
  }

  ghost predicate MentionedTwice(g: Graph, left: Graph, h: Key) {
    exists d, q | d in g && q in g :: d != q && d !in left && h in g[d] && h in g[q]
  }

  lemma {:induction false} SkippedIsMentionedTwice(g: Graph, k: Key, visited: set<Key>, h: Key)
    requires visited !! g.Keys && h in Purge(g, k, visited).outcome.sharedSkipped
    ensures MentionedTwice(g, Purge(g, k, visited).graph, h)
    decreases g.Keys, 0
  {
    var g', nested := g - {k}, Without(g[k], k);
    var r := PurgeNested(g', nested, visited + {k});
    NestedReports(g', nested, visited + {k});
    NestedSkipIsMentionedTwice(g', nested, visited + {k}, h);
    if MentionedTwice(g', r.graph, h) {
      var d, q :| d in g' && q in g' && d != q && d !in r.graph && h in g'[d] && h in g'[q];
      assert d in g && q in g && h in g[d] && h in g[q];
    } else {
      var q :| q in g' && h in g'[q];
      assert h in g[k] && q in g && h in g[q];
    }
  }

  lemma {:induction false} NestedSkipIsMentionedTwice(g: Graph, nested: seq<Key>, visited: set<Key>, h: Key)
    requires visited !! g.Keys && h in PurgeNested(g, nested, visited).outcome.sharedSkipped
    ensures MentionedTwice(g, PurgeNested(g, nested, visited).graph, h) ||
            (h in nested && exists q | q in g :: h in g[q])
    decreases g.Keys, |nested| + 1
  {
    var h0, tail := nested[0], nested[1..];
    if h0 in visited {
      NestedSkipIsMentionedTwice(g, tail, visited, h);
    } else if CoReferenced(g, h0, visited) {
      if h != h0 { NestedSkipIsMentionedTwice(g, tail, visited, h); }
    } else {
      PurgeReports(g, h0, visited);
      var child := Purge(g, h0, visited);
      var rest := PurgeNested(child.graph, tail, child.visited);
      NestedReports(child.graph, tail, child.visited);
      if h in child.outcome.sharedSkipped {
        SkippedIsMentionedTwice(g, h0, visited, h);
      } else {
        NestedSkipIsMentionedTwice(child.graph, tail, child.visited, h);
        TwiceInTheWhole(child.graph, g, rest.graph, h);
      }
    }
  }

  lemma TwiceInTheWhole(part: Graph, whole: Graph, left: Graph, h: Key)
    requires SubGraph(part, whole)
    ensures MentionedTwice(part, left, h) ==> MentionedTwice(whole, left, h)
    ensures (exists q | q in part :: h in part[q]) ==> exists q | q in whole :: h in whole[q]
  {
    if MentionedTwice(part, left, h) {
      var d, q :| d in part && q in part && d != q && d !in left && h in part[d] && h in part[q];
      assert h in whole[d] && h in whole[q];
    }
    if q :| q in part && h in part[q] { assert h in whole[q]; }
  }

  // The same entries, with `h` as their first marker where they mention it.
  function Promoted(g: Graph, h: Key): Graph {
    map k | k in g :: if h in g[k] then [h] + Without(g[k], h) else g[k]
  }

  ghost predicate ListedFirst(g: Graph, h: Key) { forall k | k in g && h in g[k] :: g[k][0] == h }

  // None of the entries that mention `h` has gone, and `h` has not been looked at.
  ghost predicate Untouched(g: Graph, r: Sweep, h: Key) {
    h !in r.visited && forall k | k in g && h in g[k] :: k in r.graph
  }

  lemma {:induction false} FirstOfTwoSkips(g: Graph, k: Key, visited: set<Key>, h: Key, d: Key, q: Key)
    requires visited !! g.Keys && h !in g && h !in visited && h != k && ListedFirst(g, h)
    requires d in g && q in g && d != q && h in g[d] && h in g[q]
    ensures h in Purge(g, k, visited).outcome.sharedSkipped || Untouched(g, Purge(g, k, visited), h)
    decreases g.Keys, 0
  {
    if k in g {
      var g', nested := g - {k}, Without(g[k], k);
      var r := PurgeNested(g', nested, visited + {k});
      NestedReports(g', nested, visited + {k});
      if h in g[k] {
        assert nested[0] == h;
        var other := if k == d then q else d;
        assert other in g' && other != h && h in g'[other];
        assert CoReferenced(g', h, visited + {k});
      } else {
        NestedFirstOfTwoSkips(g', nested, visited + {k}, h, d, q);
      }
      assert h !in r.outcome.nestedDeleted;
    }
  }

  lemma {:induction false} NestedFirstOfTwoSkips(g: Graph, nested: seq<Key>, visited: set<Key>, h: Key, d: Key,
                                                 q: Key)
    requires visited !! g.Keys && h !in g && h !in visited && h !in nested && ListedFirst(g, h)
    requires d in g && q in g && d != q && h in g[d] && h in g[q]
    ensures var r := PurgeNested(g, nested, visited); h in r.outcome.sharedSkipped || Untouched(g, r, h)
    decreases g.Keys, |nested| + 1
  {
    if nested != [] {
      var h0, tail := nested[0], nested[1..];
      if h0 in visited || CoReferenced(g, h0, visited) {
        NestedFirstOfTwoSkips(g, tail, visited, h, d, q);
      } else {
        var child := Purge(g, h0, visited);
        PurgeReports(g, h0, visited);
        FirstOfTwoSkips(g, h0, visited, h, d, q);
        if Untouched(g, child, h) {
          assert ListedFirst(child.graph, h);
          NestedFirstOfTwoSkips(child.graph, tail, child.visited, h, d, q);
        }
      }
    }
  }

  /** The report names only hashes that a survivor mentions, in whatever order the entries list their markers,
      if and only if no hash that is not stored is mentioned by two of the deleted entries and by no survivor. */
  lemma ReportIsHonestIff(g: Graph, top: Key)
    requires top in g
    ensures (forall g': Graph | SameMarkers(g, g') :: Honest(Purge(g', top, {}))) <==>
            !exists h :: h !in g && Orphaned(g, top, h)
  {
    if h :| h !in g && Orphaned(g, top, h) {
      OrphanIsReported(g, top, h);
    } else {
      forall g': Graph | SameMarkers(g, g') ensures Honest(Purge(g', top, {})) {
        NoOrphanIsReported(g, g', top);
      }
    }
  }

  lemma SameLeast(g: Graph, g': Graph, top: Key)
    requires top in g && SameMarkers(g, g')
    ensures Purge(g', top, {}).graph == g' - Least(g, top) && Least(g', top) == Least(g, top)
  {
    PurgeRemovesLeast(g, top);
    PurgeRemovesLeast(g', top);
    MarkerOrderIsImmaterial(g, g', top);
    assert Least(g, top) == g.Keys - Purge(g, top, {}).graph.Keys;
    assert Least(g', top) == g'.Keys - Purge(g', top, {}).graph.Keys;
  }

  lemma OrphanIsReported(g: Graph, top: Key, h: Key)
    requires top in g && h !in g && Orphaned(g, top, h)
    ensures SameMarkers(g, Promoted(g, h)) && !Honest(Purge(Promoted(g, h), top, {}))
  {
    var g' := Promoted(g, h);
    var d, q :| d in Least(g, top) && q in Least(g, top) && d != q && h in g[d] && h in g[q];
    SameLeast(g, g', top);
    FirstOfTwoSkips(g', top, {}, h, d, q);
    assert d !in Purge(g', top, {}).graph;
  }

  lemma NoOrphanIsReported(g: Graph, g': Graph, top: Key)
    requires top in g && SameMarkers(g, g') && !exists h :: h !in g && Orphaned(g, top, h)
    ensures Honest(Purge(g', top, {}))
  {
    var r := Purge(g', top, {});
    SameLeast(g, g', top);
    ReportIsExact(g', top);
    forall h | h in r.outcome.sharedSkipped && h !in g ensures exists q | q in r.graph :: q != h && h in r.graph[q] {
      SkippedIsMentionedTwice(g', top, {}, h);
      var d, q :| d in g' && q in g' && d != q && d !in r.graph && h in g'[d] && h in g'[q];
      var k := if q in r.graph then q else SurvivingReferent(g, top, h, d, q);
      assert k in r.graph && h in g'[k];
    }
  }

  ghost function SurvivingReferent(g: Graph, top: Key, h: Key, d: Key, q: Key): (k: Key)
    requires h !in g && !Orphaned(g, top, h)
    requires d in Least(g, top) && q in Least(g, top) && d != q && h in g[d] && h in g[q]
    ensures k in g && k !in Least(g, top) && h in g[k]
  {
    var k :| k in g && h in g[k] && k !in Least(g, top);
    k
  }

  // ---------- The purge as a garbage collector ----------

  ghost predicate FollowsMarkers(g: Graph, c: set<Key>) {
    forall k, h | k in c && k in g && h in g && h in g[k] :: h in c
  }

  // The stored hashes that can be reached from `roots` along markers.
  ghost function Reach(g: Graph, roots: set<Key>): set<Key> {
    set h | h in g && forall c: set<Key> {:trigger FollowsMarkers(g, c)} | roots <= c && FollowsMarkers(g, c) :: h in c
  }

  // The entries that can be reached without going through `top` from one that `top` does not lead to.
  ghost function HeldElsewhere(g: Graph, top: Key): set<Key> {
    Reach(g - {top}, g.Keys - Reach(g, {top}))
  }

  // What a collector would have removed and the purge leaves behind.
  ghost function Leftover(g: Graph, top: Key): set<Key> {
    Reach(g, {top}) - HeldElsewhere(g, top) - Least(g, top)
  }

  ghost predicate Protected(g: Graph, m: set<Key>, h: Key) {
    exists q | q in m && q in g :: q != h && h in g[q]
  }

  ghost predicate ProtectedWithin(g: Graph, m: set<Key>) {
    forall h {:trigger Protected(g, m, h)} | h in m :: Protected(g, m, h)
  }

  // Every member is mentioned by another member, none is held from outside, and `top` leads to all of them.
  ghost predicate MutuallyProtecting(g: Graph, top: Key, m: set<Key>) {
    && m <= Reach(g, {top}) - HeldElsewhere(g, top) - {top}
    && ProtectedWithin(g, m)
  }

  lemma LeastIsReachable(g: Graph, top: Key)
    requires top in g
    ensures Least(g, top) <= Reach(g, {top})
  {
    var r := Reach(g, {top});
    forall h | Owned(g, r, h) ensures h in r {
      var d :| d in r && d in g && h in g[d];
      assert forall c: set<Key> | {top} <= c && FollowsMarkers(g, c) :: d in c;
    }
    assert Closed(g, top, r);
  }

  /** Nothing that is held without the purged entry is ever deleted. */
  lemma HeldEntriesSurvive(g: Graph, top: Key)
    requires top in g
    ensures HeldElsewhere(g, top) <= Purge(g, top, {}).graph.Keys
  {
    PurgeRemovesLeast(g, top);
    LeastIsReachable(g, top);
    var survivors := g.Keys - Least(g, top);
    forall k, h | k in survivors && k in g - {top} && h in g - {top} && h in (g - {top})[k] ensures h in survivors {
      if k != h { SurvivorsStayResolvable(g, top, k, h); }
    }
    assert FollowsMarkers(g - {top}, survivors);
    assert g.Keys - Reach(g, {top}) <= survivors;
  }

  lemma ReachedFromAnother(g: Graph, top: Key, h: Key) returns (p: Key)
    requires top in g && h in Reach(g, {top}) && h != top
    ensures p in Reach(g, {top}) && p != h && h in g[p]
  {
    var r := Reach(g, {top});
    if !exists p | p in r :: p != h && h in g[p] {
      forall k, x | k in r - {h} && k in g && x in g && x in g[k] ensures x in r - {h} {
        assert forall c: set<Key> | {top} <= c && FollowsMarkers(g, c) :: x in c;
      }
      assert FollowsMarkers(g, r - {h});
      assert false;
    }
    p :| p in r && p != h && h in g[p];
  }

  lemma HeldIsPassedOn(g: Graph, top: Key, q: Key, h: Key)
    requires top in g && q in g && h in g && h in g[q] && q != top && h != top
    requires q in HeldElsewhere(g, top) || q !in Reach(g, {top})
    ensures h in HeldElsewhere(g, top)
  {
    var g' := g - {top};
    forall c: set<Key> | g.Keys - Reach(g, {top}) <= c && FollowsMarkers(g', c) ensures h in c {
      assert q in c && q in g' && h in g'[q];
    }
  }

  /** Only mutually protecting entries stay behind, and they always do: the purge is an exact garbage
      collector if and only if the named entry leads to no such group. */
  lemma GarbageStaysIffMutuallyProtected(g: Graph, top: Key)
    requires top in g
    ensures MutuallyProtecting(g, top, Leftover(g, top))
    ensures forall m: set<Key> | MutuallyProtecting(g, top, m) :: m <= Leftover(g, top)
    ensures Purge(g, top, {}).graph.Keys == (g.Keys - Reach(g, {top})) + HeldElsewhere(g, top) + Leftover(g, top)
  {
    PurgeRemovesLeast(g, top);
    HeldEntriesSurvive(g, top);
    LeastIsReachable(g, top);
    var left, least := Leftover(g, top), Least(g, top);
    forall h | h in left ensures Protected(g, left, h) {
      var p := ReachedFromAnother(g, top, h);
      var q := p;
      if p in least {
        assert !Owned(g, least, h);
        q :| q in g && q != h && h in g[q] && q !in least;
      }
      if q in HeldElsewhere(g, top) || q !in Reach(g, {top}) {
        HeldIsPassedOn(g, top, q, h);
      }
      assert q in left;
    }
    forall m: set<Key> | MutuallyProtecting(g, top, m) ensures m <= left {
      MutualGroupSurvives(g, top, m);
    }
  }

  lemma MutualGroupSurvives(g: Graph, top: Key, m: set<Key>)
    requires top in g && MutuallyProtecting(g, top, m)
    ensures m !! Least(g, top)
  {
    var rest := g.Keys - m;
    assert ProtectedWithin(g, m);
    forall h | h in m ensures !Owned(g, rest, h) {
      assert Protected(g, m, h);
      var q :| q in m && q in g && q != h && h in g[q];
      assert q !in rest;
    }
    assert Closed(g, top, rest);
  }

  ghost predicate Ranked(g: Graph, top: Key, rank: Key -> nat) {
    forall k, h | k in g && h in g && k != h && h != top && h in g[k] :: rank(k) < rank(h)
  }

  /** When the markers form no cycle, except back to the named entry or from an entry to itself, nothing is
      left behind: exactly the entries held without the named one survive. */
  lemma AcyclicPurgeIsExact(g: Graph, top: Key, rank: Key -> nat)
    requires top in g && Ranked(g, top, rank)
    ensures Purge(g, top, {}).graph.Keys == (g.Keys - Reach(g, {top})) + HeldElsewhere(g, top)
  {
    GarbageStaysIffMutuallyProtected(g, top);
    forall h | h in Leftover(g, top) ensures false {
      NoLowestMember(g, top, rank, Leftover(g, top), h);
    }
  }

  lemma {:induction false} NoLowestMember(g: Graph, top: Key, rank: Key -> nat, m: set<Key>, h: Key)
    requires Ranked(g, top, rank) && ProtectedWithin(g, m) && m <= g.Keys && top !in m
    requires h in m
    ensures false
    decreases rank(h)
  {
    assert Protected(g, m, h);
    var q :| q in m && q in g && q != h && h in g[q];
    NoLowestMember(g, top, rank, m, q);
  }

  /** The smallest group that stays behind: two entries that mention each other. */
  lemma MutualPairStaysBehind(g: Graph, t: Key, a: Key, b: Key)
    requires t != a && t != b && a != b && g == map[t := [a], a := [b], b := [a]]
    ensures Purge(g, t, {}).graph == g - {t} && Leftover(g, t) == {a, b}
  {
    PairIsSkipped(g, t, a, b);
    PurgeRemovesLeast(g, t);
    var left := Purge(g, t, {}).graph;
    assert Least(g, t) == {t} by {
      assert forall h | h in g :: h in Least(g, t) <==> h !in left;
    }
    assert Reach(g, {t}) == g.Keys by { PairIsReached(g, t, a, b); }
    assert HeldElsewhere(g, t) == {} by { assert FollowsMarkers(g - {t}, {}); }
    assert g.Keys == {t, a, b};
  }

  lemma PairIsReached(g: Graph, t: Key, a: Key, b: Key)
    requires t in g && a in g && b in g && a in g[t] && b in g[a] && g.Keys == {t, a, b}
    ensures Reach(g, {t}) == g.Keys
  {
    forall c: set<Key> | {t} <= c && FollowsMarkers(g, c) ensures a in c && b in c {
      assert t in c;
    }
  }

  lemma PairIsSkipped(g: Graph, t: Key, a: Key, b: Key)
    requires t != a && t != b && a != b && g == map[t := [a], a := [b], b := [a]]
    ensures Purge(g, t, {}).graph == g - {t}
  {
    var g' := g - {t};
    WithoutShort(a, a, t);
    assert CoReferenced(g', a, {t}) by { assert b in g'; }
    assert PurgeNested(g', [a], {t}).graph == g' by {
      assert [a][1..] == [] && PurgeNested(g', [], {t}).graph == g';
    }
    assert {} + {t} == {t} && g[t] == [a];
  }
}
