# A model of furl-ctx's retrieval core

furl-ctx compresses what an agent reads and keeps every original retrievable: a compressed text carries markers such as
`<<ccr:HASH>>`, and the store resolves a hash to the original. This project models the parts on which that promise
rests, and proves what they promise, for all inputs and all runs.

- `StoreSpec`, `CompressionStore`: the store, as a function on its state and as a class with the fields of the
  original. It has a map of live entries with a TTL each, a heap of `(created_at, key)` tuples that is cleaned lazily, a
  counter of stale tuples, and an optional spill tier for entries evicted for capacity. Each method is proved to be its
  function.
- `Eviction`: what the eviction loop evicts, from any heap, and the bookkeeping of every reachable state.
- `Retention`: what a caller gets back over whole runs. With a well-behaved spill tier the bounded store answers like
  an unbounded table.
- `Laws`: what each operation does to each row, and for how long a stored row is sure to be found.
- `Departures`: runs of calls that reach the states in which the store departs from its description.
- `Cascade`: the recursive purge, on the graph of which entry mentions which.
- `RetrievalFeedback`: the sliding-window counter, against the log of everything ever recorded.
- `Unflatten`, `UnflattenInPlace`: folding dotted keys back into nested objects, as a function on values and as methods
  that update dictionaries in place.
- `Chunkers`: word windows and packs of lines.
- `Scanning`, `Markers`: matching and replacing the double-angle markers.
- `Partition`, `Text`: runs of lines, `split` and `join`.
- `Order`, `Sequences`, `Wrappers`: the order of heap tuples, sequences without repetitions, and `Option` and `Result`.

Time is `real`, every call takes its clock reading as an argument, and calls happen one after the other. The spill tier
may fail: `Faults` says which of its operations raise during one call, and `SpillLoss` drops rows of its own accord.

## Where the code differs from its description

- A collision is said to make the key miss. With a spill tier that still holds a live row of the key, that row is served
  (`CollisionMissesUnlessSpilled`); four stores reach this (`CollisionCanBeServed`).
- `exists_any_tier` is said to answer the question that `retrieve` answers. In one state it does not: an expired primary
  row hides a live spill row for one call (`ReadBackAgreesUnlessHidden`); three stores reach it (`HiddenRowIsReached`).
- `nested_shared_skipped` is said to list what another live entry still references. A hash that is not stored can be
  listed without such an entry (`AbsentHashReportedShared`); `ReportIsHonestIff` says exactly when.
- Issue #11 speaks of two entries that reference each other. The same holds of every group whose members each are
  mentioned by another one (`GarbageStaysIffMutuallyProtected`).
- Exact hash widths are enforced when markers are extracted, not when they are substituted (`WidthsAccepted`).

## Model

| member | source | states |
|---|---|---|
| `Cascade.PurgeRemovesLeast` | furl_ctx/cache/compression_store.py:1726-1799 | A cascade on a stored hash removes exactly the least set that holds it and every stored entry that a member mentions and no entry outside the set mentions; the recursion terminates on every graph, cycles included |
| `Cascade.LeastIsOwned` | furl_ctx/cache/compression_store.py:1735-1751 | Every deleted entry but the named one is mentioned by a deleted entry and by no survivor: nothing shared with a survivor is deleted |
| `Cascade.SurvivorsStayResolvable` | furl_ctx/cache/compression_store.py:1747-1753 | No survivor mentions a deleted hash other than the named one, and a survivor that a deleted entry mentioned is still mentioned by another survivor (diamonds, self-references and back-references allowed) |
| `Cascade.MarkerOrderIsImmaterial` | furl_ctx/cache/compression_store.py:1778-1788 | Which entries survive does not depend on the order or repetition of the markers in an entry, although the order decides what is skipped on the way |
| `Cascade.ReportIsExact` | furl_ctx/cache/compression_store.py:1789-1799 | `nested_deleted` lists, without repetition, exactly the removed keys beside the named one; it is disjoint from `nested_shared_skipped`; a stored hash is skipped if and only if it survives and a deleted entry mentions it, and then another survivor mentions it too |
| `Cascade.ReportIsHonestIff` | furl_ctx/cache/compression_store.py:121-132 | The promise that every skipped hash is still referenced by a live entry fails for some hashes that are not stored. For any marker order, it holds if and only if no absent hash is mentioned by two deleted entries and by no survivor |
| `Cascade.AbsentHashReportedShared` | furl_ctx/cache/compression_store.py:1782-1784 | A concrete store in which the cascade deletes everything and still reports an absent hash as kept for another entry |
| `Cascade.HeldEntriesSurvive` | furl_ctx/cache/compression_store.py:1747-1751 | An entry that can be reached without the purged one, from an entry the purged one does not lead to, is never deleted |
| `Cascade.GarbageStaysIffMutuallyProtected` | furl_ctx/cache/compression_store.py:1762-1766 | Known gap #11, made exact: what a garbage collector would have removed and the cascade leaves behind is the greatest group of entries that mention each other, held from outside by nobody; it is empty if and only if there is no such group with a member |
| `Cascade.AcyclicPurgeIsExact` | furl_ctx/cache/compression_store.py:1764-1766 | Without marker cycles, other than back to the named entry or from an entry to itself, the cascade is an exact garbage collector |
| `Cascade.MutualPairStaysBehind` | furl_ctx/cache/compression_store.py:1762-1766 | The smallest instance of the gap: two entries that mention each other stay, though only the purged entry led to them |
| `Cascade.PurgeStaysWithin` | furl_ctx/cache/compression_store.py:1778-1788 | At every depth of the recursion, nothing outside any closed set is removed, and the visited set never holds a stored hash |
| `Cascade.PurgeLeavesNothingOwned` | furl_ctx/cache/compression_store.py:1778-1788 | When a call returns, every stored entry that has lost all its referents is still to be looked at by one of its callers |
| `Cascade.PurgeReports` | furl_ctx/cache/compression_store.py:1774-1799 | The report of a call at any depth lists exactly what that call removed, and skips exactly what survives it with a removed referent |
| `Eviction.EvictLoopFreesCapacity` | furl_ctx/cache/compression_store.py:1944-1990 | Whatever the heap and the stale counter hold (ghost tuples, missing live entries, a drained heap), the eviction loop ends, and ends below `max_entries` or with an empty store |
| `Eviction.EvictionEndsWithinCapacity` | furl_ctx/cache/compression_store.py:1944-1962 | The loop's guarantee: from any state it exits with `count() <= max_entries`, if and only if `max_entries` is not negative, and with room for one more if and only if it is at least 1 |
| `Eviction.StoreStaysWithinCapacity` | furl_ctx/cache/compression_store.py:688-741 | After the whole store, from any state: at most max(1, `max_entries`) live entries, and within `max_entries` if and only if that is at least 1, since the new entry is bound even where there is room for none |
| `Eviction.EvictLoopOnlyMoves` | furl_ctx/cache/compression_store.py:1968-1984 | From any heap, eviction changes no surviving entry, and the spill tier gains exactly the victims whose spill write did not fail |
| `Eviction.EvictLoopDropsOldest` | furl_ctx/cache/compression_store.py:1963-1990 | Under heap coverage eviction is oldest-first and minimal: every victim precedes every survivor in `(created_at, key)` order, min(live, max(0, `max_entries` - 1)) entries are kept, and the accounting stays exact |
| `Eviction.NewestAreDetermined` | furl_ctx/cache/compression_store.py:1963-1984 | Oldest-first and minimal leave only one possible outcome |
| `Eviction.StepKeepsSound` | furl_ctx/cache/compression_store.py:691-741 | Each call keeps the accounting: every live entry has its tuple in the heap, the stale counter is exactly the surplus, and the bounds on both hold; collision drops, duplicate stores, expiry, deletes and rebuilds included |
| `Eviction.StoreKeepsSound` | furl_ctx/cache/compression_store.py:691-741 | The same for `store`, through eviction, rebuild, collision drop, replacement and push |
| `Eviction.ReachableStatesAreSound` | furl_ctx/cache/compression_store.py:1933-1942 | Any sequence of calls keeps the accounting exact from any state in which it is, with at most max(1, `max_entries`) live entries and at most max(1, 2 * `max_entries` - 1) heap tuples |
| `Eviction.RunsFromEmptyAreSound` | furl_ctx/cache/compression_store.py:1933-1942 | So it is in every state that a new store reaches, for every capacity and spill tier |
| `Eviction.RunsForgetHeap` | furl_ctx/cache/compression_store.py:1927-1943 | The lazy heap is unobservable: two sound states with the same rows keep the same rows through every sequence of calls, whatever their heaps and counters hold |
| `Order.LessIsLexicographic` | furl_ctx/cache/compression_store.py:1972-1972 | Keys are ordered as Python orders strings: a proper prefix first, and else by the first difference |
| `Laws.EvictRows` | furl_ctx/cache/compression_store.py:1944-1984 | What eviction does to each row: dead rows go, the newest of the others stay, as many as leave room for one more, and each other one is in the spill tier, unless there is none or its write raised; no other spill row changes |
| `Laws.StoreRows` | furl_ctx/cache/compression_store.py:691-741 | What a store does to each row: it evicts, and then its key has the new row, or loses its row where that holds other content |
| `Laws.RetrieveRows` | furl_ctx/cache/compression_store.py:860-925 | A live row is served with its access counted, a dead one deleted and missed; a key without a row is looked up in the spill tier, which only loses a dead row, and every unreadable row misses |
| `Laws.ReadBackRows` | furl_ctx/cache/compression_store.py:1492-1534 | The read-back says yes if and only if either tier has a live row, or the spill tier cannot be read |
| `Laws.DeleteRows` | furl_ctx/cache/compression_store.py:1653-1676 | A delete takes the key from both tiers, unless the spill tier's delete raised, and says whether it took anything |
| `Laws.RecentRowHits` | furl_ctx/cache/compression_store.py:856-875 | The recovery window: a row stored as the newest one and without a collision is found, with what was stored, until its TTL is over, if fewer other stores follow than `max_entries` and no call stores the key again, deletes it or clears the store; with or without a spill tier, whatever fails, and whatever collides elsewhere |
| `Retention.HitIsLatestStored` | furl_ctx/cache/compression_store.py:860-875 | In a single-tier store, after any sequence of calls with any same-key collisions, a hit returns the content of the most recent store under that key |
| `Retention.CollisionMissesUnlessSpilled` | furl_ctx/cache/compression_store.py:692-728 | Right after a collision the key is unbound, and a retrieve misses if and only if the spill tier holds no live row of the key. The code's comment promises the miss without that condition |
| `Retention.CollisionMissesUntilStored` | furl_ctx/cache/compression_store.py:692-728 | After a collision with no live spill row of the key, as always in a single tier, every retrieve of the key misses until it is stored again, whatever calls run in between |
| `Departures.CollisionCanBeServed` | furl_ctx/cache/compression_store.py:692-728 | Four stores reach the other case: after a collision the retrieve serves an older third content of the key from the spill tier |
| `Retention.GoneStaysGone` | furl_ctx/cache/compression_store.py:1492-1534 | Once neither tier holds a live row of a key, every call that does not store it leaves it so |
| `Retention.ReadBackIsSound` | furl_ctx/cache/compression_store.py:1492-1534 | If `exists_any_tier` says no, `retrieve` misses then and at every later time, whatever calls run in between and whatever spill operations fail, until the key is stored again |
| `Retention.ReadBackAgreesUnlessHidden` | furl_ctx/cache/compression_store.py:1512-1517 | `exists_any_tier` agrees with `retrieve` if and only if it is not the case that an expired primary row hides a live spill row; the code's comment claims exact agreement |
| `Departures.HiddenRowIsReached` | furl_ctx/cache/compression_store.py:1512-1517 | Three stores with two TTLs reach that state: the read-back says yes, the next retrieve misses and the one after it hits |
| `Retention.ReadBackAgreesAfterRun` | furl_ctx/cache/compression_store.py:1512-1517 | After every run that the refinement below admits, the two agree on every key at every later time |
| `Retention.DeletedKeyMisses` | furl_ctx/cache/compression_store.py:1653-1676 | After `delete` the key misses, if and only if no live spill row has been left by a failing spill delete |
| `Retention.ClearReportsResidue` | furl_ctx/cache/compression_store.py:1801-1857 | `clear` empties the primary tier. It reports 0 without a spill tier or after a clean clear of it, else the number of spill rows that are left, or 1 where they cannot be counted; if it reports 0 every key misses |
| `Retention.StepStandsFor` | furl_ctx/cache/compression_store.py:1881-1925 | Refinement step: the two tiers together keep standing for one unbounded table, and each retrieve gives that table's answer |
| `Retention.EvictionIsInvisible` | furl_ctx/cache/compression_store.py:860-875 | With a spill tier that never fails or loses rows, every run in which a store over a live entry repeats its content and does not shorten its life gives the answers of an unbounded TTL table |
| `Retention.UniformIsAdmissible` | furl_ctx/cache/compression_store.py:1881-1925 | One TTL for all entries, keys that determine content and a monotone clock meet those conditions |
| `Retention.UniformRunsAreUnbounded` | furl_ctx/cache/compression_store.py:1973-1983 | So, from an empty store of any capacity, capacity eviction is invisible to every run of calls |
| `Retention.ResurfacesIffOutlived` | furl_ctx/cache/compression_store.py:860-879 | With mixed TTLs: a key that lies in both tiers can come back after it has expired, if and only if its spill row outlives its primary row |
| `CompressionStore.CompressionStore.constructor` | furl_ctx/cache/compression_store.py:456-541 | A store starts with the rows of its backend and an empty heap; with an empty backend its accounting is sound |
| `CompressionStore.CompressionStore.Create` | furl_ctx/cache/compression_store.py:520-523 | Negative retry attempts or backoffs are refused, and nothing else is |
| `CompressionStore.CompressionStore.PopLeast` | furl_ctx/cache/compression_store.py:1972-1972 | `heappop` takes the one least tuple, and nothing else |
| `CompressionStore.CompressionStore.CleanExpired` | furl_ctx/cache/compression_store.py:1992-2006 | Exactly the expired entries go, and the stale counter grows by their number |
| `CompressionStore.CompressionStore.RebuildHeap` | furl_ctx/cache/compression_store.py:2008-2020 | The heap becomes exactly the tuples of the live entries |
| `CompressionStore.CompressionStore.SpillEvicted` | furl_ctx/cache/compression_store.py:1881-1895 | A victim is handed to the spill tier unless there is none or its write fails |
| `CompressionStore.CompressionStore.PopOnce` | furl_ctx/cache/compression_store.py:1972-1990 | One turn of the loop evicts the entry of the least tuple if its creation time matches, and else drops a stale tuple |
| `CompressionStore.CompressionStore.EvictIfNeeded` | furl_ctx/cache/compression_store.py:1927-1990 | From any heap and counter, the loop computes the eviction specified by `StoreSpec.Evict` and ends below capacity or empty |
| `CompressionStore.CompressionStore.Store` | furl_ctx/cache/compression_store.py:548-789 | Refused inputs (a TTL that is not positive, a hash that is not hex or too short) change nothing and say why; otherwise the whole new state is evict-then-bind, within capacity, and the accounting is kept. An explicit hash is filed under its own digits, each in lower case. A caller that requires durability is refused exactly when a collision dropped the binding or no write attempt reached durable storage; if it is not refused, its row is there with both texts, its creation time and its TTL |
| `CompressionStore.CompressionStore.StoreAdmitted` | furl_ctx/cache/compression_store.py:688-741 | What happens under the lock: evict, then bind, and say whether a collision dropped the binding |
| `CompressionStore.CompressionStore.RetryDurablePersist` | furl_ctx/cache/compression_store.py:807-828 | The retries succeed exactly if one of them reaches durable storage, and change no row |
| `CompressionStore.Admit` | furl_ctx/cache/compression_store.py:620-670 | A call is admitted if and only if its TTL is positive or absent and its explicit hash, if any, has at least 6 digits, all hex; the key is the digest of the content, or the explicit hash with each of A to F, and no other digit, in lower case, which is the hash itself where it has none of those |
| `CompressionStore.CompressionStore.AdmitCall` | furl_ctx/cache/compression_store.py:620-670 | The checks and the key as the code computes them |
| `CompressionStore.CompressionStore.BindEntry` | furl_ctx/cache/compression_store.py:692-741 | The collision rule: other content under the key drops the binding and adds none; the same content replaces it |
| `CompressionStore.CompressionStore.Retrieve` | furl_ctx/cache/compression_store.py:830-916 | The hit and the whole new state: access is recorded, an expired row is deleted and misses, a primary miss falls through to the spill tier without promotion |
| `CompressionStore.CompressionStore.RecoverFromSpill` | furl_ctx/cache/compression_store.py:1897-1925 | A spill row is served while it is live; an expired one is reaped unless the delete fails; read errors are misses |
| `CompressionStore.CompressionStore.Exists` | furl_ctx/cache/compression_store.py:1467-1490 | True exactly for a live primary row; it changes the store only when asked to clean an expired one |
| `CompressionStore.CompressionStore.ExistsAnyTier` | furl_ctx/cache/compression_store.py:1492-1534 | A pure check over both tiers that counts an unreadable spill as present |
| `CompressionStore.CompressionStore.Delete` | furl_ctx/cache/compression_store.py:1653-1676 | Both tiers lose the key, the answer says whether either held it, and the accounting is kept |
| `CompressionStore.CompressionStore.DeleteFromSpill` | furl_ctx/cache/compression_store.py:1669-1675 | The spill row goes unless the delete raises, and a raised delete counts as nothing deleted |
| `CompressionStore.CompressionStore.Clear` | furl_ctx/cache/compression_store.py:1801-1828 | The primary, the heap and the counter are always reset, and the answer is the spill's residue |
| `CompressionStore.CompressionStore.ClearSpillResidual` | furl_ctx/cache/compression_store.py:1830-1857 | 0 for a cleared spill, the count of survivors after a failed clear, 1 when they cannot be counted |
| `CompressionStore.CompressionStore.EntryMarkerHashes` | furl_ctx/cache/compression_store.py:1678-1687 | Exactly the hashes that the scan finds in the compressed or in the original text, but for the excluded one, each once, in the order of the two texts one after the other |
| `CompressionStore.CompressionStore.IsCoReferenced` | furl_ctx/cache/compression_store.py:1689-1715 | True exactly if the compressed or the original text of a stored entry other than the hash itself and outside the ignored ones mentions it |
| `CompressionStore.CompressionStore.Cascade` | furl_ctx/cache/compression_store.py:1726-1799 | The recursion on both tiers, with its shared visited set, computes the purge of the graph in which a row that only the spill tier holds mentions nothing, and touches nothing but the deleted rows and the stale counter |
| `CompressionStore.CompressionStore.DeleteCascadeDetailed` | furl_ctx/cache/compression_store.py:1726-1799 | The least owned set is gone from both tiers, but for spill rows whose delete raised, and the accounting is kept; a hash that neither tier holds changes nothing. On rows: every other row is as it was; a stored hash that a text of a deleted row mentions is gone or mentioned by a text of another surviving row; what is gone beside the named row was mentioned by a deleted row and by no survivor; nothing goes that these rules do not force; the report lists exactly what is gone, and which survivors a deleted row mentions |
| `CompressionStore.PurgedTreeMisses` | furl_ctx/retrieve.py:137-143 | Whatever the report calls deleted, unless its spill delete raised, misses then and at every later time until it is stored again |
| `CompressionStore.CascadeIsExact` | furl_ctx/cache/compression_store.py:1726-1799 | What the purge of the graph means for the rows of both tiers |
| `CompressionStore.CascadeOnRows` | furl_ctx/cache/compression_store.py:1678-1799 | What the least owned set means for the two texts of each row: nothing dangles, nothing shared goes, no more goes than has to, and the report says so |
| `Chunkers.OverlapIsExact` | furl_ctx/cache/compression_store.py:1307-1342 | Every run of `len` consecutive words lies wholly inside some record if and only if `len` is at most 51, also at the tail where the loop stops early |
| `Chunkers.RunStandsInText` | furl_ctx/cache/compression_store.py:1326-1338 | Every run of up to 51 consecutive words, and so every word, stands in the text of a record, at the place that its word numbers say |
| `Chunkers.WordChunks` | furl_ctx/cache/compression_store.py:1304-1342 | More than 350 words: record i has the words from number 300 * i + 1 on, 350 of them or as many as there are, joined with spaces, and the last record is the first that reaches the last word; a shorter text is one record |
| `Chunkers.PackIsPacking` | furl_ctx/cache/compression_store.py:1352-1380 | The greedy packs are the lines in order, each pack within 2000 characters or a single line |
| `Chunkers.FirstPackIsLongest` | furl_ctx/cache/compression_store.py:1354-1370 | The first pack is the longest run of leading lines that fits |
| `Chunkers.PackIsOptimal` | furl_ctx/cache/compression_store.py:1345-1380 | No other way of cutting the lines into packs that fit uses fewer packs |
| `Chunkers.LineChunks` | furl_ctx/cache/compression_store.py:1345-1380 | The loop makes one record of each greedy pack: the records are consecutive stretches of the lines, from the first to the last, each joined with newlines and numbered |
| `Chunkers.LineChunksAreLossless` | furl_ctx/cache/compression_store.py:1345-1380 | Joined with newlines the records are the text, line numbers tile 1..n, and each record is one line or shorter than 2000 characters |
| `Chunkers.RecordsAreFewest` | furl_ctx/cache/compression_store.py:1345-1380 | No other way of cutting the lines into stretches that are single lines or shorter than 2000 characters needs fewer records |
| `Chunkers.PlainTextItems` | furl_ctx/cache/compression_store.py:1292-1342 | White space alone gives no records; several lines give packs that rejoin to the text with unified newlines; one line gives a single record of its words, or exactly the word windows if there are more than 350 |
| `Chunkers.NormalizeFromTheFront` | furl_ctx/cache/compression_store.py:1302-1302 | Each `\r\n` and each other `\r` becomes one newline, and no other character changes |
| `Chunkers.NormalizeIsIdentity` | furl_ctx/cache/compression_store.py:1302-1302 | A text without carriage returns is left as it is |
| `Chunkers.WordsAreRuns` | furl_ctx/cache/compression_store.py:1307-1307 | Words are not empty and hold no white space, and the text is the words in order with white space before, after and between them, at least one character of it between two |
| `RetrievalFeedback.Check` | furl_ctx/cache/retrieval_feedback.py:208-229 | The constructor's checks accept exactly the coherent tunables |
| `RetrievalFeedback.RetrievalFeedback.Create` | furl_ctx/cache/retrieval_feedback.py:188-241 | Incoherent tunables are refused with the first failing check; otherwise the aggregator starts empty |
| `RetrievalFeedback.VerdictMatchesLog` | furl_ctx/cache/retrieval_feedback.py:255-293 | While no still-live shape of the lookup has been evicted, the hint and skip decisions are those of counting, in everything ever recorded, the in-window events of the shape and, for a named tool, of no tool and the same content type; otherwise they never ask for more |
| `RetrievalFeedback.EventCounts` | furl_ctx/cache/retrieval_feedback.py:262-268 | An event counts towards a lookup if and only if it is in the window and has the shape of the lookup or, for a named tool, no tool and the content type of the lookup |
| `RetrievalFeedback.BucketCounts` | furl_ctx/cache/retrieval_feedback.py:302-317 | A bucket never counts more than was recorded in the window, and exactly that, up to `max_events_per_shape`, while nothing has been lost |
| `RetrievalFeedback.SuffixCount` | furl_ctx/cache/retrieval_feedback.py:247-253 | Keeping only the newest events of a sorted log loses nothing but counts beyond the bound |
| `RetrievalFeedback.PruneTracks` | furl_ctx/cache/retrieval_feedback.py:302-317 | Popping aged events leaves the in-window count, and later counts, as they were |
| `RetrievalFeedback.AppendTracks` | furl_ctx/cache/retrieval_feedback.py:243-253 | Appending to a bounded deque keeps the buckets in step with the log |
| `RetrievalFeedback.ReapingIsInvisible` | furl_ctx/cache/retrieval_feedback.py:319-329 | Reaping decayed shapes changes no count at that or any later time |
| `RetrievalFeedback.EvictionTracks` | furl_ctx/cache/retrieval_feedback.py:330-332 | A forced eviction loses only what it is booked to lose |
| `RetrievalFeedback.ForcedIffTooManyLive` | furl_ctx/cache/retrieval_feedback.py:319-332 | As long as nothing live has been lost, a live shape is evicted if and only if more shapes are live, the recorded one included, than there are buckets |
| `RetrievalFeedback.TracksLater` | furl_ctx/cache/retrieval_feedback.py:302-313 | The passing of time keeps the buckets in step with the log |
| `RetrievalFeedback.RetrievalFeedback.RecordRetrieval` | furl_ctx/cache/retrieval_feedback.py:243-253 | The event is logged and appended to its bucket; the other buckets change only if the shape is new and every bucket is taken: then the decayed ones go and, if none had decayed, the one whose newest event is no later than any other's |
| `RetrievalFeedback.RetrievalFeedback.MakeRoom` | furl_ctx/cache/retrieval_feedback.py:247-250 | A new shape gets a bucket within `max_shapes`, and an existing one costs nothing |
| `RetrievalFeedback.RetrievalFeedback.EvictOneShape` | furl_ctx/cache/retrieval_feedback.py:319-332 | Decayed shapes go first; only if all buckets are live does the stalest one go |
| `RetrievalFeedback.RetrievalFeedback.FindStalest` | furl_ctx/cache/retrieval_feedback.py:331-331 | `min` by newest event |
| `RetrievalFeedback.RetrievalFeedback.CountInWindow` | furl_ctx/cache/retrieval_feedback.py:302-317 | The count of in-window events, with the aged ones popped and an emptied bucket deleted |
| `RetrievalFeedback.RetrievalFeedback.GetHints` | furl_ctx/cache/retrieval_feedback.py:255-293 | The count is that of the shape's own bucket and, for a named tool, the anonymous one, and the skip and keep-budget hints follow the thresholds; they are what the full log calls for unless a live shape of the lookup was evicted |
| `RetrievalFeedback.RetrievalFeedback.Clear` | furl_ctx/cache/retrieval_feedback.py:295-298 | All signals are dropped |
| `Unflatten.UnflattenConserves` | verify/independent_recheck.py:67-100 | The multiset of (fully dotted path, scalar) pairs is the same before and after: no value is lost, duplicated or overwritten |
| `Unflatten.CanonicalIffFixed` | verify/independent_recheck.py:80-85 | A value is left alone if and only if every dotted key in it is one that cannot be folded in |
| `Unflatten.UnflattenIsCanonical` | verify/independent_recheck.py:80-85 | Every result is of that form |
| `Unflatten.UnflattenIsIdempotent` | verify/independent_recheck.py:67-100 | Unflattening twice is unflattening once |
| `Unflatten.UnflattenUndoesFlatten` | verify/independent_recheck.py:68-78 | Unflattening undoes dotted flattening, which leaves no object inside, of every tree with non-empty, dot-free field names and no empty inner object |
| `Unflatten.InsertConserves` | verify/independent_recheck.py:42-64 | An insertion adds the leaves of the value at its dotted path, and nothing else changes |
| `Unflatten.InsertFailsIffBlocked` | verify/independent_recheck.py:43-47 | An insertion is refused if and only if the path is taken or runs through something that is not an object |
| `Unflatten.BlockedStaysBlocked` | verify/independent_recheck.py:97-99 | A path that is blocked stays blocked under later insertions, so the sorted order never has to be revisited |
| `Unflatten.ShorterKeyWins` | verify/independent_recheck.py:97-99 | Of two dotted keys one of which continues the other, the shorter is folded in first where it is not blocked; the longer then stays literal, unless the value of the shorter is an object with room for it |
| `Unflatten.DottedSpelled` | verify/independent_recheck.py:92-96 | A key is to be folded in if and only if it has a dot, neither starts nor ends with one, and has no two in a row |
| `Unflatten.InsertAddsPath` | verify/independent_recheck.py:42-64 | Inserting a missing path of a tree into a part of that tree gives the part with that path |
| `UnflattenInPlace.Dictionary.Add` | verify/independent_recheck.py:51-57 | The field is added in place, and nothing is shared with another field |
| `UnflattenInPlace.Dictionary.InsertNested` | verify/independent_recheck.py:42-64 | In place, the dictionary comes to stand for the specified insertion; where that is refused no dictionary reachable from it has changed |
| `UnflattenInPlace.Dictionary.FoldIn` | verify/independent_recheck.py:97-99 | A dotted key that cannot be folded in is kept literally |
| `UnflattenInPlace.UnflattenDotted` | verify/independent_recheck.py:67-100 | The loops over mutable dictionaries compute the specified value, out of new dictionaries only: the input is never changed |
| `Scanning.SubWithinBudget` | furl_ctx/ccr/marker_grammar.py:365-380 | The text between the matches stays, and in place of each match stands the content of its hash, or the match itself where there is none; for a single match: the text before it, the content, the text after it |
| `Scanning.Expand` | furl_ctx/retrieve.py:184-195 | Each pattern in turn makes such a pass over what the one before it has left, and the last pass gives the result |
| `Scanning.ExpandPasses` | furl_ctx/retrieve.py:184-195 | The same of the specification, for any list of patterns |
| `Scanning.MissesLeaveTheText` | furl_ctx/ccr/marker_grammar.py:365-380 | Where no matched hash resolves, splicing gives back the text, whatever else the store holds |
| `Scanning.ExpandIsIdentityOnMisses` | furl_ctx/retrieve.py:184-195 | A text whose own markers all miss comes back as it is, for any list of patterns and whatever else the store holds |
| `Scanning.HashesInText` | furl_ctx/ccr/marker_grammar.py:383-397 | The loops collect exactly the hashes of all matches of all patterns, each once, those of an earlier pattern first and, within a pattern, those of an earlier match first |
| `Scanning.PassFromTheFront` | furl_ctx/ccr/marker_grammar.py:343-380 | Splicing over the list of leftmost matches is substituting from the front of the text to its end |
| `Markers.MarkerMatchesWhole` | furl_ctx/ccr/marker_grammar.py:185-196 | On a grammatical marker the full-span pattern matches the marker exactly, and the extraction pattern one byte beyond its hash; both capture the hash |
| `Markers.SubstitutionReplacesMarkers` | furl_ctx/ccr/marker_grammar.py:162-223 | For a text of prefix-free segments and grammatical markers, one pass replaces each marker's complete span and nothing else |
| `Markers.PassReplacesMarkers` | furl_ctx/ccr/marker_grammar.py:365-380 | So does the splice that `sub_within_budget` makes of the matches |
| `Markers.PassExpandsMarkers` | furl_ctx/retrieve.py:184-195 | Written out: segments without `<<ccr:` and markers of 12 or 24 hex digits with a tail become the same segments with, in place of each marker, the content of its hash, or the marker where there is none |
| `Markers.ExpandReplacesMarkers` | furl_ctx/retrieve.py:184-195 | So does the expansion with all patterns, where the others find nothing |
| `Markers.ExtractionFindsHashes` | furl_ctx/ccr/marker_grammar.py:158-160 | On markers with the producers' separators, the extraction pattern finds in order the hashes that substitution resolves |
| `Markers.HashesAreFound` | furl_ctx/ccr/marker_grammar.py:383-397 | So `hashes_in_text` gives exactly the hashes written in the markers, each once and in the order of their first markers, where the bracket patterns find nothing |
| `Markers.MissesAreLeftInPlace` | furl_ctx/retrieve.py:193-193 | A grammatical text none of whose markers resolve is unchanged by the replacement |
| `Markers.WidthsAccepted` | furl_ctx/ccr/marker_grammar.py:185-223 | What each pattern matches, and which hash it captures, for any number of digits and any tail: extraction accepts 12 or 24 digits before a separator; substitution accepts exactly the markers whose digits beyond 24, or else beyond 12, fit with the tail into 64 characters |
| `Partition.FlagsAreEligibility` | furl_ctx/ccr/compress_modes.py:425-450 | In any partition each line lies in a run of its own eligibility |
| `Partition.ExcludingOnlyProtects` | furl_ctx/ccr/compress_modes.py:280-307 | Adding exclude patterns protects exactly the lines that match one of them, and never makes a line eligible |
| `Partition.IncludingOnlyOffers` | furl_ctx/ccr/compress_modes.py:280-307 | Where there are include patterns, adding some keeps every eligible line eligible and adds exactly the lines they would offer by themselves |
| `Partition.PartitionContent` | furl_ctx/ccr/compress_modes.py:425-450 | The loop returns alternating runs of one kind each that hold the lines in order and rejoin to the content character for character |
| `Partition.RunsRejoin` | furl_ctx/ccr/compress_modes.py:428-431 | Any runs that hold the lines of the content rejoin to it |
| `Partition.FirstRunIsLongest` | furl_ctx/ccr/compress_modes.py:418-419 | A run is the longest stretch of lines of its kind |
| `Partition.RunsAreDetermined` | furl_ctx/ccr/compress_modes.py:418-431 | There is no other way to cut the content into alternating runs of one kind each: the runs are maximal |
| `Text.JoinOfSplit` | furl_ctx/ccr/compress_modes.py:428-434 | Joining what `split` gave with the separator gives back the text, and no part holds the separator |
| `Text.SplitOfJoin` | furl_ctx/ccr/compress_modes.py:428-434 | Splitting what was joined of parts free of the separator gives back the parts |

## Left out

- CompressionStore.CompressionStore.Cascade: what a spilled row mentions is not followed and does not count as a reference, because the code reads the primary tier alone.
- CompressionStore.CompressionStore.constructor: a backend that is reopened with rows, and `ccr_import`, give entries without heap tuples; only the results from any heap at all (`EvictLoopFreesCapacity`, `EvictionEndsWithinCapacity`, `StoreStaysWithinCapacity`, `EvictLoopOnlyMoves`) and those of `Retention` cover them.
- CompressionStore.CompressionStore.Store: one step, with its retries. The code releases its lock between them, so a retry may write a row back that another thread has meanwhile evicted; this interleaving is not part of the model. SHA-256 is the parameter `digest`.
- CompressionStore.CompressionStore.PopLeast: the heap is the multiset of its tuples with a least-first pop; the array layout of `heapq` is not modelled.
- CompressionStore.CompressionStore.EntryMarkerHashes: `hashes_in_text` with its cheap pre-check is the parameter `scan`.
- CompressionStore.CompressionStore.Retrieve: access bookkeeping is a count; recorded queries, event logs, previews, redaction and the emission of feedback signals are not modelled.
- RetrievalFeedback.VerdictMatchesLog: the reported number of retrievals may fall short of the log's above `max_events_per_shape`; the decision does not.
- RetrievalFeedback.RetrievalFeedback.FindStalest: which of several equally stale shapes goes depends on insertion order in the code and is left open here.
- RetrievalFeedback.RetrievalFeedback.RecordRetrieval: shapes come normalised, and calls are sequential. The code reads its clock before it takes the lock, so interleaved threads may append out of order.
- UnflattenInPlace.UnflattenDotted: reads the items of a list out as values, where the code keeps references, since it never updates them again; dotted fields wait in a dictionary rather than in a list that is sorted. The input is a value, and the order of fields in the result is not modelled.
- Unflatten.UnflattenConserves: speaks of scalars; an empty inner object may be filled.
- Chunkers.PlainTextItems: which characters are white space is a parameter. Records of JSON content and the BM25 scores are not modelled.
- Scanning.Expand: patterns are arbitrary finders of spans, so the bracket shapes G and H are covered only in so far as they match non-overlapping spans. What a hash resolves to is one function for the whole expansion: no entry expires in the middle of it. The loop over messages and the type check are not modelled.
- Markers.HashesAreFound: the bracket patterns are assumed to find nothing; what they find in a text is not modelled.
- Partition.PartitionContent: how a pattern matches a line (regular expression or glob, with a budget) is a parameter; the validation of patterns is not modelled.
- Lock interleavings, float rounding of time, regular-expression budgets and the RE2 engine.
- The compression pipeline, its Rust crates, tokenizers, the SQLite backend, namespaces, the MCP server, the CLI and the benchmarks.
