/** Folding dotted keys back into nested objects: what `_insert_nested` and `_unflatten_dotted` compute.

    An object is the finite map of its fields; Python's insertion order does not reach the result. */
module Unflatten {
  import opened Text
  import opened Wrappers
  import Order

  datatype Json = Scalar(text: string) | List(items: seq<Json>) | Dict(fields: map<string, Json>)

  type Object = map<string, Json>

  function Segments(key: string): (r: seq<string>)
    ensures |r| >= 1
  {
    Split(key, '.')
  }

  // More than one segment, none of them empty.
  predicate Dotted(key: string) { |Segments(key)| > 1 && forall i | 0 <= i < |Segments(key)| :: Segments(key)[i] != "" }

  // ---------- The transformation ----------

  function Insert(node: Object, segments: seq<string>, leaf: Json): Option<Object>
    requires segments != []
    decreases |segments|
  {
    var head := segments[0];
    if |segments| == 1 then
      if head in node then None else Some(node[head := leaf])
    else if head !in node then
      var child := Insert(map[], segments[1..], leaf);
      if child.None? then None else Some(node[head := Dict(child.value)])
    else if !node[head].Dict? then None
    else
      var child := Insert(node[head].fields, segments[1..], leaf);
      if child.None? then None else Some(node[head := Dict(child.value)])
  }

  // One dotted key: folded in, or kept as it stands where it cannot be.
  function Place(out: Object, key: string, leaf: Json): Object {
    var r := Insert(out, Segments(key), leaf);
    if r.Some? then r.value else out[key := leaf]
  }

  predicate IsFirst(k: string, ks: set<string>) {
    k in ks && forall j | j in ks :: !Order.Less(j, k)
  }

  lemma {:induction false} FirstExists(ks: set<string>)
    requires ks != {}
    ensures exists k :: IsFirst(k, ks)
    decreases |ks|
  {
    var x :| x in ks;
    var rest := ks - {x};
    Order.LessIsIrreflexive(x);
    if rest == {} {
      assert ks == {x};
      assert IsFirst(x, ks);
    } else {
      FirstExists(rest);
      var m :| IsFirst(m, rest);
      if Order.Less(x, m) {
        forall j | j in ks ensures !Order.Less(j, x) {
          if Order.Less(j, x) { Order.LessIsTransitive(j, x, m); }
        }
        assert IsFirst(x, ks);
      } else {
        assert IsFirst(m, ks);
      }
    }
  }

  ghost function First(ks: set<string>): (k: string)
    requires ks != {}
    ensures IsFirst(k, ks)
  {
    FirstExists(ks);
    var k :| IsFirst(k, ks);
    k
  }

  // Places the dotted keys of `folded` in sorted order.
  ghost function PlaceAll(out: Object, folded: Object, keys: set<string>): Object
    requires keys <= folded.Keys
    decreases |keys|
  {
    if keys == {} then out
    else
      var k := First(keys);
      PlaceAll(Place(out, k, folded[k]), folded, keys - {k})
  }

  function Literal(folded: Object): Object { map k | k in folded && !Dotted(k) :: folded[k] }

  function DottedKeys(folded: Object): set<string> { set k | k in folded && Dotted(k) }

  ghost function Unflatten(v: Json): Json
    decreases v, 1
  {
    match v
    case Scalar(_) => v
    case List(items) => List(seq(|items|, i requires 0 <= i < |items| => Unflatten(items[i])))
    case Dict(_) => Dict(PlaceAll(Literal(Folded(v)), Folded(v), DottedKeys(Folded(v))))
  }

  ghost function Folded(v: Json): Object
    requires v.Dict?
    decreases v, 0
  {
    map k | k in v.fields :: Unflatten(v.fields[k])
  }

  lemma FirstIsUnique(j: string, k: string, ks: set<string>)
    requires IsFirst(j, ks) && IsFirst(k, ks)
    ensures j == k
  {
    Order.LessIsTotal(j, k);
  }

  // ---------- Dotted segments ----------

  // The text neither ends with a dot nor has two in a row.
  predicate Tidy(s: string) {
    s == "" || (s[|s| - 1] != '.' && forall i | 0 < i < |s| :: !(s[i - 1] == s[i] == '.'))
  }

  lemma TidyFromTheFront(c: char, t: string)
    ensures Tidy([c] + t) <==> Tidy(t) && (c == '.' ==> t != "" && t[0] != '.')
  {
    var s := [c] + t;
    if Tidy(s) {
      forall i | 0 < i < |t| ensures !(t[i - 1] == t[i] == '.') {
        assert t[i - 1] == s[i] && t[i] == s[i + 1] && !(s[i + 1 - 1] == s[i + 1] == '.');
      }
      if t != "" { assert s[1] == t[0] && !(s[0] == s[1] == '.'); }
    }
  }

  predicate NoneEmpty(parts: seq<string>) { forall i | 0 <= i < |parts| :: parts[i] != "" }

  // The first part is empty if the text starts with a dot, and a later one if it is not tidy.
  lemma {:induction false} PartsSpelled(s: string)
    ensures |Segments(s)| > 1 <==> '.' in s
    ensures Segments(s)[0] == "" <==> s == "" || s[0] == '.'
    ensures NoneEmpty(Segments(s)[1..]) <==> Tidy(s)
  {
    if s != "" {
      var c, t, rest := s[0], s[1..], Segments(s[1..]);
      assert s == [c] + t && rest == [rest[0]] + rest[1..];
      PartsSpelled(t);
      TidyFromTheFront(c, t);
      if c == '.' {
        assert Segments(s)[1..] == rest;
        assert NoneEmpty(rest) <==> rest[0] != "" && NoneEmpty(rest[1..]);
      } else {
        assert Segments(s)[1..] == rest[1..];
      }
    }
  }

  /** A key is folded in if it has a dot and no empty segment: it neither starts nor ends with a dot nor has two in a
      row. */
  lemma DottedSpelled(k: string)
    ensures Dotted(k) <==>
            && '.' in k && k[0] != '.' && k[|k| - 1] != '.'
            && forall i | 0 < i < |k| :: !(k[i - 1] == k[i] == '.')
  {
    PartsSpelled(k);
    assert Segments(k) == [Segments(k)[0]] + Segments(k)[1..];
    assert Dotted(k) <==> |Segments(k)| > 1 && Segments(k)[0] != "" && NoneEmpty(Segments(k)[1..]);
  }

  // The segments of a dotted key: non-empty and free of dots.
  ghost predicate Plain(segments: seq<string>) {
    forall i | 0 <= i < |segments| :: segments[i] != "" && Free(segments[i], '.')
  }

  lemma PlainSegment(s: string)
    requires Free(s, '.')
    ensures Segments(s) == [s] && !Dotted(s)
  {
    SplitOfFree(s, '.');
  }

  lemma DottedIsPlain(key: string)
    requires Dotted(key)
    ensures Plain(Segments(key))
  {
    JoinOfSplit(key, '.');
  }

  // ---------- Conservation ----------

  datatype Part = Segment(name: string) | Index(i: nat)

  type Path = seq<Part>

  function AsPath(segments: seq<string>): Path {
    seq(|segments|, i requires 0 <= i < |segments| => Segment(segments[i]))
  }

  // The scalars of `v` with their fully dotted paths, each as often as it occurs.
  ghost function Leaves(at: Path, v: Json): multiset<(Path, string)>
    decreases v, 0
  {
    match v
    case Scalar(t) => multiset{(at, t)}
    case List(items) => ItemLeaves(at, v, |items|)
    case Dict(fields) => FieldLeaves(at, v, fields.Keys)
  }

  ghost function ItemLeaves(at: Path, v: Json, n: nat): multiset<(Path, string)>
    requires v.List? && n <= |v.items|
    decreases v, 0, n
  {
    if n == 0 then multiset{}
    else ItemLeaves(at, v, n - 1) + Leaves(at + [Index(n - 1)], v.items[n - 1])
  }

  ghost function FieldLeaves(at: Path, v: Json, keys: set<string>): multiset<(Path, string)>
    requires v.Dict? && keys <= v.fields.Keys
    decreases v, 0, |keys|
  {
    if keys == {} then multiset{}
    else
      var k :| k in keys;
      FieldLeaves(at, v, keys - {k}) + Leaves(at + AsPath(Segments(k)), v.fields[k])
  }

  lemma {:induction false} FieldLeavesRemove(at: Path, v: Json, keys: set<string>, k: string)
    requires v.Dict? && keys <= v.fields.Keys && k in keys
    ensures FieldLeaves(at, v, keys) ==
            FieldLeaves(at, v, keys - {k}) + Leaves(at + AsPath(Segments(k)), v.fields[k])
    decreases |keys|
  {
    var j :| j in keys && FieldLeaves(at, v, keys) ==
                          FieldLeaves(at, v, keys - {j}) + Leaves(at + AsPath(Segments(j)), v.fields[j]);
    if j != k {
      FieldLeavesRemove(at, v, keys - {j}, k);
      FieldLeavesRemove(at, v, keys - {k}, j);
      assert keys - {j} - {k} == keys - {k} - {j};
    }
  }

  // Only the chosen fields matter.
  lemma {:induction false} FieldLeavesSame(at: Path, v: Json, w: Json, keys: set<string>)
    requires v.Dict? && w.Dict? && keys <= v.fields.Keys && keys <= w.fields.Keys
    requires forall k, p | k in keys :: Leaves(p, v.fields[k]) == Leaves(p, w.fields[k])
    ensures FieldLeaves(at, v, keys) == FieldLeaves(at, w, keys)
    decreases |keys|
  {
    if keys != {} {
      var k :| k in keys;
      FieldLeavesRemove(at, v, keys, k);
      FieldLeavesRemove(at, w, keys, k);
      FieldLeavesSame(at, v, w, keys - {k});
    }
  }

  lemma FieldAdded(at: Path, node: Object, k: string, leaf: Json)
    requires k !in node
    ensures Leaves(at, Dict(node[k := leaf])) == Leaves(at, Dict(node)) + Leaves(at + AsPath(Segments(k)), leaf)
  {
    var v := Dict(node[k := leaf]);
    FieldLeavesRemove(at, v, v.fields.Keys, k);
    assert v.fields.Keys - {k} == node.Keys;
    assert v.fields[k] == leaf;
    FieldLeavesSame(at, v, Dict(node), node.Keys);
  }

  lemma FieldReplaced(at: Path, node: Object, k: string, leaf: Json)
    requires k in node
    ensures Leaves(at, Dict(node[k := leaf])) + Leaves(at + AsPath(Segments(k)), node[k]) ==
            Leaves(at, Dict(node)) + Leaves(at + AsPath(Segments(k)), leaf)
  {
    var v := Dict(node[k := leaf]);
    assert v.fields.Keys == node.Keys;
    FieldLeavesRemove(at, v, node.Keys, k);
    FieldLeavesRemove(at, Dict(node), node.Keys, k);
    FieldLeavesSame(at, v, Dict(node), node.Keys - {k});
  }

  lemma AsPathCons(at: Path, segments: seq<string>)
    requires segments != []
    ensures at + AsPath([segments[0]]) + AsPath(segments[1..]) == at + AsPath(segments)
  {
  }

  lemma CancelLeaves(a: multiset<(Path, string)>, b: multiset<(Path, string)>, x: multiset<(Path, string)>,
                     y: multiset<(Path, string)>)
    requires a + x == b + (x + y)
    ensures a == b + y
  {
    assert a == a + x - x;
    assert b + y == b + (x + y) - x;
  }

  lemma {:induction false} InsertConserves(at: Path, node: Object, segments: seq<string>, leaf: Json)
    requires segments != [] && Plain(segments) && Insert(node, segments, leaf).Some?
    ensures Leaves(at, Dict(Insert(node, segments, leaf).value)) ==
            Leaves(at, Dict(node)) + Leaves(at + AsPath(segments), leaf)
    decreases |segments|
  {
    var head, tail := segments[0], segments[1..];
    var below := at + AsPath([head]);
    PlainSegment(head);
    AsPathCons(at, segments);
    if |segments| == 1 {
      assert segments == [head];
      FieldAdded(at, node, head, leaf);
    } else if head !in node {
      InsertConserves(below, map[], tail, leaf);
      FieldAdded(at, node, head, Dict(Insert(map[], tail, leaf).value));
    } else {
      var child := Dict(Insert(node[head].fields, tail, leaf).value);
      InsertConserves(below, node[head].fields, tail, leaf);
      FieldReplaced(at, node, head, child);
      CancelLeaves(Leaves(at, Dict(node[head := child])), Leaves(at, Dict(node)), Leaves(below, node[head]),
                   Leaves(at + AsPath(segments), leaf));
    }
  }

  // Insertion adds no key with a dot in it and never touches another field.
  lemma InsertKeepsOthers(node: Object, segments: seq<string>, leaf: Json)
    requires segments != [] && Insert(node, segments, leaf).Some?
    ensures var r := Insert(node, segments, leaf).value;
            r.Keys == node.Keys + {segments[0]} && forall k | k in node && k != segments[0] :: r[k] == node[k]
  {
  }

  lemma PlaceConserves(at: Path, out: Object, key: string, leaf: Json)
    requires Dotted(key) && key !in out
    ensures Leaves(at, Dict(Place(out, key, leaf))) == Leaves(at, Dict(out)) + Leaves(at + AsPath(Segments(key)), leaf)
  {
    DottedIsPlain(key);
    if Insert(out, Segments(key), leaf).Some? {
      InsertConserves(at, out, Segments(key), leaf);
    } else {
      FieldAdded(at, out, key, leaf);
    }
  }

  lemma PlacedKeys(out: Object, key: string, leaf: Json)
    requires Dotted(key)
    ensures forall k | k in Place(out, key, leaf) :: k in out || k == key || !Dotted(k)
  {
    DottedIsPlain(key);
    PlainSegment(Segments(key)[0]);
    if Insert(out, Segments(key), leaf).Some? { InsertKeepsOthers(out, Segments(key), leaf); }
  }

  lemma {:induction false} PlaceAllConserves(at: Path, out: Object, folded: Object, keys: set<string>)
    requires keys <= DottedKeys(folded) && keys !! out.Keys
    ensures Leaves(at, Dict(PlaceAll(out, folded, keys))) ==
            Leaves(at, Dict(out)) + FieldLeaves(at, Dict(folded), keys)
    decreases |keys|
  {
    if keys != {} {
      var k := First(keys);
      PlaceConserves(at, out, k, folded[k]);
      PlacedKeys(out, k, folded[k]);
      PlaceAllConserves(at, Place(out, k, folded[k]), folded, keys - {k});
      FieldLeavesRemove(at, Dict(folded), keys, k);
    }
  }

  lemma {:induction false} FieldLeavesSplit(at: Path, v: Json, keys: set<string>, part: set<string>)
    requires v.Dict? && keys <= v.fields.Keys && part <= keys
    ensures FieldLeaves(at, v, keys) == FieldLeaves(at, v, keys - part) + FieldLeaves(at, v, part)
    decreases |part|
  {
    if part == {} {
      assert keys - part == keys;
    } else {
      var k :| k in part;
      var keys', part' := keys - {k}, part - {k};
      assert keys' - part' == keys - part;
      FieldLeavesSplit(at, v, keys', part');
      FieldLeavesRemove(at, v, keys, k);
      FieldLeavesRemove(at, v, part, k);
    }
  }

  /** Unflattening conserves data: every scalar stays at its fully dotted path, none is lost, duplicated or
      overwritten. */
  lemma {:induction false} UnflattenConserves(at: Path, v: Json)
    ensures Leaves(at, Unflatten(v)) == Leaves(at, v)
    decreases v, 0
  {
    match v
    case Scalar(_) =>
    case List(items) => ItemsConserved(at, v, |items|);
    case Dict(fields) =>
      var folded := Folded(v);
      forall k, p | k in fields ensures Leaves(p, folded[k]) == Leaves(p, fields[k]) {
        UnflattenConserves(p, fields[k]);
      }
      assert folded.Keys == fields.Keys;
      FieldLeavesSame(at, Dict(folded), v, fields.Keys);
      FoldedConserved(at, folded);
  }

  lemma FoldedConserved(at: Path, folded: Object)
    ensures Leaves(at, Dict(PlaceAll(Literal(folded), folded, DottedKeys(folded)))) == Leaves(at, Dict(folded))
  {
    var literal, dotted := Literal(folded), DottedKeys(folded);
    PlaceAllConserves(at, literal, folded, dotted);
    FieldLeavesSplit(at, Dict(folded), folded.Keys, dotted);
    assert folded.Keys - dotted == literal.Keys;
    FieldLeavesSame(at, Dict(literal), Dict(folded), literal.Keys);
  }

  lemma {:induction false} ItemsConserved(at: Path, v: Json, n: nat)
    requires v.List? && n <= |v.items|
    ensures ItemLeaves(at, Unflatten(v), n) == ItemLeaves(at, v, n)
    decreases v, 0, n
  {
    if n > 0 {
      ItemsConserved(at, v, n - 1);
      UnflattenConserves(at + [Index(n - 1)], v.items[n - 1]);
    }
  }

  // ---------- The canonical form ----------

  // The place at `segments` is taken, or lies below something that is no object.
  predicate Blocked(node: Object, segments: seq<string>)
    requires segments != []
    decreases |segments|
  {
    var head := segments[0];
    head in node && (|segments| == 1 || !node[head].Dict? || Blocked(node[head].fields, segments[1..]))
  }

  // Every dotted key still there is one that cannot be folded in.
  ghost predicate Canonical(v: Json) {
    match v
    case Scalar(_) => true
    case List(items) => forall i | 0 <= i < |items| :: Canonical(items[i])
    case Dict(fields) =>
      && (forall k | k in fields :: Canonical(fields[k]))
      && (forall k | k in fields && Dotted(k) :: Blocked(fields, Segments(k)))
  }

  lemma {:induction false} InsertFailsIffBlocked(node: Object, segments: seq<string>, leaf: Json)
    requires segments != []
    ensures Insert(node, segments, leaf).None? <==> Blocked(node, segments)
    decreases |segments|
  {
    if |segments| > 1 {
      var head, tail := segments[0], segments[1..];
      if head !in node {
        InsertFailsIffBlocked(map[], tail, leaf);
      } else if node[head].Dict? {
        InsertFailsIffBlocked(node[head].fields, tail, leaf);
      }
    }
  }

  lemma {:induction false} BlockedStaysBlocked(node: Object, segments: seq<string>, leaf: Json, other: seq<string>)
    requires segments != [] && other != [] && Insert(node, segments, leaf).Some? && Blocked(node, other)
    ensures Blocked(Insert(node, segments, leaf).value, other)
    decreases |segments|
  {
    var head := segments[0];
    InsertKeepsOthers(node, segments, leaf);
    if head == other[0] && |segments| > 1 && |other| > 1 && node[head].Dict? {
      BlockedStaysBlocked(node[head].fields, segments[1..], leaf, other[1..]);
    }
  }

  lemma {:induction false} InsertKeepsCanonical(node: Object, segments: seq<string>, leaf: Json)
    requires segments != [] && Plain(segments) && Insert(node, segments, leaf).Some?
    requires Canonical(Dict(node)) && Canonical(leaf)
    ensures Canonical(Dict(Insert(node, segments, leaf).value))
    decreases |segments|
  {
    var head, tail := segments[0], segments[1..];
    var r := Insert(node, segments, leaf).value;
    PlainSegment(head);
    InsertKeepsOthers(node, segments, leaf);
    if |segments| > 1 {
      InsertKeepsCanonical(if head in node then node[head].fields else map[], tail, leaf);
    }
    forall k | k in r && Dotted(k) ensures Blocked(r, Segments(k)) {
      BlockedStaysBlocked(node, segments, leaf, Segments(k));
    }
  }

  // A literal dotted key is invisible to `Blocked`, which looks only at keys without dots.
  lemma LiteralKeepsBlocked(node: Object, key: string, leaf: Json, other: seq<string>)
    requires Dotted(key) && other != [] && Free(other[0], '.')
    ensures Blocked(node[key := leaf], other) <==> Blocked(node, other)
  {
    PlainSegment(other[0]);
    assert other[0] != key;
  }

  lemma PlaceKeepsCanonical(out: Object, key: string, leaf: Json)
    requires Dotted(key) && key !in out && Canonical(Dict(out)) && Canonical(leaf)
    ensures Canonical(Dict(Place(out, key, leaf)))
  {
    var segments := Segments(key);
    DottedIsPlain(key);
    if Insert(out, segments, leaf).Some? {
      InsertKeepsCanonical(out, segments, leaf);
    } else {
      InsertFailsIffBlocked(out, segments, leaf);
      forall k | k in out[key := leaf] && Dotted(k) ensures Blocked(out[key := leaf], Segments(k)) {
        DottedIsPlain(k);
        LiteralKeepsBlocked(out, key, leaf, Segments(k));
      }
    }
  }

  lemma {:induction false} PlaceAllKeepsCanonical(out: Object, folded: Object, keys: set<string>)
    requires keys <= DottedKeys(folded) && keys !! out.Keys && Canonical(Dict(out))
    requires forall k | k in folded :: Canonical(folded[k])
    ensures Canonical(Dict(PlaceAll(out, folded, keys)))
    decreases |keys|
  {
    if keys != {} {
      var k := First(keys);
      DottedIsPlain(k);
      PlainSegment(Segments(k)[0]);
      PlaceKeepsCanonical(out, k, folded[k]);
      if Insert(out, Segments(k), folded[k]).Some? { InsertKeepsOthers(out, Segments(k), folded[k]); }
      PlaceAllKeepsCanonical(Place(out, k, folded[k]), folded, keys - {k});
    }
  }

  lemma {:induction false} UnflattenIsCanonical(v: Json)
    ensures Canonical(Unflatten(v))
  {
    match v
    case Scalar(_) =>
    case List(items) => forall i | 0 <= i < |items| { UnflattenIsCanonical(items[i]); }
    case Dict(fields) =>
      var folded := Folded(v);
      forall k | k in fields ensures Canonical(folded[k]) { UnflattenIsCanonical(fields[k]); }
      PlaceAllKeepsCanonical(Literal(folded), folded, DottedKeys(folded));
  }

  lemma {:induction false} PlaceAllBlocked(out: Object, folded: Object, keys: set<string>)
    requires keys <= DottedKeys(folded) && Canonical(Dict(folded))
    requires out.Keys == folded.Keys - keys && forall k | k in out :: out[k] == folded[k]
    ensures PlaceAll(out, folded, keys) == folded
    decreases |keys|
  {
    if keys == {} {
      assert out == folded;
    } else {
      var k := First(keys);
      DottedIsPlain(k);
      BlockedByUndotted(out, folded, Segments(k));
      InsertFailsIffBlocked(out, Segments(k), folded[k]);
      PlaceAllBlocked(Place(out, k, folded[k]), folded, keys - {k});
    }
  }

  lemma BlockedByUndotted(out: Object, folded: Object, segments: seq<string>)
    requires segments != [] && Plain(segments) && Blocked(folded, segments)
    requires forall k | k in folded && !Dotted(k) :: k in out && out[k] == folded[k]
    ensures Blocked(out, segments)
  {
    PlainSegment(segments[0]);
  }

  /** The canonical values are exactly the ones that unflattening leaves alone ... */
  lemma {:induction false} CanonicalIffFixed(v: Json)
    ensures Canonical(v) <==> Unflatten(v) == v
  {
    UnflattenIsCanonical(v);
    if Canonical(v) { CanonicalIsFixed(v); }
  }

  lemma {:induction false} CanonicalIsFixed(v: Json)
    requires Canonical(v)
    ensures Unflatten(v) == v
  {
    match v
    case Scalar(_) =>
    case List(items) =>
      forall i | 0 <= i < |items| ensures Unflatten(items[i]) == items[i] { CanonicalIsFixed(items[i]); }
      assert Unflatten(v).items == items;
    case Dict(fields) =>
      var folded := Folded(v);
      forall k | k in fields ensures folded[k] == fields[k] { CanonicalIsFixed(fields[k]); }
      assert folded == fields;
      PlaceAllBlocked(Literal(folded), folded, DottedKeys(folded));
  }

  /** ... and every result is one of them, so unflattening twice is unflattening once. */
  lemma UnflattenIsIdempotent(v: Json)
    ensures Unflatten(Unflatten(v)) == Unflatten(v)
  {
    UnflattenIsCanonical(v);
    CanonicalIsFixed(Unflatten(v));
  }

  // ---------- Conflicts ----------

  lemma {:induction false} BlockedBelowLeaf(node: Object, segments: seq<string>, leaf: Json, more: seq<string>)
    requires segments != [] && more != [] && Insert(node, segments, leaf).Some? && !leaf.Dict?
    ensures Blocked(Insert(node, segments, leaf).value, segments + more)
    decreases |segments|
  {
    var head, tail := segments[0], segments[1..];
    assert (segments + more)[0] == head && (segments + more)[1..] == tail + more;
    if |segments| > 1 { BlockedBelowLeaf(if head in node then node[head].fields else map[], tail, leaf, more); }
  }

  lemma PrefixIsFirst(k: string, longer: string)
    requires k < longer
    ensures IsFirst(k, {k, longer})
  {
    Order.LessIsLexicographic(k, longer);
    Order.LessIsAsymmetric(k, longer);
    Order.LessIsIrreflexive(k);
  }

  lemma PlaceAllOne(out: Object, folded: Object, k: string)
    requires k in folded
    ensures PlaceAll(out, folded, {k}) == Place(out, k, folded[k])
  {
    assert First({k}) == k && {k} - {k} == {};
  }

  /** Of two dotted keys that conflict because one continues the other, the shorter one is folded in first. The
      longer one then stays literal, unless what the shorter one holds is an object with room for it. */
  lemma ShorterKeyWins(out: Object, folded: Object, k: string, rest: string)
    requires Dotted(k) && Dotted(k + "." + rest) && k in folded && k + "." + rest in folded
    requires Insert(out, Segments(k), folded[k]).Some?
    ensures var longer := k + "." + rest; var first := Insert(out, Segments(k), folded[k]).value;
            && PlaceAll(out, folded, {k, longer}) == Place(first, longer, folded[longer])
            && (!folded[k].Dict? ==> PlaceAll(out, folded, {k, longer}) == first[longer := folded[longer]])
  {
    var longer := k + "." + rest;
    assert longer[..|k|] == k && longer != k;
    PrefixIsFirst(k, longer);
    FirstIsUnique(k, First({k, longer}), {k, longer});
    assert {k, longer} - {k} == {longer};
    var first := Insert(out, Segments(k), folded[k]).value;
    PlaceAllOne(first, folded, longer);
    assert longer == k + (['.'] + rest);
    SplitOfAppend(k, rest, '.');
    if !folded[k].Dict? {
      BlockedBelowLeaf(out, Segments(k), folded[k], Segments(rest));
      InsertFailsIffBlocked(first, Segments(longer), folded[longer]);
    }
  }

  // ---------- Undoing dotted flattening ----------

  // Field names are non-empty and free of dots, inner objects are not empty, and other values are canonical.
  ghost predicate PlainTree(v: Json) {
    v.Dict? && forall k | k in v.fields ::
      && k != "" && Free(k, '.')
      && (if v.fields[k].Dict? then v.fields[k].fields != map[] && PlainTree(v.fields[k]) else Canonical(v.fields[k]))
  }

  // The field names that lead to each value that is not an object.
  ghost function Paths(v: Json): set<seq<string>>
    requires v.Dict?
  {
    (set k | k in v.fields && !v.fields[k].Dict? :: [k]) +
    (set k, q | k in v.fields && v.fields[k].Dict? && q in Paths(v.fields[k]) :: [k] + q)
  }

  function At(v: Json, p: seq<string>): Json {
    if p != [] && v.Dict? && p[0] in v.fields then At(v.fields[p[0]], p[1..]) else v
  }

  // One flat object: a dotted key for each value that is not an object.
  ghost function Flatten(v: Json): Json
    requires v.Dict?
  {
    Dict(map k | k in set p | p in Paths(v) :: Join(p, '.') :: At(v, Segments(k)))
  }

  ghost function Tails(ps: set<seq<string>>, head: string): set<seq<string>> {
    set p | p in ps && p != [] && p[0] == head :: p[1..]
  }

  // The part of `v` that the paths in `ps` lead to.
  ghost function PartAt(v: Json, ps: set<seq<string>>): Object
    requires v.Dict?
    decreases v
  {
    map h | h in v.fields && Tails(ps, h) != {} ::
      if v.fields[h].Dict? then Dict(PartAt(v.fields[h], Tails(ps, h))) else v.fields[h]
  }

  lemma PathsOfField(v: Json, h: string)
    requires v.Dict? && h in v.fields
    ensures Tails(Paths(v), h) == if v.fields[h].Dict? then Paths(v.fields[h]) else {[]}
  {
    var ts := Tails(Paths(v), h);
    if v.fields[h].Dict? {
      forall q ensures q in ts <==> q in Paths(v.fields[h]) {
        if q in Paths(v.fields[h]) {
          assert [h] + q in Paths(v) && ([h] + q)[1..] == q;
        }
        if q in ts {
          var p :| p in Paths(v) && p != [] && p[0] == h && p[1..] == q;
          assert p != [h] ==> p == [h] + p[1..];
        }
      }
    } else {
      assert [h] in Paths(v) && [h][1..] == [];
    }
  }

  lemma TailsOneMore(ps: set<seq<string>>, p: seq<string>, h: string)
    requires p != []
    ensures Tails(ps + {p}, h) == if p[0] == h then Tails(ps, h) + {p[1..]} else Tails(ps, h)
  {
    forall q ensures q in Tails(ps + {p}, h) <==> q in Tails(ps, h) || (p[0] == h && q == p[1..]) {
      if p[0] == h && q == p[1..] { assert p in ps + {p}; }
    }
  }

  lemma TailsWithin(v: Json, ps: set<seq<string>>, h: string)
    requires v.Dict? && h in v.fields && ps <= Paths(v)
    ensures Tails(ps, h) <= if v.fields[h].Dict? then Paths(v.fields[h]) else {[]}
  {
    PathsOfField(v, h);
  }

  lemma PathStarts(v: Json, p: seq<string>)
    requires v.Dict? && p in Paths(v)
    ensures p != [] && p[0] in v.fields
    ensures if v.fields[p[0]].Dict? then |p| > 1 && p[1..] in Paths(v.fields[p[0]]) else p == [p[0]]
  {
    if q, k :| k in v.fields && v.fields[k].Dict? && q in Paths(v.fields[k]) && p == [k] + q {
      assert p[1..] == q;
      PathStarts(v.fields[k], q);
    }
  }

  lemma PartOneMore(v: Json, ps: set<seq<string>>, p: seq<string>)
    requires v.Dict? && p != [] && p[0] in v.fields
    ensures var h := p[0];
            PartAt(v, ps + {p}) ==
            PartAt(v, ps)[h := if v.fields[h].Dict? then Dict(PartAt(v.fields[h], Tails(ps, h) + {p[1..]}))
                               else v.fields[h]]
  {
    forall g | g in v.fields { TailsOneMore(ps, p, g); }
  }

  lemma TailIsFresh(ps: set<seq<string>>, p: seq<string>)
    requires p != [] && p !in ps
    ensures p[1..] !in Tails(ps, p[0])
  {
    forall q | q in ps && q != [] && q[0] == p[0] ensures q[1..] != p[1..] {
      assert q == [p[0]] + q[1..] && p == [p[0]] + p[1..];
    }
  }

  /** Inserting a path that is not there yet adds exactly that path. */
  lemma {:induction false} InsertAddsPath(v: Json, ps: set<seq<string>>, p: seq<string>)
    requires v.Dict? && ps <= Paths(v) && p in Paths(v) && p !in ps
    ensures p != [] && Insert(PartAt(v, ps), p, At(v, p)) == Some(PartAt(v, ps + {p}))
    decreases |p|
  {
    PathStarts(v, p);
    var h, tail, field := p[0], p[1..], v.fields[p[0]];
    PartOneMore(v, ps, p);
    TailsWithin(v, ps, h);
    TailIsFresh(ps, p);
    if field.Dict? {
      InsertAddsPath(field, Tails(ps, h), tail);
      if Tails(ps, h) == {} { assert PartAt(field, {}) == map[]; }
    } else {
      assert tail == [];
      assert Tails(ps, h) == {};
    }
  }

  lemma {:induction false} TreeHasPath(v: Json)
    requires PlainTree(v) && v.fields != map[]
    ensures Paths(v) != {}
  {
    var k :| k in v.fields;
    if v.fields[k].Dict? {
      TreeHasPath(v.fields[k]);
      var q :| q in Paths(v.fields[k]);
      assert [k] + q in Paths(v);
    } else {
      assert [k] in Paths(v);
    }
  }

  lemma {:induction false} AllPathsMakeTheTree(v: Json)
    requires PlainTree(v)
    ensures PartAt(v, Paths(v)) == v.fields
  {
    forall h | h in v.fields
      ensures Tails(Paths(v), h) != {} && PartAt(v, Paths(v))[h] == v.fields[h]
    {
      PathsOfField(v, h);
      if v.fields[h].Dict? {
        TreeHasPath(v.fields[h]);
        AllPathsMakeTheTree(v.fields[h]);
      }
    }
  }

  lemma {:induction false} PathIsPlain(v: Json, p: seq<string>)
    requires PlainTree(v) && p in Paths(v)
    ensures Plain(p) && p != [] && Segments(Join(p, '.')) == p
    ensures !At(v, p).Dict? && Canonical(At(v, p))
    decreases |p|
  {
    PathStarts(v, p);
    if v.fields[p[0]].Dict? {
      PathIsPlain(v.fields[p[0]], p[1..]);
      assert forall i | 1 <= i < |p| :: p[i] == p[1..][i - 1];
    } else {
      assert p[1..] == [];
    }
    SplitOfJoin(p, '.');
  }

  // The paths in `ps` are those whose flat keys are no longer in `keys`.
  ghost predicate Placed(v: Json, keys: set<string>, ps: set<seq<string>>)
    requires v.Dict?
  {
    ps <= Paths(v) && forall p | p in Paths(v) :: p in ps <==> Join(p, '.') !in keys
  }

  lemma PlacedOneMore(v: Json, keys: set<string>, ps: set<seq<string>>, p: seq<string>)
    requires PlainTree(v) && Placed(v, keys, ps) && p in Paths(v)
    ensures Placed(v, keys - {Join(p, '.')}, ps + {p})
  {
    PathIsPlain(v, p);
    forall q | q in Paths(v) ensures q in ps + {p} <==> Join(q, '.') !in keys - {Join(p, '.')} {
      PathIsPlain(v, q);
    }
  }

  lemma PlaceBuilds(v: Json, keys: set<string>, ps: set<seq<string>>, k: string) returns (p: seq<string>)
    requires PlainTree(v) && keys <= DottedKeys(Flatten(v).fields) && k in keys && Placed(v, keys, ps)
    ensures p in Paths(v) && Place(PartAt(v, ps), k, Flatten(v).fields[k]) == PartAt(v, ps + {p})
    ensures Placed(v, keys - {k}, ps + {p})
  {
    p :| p in Paths(v) && Join(p, '.') == k;
    PathIsPlain(v, p);
    InsertAddsPath(v, ps, p);
    PlacedOneMore(v, keys, ps, p);
  }

  // `keys` are the flat keys still to be placed; the others have built their part of the tree.
  lemma {:induction false} PlaceAllBuilds(v: Json, keys: set<string>, ps: set<seq<string>>)
    requires PlainTree(v) && keys <= DottedKeys(Flatten(v).fields) && Placed(v, keys, ps)
    ensures PlaceAll(PartAt(v, ps), Flatten(v).fields, keys) == PartAt(v, Paths(v))
    decreases |keys|
  {
    if keys == {} {
      assert ps == Paths(v);
    } else {
      var k := First(keys);
      var p := PlaceBuilds(v, keys, ps, k);
      PlaceAllBuilds(v, keys - {k}, ps + {p});
    }
  }

  lemma FlatValues(v: Json)
    requires PlainTree(v)
    ensures forall k | k in Flatten(v).fields :: !Flatten(v).fields[k].Dict?
  {
    forall k | k in Flatten(v).fields ensures !Flatten(v).fields[k].Dict? {
      var p :| p in Paths(v) && Join(p, '.') == k;
      PathIsPlain(v, p);
    }
  }

  lemma FlatKeysAreFolded(v: Json)
    requires PlainTree(v)
    ensures Folded(Flatten(v)) == Flatten(v).fields
  {
    var flat := Flatten(v).fields;
    forall k | k in flat ensures Unflatten(flat[k]) == flat[k] {
      var p :| p in Paths(v) && Join(p, '.') == k;
      PathIsPlain(v, p);
      CanonicalIsFixed(flat[k]);
    }
    assert Folded(Flatten(v)) == flat;
  }

  lemma DottedKeysAreLong(v: Json, p: seq<string>)
    requires PlainTree(v) && p in Paths(v)
    ensures Join(p, '.') in Flatten(v).fields && Flatten(v).fields[Join(p, '.')] == At(v, p)
    ensures Dotted(Join(p, '.')) <==> |p| > 1
  {
    PathIsPlain(v, p);
  }

  lemma ShortPathIsField(v: Json, p: seq<string>)
    requires PlainTree(v) && p in Paths(v)
    ensures |p| == 1 <==> p == [p[0]] && !v.fields[p[0]].Dict?
    ensures |p| == 1 ==> Join(p, '.') == p[0] && At(v, p) == v.fields[p[0]]
  {
    PathStarts(v, p);
    if |p| == 1 { assert p[1..] == []; }
  }

  lemma LiteralIsInPart(v: Json, ps: set<seq<string>>, h: string)
    requires PlainTree(v) && ps == (set p | p in Paths(v) && |p| == 1) && h in Literal(Flatten(v).fields)
    ensures h in PartAt(v, ps) && PartAt(v, ps)[h] == Flatten(v).fields[h]
  {
    var p :| p in Paths(v) && Join(p, '.') == h;
    DottedKeysAreLong(v, p);
    PathStarts(v, p);
    ShortPathIsField(v, p);
    assert p in ps && p[1..] in Tails(ps, h);
  }

  lemma PartIsLiteral(v: Json, ps: set<seq<string>>, h: string)
    requires PlainTree(v) && ps == (set p | p in Paths(v) && |p| == 1) && h in PartAt(v, ps)
    ensures h in Literal(Flatten(v).fields)
  {
    var t :| t in Tails(ps, h);
    var p :| p in ps && p != [] && p[0] == h && p[1..] == t;
    DottedKeysAreLong(v, p);
    ShortPathIsField(v, p);
  }

  lemma LiteralKeysAreShort(v: Json, ps: set<seq<string>>)
    requires PlainTree(v) && ps == set p | p in Paths(v) && |p| == 1
    ensures Literal(Flatten(v).fields) == PartAt(v, ps)
  {
    var flat, part := Flatten(v).fields, PartAt(v, ps);
    forall h | h in Literal(flat) ensures h in part && part[h] == flat[h] { LiteralIsInPart(v, ps, h); }
    forall h | h in part ensures h in Literal(flat) { PartIsLiteral(v, ps, h); }
    SameFields(flat, part);
  }

  lemma SameFields(flat: Object, part: Object)
    requires forall h | h in Literal(flat) :: h in part && part[h] == flat[h]
    requires forall h | h in part :: h in Literal(flat)
    ensures Literal(flat) == part
  {
  }

  /** Unflattening undoes dotted flattening, for every tree of plain field names without empty inner objects. */
  lemma UnflattenUndoesFlatten(v: Json)
    requires PlainTree(v)
    ensures Flatten(v).Dict? && (forall k | k in Flatten(v).fields :: !Flatten(v).fields[k].Dict?)
    ensures Unflatten(Flatten(v)) == v
  {
    FlatValues(v);
    var ps := set p | p in Paths(v) && |p| == 1;
    FlatKeysAreFolded(v);
    LiteralKeysAreShort(v, ps);
    forall p | p in Paths(v) ensures p in ps <==> Join(p, '.') !in DottedKeys(Flatten(v).fields) {
      DottedKeysAreLong(v, p);
      PathStarts(v, p);
    }
    PlaceAllBuilds(v, DottedKeys(Flatten(v).fields), ps);
    AllPathsMakeTheTree(v);
  }
}
