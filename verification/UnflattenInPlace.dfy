/** `_insert_nested` and `_unflatten_dotted` on dictionaries that are updated in place.

    Scalars and lists are never updated once they are built, so they are held as values. A dictionary knows,
    for the proof, the object it stands for (`content`) and the dictionaries it consists of (`repr`). */
module UnflattenInPlace {
  import opened U = Unflatten
  import opened Wrappers
  import Order

  datatype Value = Frozen(json: Json) | Nested(dict: Dictionary)

  ghost function Footprint(v: Value): set<Dictionary>
    reads if v.Nested? then {v.dict} else {}
  {
    if v.Nested? then v.dict.repr else {}
  }

  // The value stands for `j`, and its dictionary is in order.
  ghost predicate Stands(v: Value, j: Json)
    reads if v.Nested? then {v.dict} + v.dict.repr else {}
    decreases Footprint(v), 1
  {
    match v
    case Frozen(i) => j == i && !j.Dict?
    case Nested(d) => j == Dict(d.content) && d.Valid()
  }

  class Dictionary {
    var fields: map<string, Value>
    ghost var content: Object
    ghost var repr: set<Dictionary>

    ghost predicate Valid()
      reads this, repr
      decreases repr, 0
    {
      && this in repr && content.Keys == fields.Keys
      && (forall k | k in fields && fields[k].Nested? ::
            fields[k].dict in repr && fields[k].dict in fields[k].dict.repr && fields[k].dict.repr <= repr - {this})
      && (forall k | k in fields :: Stands(fields[k], content[k]))
      && (forall j, k | j in fields && k in fields && j != k :: Footprint(fields[j]) !! Footprint(fields[k]))
    }

    constructor ()
      ensures Valid() && content == map[] && fresh(repr)
    {
      fields, content, repr := map[], map[], {this};
    }

    // `d[key] = value`, for a key that is not there.
    method Add(key: string, value: Value, ghost j: Json)
      requires Valid() && key !in fields && Stands(value, j) && Footprint(value) !! repr
      modifies this
      ensures Valid() && content == old(content)[key := j] && repr == old(repr) + Footprint(value)
      ensures fields == old(fields)[key := value]
    {
      fields, content, repr := fields[key := value], content[key := j], repr + Footprint(value);
    }

    // One dotted key: folded in, or kept as it stands where it cannot be.
    method FoldIn(key: string, value: Value, ghost j: Json)
      requires Valid() && key !in fields && Stands(value, j) && Footprint(value) !! repr
      modifies repr
      ensures Valid() && content == Place(old(content), key, j)
      ensures fresh(repr - old(repr) - old(Footprint(value)))
    {
      var inserted := InsertNested(Segments(key), value, j);
      if !inserted {
        Add(key, value, j);
      }
    }

    // Gives a field up.
    method Take(key: string) returns (value: Value)
      requires Valid() && key in fields
      modifies this
      ensures Valid() && content == old(content) - {key} && value == old(fields)[key]
      ensures Stands(value, old(content)[key]) && Footprint(value) !! repr
      ensures repr + Footprint(value) == old(repr)
    {
      value := fields[key];
      assert Stands(value, content[key]);
      forall k | k in fields && k != key ensures Footprint(fields[k]) !! Footprint(value) {
        assert Footprint(fields[k]) !! Footprint(fields[key]);
      }
      fields, content, repr := fields - {key}, content - {key}, repr - Footprint(value);
    }

    /** Inserts the leaf where `Insert` says, or leaves every dictionary as it is where `Insert` says it cannot. */
    method InsertNested(segments: seq<string>, leaf: Value, ghost j: Json) returns (inserted: bool)
      requires Valid() && segments != [] && Stands(leaf, j) && Footprint(leaf) !! repr
      modifies repr
      ensures inserted <==> Insert(old(content), segments, j).Some?
      ensures inserted ==> Valid() && Some(content) == Insert(old(content), segments, j)
      ensures inserted ==> fresh(repr - old(repr) - old(Footprint(leaf)))
      ensures !inserted ==> forall d | d in old(repr) :: unchanged(d)
      decreases |segments|, 1
    {
      var head := segments[0];
      if |segments| == 1 {
        if head in fields {
          return false;
        }
        Add(head, leaf, j);
        return true;
      }
      if head !in fields {
        var child := new Dictionary();
        inserted := child.InsertNested(segments[1..], leaf, j);
        if !inserted {
          return false;
        }
        Add(head, Nested(child), Dict(child.content));
        return true;
      }
      if !fields[head].Nested? {
        return false;
      }
      inserted := InsertBelow(fields[head].dict, segments, leaf, j);
    }

    // ... into the dictionary that the first segment leads to.
    method InsertBelow(existing: Dictionary, segments: seq<string>, leaf: Value, ghost j: Json) returns (inserted: bool)
      requires Valid() && |segments| > 1 && Stands(leaf, j) && Footprint(leaf) !! repr
      requires segments[0] in fields && fields[segments[0]] == Nested(existing)
      modifies repr
      ensures inserted <==> Insert(old(content), segments, j).Some?
      ensures inserted ==> Valid() && Some(content) == Insert(old(content), segments, j)
      ensures inserted ==> fresh(repr - old(repr) - old(Footprint(leaf)))
      ensures !inserted ==> forall d | d in old(repr) :: unchanged(d)
      decreases |segments|, 0
    {
      ghost var head := segments[0];
      assert Stands(fields[head], content[head]);
      inserted := existing.InsertNested(segments[1..], leaf, j);
      if inserted {
        forall k | k in fields && k != head
          ensures Footprint(fields[k]) == old(Footprint(fields[k])) && Footprint(fields[k]) !! existing.repr
          ensures Stands(fields[k], content[k])
        {
          assert old(Footprint(fields[k]) !! Footprint(fields[head]));
        }
        Regain(head, existing);
      }
    }

    // `Valid`, but for the field `head`, which shares nothing with the others.
    ghost predicate ValidBut(head: string, existing: Dictionary)
      reads this, repr, existing
    {
      && this in repr && content.Keys == fields.Keys && head in fields && fields[head] == Nested(existing)
      && this !in existing.repr
      && (forall k | k in fields && k != head && fields[k].Nested? ::
            fields[k].dict in repr && fields[k].dict in fields[k].dict.repr && fields[k].dict.repr <= repr - {this})
      && (forall k | k in fields && k != head :: Stands(fields[k], content[k]))
      && (forall k | k in fields && k != head :: Footprint(fields[k]) !! existing.repr)
      && (forall j, k | j in fields && k in fields && j != k && j != head && k != head ::
            Footprint(fields[j]) !! Footprint(fields[k]))
    }

    // Takes note of what has become of one field.
    ghost method Regain(head: string, existing: Dictionary)
      requires ValidBut(head, existing) && existing.Valid()
      modifies this`content, this`repr
      ensures Valid() && content == old(content)[head := Dict(existing.content)]
      ensures repr == old(repr) + existing.repr
    {
      Widen(head, existing);
      Settle(head, existing);
    }

    ghost method Widen(head: string, existing: Dictionary)
      requires ValidBut(head, existing) && existing.Valid()
      modifies this`repr
      ensures ValidBut(head, existing) && existing.Valid() && repr == old(repr) + existing.repr
    {
      repr := repr + existing.repr;
    }

    ghost method Settle(head: string, existing: Dictionary)
      requires ValidBut(head, existing) && existing.Valid() && existing.repr <= repr
      modifies this`content
      ensures Valid() && content == old(content)[head := Dict(existing.content)]
    {
      content := content[head := Dict(existing.content)];
    }
  }

  // The value itself, for an item of a list.
  method ReadOut(v: Value, ghost j: Json) returns (r: Json)
    requires Stands(v, j)
    ensures r == j
    decreases Footprint(v)
  {
    if v.Frozen? {
      return v.json;
    }
    var fields: Object, pending := map[], v.dict.fields.Keys;
    while pending != {}
      invariant pending <= v.dict.fields.Keys
      invariant fields == v.dict.content - pending
      decreases pending
    {
      var k :| k in pending;
      assert Stands(v.dict.fields[k], v.dict.content[k]);
      var field := ReadOut(v.dict.fields[k], v.dict.content[k]);
      fields := fields[k := field];
      pending := pending - {k};
    }
    return Dict(fields);
  }

  /** The unflattened value, built of new dictionaries only. */
  method UnflattenDotted(v: Json) returns (r: Value)
    ensures Stands(r, Unflatten(v)) && fresh(Footprint(r))
    decreases v, 3
  {
    if v.List? {
      var items := UnflattenItems(v);
      return Frozen(List(items));
    }
    if !v.Dict? {
      return Frozen(v);
    }
    var out, dotted := Sort(v);
    Fold(out, dotted, Folded(v));
    return Nested(out);
  }

  method UnflattenItems(v: Json) returns (items: seq<Json>)
    requires v.List?
    ensures List(items) == Unflatten(v)
    decreases v, 2
  {
    items := [];
    for i := 0 to |v.items|
      invariant |items| == i && forall j | 0 <= j < i :: items[j] == Unflatten(v.items[j])
    {
      var item := UnflattenDotted(v.items[i]);
      var value := ReadOut(item, Unflatten(v.items[i]));
      items := items + [value];
    }
    assert List(items).items == Unflatten(v).items;
  }

  // The fields to keep as they are, and the ones to fold in, of those outside `pending`.
  ghost function Kept(folded: Object, pending: set<string>): Object { Literal(folded) - pending }

  ghost function ToFold(folded: Object, pending: set<string>): Object { folded - Literal(folded).Keys - pending }

  lemma OneSorted(folded: Object, pending: set<string>, key: string)
    requires key in pending && key in folded
    ensures var rest := pending - {key};
            && Kept(folded, rest) ==
               (if Dotted(key) then Kept(folded, pending) else Kept(folded, pending)[key := folded[key]])
            && ToFold(folded, rest) ==
               (if Dotted(key) then ToFold(folded, pending)[key := folded[key]] else ToFold(folded, pending))
  {
  }

  // Files one unflattened field.
  method SortOne(out: Dictionary, dotted: Dictionary, key: string, value: Value, ghost folded: Object,
                 ghost pending: set<string>)
    requires out.Valid() && dotted.Valid() && out.repr !! dotted.repr && key in pending && key in folded
    requires out.content == Kept(folded, pending) && dotted.content == ToFold(folded, pending)
    requires Stands(value, folded[key]) && Footprint(value) !! out.repr && Footprint(value) !! dotted.repr
    modifies out, dotted
    ensures out.Valid() && dotted.Valid() && out.repr !! dotted.repr
    ensures out.content == Kept(folded, pending - {key}) && dotted.content == ToFold(folded, pending - {key})
    ensures out.repr + dotted.repr == old(out.repr + dotted.repr + Footprint(value))
  {
    OneSorted(folded, pending, key);
    var segments := Segments(key);
    if |segments| == 1 || exists i | 0 <= i < |segments| :: segments[i] == "" {
      out.Add(key, value, folded[key]);
    } else {
      dotted.Add(key, value, folded[key]);
    }
  }

  // The fields of `v`, unflattened: those to keep as they are and those to fold in.
  method Sort(v: Json) returns (out: Dictionary, dotted: Dictionary)
    requires v.Dict?
    ensures fresh(out.repr + dotted.repr) && out.Valid() && dotted.Valid() && out.repr !! dotted.repr
    ensures out.content == Literal(Folded(v)) && dotted.content == ToFold(Folded(v), {})
    decreases v, 1
  {
    out := new Dictionary();
    dotted := new Dictionary();
    var pending := v.fields.Keys;
    while pending != {}
      invariant pending <= v.fields.Keys
      invariant fresh(out.repr + dotted.repr) && out.Valid() && dotted.Valid() && out.repr !! dotted.repr
      invariant out.content == Kept(Folded(v), pending) && dotted.content == ToFold(Folded(v), pending)
      decreases pending
    {
      var key :| key in pending;
      var value := UnflattenDotted(v.fields[key]);
      SortOne(out, dotted, key, value, Folded(v), pending);
      pending := pending - {key};
    }
  }

  // Folds the dotted fields in, in sorted order.
  method Fold(out: Dictionary, dotted: Dictionary, ghost folded: Object)
    requires out.Valid() && dotted.Valid() && out.repr !! dotted.repr
    requires dotted.content.Keys == DottedKeys(folded) && out.content.Keys !! dotted.content.Keys
    requires forall k | k in dotted.content :: dotted.content[k] == folded[k]
    modifies out.repr, dotted.repr
    ensures out.Valid() && out.content == PlaceAll(old(out.content), folded, DottedKeys(folded))
    ensures fresh(out.repr - old(out.repr) - old(dotted.repr))
  {
    while dotted.fields != map[]
      invariant out.Valid() && dotted.Valid() && out.repr !! dotted.repr
      invariant fresh(out.repr - old(out.repr) - old(dotted.repr)) && dotted.repr <= old(dotted.repr)
      invariant ToPlace(out.content, dotted.content, folded)
      invariant PlaceAll(out.content, folded, dotted.content.Keys)
             == PlaceAll(old(out.content), folded, DottedKeys(folded))
      decreases dotted.fields.Keys
    {
      FoldNext(out, dotted, folded);
    }
  }

  method FoldNext(out: Dictionary, dotted: Dictionary, ghost folded: Object)
    requires out.Valid() && dotted.Valid() && out.repr !! dotted.repr && dotted.fields != map[]
    requires ToPlace(out.content, dotted.content, folded)
    modifies out.repr, dotted
    ensures out.Valid() && dotted.Valid() && out.repr !! dotted.repr
    ensures fresh(out.repr - old(out.repr) - old(dotted.repr)) && dotted.repr <= old(dotted.repr)
    ensures ToPlace(out.content, dotted.content, folded) && dotted.fields.Keys < old(dotted.fields.Keys)
    ensures PlaceAll(out.content, folded, dotted.content.Keys)
         == PlaceAll(old(out.content), folded, old(dotted.content.Keys))
  {
    FirstExists(dotted.fields.Keys);
    var key :| IsFirst(key, dotted.fields.Keys);
    PlacesFirst(out.content, dotted.content, folded, key);
    FoldOne(out, dotted, key);
  }

  // The dotted fields still to be folded into `out`.
  ghost predicate ToPlace(out: Object, dotted: Object, folded: Object) {
    && dotted.Keys <= DottedKeys(folded) && out.Keys !! dotted.Keys
    && forall k | k in dotted :: dotted[k] == folded[k]
  }

  lemma PlacesFirst(out: Object, dotted: Object, folded: Object, key: string)
    requires ToPlace(out, dotted, folded) && IsFirst(key, dotted.Keys)
    ensures ToPlace(Place(out, key, dotted[key]), dotted - {key}, folded)
    ensures PlaceAll(out, folded, dotted.Keys)
         == PlaceAll(Place(out, key, dotted[key]), folded, (dotted - {key}).Keys)
  {
    FirstIsUnique(key, First(dotted.Keys), dotted.Keys);
    PlacedKeys(out, key, folded[key]);
    assert (dotted - {key}).Keys == dotted.Keys - {key};
  }

  method FoldOne(out: Dictionary, dotted: Dictionary, key: string)
    requires out.Valid() && dotted.Valid() && out.repr !! dotted.repr
    requires key in dotted.fields && key !in out.fields
    modifies out.repr, dotted
    ensures out.Valid() && dotted.Valid() && out.repr !! dotted.repr
    ensures dotted.content == old(dotted.content) - {key} && dotted.repr <= old(dotted.repr)
    ensures out.content == Place(old(out.content), key, old(dotted.content[key]))
    ensures fresh(out.repr - old(out.repr) - old(dotted.repr))
  {
    ghost var leaf := dotted.content[key];
    var value := dotted.Take(key);
    out.FoldIn(key, value, leaf);
  }
}
