/** The order Python puts on strings, and on the `(created_at, hash_key)` tuples of the eviction heap. */
module Order {
  type Key = string

  predicate Less(a: Key, b: Key) {
    b != [] && (a == [] || a[0] < b[0] || (a[0] == b[0] && Less(a[1..], b[1..])))
  }

  lemma {:induction false} LessIsTotal(a: Key, b: Key)
    ensures a != b ==> Less(a, b) || Less(b, a)
  {
    if a != [] && b != [] && a[0] == b[0] {
      LessIsTotal(a[1..], b[1..]);
      assert a == [a[0]] + a[1..] && b == [b[0]] + b[1..];
    }
  }

  lemma {:induction false} LessIsTransitive(a: Key, b: Key, c: Key)
    requires Less(a, b) && Less(b, c)
    ensures Less(a, c)
  {
    if a != [] && a[0] == b[0] == c[0] {
      LessIsTransitive(a[1..], b[1..], c[1..]);
    }
  }

  lemma {:induction false} LessIsIrreflexive(a: Key)
    ensures !Less(a, a)
  {
    if a != [] { LessIsIrreflexive(a[1..]); }
  }

  lemma LessIsAsymmetric(a: Key, b: Key)
    requires Less(a, b)
    ensures !Less(b, a)
  {
    if Less(b, a) {
      LessIsTransitive(a, b, a);
      LessIsIrreflexive(a);
    }
  }

  // `a` and `b` first differ at `i`, where `a` has the smaller character.
  predicate SmallerAt(a: Key, b: Key, i: nat) { i < |a| && i < |b| && a[..i] == b[..i] && a[i] < b[i] }

  /** The order is lexicographic: a proper prefix comes first, and else the first difference decides. */
  lemma {:induction false} LessIsLexicographic(a: Key, b: Key)
    ensures Less(a, b) <==> a < b || exists i :: SmallerAt(a, b, i)
  {
    if a != [] && b != [] {
      assert a == [a[0]] + a[1..] && b == [b[0]] + b[1..];
      if a[0] == b[0] {
        LessIsLexicographic(a[1..], b[1..]);
        SmallerShifts(a, b);
      } else {
        assert SmallerAt(a, b, 0) <==> a[0] < b[0];
        assert forall i | 0 < i <= |a| && i <= |b| :: a[..i][0] != b[..i][0];
      }
    }
  }

  lemma SmallerShifts(a: Key, b: Key)
    requires a != [] && b != [] && a[0] == b[0]
    ensures (exists i :: SmallerAt(a, b, i)) <==> exists i :: SmallerAt(a[1..], b[1..], i)
  {
    if i: nat :| SmallerAt(a, b, i) {
      assert i > 0;
      assert a[1..][..i - 1] == a[..i][1..] && b[1..][..i - 1] == b[..i][1..];
      assert SmallerAt(a[1..], b[1..], i - 1);
    }
    if i: nat :| SmallerAt(a[1..], b[1..], i) {
      assert a[..i + 1] == [a[0]] + a[1..][..i] && b[..i + 1] == [b[0]] + b[1..][..i];
      assert SmallerAt(a, b, i + 1);
    }
  }

  datatype Item = Item(created: real, key: Key)

  predicate Before(x: Item, y: Item) {
    x.created < y.created || (x.created == y.created && Less(x.key, y.key))
  }

  lemma BeforeIsTotalOrder(x: Item, y: Item, z: Item)
    ensures x != y ==> Before(x, y) || Before(y, x)
    ensures !(Before(x, y) && Before(y, x))
    ensures Before(x, y) && Before(y, z) ==> Before(x, z)
  {
    LessIsTotal(x.key, y.key);
    if Before(x, y) && Before(y, x) { LessIsAsymmetric(x.key, y.key); }
    if Before(x, y) && Before(y, z) && x.created == y.created == z.created {
      LessIsTransitive(x.key, y.key, z.key);
    }
  }

  // What `heappop` takes from a heap: no remaining tuple comes before it.
  predicate IsLeast(m: Item, heap: multiset<Item>) {
    m in heap && forall x | x in heap :: !Before(x, m)
  }

  lemma {:induction false} LeastExists(heap: multiset<Item>)
    requires |heap| > 0
    ensures exists m :: IsLeast(m, heap)
    decreases |heap|
  {
    var x :| x in heap;
    var rest := heap - multiset{x};
    if |rest| == 0 {
      assert heap == multiset{x};
      BeforeIsTotalOrder(x, x, x);
      assert IsLeast(x, heap);
    } else {
      LeastExists(rest);
      var m :| IsLeast(m, rest);
      forall y, z ensures Before(y, z) || Before(z, y) || y == z { BeforeIsTotalOrder(y, z, z); }
      forall y, z, w ensures !(Before(y, z) && Before(z, y)) && (Before(y, z) && Before(z, w) ==> Before(y, w)) {
        BeforeIsTotalOrder(y, z, w);
      }
      assert forall y | y in heap :: y == x || y in rest;
      assert IsLeast(if Before(x, m) then x else m, heap);
    }
  }

  lemma LeastIsUnique(m: Item, n: Item, heap: multiset<Item>)
    requires IsLeast(m, heap) && IsLeast(n, heap)
    ensures m == n
  {
    BeforeIsTotalOrder(m, n, n);
  }
}
