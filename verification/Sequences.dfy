/** Sequences without repetitions. */
module Sequences {
  ghost predicate NoRepeats<T>(xs: seq<T>) {
    forall i, j | 0 <= i < j < |xs| :: xs[i] != xs[j]
  }

  // First-seen order, without repetitions.
  function Distinct<T(==, !new)>(xs: seq<T>): (r: seq<T>)
    ensures NoRepeats(r) && forall x :: x in r <==> x in xs
  {
    if xs == [] then []
    else
      var front, last := Distinct(xs[..|xs| - 1]), xs[|xs| - 1];
      assert xs == xs[..|xs| - 1] + [last];
      if last in front then front else front + [last]
  }

  lemma DistinctOneMore<T(!new)>(xs: seq<T>, x: T)
    ensures Distinct(xs + [x]) == if x in Distinct(xs) then Distinct(xs) else Distinct(xs) + [x]
  {
    assert (xs + [x])[..|xs|] == xs;
  }

  // What comes sooner in `hs` occurs sooner in `xs`.
  ghost predicate InOrderOf<T>(hs: seq<T>, xs: seq<T>) {
    forall n, i, j | 0 <= n <= |xs| && 0 <= i < j < |hs| :: hs[j] in xs[..n] ==> hs[i] in xs[..n]
  }

  lemma {:induction false} DistinctIsInOrder<T(!new)>(xs: seq<T>)
    ensures InOrderOf(Distinct(xs), xs)
  {
    if xs != [] {
      var front, last, r := xs[..|xs| - 1], xs[|xs| - 1], Distinct(xs);
      assert xs == front + [last];
      DistinctIsInOrder(front);
      forall n, i, j | 0 <= n <= |xs| && 0 <= i < j < |r| && r[j] in xs[..n] ensures r[i] in xs[..n] {
        if n <= |front| {
          assert xs[..n] == front[..n];
          assert forall x | x in front[..n] :: x in front;
        } else {
          assert xs[..n] == xs;
        }
      }
    }
  }
}
