/** Stable insertion sort by a comparison, and what makes its result the only possible one. */
module Sorting {

  ghost predicate TotalPreorder<T(!new)>(leq: (T, T) -> bool) {
    && (forall a, b :: leq(a, b) || leq(b, a))
    && (forall a, b, c :: leq(a, b) && leq(b, c) ==> leq(a, c))
  }

  ghost predicate Sorted<T>(xs: seq<T>, leq: (T, T) -> bool) {
    forall i, j :: 0 <= i < j < |xs| ==> leq(xs[i], xs[j])
  }

  function Insert<T>(x: T, xs: seq<T>, leq: (T, T) -> bool): seq<T> {
    if xs == [] || leq(x, xs[0]) then [x] + xs else [xs[0]] + Insert(x, xs[1..], leq)
  }

  function Sort<T>(xs: seq<T>, leq: (T, T) -> bool): seq<T> {
    if xs == [] then [] else Insert(xs[0], Sort(xs[1..], leq), leq)
  }

  lemma {:induction false} InsertPermutes<T>(x: T, xs: seq<T>, leq: (T, T) -> bool)
    ensures multiset(Insert(x, xs, leq)) == multiset{x} + multiset(xs)
  {
    if xs != [] {
      assert xs == [xs[0]] + xs[1..];
      if !leq(x, xs[0]) {
        InsertPermutes(x, xs[1..], leq);
      }
    }
  }

  lemma {:induction false} InsertSorts<T(!new)>(x: T, xs: seq<T>, leq: (T, T) -> bool)
    requires TotalPreorder(leq) && Sorted(xs, leq)
    ensures Sorted(Insert(x, xs, leq), leq)
  {
    if xs != [] && !leq(x, xs[0]) {
      InsertSorts(x, xs[1..], leq);
      InsertPermutes(x, xs[1..], leq);
      forall y | y in Insert(x, xs[1..], leq) ensures leq(xs[0], y) {
        assert y in multiset(Insert(x, xs[1..], leq));
      }
    }
  }

  lemma {:induction false} SortPermutes<T>(xs: seq<T>, leq: (T, T) -> bool)
    ensures multiset(Sort(xs, leq)) == multiset(xs)
    ensures |Sort(xs, leq)| == |xs|
  {
    if xs != [] {
      assert xs == [xs[0]] + xs[1..];
      SortPermutes(xs[1..], leq);
      InsertPermutes(xs[0], Sort(xs[1..], leq), leq);
      assert |multiset(Sort(xs, leq))| == |multiset(xs)|;
    }
  }

  lemma {:induction false} SortSorts<T(!new)>(xs: seq<T>, leq: (T, T) -> bool)
    requires TotalPreorder(leq)
    ensures Sorted(Sort(xs, leq), leq)
  {
    if xs != [] {
      SortSorts(xs[1..], leq);
      InsertSorts(xs[0], Sort(xs[1..], leq), leq);
    }
  }

  lemma HeadsAgree<T>(xs: seq<T>, ys: seq<T>, leq: (T, T) -> bool)
    requires Sorted(xs, leq) && Sorted(ys, leq) && xs != [] && ys != [] && xs[0] in ys && ys[0] in xs
    requires RankIsIdentity(xs, leq)
    ensures xs[0] == ys[0]
  {}

  lemma TailMultiset<T>(xs: seq<T>)
    requires xs != []
    ensures multiset(xs[1..]) == multiset(xs) - multiset{xs[0]}
  {
    assert xs == [xs[0]] + xs[1..];
  }

  ghost predicate RankIsIdentity<T>(xs: seq<T>, leq: (T, T) -> bool) {
    forall i, j :: 0 <= i < |xs| && 0 <= j < |xs| && leq(xs[i], xs[j]) && leq(xs[j], xs[i]) ==> xs[i] == xs[j]
  }

  /** Two sorted arrangements of the same elements agree, if equal rank means equal element. */
  lemma {:induction false} SortedIsUnique<T>(xs: seq<T>, ys: seq<T>, leq: (T, T) -> bool)
    requires Sorted(xs, leq) && Sorted(ys, leq) && multiset(xs) == multiset(ys)
    requires RankIsIdentity(xs, leq)
    ensures xs == ys
  {
    assert |multiset(xs)| == |multiset(ys)|;
    if xs != [] {
      assert xs[0] in multiset(ys) && ys[0] in multiset(xs);
      HeadsAgree(xs, ys, leq);
      TailMultiset(xs);
      TailMultiset(ys);
      SortedIsUnique(xs[1..], ys[1..], leq);
    }
  }
}
