/** The stable sort. */
module Sorting {
  // The runtime provides it; here it is a function of its comparison.

  /** `less(a, b)` says that `a` must come before `b`. */
  function Sorted<T>(less: (T, T) -> bool, xs: seq<T>): seq<T> {
    if xs == [] then [] else Inserted(less, Sorted(less, xs[..|xs|-1]), xs[|xs|-1])
  }

  function Inserted<T>(less: (T, T) -> bool, sorted: seq<T>, x: T): seq<T> {
    if sorted == [] then [x]
    else if less(x, sorted[|sorted|-1]) then Inserted(less, sorted[..|sorted|-1], x) + [sorted[|sorted|-1]]
    else sorted + [x]
  }

  /** No element must come before an earlier one. */
  ghost predicate InOrder<T>(less: (T, T) -> bool, xs: seq<T>) {
    forall i, j :: 0 <= i < j < |xs| ==> !less(xs[j], xs[i])
  }

  /** A comparison that sorting can trust. */
  ghost predicate StrictWeakOrder<T(!new)>(less: (T, T) -> bool) {
    && (forall x, y :: less(x, y) ==> !less(y, x))
    && (forall x, y, z :: !less(x, y) && !less(y, z) ==> !less(x, z))
  }

  lemma {:induction false} InsertedAddsOne<T>(less: (T, T) -> bool, sorted: seq<T>, x: T)
    ensures multiset(Inserted(less, sorted, x)) == multiset(sorted) + multiset{x}
    ensures forall y :: y in Inserted(less, sorted, x) <==> y in sorted || y == x
  {
    if sorted != [] {
      var init, last := sorted[..|sorted|-1], sorted[|sorted|-1];
      assert sorted == init + [last];
      if less(x, last) {
        InsertedAddsOne(less, init, x);
        assert Inserted(less, sorted, x) == Inserted(less, init, x) + [last];
      } else {
        assert Inserted(less, sorted, x) == sorted + [x];
      }
    }
  }

  lemma OrderedLast<T>(less: (T, T) -> bool, xs: seq<T>, last: T)
    requires InOrder(less, xs) && forall y <- xs :: !less(last, y)
    ensures InOrder(less, xs + [last])
  {
  }

  lemma {:induction false} InsertedKeeps<T(!new)>(less: (T, T) -> bool, sorted: seq<T>, x: T)
    requires StrictWeakOrder(less) && InOrder(less, sorted)
    ensures InOrder(less, Inserted(less, sorted, x))
  {
    if sorted != [] {
      var init, last := sorted[..|sorted|-1], sorted[|sorted|-1];
      if less(x, last) {
        InsertedKeeps(less, init, x);
        InsertedAddsOne(less, init, x);
        assert Inserted(less, sorted, x) == Inserted(less, init, x) + [last];
        hide Inserted;
        forall y <- Inserted(less, init, x) ensures !less(last, y) {
          if y in init {
            var i :| 0 <= i < |init| && init[i] == y;
            assert !less(sorted[|sorted|-1], sorted[i]);
          }
        }
        OrderedLast(less, Inserted(less, init, x), last);
      } else {
        forall y <- sorted ensures !less(x, y) {
          var i :| 0 <= i < |sorted| && sorted[i] == y;
          if i < |sorted| - 1 { assert !less(sorted[|sorted|-1], sorted[i]); }
        }
        OrderedLast(less, sorted, x);
      }
    }
  }

  lemma {:induction false} SortedIsSorted<T(!new)>(less: (T, T) -> bool, xs: seq<T>)
    requires StrictWeakOrder(less)
    ensures InOrder(less, Sorted(less, xs)) && multiset(Sorted(less, xs)) == multiset(xs)
    ensures |Sorted(less, xs)| == |xs| && forall x :: x in Sorted(less, xs) <==> x in xs
  {
    if xs != [] {
      SortedIsSorted(less, xs[..|xs|-1]);
      InsertedAddsOne(less, Sorted(less, xs[..|xs|-1]), xs[|xs|-1]);
      InsertedKeeps(less, Sorted(less, xs[..|xs|-1]), xs[|xs|-1]);
      assert xs == xs[..|xs|-1] + [xs[|xs|-1]];
    }
    assert |multiset(Sorted(less, xs))| == |multiset(xs)|;
  }

  // ---------------------------------------------------------------- stability

  predicate Ties<T(!new)>(less: (T, T) -> bool, x: T, y: T) { !less(x, y) && !less(y, x) }

  /** The elements that the order does not tell from `x`, as they come. */
  function TiesWith<T(!new)>(less: (T, T) -> bool, x: T, xs: seq<T>): seq<T> {
    if xs == [] then []
    else TiesWith(less, x, xs[..|xs|-1]) + (if Ties(less, x, xs[|xs|-1]) then [xs[|xs|-1]] else [])
  }

  lemma {:induction false} InsertedIsStable<T(!new)>(less: (T, T) -> bool, x: T, sorted: seq<T>, y: T)
    requires StrictWeakOrder(less)
    ensures TiesWith(less, x, Inserted(less, sorted, y)) == TiesWith(less, x, sorted + [y])
  {
    assert (sorted + [y])[..|sorted|] == sorted;
    if sorted != [] && less(y, sorted[|sorted|-1]) {
      var init, last := sorted[..|sorted|-1], sorted[|sorted|-1];
      InsertedIsStable(less, x, init, y);
      assert (Inserted(less, init, y) + [last])[..|Inserted(less, init, y)|] == Inserted(less, init, y);
      assert (init + [y])[..|init|] == init;
      assert Ties(less, x, y) ==> !Ties(less, x, last);
    }
  }

  /** Elements that the order does not tell apart keep their order. */
  lemma {:induction false} SortedIsStable<T(!new)>(less: (T, T) -> bool, x: T, xs: seq<T>)
    requires StrictWeakOrder(less)
    ensures TiesWith(less, x, Sorted(less, xs)) == TiesWith(less, x, xs)
  {
    if xs != [] {
      var init, last := xs[..|xs|-1], xs[|xs|-1];
      SortedIsStable(less, x, init);
      InsertedIsStable(less, x, Sorted(less, init), last);
      assert (Sorted(less, init) + [last])[..|Sorted(less, init)|] == Sorted(less, init);
    }
  }
}
