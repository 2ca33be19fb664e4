/** What is observed of one asset. */
module PathShelf {
  // A list with an index by key: an observation merges into its key, or is sorted in and may evict others.
  import opened Sorting
  import opened Median

  datatype Key = Key(price: nat, hops: nat, path: seq<int>)

  function KeyOf(o: Observation): Key { Key(o.price, o.hops, o.path) }

  /** Deeper liquidity first, then fewer hops, then the lower price. */
  predicate Deeper(a: Observation, b: Observation) {
    || a.liquidity > b.liquidity
    || (a.liquidity == b.liquidity && a.hops < b.hops)
    || (a.liquidity == b.liquidity && a.hops == b.hops && a.price < b.price)
  }

  /** An asset's observations: the list, and the index that finds them by price, hops and path. */
  datatype Shelf = Shelf(list: seq<Observation>, keyed: map<Key, Observation>)

  /** The index holds exactly the listed observations, one per key. */
  ghost predicate Indexed(s: Shelf) {
    && (forall i, j :: 0 <= i < j < |s.list| ==> KeyOf(s.list[i]) != KeyOf(s.list[j]))
    && (forall o <- s.list :: KeyOf(o) in s.keyed && s.keyed[KeyOf(o)] == o)
    && (forall k <- s.keyed :: s.keyed[k] in s.list && KeyOf(s.keyed[k]) == k)
  }

  lemma DeeperIsAnOrder()
    ensures StrictWeakOrder(Deeper)
  {
  }

  function Merged(list: seq<Observation>, o: Observation): seq<Observation> {
    seq(|list|, i requires 0 <= i < |list| =>
      if KeyOf(list[i]) == KeyOf(o) then list[i].(liquidity := list[i].liquidity + o.liquidity) else list[i])
  }

  /** A known path adds its liquidity; a new one is sorted in and the shallowest past the cap fall off. */
  function ListAfter(list: seq<Observation>, o: Observation, cap: nat): seq<Observation> {
    if exists x <- list :: KeyOf(x) == KeyOf(o) then Merged(list, o)
    else
      var sorted := Sorted(Deeper, list + [o]);
      if |sorted| > cap then sorted[..cap] else sorted
  }

  lemma KeysStayDistinct(list: seq<Observation>, list': seq<Observation>)
    requires multiset(list') == multiset(list)
    requires forall i, j :: 0 <= i < j < |list| ==> KeyOf(list[i]) != KeyOf(list[j])
    ensures forall i, j :: 0 <= i < j < |list'| ==> KeyOf(list'[i]) != KeyOf(list'[j])
  {
    forall i, j | 0 <= i < j < |list'| ensures KeyOf(list'[i]) != KeyOf(list'[j]) {
      var x, y := list'[i], list'[j];
      assert list' == list'[..i] + [x] + list'[i+1..j] + [y] + list'[j+1..];
      assert multiset{x, y} <= multiset(list');
      assert x in multiset(list) && y in multiset(list);
      var p :| 0 <= p < |list| && list[p] == x;
      var q :| 0 <= q < |list| && list[q] == y;
      if p == q {
        OnlyOnce(list, p);
      }
    }
  }

  lemma OnlyOnce(list: seq<Observation>, p: nat)
    requires p < |list|
    requires forall i, j :: 0 <= i < j < |list| ==> KeyOf(list[i]) != KeyOf(list[j])
    ensures multiset(list)[list[p]] == 1
  {
    assert list == list[..p] + [list[p]] + list[p+1..];
    assert list[p] !in list[..p] && list[p] !in list[p+1..];
  }

  lemma IndexedAfterMerge(shelf: Shelf, o: Observation)
    requires Indexed(shelf) && KeyOf(o) in shelf.keyed
    ensures var merged := shelf.keyed[KeyOf(o)].(liquidity := shelf.keyed[KeyOf(o)].liquidity + o.liquidity);
            Indexed(Shelf(Merged(shelf.list, o), shelf.keyed[KeyOf(o) := merged]))
    ensures ListAfter(shelf.list, o, 1) == Merged(shelf.list, o)
  {
    var x := shelf.keyed[KeyOf(o)];
    var list' := Merged(shelf.list, o);
    assert x in shelf.list && KeyOf(x) == KeyOf(o);
    var keyed' := shelf.keyed[KeyOf(o) := x.(liquidity := x.liquidity + o.liquidity)];
    forall i | 0 <= i < |list'| ensures KeyOf(list'[i]) == KeyOf(shelf.list[i]) && KeyOf(list'[i]) in keyed'
      && keyed'[KeyOf(list'[i])] == list'[i] {
      assert shelf.list[i] in shelf.list;
    }
    forall k <- keyed' ensures keyed'[k] in list' && KeyOf(keyed'[k]) == k {
      var i :| 0 <= i < |shelf.list| && shelf.list[i] == shelf.keyed[k];
      assert list'[i] == keyed'[k];
    }
  }

  lemma IndexReordered(shelf: Shelf, list': seq<Observation>)
    requires Indexed(shelf) && forall x :: x in list' <==> x in shelf.list
    requires forall i, j :: 0 <= i < j < |list'| ==> KeyOf(list'[i]) != KeyOf(list'[j])
    ensures Indexed(Shelf(list', shelf.keyed))
  {
  }

  lemma IndexedAfterAppend(shelf: Shelf, o: Observation)
    requires Indexed(shelf) && KeyOf(o) !in shelf.keyed
    ensures Indexed(Shelf(shelf.list + [o], shelf.keyed[KeyOf(o) := o]))
    ensures forall x <- shelf.list :: KeyOf(x) != KeyOf(o)
  {
    assert forall x <- shelf.list :: KeyOf(x) in shelf.keyed;
    forall i | 0 <= i < |shelf.list| ensures KeyOf(shelf.list[i]) != KeyOf(o) {
      assert shelf.list[i] in shelf.list;
    }
    assert forall x :: x in shelf.list + [o] <==> x in shelf.list || x == o;
  }

  lemma IndexedAfterSort(shelf: Shelf)
    requires Indexed(shelf)
    ensures |Sorted(Deeper, shelf.list)| == |shelf.list| && Indexed(Shelf(Sorted(Deeper, shelf.list), shelf.keyed))
  {
    DeeperIsAnOrder();
    SortedIsSorted(Deeper, shelf.list);
    KeysStayDistinct(shelf.list, Sorted(Deeper, shelf.list));
    IndexReordered(shelf, Sorted(Deeper, shelf.list));
  }

  lemma KeptOrRemoved(list: seq<Observation>, cap: nat, o: Observation)
    requires cap <= |list| && o in list
    requires forall i, j :: 0 <= i < j < |list| ==> KeyOf(list[i]) != KeyOf(list[j])
    ensures o in list[..cap] <==> forall x <- list[cap..] :: KeyOf(x) != KeyOf(o)
  {
    var n :| 0 <= n < |list| && list[n] == o;
    if n < cap {
      assert list[..cap][n] == o;
      forall x <- list[cap..] ensures KeyOf(x) != KeyOf(o) {
        var j :| 0 <= j < |list[cap..]| && list[cap..][j] == x;
        assert list[cap + j] == x;
      }
    } else {
      assert list[cap..][n - cap] == o;
      forall i | 0 <= i < cap ensures list[..cap][i] != o {
        assert KeyOf(list[i]) != KeyOf(list[n]);
      }
    }
  }

  /** Cutting the list and deleting the removed keys keeps the index exact. */
  lemma TrimmedIndex(shelf: Shelf, cap: nat, keyed: map<Key, Observation>)
    requires Indexed(shelf) && cap <= |shelf.list|
    requires forall k :: k in keyed <==> k in shelf.keyed && forall x <- shelf.list[cap..] :: KeyOf(x) != k
    requires forall k <- keyed :: keyed[k] == shelf.keyed[k]
    ensures Indexed(Shelf(shelf.list[..cap], keyed))
  {
    hide KeyOf;
    var kept := shelf.list[..cap];
    forall o <- kept ensures KeyOf(o) in keyed && keyed[KeyOf(o)] == o {
      assert o in shelf.list;
      KeptOrRemoved(shelf.list, cap, o);
    }
    forall k <- keyed ensures keyed[k] in kept && KeyOf(keyed[k]) == k {
      assert shelf.keyed[k] in shelf.list;
      KeptOrRemoved(shelf.list, cap, keyed[k]);
    }
  }

  /**
   What falls off has no more liquidity than what stays; with as much, no fewer hops; with as many, no
   lower price.
  */
  lemma EvictsTheShallowest(list: seq<Observation>, o: Observation, cap: nat, kept: Observation, gone: Observation)
    requires forall x <- list :: KeyOf(x) != KeyOf(o)
    requires kept in ListAfter(list, o, cap) && gone in list + [o] && gone !in ListAfter(list, o, cap)
    ensures gone.liquidity <= kept.liquidity
    ensures gone.liquidity == kept.liquidity ==> gone.hops >= kept.hops
    ensures gone.liquidity == kept.liquidity && gone.hops == kept.hops ==> gone.price >= kept.price
  {
    var sorted := Sorted(Deeper, list + [o]);
    DeeperIsAnOrder();
    SortedIsSorted(Deeper, list + [o]);
    var i :| 0 <= i < |ListAfter(list, o, cap)| && ListAfter(list, o, cap)[i] == kept;
    var j :| 0 <= j < |sorted| && sorted[j] == gone;
    assert sorted[i] == kept;
    forall l | 0 <= l < |ListAfter(list, o, cap)| ensures sorted[l] != gone {
      assert ListAfter(list, o, cap)[l] == sorted[l];
    }
  }

  // ---------------------------------------------------------------- liquidity is credited once

  /** All liquidity listed under a key. */
  function Credit(list: seq<Observation>, k: Key): nat {
    if list == [] then 0
    else Credit(list[..|list|-1], k) + (if KeyOf(list[|list|-1]) == k then list[|list|-1].liquidity else 0)
  }

  lemma CreditLast(list: seq<Observation>, o: Observation, k: Key)
    ensures Credit(list + [o], k) == Credit(list, k) + (if KeyOf(o) == k then o.liquidity else 0)
  {
    assert (list + [o])[..|list|] == list;
  }

  lemma {:induction false} CreditInserted(sorted: seq<Observation>, o: Observation, k: Key)
    ensures Credit(Inserted(Deeper, sorted, o), k) == Credit(sorted + [o], k)
  {
    hide Credit, Deeper;
    if sorted == [] {
      assert sorted + [o] == [o];
    } else if Deeper(o, sorted[|sorted|-1]) {
      var init, last := sorted[..|sorted|-1], sorted[|sorted|-1];
      CreditInserted(init, o, k);
      CreditLast(Inserted(Deeper, init, o), last, k);
      CreditLast(init, o, k);
      CreditLast(sorted, o, k);
      assert sorted == init + [last];
      CreditLast(init, last, k);
    }
  }

  lemma {:induction false} CreditSorted(list: seq<Observation>, k: Key)
    ensures Credit(Sorted(Deeper, list), k) == Credit(list, k)
  {
    if list != [] {
      var init, last := list[..|list|-1], list[|list|-1];
      CreditSorted(init, k);
      CreditInserted(Sorted(Deeper, init), last, k);
      CreditLast(Sorted(Deeper, init), last, k);
    }
  }

  ghost predicate Listed(list: seq<Observation>, k: Key) {
    exists x <- list :: KeyOf(x) == k
  }

  lemma MergedLast(init: seq<Observation>, last: Observation, o: Observation)
    ensures Merged(init + [last], o)
         == Merged(init, o) + [if KeyOf(last) == KeyOf(o) then last.(liquidity := last.liquidity + o.liquidity)
                               else last]
  {
  }

  lemma ListedLast(init: seq<Observation>, last: Observation, k: Key)
    ensures Listed(init + [last], k) <==> Listed(init, k) || KeyOf(last) == k
  {
  }

  lemma {:induction false} CreditMerged(list: seq<Observation>, o: Observation, k: Key)
    requires forall i, j :: 0 <= i < j < |list| ==> KeyOf(list[i]) != KeyOf(list[j])
    ensures Credit(Merged(list, o), k) == Credit(list, k) + (if k == KeyOf(o) && Listed(list, k) then o.liquidity
                                                             else 0)
  {
    if list != [] {
      var init, last := list[..|list|-1], list[|list|-1];
      CreditMerged(init, o, k);
      assert !Listed(init, KeyOf(last)) by {
        assert forall i :: 0 <= i < |init| ==> init[i] == list[i];
      }
      hide Credit, Merged, Listed;
      assert list == init + [last];
      MergedLast(init, last, o);
      ListedLast(init, last, k);
      CreditLast(init, last, k);
      CreditLast(Merged(init, o), if KeyOf(last) == KeyOf(o) then last.(liquidity := last.liquidity + o.liquidity)
                 else last, k);
    }
  }

  /** Unless something is evicted, an observation credits its liquidity to its own key, once, and to no other key. */
  lemma AddingCreditsOneKey(list: seq<Observation>, o: Observation, cap: nat, k: Key)
    requires forall i, j :: 0 <= i < j < |list| ==> KeyOf(list[i]) != KeyOf(list[j])
    requires |list| < cap || Listed(list, KeyOf(o))
    ensures Credit(ListAfter(list, o, cap), k) == Credit(list, k) + (if k == KeyOf(o) then o.liquidity else 0)
  {
    CreditMerged(list, o, k);
    CreditSorted(list + [o], k);
    CreditLast(list, o, k);
    DeeperIsAnOrder();
    SortedIsSorted(Deeper, list + [o]);
  }

  lemma {:induction false} CreditOfPrefix(list: seq<Observation>, n: nat, k: Key)
    requires n <= |list|
    ensures Credit(list[..n], k) <= Credit(list, k)
  {
    if n == |list| {
      assert list[..n] == list;
    } else {
      CreditOfPrefix(list[..|list|-1], n, k);
      assert list[..|list|-1][..n] == list[..n];
    }
  }

  lemma {:induction false} CreditIsLiquidity(list: seq<Observation>, i: nat)
    requires i < |list| && forall i, j :: 0 <= i < j < |list| ==> KeyOf(list[i]) != KeyOf(list[j])
    ensures Credit(list, KeyOf(list[i])) == list[i].liquidity
  {
    var init, last := list[..|list|-1], list[|list|-1];
    if i < |init| {
      CreditIsLiquidity(init, i);
    } else {
      NoCredit(init, KeyOf(last));
    }
  }

  lemma {:induction false} NoCredit(list: seq<Observation>, k: Key)
    requires forall i :: 0 <= i < |list| ==> KeyOf(list[i]) != k
    ensures Credit(list, k) == 0
  {
    if list != [] { NoCredit(list[..|list|-1], k); }
  }

  /** With eviction, liquidity is only lost. */
  lemma CreditAtMost(list: seq<Observation>, o: Observation, cap: nat, k: Key)
    requires forall i, j :: 0 <= i < j < |list| ==> KeyOf(list[i]) != KeyOf(list[j])
    ensures Credit(ListAfter(list, o, cap), k) <= Credit(list, k) + (if k == KeyOf(o) then o.liquidity else 0)
  {
    CreditMerged(list, o, k);
    CreditSorted(list + [o], k);
    CreditLast(list, o, k);
    var sorted := Sorted(Deeper, list + [o]);
    if |sorted| > cap { CreditOfPrefix(sorted, cap, k); }
  }

  /** Unless something is evicted, a key is listed exactly when it was, or when it is the new one. */
  lemma ListedAfter(list: seq<Observation>, o: Observation, cap: nat, k: Key)
    requires |list| < cap || Listed(list, KeyOf(o))
    ensures Listed(ListAfter(list, o, cap), k) <==> Listed(list, k) || k == KeyOf(o)
  {
    if Listed(list, KeyOf(o)) {
      var merged := Merged(list, o);
      assert forall i :: 0 <= i < |list| ==> KeyOf(merged[i]) == KeyOf(list[i]);
      if x :| x in list && KeyOf(x) == k {
        var i :| 0 <= i < |list| && list[i] == x;
        assert merged[i] in merged;
      }
      if y :| y in merged && KeyOf(y) == k {
        var i :| 0 <= i < |merged| && merged[i] == y;
        assert list[i] in list;
      }
    } else {
      DeeperIsAnOrder();
      SortedIsSorted(Deeper, list + [o]);
      ListedLast(list, o, k);
      assert forall x :: x in ListAfter(list, o, cap) <==> x in list + [o];
    }
  }

  /** No observation falls below a floor that all of them, and the new one, are above. */
  lemma FloorStays(list: seq<Observation>, o: Observation, cap: nat, floor: nat)
    requires o.liquidity >= floor && forall x <- list :: x.liquidity >= floor
    ensures forall x <- ListAfter(list, o, cap) :: x.liquidity >= floor
  {
    var merged := Merged(list, o);
    assert forall i :: 0 <= i < |merged| ==> list[i] in list && merged[i].liquidity >= list[i].liquidity;
    DeeperIsAnOrder();
    SortedIsSorted(Deeper, list + [o]);
    var sorted := Sorted(Deeper, list + [o]);
    assert forall x <- sorted :: x in list || x == o;
    assert |sorted| > cap ==> forall x <- sorted[..cap] :: x in sorted;
  }

  method DeleteKeys(keyed: map<Key, Observation>, removed: seq<Observation>) returns (kept: map<Key, Observation>)
    ensures forall k :: k in kept <==> k in keyed && forall x <- removed :: KeyOf(x) != k
    ensures forall k <- kept :: kept[k] == keyed[k]
  {
    kept := keyed;
    for i := 0 to |removed|
      invariant forall k :: k in kept <==> k in keyed && forall x <- removed[..i] :: KeyOf(x) != k
      invariant forall k <- kept :: kept[k] == keyed[k]
    {
      assert removed[..i+1] == removed[..i] + [removed[i]];
      kept := kept - {KeyOf(removed[i])};
    }
    assert removed[..|removed|] == removed;
  }

  lemma ListAfterByIndex(shelf: Shelf, o: Observation, cap: nat)
    requires Indexed(shelf)
    ensures KeyOf(o) in shelf.keyed ==>
      ListAfter(shelf.list, o, cap) == Merged(shelf.list, o) && |Merged(shelf.list, o)| == |shelf.list|
    ensures var sorted := Sorted(Deeper, shelf.list + [o]);
            KeyOf(o) !in shelf.keyed ==>
              ListAfter(shelf.list, o, cap) == if |sorted| > cap then sorted[..cap] else sorted
  {
    if KeyOf(o) in shelf.keyed {
      assert shelf.keyed[KeyOf(o)] in shelf.list;
    }
  }

  lemma IndexFinds(shelf: Shelf, k: Key)
    requires Indexed(shelf) && k in shelf.keyed
    ensures shelf.keyed[k] in shelf.list
  {
  }

  method AddObservation(shelf: Shelf, o: Observation, cap: nat) returns (shelf': Shelf, admitted: bool)
    requires Indexed(shelf) && |shelf.list| <= cap && cap > 0
    ensures Indexed(shelf') && |shelf'.list| <= cap
    ensures shelf'.list == ListAfter(shelf.list, o, cap)
    ensures admitted <==> KeyOf(o) !in shelf.keyed && o in shelf'.list
  {
    hide Indexed, ListAfter, Merged, Sorted, Deeper;
    var key := KeyOf(o);
    ListAfterByIndex(shelf, o, cap);
    if key in shelf.keyed {
      var merged := shelf.keyed[key].(liquidity := shelf.keyed[key].liquidity + o.liquidity);
      IndexedAfterMerge(shelf, o);
      return Shelf(Merged(shelf.list, o), shelf.keyed[key := merged]), false;
    }
    IndexedAfterAppend(shelf, o);
    IndexedAfterSort(Shelf(shelf.list + [o], shelf.keyed[key := o]));
    var sorted := Sorted(Deeper, shelf.list + [o]);
    var keyed := shelf.keyed[key := o];
    IndexFinds(Shelf(sorted, keyed), key);
    if |sorted| > cap {
      var kept := DeleteKeys(keyed, sorted[cap..]);
      TrimmedIndex(Shelf(sorted, keyed), cap, kept);
      shelf' := Shelf(sorted[..cap], kept);
      admitted := o !in sorted[cap..];
      AdmittedIfKept(sorted, o, cap, keyed);
    } else {
      shelf', admitted := Shelf(sorted, keyed), true;
    }
  }

  lemma AdmittedIfKept(sorted: seq<Observation>, o: Observation, cap: nat, keyed: map<Key, Observation>)
    requires Indexed(Shelf(sorted, keyed)) && cap <= |sorted| && KeyOf(o) in keyed && keyed[KeyOf(o)] == o
    ensures o !in sorted[cap..] <==> o in sorted[..cap]
  {
    assert o in sorted && sorted == sorted[..cap] + sorted[cap..];
    forall i, j | 0 <= i < cap <= j < |sorted| ensures sorted[i] != sorted[j] {
      assert KeyOf(sorted[i]) != KeyOf(sorted[j]);
    }
  }
}
