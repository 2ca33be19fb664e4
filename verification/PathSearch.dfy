/** The bounded path search. */
module PathSearch {
  // A queue of partial paths, and for every asset a shelf of observations.
  import opened Options
  import opened PriceGraph
  import opened Routes
  import opened Sorting
  import opened Median
  import opened PathShelf

  const UNBOUNDED_PATH_LIQUIDITY: nat :=
    1_000_000_000_000_000_000_000_000_000_000_000_000_000_000_000_000_000_000_000_000

  function RouteOf(o: Observation): Route { Route(o.price, o.path) }

  // ---------------------------------------------------------------- the search

  datatype Problem = Problem(seeds: Seeds, anchored: set<int>, graph: Graph, maxHops: nat, threshold: nat, cap: nat)

  datatype PathEntry = PathEntry(asset: int, o: Observation)

  type Shelves = map<int, Shelf>

  function ShelfOf(shelves: Shelves, asset: int): Shelf {
    if asset in shelves then shelves[asset] else Shelf([], map[])
  }

  /** The observation is the fold of the edge prices along a simple route that ends at the asset. */
  ghost predicate Follows(p: Problem, asset: int, o: Observation) {
    && o.path != [] && End(o.path) == asset && o.hops <= p.maxHops
    && RouteOf(o) in RoutesOf(p.seeds, p.anchored, p.graph, o.hops)
  }

  ghost predicate QueueSound(p: Problem, queue: seq<PathEntry>) {
    forall i :: 0 <= i < |queue| ==> Follows(p, queue[i].asset, queue[i].o)
  }

  ghost predicate ShelvesSound(p: Problem, shelves: Shelves) {
    forall a <- shelves ::
      && Indexed(shelves[a]) && |shelves[a].list| <= p.cap
      && forall o <- shelves[a].list :: o.hops >= 1 && o.liquidity >= p.threshold && Follows(p, a, o)
  }

  ghost function RoutesOn(list: seq<Observation>): set<Route> { set o <- list :: RouteOf(o) }

  ghost predicate Seen(shelves: Shelves, r: Route) {
    r.path != [] && r in RoutesOn(ShelfOf(shelves, End(r.path)).list)
  }

  ghost predicate Queued(queue: seq<PathEntry>, r: Route) {
    exists i :: 0 <= i < |queue| && RouteOf(queue[i].o) == r
  }

  /** For every asset the cap leaves room for all of its routes, so that nothing is ever evicted. */
  ghost predicate Uncapped(p: Problem) {
    forall a :: |RoutesTo(p.seeds, p.anchored, p.graph, p.maxHops, a)| <= p.cap
  }

  /** Besides, there is no liquidity floor. */
  ghost predicate Roomy(p: Problem) {
    p.threshold == 0 && Uncapped(p)
  }

  /** The route across the `i`th edge of a queued entry, when the search may take it. */
  ghost predicate EdgeSeen(p: Problem, shelves: Shelves, entry: PathEntry, i: nat) {
    entry.o.hops < p.maxHops && i < |EdgesOf(p.graph, entry.asset)|
    && Continues(p.anchored, RouteOf(entry.o), EdgesOf(p.graph, entry.asset)[i])
    ==> Seen(shelves, Across(RouteOf(entry.o), EdgesOf(p.graph, entry.asset)[i]))
  }

  /** With room for everything, nothing seen is lost and nothing queued before `head` is left unexpanded. */
  ghost predicate Tracks(p: Problem, shelves: Shelves, queue: seq<PathEntry>, head: nat) {
    && (forall i :: 0 <= i < |p.seeds| ==> Queued(queue, Route(p.seeds[i].1, [p.seeds[i].0])))
    && (forall r :: Seen(shelves, r) ==> Queued(queue, r))
    && (forall j, i :: 0 <= j < head && j < |queue| && 0 <= i < |EdgesOf(p.graph, queue[j].asset)| ==>
        EdgeSeen(p, shelves, queue[j], i))
  }

  ghost predicate State(p: Problem, shelves: Shelves, queue: seq<PathEntry>, head: nat) {
    QueueSound(p, queue) && ShelvesSound(p, shelves) && (Roomy(p) ==> Tracks(p, shelves, queue, head))
  }

  lemma ObservedIsRoute(p: Problem, asset: int, o: Observation)
    requires o.hops >= 1 && Follows(p, asset, o)
    ensures RouteOf(o) in RoutesTo(p.seeds, p.anchored, p.graph, p.maxHops, asset)
  {
    RoutesToContains(p.seeds, p.anchored, p.graph, p.maxHops, o.hops, RouteOf(o));
  }

  lemma {:induction false} DistinctRoutesCount(p: Problem, asset: int, list: seq<Observation>)
    requires forall i, j :: 0 <= i < j < |list| ==> KeyOf(list[i]) != KeyOf(list[j])
    requires forall o <- list :: o.hops >= 1 && Follows(p, asset, o)
    ensures |list| <= |RoutesTo(p.seeds, p.anchored, p.graph, p.maxHops, asset)|
  {
    hide RoutesOf, RoutesTo;
    var all := RoutesTo(p.seeds, p.anchored, p.graph, p.maxHops, asset);
    var routes := RoutesIn(p, asset, list);
    forall r <- routes ensures r in all {
      var o :| o in list && RouteOf(o) == r;
      ObservedIsRoute(p, asset, o);
    }
    SubsetCardinality(routes, all);
  }

  lemma {:induction false} RoutesIn(p: Problem, asset: int, list: seq<Observation>) returns (routes: set<Route>)
    requires forall i, j :: 0 <= i < j < |list| ==> KeyOf(list[i]) != KeyOf(list[j])
    requires forall o <- list :: Follows(p, asset, o)
    ensures |routes| == |list| && forall r :: r in routes <==> exists o <- list :: RouteOf(o) == r
  {
    hide RoutesOf;
    if list == [] {
      routes := {};
    } else {
      var init, last := list[..|list|-1], list[|list|-1];
      assert list == init + [last];
      var rest := RoutesIn(p, asset, init);
      forall o <- init ensures RouteOf(o) != RouteOf(last) {
        assert o in list && last in list;
        RoutesAreSimplePaths(p.seeds, p.anchored, p.graph, o.hops, RouteOf(o));
        RoutesAreSimplePaths(p.seeds, p.anchored, p.graph, last.hops, RouteOf(last));
        var i :| 0 <= i < |init| && init[i] == o;
        assert KeyOf(list[i]) != KeyOf(list[|list|-1]);
      }
      routes := rest + {RouteOf(last)};
    }
  }

  lemma {:induction false} SubsetCardinality<T>(a: set<T>, b: set<T>)
    requires a <= b
    ensures |a| <= |b|
  {
    if a != {} {
      var x :| x in a;
      SubsetCardinality(a - {x}, b - {x});
    }
  }

  /** With room for every route, a new sound observation always fits under the cap. */
  lemma RoomForOne(p: Problem, asset: int, shelf: Shelf, o: Observation)
    requires Uncapped(p) && Indexed(shelf) && KeyOf(o) !in shelf.keyed
    requires forall x <- shelf.list :: x.hops >= 1 && Follows(p, asset, x)
    requires o.hops >= 1 && Follows(p, asset, o)
    ensures |Sorted(Deeper, shelf.list + [o])| <= p.cap
  {
    hide RoutesOf, RoutesTo;
    IndexedAfterAppend(shelf, o);
    IndexedAfterSort(Shelf(shelf.list + [o], shelf.keyed[KeyOf(o) := o]));
    DistinctRoutesCount(p, asset, shelf.list + [o]);
  }

  /** Each listed observation has the price, hops and path of one that was there or is the new one. */
  lemma ListAfterKeys(list: seq<Observation>, o: Observation, cap: nat)
    ensures forall y <- ListAfter(list, o, cap) :: exists x <- list + [o] :: KeyOf(x) == KeyOf(y)
  {
    if exists x <- list :: KeyOf(x) == KeyOf(o) {
      var merged := Merged(list, o);
      forall y <- merged ensures exists x <- list + [o] :: KeyOf(x) == KeyOf(y) {
        var i :| 0 <= i < |merged| && merged[i] == y;
        assert list[i] in list + [o] && KeyOf(list[i]) == KeyOf(y);
      }
    } else {
      DeeperIsAnOrder();
      SortedIsSorted(Deeper, list + [o]);
      forall y <- ListAfter(list, o, cap) ensures exists x <- list + [o] :: KeyOf(x) == KeyOf(y) {
        assert y in Sorted(Deeper, list + [o]);
        assert y in list + [o];
      }
    }
  }

  lemma MergeKeepsRoutes(list: seq<Observation>, o: Observation)
    requires exists x <- list :: KeyOf(x) == KeyOf(o)
    ensures RoutesOn(Merged(list, o)) == RoutesOn(list) && RouteOf(o) in RoutesOn(list)
  {
    var merged := Merged(list, o);
    assert forall i :: 0 <= i < |list| ==> RouteOf(merged[i]) == RouteOf(list[i]);
    forall r <- RoutesOn(list) ensures r in RoutesOn(merged) {
      var i :| 0 <= i < |list| && RouteOf(list[i]) == r;
      assert merged[i] in merged;
    }
    forall r <- RoutesOn(merged) ensures r in RoutesOn(list) {
      var i :| 0 <= i < |merged| && RouteOf(merged[i]) == r;
      assert list[i] in list;
    }
  }

  /** The routes on a shelf after one observation: with room, those of before and its own. */
  lemma ShelfGrows(p: Problem, asset: int, shelf: Shelf, o: Observation)
    requires Roomy(p) && Indexed(shelf)
    requires forall x <- shelf.list :: x.hops >= 1 && Follows(p, asset, x)
    requires o.hops >= 1 && Follows(p, asset, o)
    ensures RoutesOn(ListAfter(shelf.list, o, p.cap)) == RoutesOn(shelf.list) + {RouteOf(o)}
    ensures KeyOf(o) in shelf.keyed ==> RouteOf(o) in RoutesOn(shelf.list)
    ensures KeyOf(o) !in shelf.keyed ==> o in ListAfter(shelf.list, o, p.cap)
  {
    assert Uncapped(p);
    hide RoutesOf, Roomy, Uncapped, Follows, Deeper;
    ListAfterByIndex(shelf, o, p.cap);
    if KeyOf(o) in shelf.keyed {
      IndexFinds(shelf, KeyOf(o));
      MergeKeepsRoutes(shelf.list, o);
    } else {
      RoomForOne(p, asset, shelf, o);
      DeeperIsAnOrder();
      SortedIsSorted(Deeper, shelf.list + [o]);
      hide ListAfter, Sorted, Indexed;
      assert forall x :: x in shelf.list + [o] <==> x in shelf.list || x == o;
    }
  }

  /** What crossing an edge yields, with the smaller of the path's and the edge's liquidity. */
  function Crossed(entry: PathEntry, e: Edge): Observation {
    var price := e.price(entry.o.price);
    var depth := if e.depth.Some? then e.depth.value(entry.o.price, price) else UNBOUNDED_PATH_LIQUIDITY;
    Observation(price, entry.o.hops + 1, Min(entry.o.liquidity, depth), entry.o.path + [e.to])
  }

  /** The entry may take its `i`th edge. */
  ghost predicate Takes(p: Problem, entry: PathEntry, i: nat) {
    && entry.o.hops < p.maxHops && i < |EdgesOf(p.graph, entry.asset)|
    && Continues(p.anchored, RouteOf(entry.o), EdgesOf(p.graph, entry.asset)[i])
  }

  lemma CrossedFollows(p: Problem, entry: PathEntry, i: nat)
    requires Follows(p, entry.asset, entry.o) && Takes(p, entry, i)
    ensures var e := EdgesOf(p.graph, entry.asset)[i];
            Follows(p, e.to, Crossed(entry, e)) && RouteOf(Crossed(entry, e)) == Across(RouteOf(entry.o), e)
  {
    hide RoutesOf;
    RouteSteps(p.seeds, p.anchored, p.graph, entry.o.hops, RouteOf(entry.o), i);
  }

  lemma AddKeepsShelves(p: Problem, shelves: Shelves, asset: int, shelf': Shelf, o: Observation)
    requires ShelvesSound(p, shelves) && p.cap > 0 && o.hops >= 1 && o.liquidity >= p.threshold && Follows(p, asset, o)
    requires Indexed(shelf') && |shelf'.list| <= p.cap
      && shelf'.list == ListAfter(ShelfOf(shelves, asset).list, o, p.cap)
    ensures ShelvesSound(p, shelves[asset := shelf'])
  {
    hide RoutesOf, ListAfter, Indexed;
    var list := ShelfOf(shelves, asset).list;
    ListAfterKeys(list, o, p.cap);
    FloorStays(list, o, p.cap, p.threshold);
    forall y <- shelf'.list ensures y.hops >= 1 && Follows(p, asset, y) {
      var x :| x in list + [o] && KeyOf(x) == KeyOf(y);
      assert x in list || x == o;
    }
  }

  lemma SeenGrows(shelves: Shelves, asset: int, shelf': Shelf, r: Route)
    requires RoutesOn(ShelfOf(shelves, asset).list) <= RoutesOn(shelf'.list) && Seen(shelves, r)
    ensures Seen(shelves[asset := shelf'], r)
  {
  }

  lemma QueuedGrows(queue: seq<PathEntry>, queue': seq<PathEntry>, r: Route)
    requires queue <= queue' && Queued(queue, r)
    ensures Queued(queue', r)
  {
    var i :| 0 <= i < |queue| && RouteOf(queue[i].o) == r;
    assert queue'[i] == queue[i];
  }

  lemma AddKeepsTracks(p: Problem, shelves: Shelves, queue: seq<PathEntry>, head: nat, asset: int, shelf': Shelf,
                       o: Observation)
    requires Roomy(p) && ShelvesSound(p, shelves) && Tracks(p, shelves, queue, head) && head <= |queue|
    requires o.hops >= 1 && Follows(p, asset, o) && shelf'.list == ListAfter(ShelfOf(shelves, asset).list, o, p.cap)
    ensures var admitted := KeyOf(o) !in ShelfOf(shelves, asset).keyed && o in shelf'.list;
            var queue' := if admitted then queue + [PathEntry(asset, o)] else queue;
            var shelves' := shelves[asset := shelf'];
            && Tracks(p, shelves', queue', head) && Seen(shelves', RouteOf(o))
            && forall r :: Seen(shelves, r) ==> Seen(shelves', r)
  {
    hide RoutesOf, ListAfter, Roomy, Continues;
    var shelf := ShelfOf(shelves, asset);
    var admitted := KeyOf(o) !in shelf.keyed && o in shelf'.list;
    var queue' := if admitted then queue + [PathEntry(asset, o)] else queue;
    var shelves' := shelves[asset := shelf'];
    assert Indexed(shelf);
    ShelfGrows(p, asset, shelf, o);
    forall r | Seen(shelves, r) ensures Seen(shelves', r) {
      SeenGrows(shelves, asset, shelf', r);
    }
    forall r | Seen(shelves', r) ensures Queued(queue', r) {
      if Seen(shelves, r) {
        QueuedGrows(queue, queue', r);
      } else {
        assert r == RouteOf(o);
        if admitted { assert queue'[|queue|].o == o; }
      }
    }
    forall i | 0 <= i < |p.seeds| ensures Queued(queue', Route(p.seeds[i].1, [p.seeds[i].0])) {
      QueuedGrows(queue, queue', Route(p.seeds[i].1, [p.seeds[i].0]));
    }
    forall j, i | 0 <= j < head && j < |queue'| && 0 <= i < |EdgesOf(p.graph, queue'[j].asset)|
      ensures EdgeSeen(p, shelves', queue'[j], i) {
      assert EdgeSeen(p, shelves, queue[j], i);
    }
  }

  // ---------------------------------------------------------------- where the liquidity comes from

  /** The crossing is possible and clears the liquidity floor. */
  ghost predicate Clears(p: Problem, entry: PathEntry, i: nat) {
    Takes(p, entry, i) && Crossed(entry, EdgesOf(p.graph, entry.asset)[i]).liquidity >= p.threshold
  }

  ghost predicate Reaches(p: Problem, entry: PathEntry, i: nat, k: Key) {
    Clears(p, entry, i) && KeyOf(Crossed(entry, EdgesOf(p.graph, entry.asset)[i])) == k
  }

  /** What an entry's first `n` edges bring to a key: each time the smaller of the entry's liquidity and the edge's. */
  ghost function EdgesCredit(p: Problem, entry: PathEntry, n: nat, k: Key): nat {
    if n == 0 then 0
    else
      EdgesCredit(p, entry, n - 1, k)
      + (if Reaches(p, entry, n - 1, k) then Crossed(entry, EdgesOf(p.graph, entry.asset)[n - 1]).liquidity else 0)
  }

  /** What all edges of all entries bring to a key. */
  ghost function QueueCredit(p: Problem, queue: seq<PathEntry>, k: Key): nat {
    if queue == [] then 0
    else
      var last := queue[|queue|-1];
      QueueCredit(p, queue[..|queue|-1], k) + EdgesCredit(p, last, |EdgesOf(p.graph, last.asset)|, k)
  }

  ghost function CreditSoFar(p: Problem, queue: seq<PathEntry>, head: nat, n: nat, k: Key): nat
    requires head <= |queue|
  {
    QueueCredit(p, queue[..head], k) + (if head < |queue| then EdgesCredit(p, queue[head], n, k) else 0)
  }

  ghost predicate ReachesBefore(p: Problem, entry: PathEntry, n: nat, k: Key) {
    exists i: nat :: i < n && Reaches(p, entry, i, k)
  }

  ghost predicate ReachedBy(p: Problem, entry: PathEntry, k: Key) {
    ReachesBefore(p, entry, |EdgesOf(p.graph, entry.asset)|, k)
  }

  /** Some crossing before the `n`th edge of entry `head` led to the key. */
  ghost predicate Reached(p: Problem, queue: seq<PathEntry>, head: nat, n: nat, k: Key) {
    || (exists j :: 0 <= j < head && j < |queue| && ReachedBy(p, queue[j], k))
    || (head < |queue| && ReachesBefore(p, queue[head], n, k))
  }

  /** The entry is what the crossing yields; when nothing is evicted, it is the first crossing that led to its key. */
  ghost predicate BornOf(p: Problem, queue: seq<PathEntry>, n: nat, j: nat, i: nat) {
    && j < n < |queue| && Clears(p, queue[j], i)
    && queue[n] == PathEntry(EdgesOf(p.graph, queue[j].asset)[i].to,
                             Crossed(queue[j], EdgesOf(p.graph, queue[j].asset)[i]))
    && (Uncapped(p) ==> !Reached(p, queue, j, i, KeyOf(queue[n].o)))
  }

  ghost predicate Born(p: Problem, queue: seq<PathEntry>, n: nat) { exists j: nat, i: nat :: BornOf(p, queue, n, j, i) }

  /** The seeds come first, with unbounded liquidity; every other entry comes from a crossing out of an earlier one. */
  ghost predicate Lineage(p: Problem, queue: seq<PathEntry>) {
    && |p.seeds| <= |queue|
    && (forall j :: 0 <= j < |p.seeds| ==>
          queue[j] == PathEntry(p.seeds[j].0, Observation(p.seeds[j].1, 0, UNBOUNDED_PATH_LIQUIDITY, [p.seeds[j].0])))
    && (forall n :: |p.seeds| <= n < |queue| ==> Born(p, queue, n))
  }

  function ListAt(shelves: Shelves, k: Key): seq<Observation>
    requires k.path != []
  {
    ShelfOf(shelves, End(k.path)).list
  }

  ghost predicate QueuedKey(p: Problem, queue: seq<PathEntry>, k: Key) {
    exists m :: |p.seeds| <= m < |queue| && KeyOf(queue[m].o) == k
  }

  /**
   The liquidity listed under a key was brought by crossings. When nothing is evicted it is all that they
   brought, the listed keys are those that a crossing led to, and each of them was queued.
   */
  ghost predicate Accounted(p: Problem, shelves: Shelves, queue: seq<PathEntry>, head: nat, n: nat, k: Key)
    requires head <= |queue| && k.path != []
  {
    && Credit(ListAt(shelves, k), k) <= CreditSoFar(p, queue, head, n, k)
    && (Uncapped(p) ==>
          && Credit(ListAt(shelves, k), k) == CreditSoFar(p, queue, head, n, k)
          && (Listed(ListAt(shelves, k), k) <==> Reached(p, queue, head, n, k))
          && (Listed(ListAt(shelves, k), k) ==> QueuedKey(p, queue, k)))
  }

  ghost predicate Ledger(p: Problem, shelves: Shelves, queue: seq<PathEntry>, head: nat, n: nat) {
    head <= |queue| && Lineage(p, queue) && forall k: Key | k.path != [] :: Accounted(p, shelves, queue, head, n, k)
  }

  /** Of a finished search: every listed liquidity is accounted for by the entries it queued. */
  ghost predicate LiquidityAccounted(p: Problem, shelves: Shelves, queue: seq<PathEntry>) {
    Ledger(p, shelves, queue, |queue|, 0)
  }

  lemma ReachedNext(p: Problem, queue: seq<PathEntry>, head: nat, n: nat, k: Key)
    requires head < |queue|
    ensures Reached(p, queue, head, n + 1, k) <==> Reached(p, queue, head, n, k) || Reaches(p, queue[head], n, k)
    ensures CreditSoFar(p, queue, head, n + 1, k) == CreditSoFar(p, queue, head, n, k)
         + (if Reaches(p, queue[head], n, k) then Crossed(queue[head], EdgesOf(p.graph, queue[head].asset)[n]).liquidity
            else 0)
  {
    hide Reaches, QueueCredit;
  }

  lemma ReachedEnd(p: Problem, queue: seq<PathEntry>, head: nat, k: Key)
    requires head < |queue|
    ensures var n := |EdgesOf(p.graph, queue[head].asset)|;
            && (Reached(p, queue, head, n, k) <==> Reached(p, queue, head + 1, 0, k))
            && CreditSoFar(p, queue, head, n, k) == CreditSoFar(p, queue, head + 1, 0, k)
  {
    hide ReachesBefore;
    NothingReaches(p, k);
    assert queue[..head + 1][..head] == queue[..head];
    assert head + 1 < |queue| ==> EdgesCredit(p, queue[head + 1], 0, k) == 0;
  }

  lemma NothingReaches(p: Problem, k: Key)
    ensures forall entry: PathEntry :: !ReachesBefore(p, entry, 0, k)
  {
  }

  lemma LongerQueue(p: Problem, queue: seq<PathEntry>, more: seq<PathEntry>, head: nat, n: nat, k: Key)
    requires head < |queue|
    ensures Reached(p, queue + more, head, n, k) <==> Reached(p, queue, head, n, k)
    ensures CreditSoFar(p, queue + more, head, n, k) == CreditSoFar(p, queue, head, n, k)
    ensures QueuedKey(p, queue, k) ==> QueuedKey(p, queue + more, k)
  {
    hide QueueCredit, EdgesCredit, ReachedBy, ReachesBefore;
    assert (queue + more)[..head] == queue[..head];
    assert forall j :: 0 <= j < |queue| ==> (queue + more)[j] == queue[j];
  }

  lemma BornStays(p: Problem, queue: seq<PathEntry>, more: seq<PathEntry>, n: nat)
    requires n < |queue| && Born(p, queue, n)
    ensures Born(p, queue + more, n)
  {
    var j: nat, i: nat :| BornOf(p, queue, n, j, i);
    LongerQueue(p, queue, more, j, i, KeyOf(queue[n].o));
    hide Reached, Clears, Uncapped;
    assert BornOf(p, queue + more, n, j, i);
  }

  /** An edge that is not crossed brings nothing. */
  lemma SkippedKeepsLedger(p: Problem, shelves: Shelves, queue: seq<PathEntry>, head: nat, i: nat)
    requires Ledger(p, shelves, queue, head, i) && head < |queue| && !Clears(p, queue[head], i)
    ensures Ledger(p, shelves, queue, head, i + 1)
  {
    hide Lineage, Reached, CreditSoFar, Uncapped, QueuedKey;
    forall k: Key | k.path != [] ensures Accounted(p, shelves, queue, head, i + 1, k) {
      assert Accounted(p, shelves, queue, head, i, k);
      ReachedNext(p, queue, head, i, k);
    }
  }

  lemma ExpandedKeepsLedger(p: Problem, shelves: Shelves, queue: seq<PathEntry>, head: nat)
    requires head < |queue| && Ledger(p, shelves, queue, head, |EdgesOf(p.graph, queue[head].asset)|)
    ensures Ledger(p, shelves, queue, head + 1, 0)
  {
    hide Lineage, Reached, CreditSoFar, Uncapped, QueuedKey;
    forall k: Key | k.path != [] ensures Accounted(p, shelves, queue, head + 1, 0, k) {
      assert Accounted(p, shelves, queue, head, |EdgesOf(p.graph, queue[head].asset)|, k);
      ReachedEnd(p, queue, head, k);
    }
  }

  /** One shelf and one key: what an arrival changes. */
  lemma ShelfAccounts(p: Problem, asset: int, shelf: Shelf, o: Observation, k: Key)
    requires Indexed(shelf) && |shelf.list| <= p.cap && o.hops >= 1 && Follows(p, asset, o)
    requires forall x <- shelf.list :: x.hops >= 1 && Follows(p, asset, x)
    ensures var list', own := ListAfter(shelf.list, o, p.cap), if k == KeyOf(o) then o.liquidity else 0;
            && Credit(list', k) <= Credit(shelf.list, k) + own
            && (Uncapped(p) ==> Credit(list', k) == Credit(shelf.list, k) + own
                                && (Listed(list', k) <==> Listed(shelf.list, k) || k == KeyOf(o)))
    ensures Uncapped(p) && KeyOf(o) !in shelf.keyed ==> o in ListAfter(shelf.list, o, p.cap)
    ensures KeyOf(o) in shelf.keyed <==> Listed(shelf.list, KeyOf(o))
  {
    assert KeyOf(o) in shelf.keyed ==> shelf.keyed[KeyOf(o)] in shelf.list;
    if Uncapped(p) && KeyOf(o) !in shelf.keyed {
      RoomForOne(p, asset, shelf, o);
      FitsUnderCap(shelf.list, o, p.cap);
    }
    hide Follows, Uncapped, ListAfter, Credit;
    CreditAtMost(shelf.list, o, p.cap, k);
    if Uncapped(p) {
      AddingCreditsOneKey(shelf.list, o, p.cap, k);
      ListedAfter(shelf.list, o, p.cap, k);
    }
  }

  lemma FitsUnderCap(list: seq<Observation>, o: Observation, cap: nat)
    requires |Sorted(Deeper, list + [o])| <= cap && !Listed(list, KeyOf(o))
    ensures |list| < cap && o in ListAfter(list, o, cap)
  {
    DeeperIsAnOrder();
    SortedIsSorted(Deeper, list + [o]);
  }

  /** An arrival's liquidity is entered under its key, and the entry it queues, if any, comes from its crossing. */
  lemma ArrivalKeepsLedger(p: Problem, shelves: Shelves, queue: seq<PathEntry>, head: nat, i: nat, o: Observation,
                           shelf': Shelf)
    requires Ledger(p, shelves, queue, head, i) && head < |queue| && Clears(p, queue[head], i)
    requires ShelvesSound(p, shelves) && Follows(p, queue[head].asset, queue[head].o)
    requires o == Crossed(queue[head], EdgesOf(p.graph, queue[head].asset)[i])
    requires shelf'.list == ListAfter(ShelfOf(shelves, EdgesOf(p.graph, queue[head].asset)[i].to).list, o, p.cap)
    ensures var to := EdgesOf(p.graph, queue[head].asset)[i].to;
            var admitted := KeyOf(o) !in ShelfOf(shelves, to).keyed && o in shelf'.list;
            Ledger(p, shelves[to := shelf'], if admitted then queue + [PathEntry(to, o)] else queue, head, i + 1)
  {
    var to := EdgesOf(p.graph, queue[head].asset)[i].to;
    var shelf := ShelfOf(shelves, to);
    var admitted := KeyOf(o) !in shelf.keyed && o in shelf'.list;
    var more := if admitted then [PathEntry(to, o)] else [];
    var queue' := queue + more;
    assert queue' == if admitted then queue + [PathEntry(to, o)] else queue;
    CrossedFollows(p, queue[head], i);
    SoundShelf(p, shelves, to);
    hide Follows, RoutesOf, ListAfter, ShelvesSound, Uncapped, Indexed, Continues, Reached, CreditSoFar, QueuedKey,
      Clears;
    forall k: Key | k.path != [] ensures Accounted(p, shelves[to := shelf'], queue', head, i + 1, k) {
      KeyAccounted(p, shelves, queue, head, i, o, shelf', k);
    }
    assert Accounted(p, shelves, queue, head, i, KeyOf(o));
    ShelfAccounts(p, to, shelf, o, KeyOf(o));
    LineageGrows(p, queue, head, i, o, more, KeyOf(o) !in shelf.keyed);
  }

  lemma SoundShelf(p: Problem, shelves: Shelves, asset: int)
    requires ShelvesSound(p, shelves)
    ensures var shelf := ShelfOf(shelves, asset);
            Indexed(shelf) && |shelf.list| <= p.cap && forall x <- shelf.list :: x.hops >= 1 && Follows(p, asset, x)
  {
    hide Follows;
  }

  lemma LineageGrows(p: Problem, queue: seq<PathEntry>, head: nat, i: nat, o: Observation, more: seq<PathEntry>,
                     new': bool)
    requires Lineage(p, queue) && head < |queue| && Clears(p, queue[head], i)
    requires o == Crossed(queue[head], EdgesOf(p.graph, queue[head].asset)[i])
    requires more == [] || (new' && more == [PathEntry(EdgesOf(p.graph, queue[head].asset)[i].to, o)])
    requires new' && Uncapped(p) ==> !Reached(p, queue, head, i, KeyOf(o))
    ensures Lineage(p, queue + more)
  {
    hide Clears, Uncapped, Reached;
    forall n | |p.seeds| <= n < |queue + more| ensures Born(p, queue + more, n) {
      if n < |queue| {
        BornStays(p, queue, more, n);
      } else {
        LongerQueue(p, queue, more, head, i, KeyOf(o));
        assert BornOf(p, queue + more, n, head, i);
      }
    }
  }

  lemma KeyAccounted(p: Problem, shelves: Shelves, queue: seq<PathEntry>, head: nat, i: nat, o: Observation,
                     shelf': Shelf, k: Key)
    requires head < |queue| && Clears(p, queue[head], i) && k.path != [] && Accounted(p, shelves, queue, head, i, k)
    requires o == Crossed(queue[head], EdgesOf(p.graph, queue[head].asset)[i]) && |p.seeds| <= |queue|
    requires ShelvesSound(p, shelves) && Follows(p, EdgesOf(p.graph, queue[head].asset)[i].to, o)
    requires shelf'.list == ListAfter(ShelfOf(shelves, EdgesOf(p.graph, queue[head].asset)[i].to).list, o, p.cap)
    ensures var to := EdgesOf(p.graph, queue[head].asset)[i].to;
            var admitted := KeyOf(o) !in ShelfOf(shelves, to).keyed && o in shelf'.list;
            Accounted(p, shelves[to := shelf'], queue + (if admitted then [PathEntry(to, o)] else []), head, i + 1, k)
  {
    var to := EdgesOf(p.graph, queue[head].asset)[i].to;
    var shelf := ShelfOf(shelves, to);
    var more := if KeyOf(o) !in shelf.keyed && o in shelf'.list then [PathEntry(to, o)] else [];
    assert End(KeyOf(o).path) == to;
    assert Reaches(p, queue[head], i, k) <==> k == KeyOf(o);
    SoundShelf(p, shelves, to);
    ReachedNext(p, queue, head, i, k);
    LongerQueue(p, queue, more, head, i + 1, k);
    hide *;
    if End(k.path) == to {
      ShelfAccounts(p, to, shelf, o, k);
      OwnKeyAccounted(p, shelves, queue, more, head, i, o, to, shelf', k);
    } else {
      OtherKeyAccounted(p, shelves, queue, more, head, i, to, shelf', k);
    }
  }

  lemma OtherKeyAccounted(p: Problem, shelves: Shelves, queue: seq<PathEntry>, more: seq<PathEntry>, head: nat, i: nat,
                          to: int, shelf': Shelf, k: Key)
    requires head < |queue| && k.path != [] && End(k.path) != to && Accounted(p, shelves, queue, head, i, k)
    requires CreditSoFar(p, queue + more, head, i + 1, k) == CreditSoFar(p, queue, head, i, k)
    requires Reached(p, queue + more, head, i + 1, k) <==> Reached(p, queue, head, i, k)
    requires QueuedKey(p, queue, k) ==> QueuedKey(p, queue + more, k)
    ensures Accounted(p, shelves[to := shelf'], queue + more, head, i + 1, k)
  {
    hide Uncapped, Reached, CreditSoFar, QueuedKey, Credit, Listed;
  }

  lemma OwnKeyAccounted(p: Problem, shelves: Shelves, queue: seq<PathEntry>, more: seq<PathEntry>, head: nat, i: nat,
                        o: Observation,
                        to: int, shelf': Shelf, k: Key)
    requires head < |queue| && |p.seeds| <= |queue| && k.path != [] && End(k.path) == to
      && Accounted(p, shelves, queue, head, i, k)
    requires var list, own := ListAt(shelves, k), if k == KeyOf(o) then o.liquidity else 0;
             && Credit(shelf'.list, k) <= Credit(list, k) + own
             && (Uncapped(p) ==> Credit(shelf'.list, k) == Credit(list, k) + own
                                 && (Listed(shelf'.list, k) <==> Listed(list, k) || k == KeyOf(o)))
             && CreditSoFar(p, queue + more, head, i + 1, k) == CreditSoFar(p, queue, head, i, k) + own
             && (Uncapped(p) && !Listed(list, KeyOf(o)) ==> more != [])
    requires Reached(p, queue + more, head, i + 1, k) <==> Reached(p, queue, head, i, k) || k == KeyOf(o)
    requires QueuedKey(p, queue, k) ==> QueuedKey(p, queue + more, k)
    requires more != [] ==> more[0].o == o
    ensures Accounted(p, shelves[to := shelf'], queue + more, head, i + 1, k)
  {
    hide Uncapped, Reached, CreditSoFar, Credit, Listed;
    if k == KeyOf(o) && more != [] {
      assert KeyOf((queue + more)[|queue|].o) == k;
    }
  }

  // ---------------------------------------------------------------- termination

  /** The work still ahead: each pending entry weighs (d+1)^(maxHops - hops), where d bounds the degree. */
  ghost function Work(d: nat, maxHops: nat, pending: seq<PathEntry>): nat {
    if pending == [] then 0
    else
      var last := pending[|pending|-1];
      Work(d, maxHops, pending[..|pending|-1]) + Pow(d + 1, Max(0, maxHops - last.o.hops))
  }

  lemma {:induction false} WorkJoin(d: nat, maxHops: nat, a: seq<PathEntry>, b: seq<PathEntry>)
    ensures Work(d, maxHops, a + b) == Work(d, maxHops, a) + Work(d, maxHops, b)
  {
    if b == [] {
      assert a + b == a;
    } else {
      WorkJoin(d, maxHops, a, b[..|b|-1]);
      assert (a + b)[..|a + b|-1] == a + b[..|b|-1];
    }
  }

  lemma {:induction false} WorkOfLevel(d: nat, maxHops: nat, level: nat, pending: seq<PathEntry>)
    requires level <= maxHops && forall e <- pending :: e.o.hops == level
    ensures Work(d, maxHops, pending) == |pending| * Pow(d + 1, maxHops - level)
  {
    if pending != [] {
      WorkOfLevel(d, maxHops, level, pending[..|pending|-1]);
      assert pending[|pending|-1] in pending;
    }
  }

  lemma {:induction false} PowPositive(b: nat, n: nat)
    requires b > 0
    ensures Pow(b, n) > 0
  {
    if n > 0 { PowPositive(b, n - 1); }
  }

  /** Replacing an entry by at most `d` entries one hop further leaves less work. */
  lemma ExpansionReducesWork(d: nat, maxHops: nat, entry: PathEntry, rest: seq<PathEntry>, children: seq<PathEntry>)
    requires entry.o.hops <= maxHops && |children| <= d
    requires forall c <- children :: c.o.hops == entry.o.hops + 1 <= maxHops
    ensures Work(d, maxHops, rest + children) < Work(d, maxHops, [entry] + rest)
  {
    hide Work, Pow;
    WorkJoin(d, maxHops, rest, children);
    WorkJoin(d, maxHops, [entry], rest);
    WorkOfOne(d, maxHops, entry);
    PowPositive(d + 1, maxHops - entry.o.hops);
    if children == [] {
      WorkOfNone(d, maxHops);
    } else {
      assert children[0] in children;
      var level := entry.o.hops + 1;
      WorkOfLevel(d, maxHops, level, children);
      var w := Pow(d + 1, maxHops - level);
      PowPositive(d + 1, maxHops - level);
      TimesMonotone(|children|, d, w);
      PowStep(d + 1, maxHops - level);
      assert (d + 1) * w == d * w + w;
    }
  }

  lemma WorkOfNone(d: nat, maxHops: nat)
    ensures Work(d, maxHops, []) == 0
  {
  }

  lemma WorkOfOne(d: nat, maxHops: nat, entry: PathEntry)
    requires entry.o.hops <= maxHops
    ensures Work(d, maxHops, [entry]) == Pow(d + 1, maxHops - entry.o.hops)
  {
    assert [entry][..0] == [];
  }

  lemma PowStep(b: nat, n: nat)
    ensures Pow(b, n + 1) == b * Pow(b, n)
  {
  }

  lemma TimesMonotone(a: nat, b: nat, w: nat)
    requires a <= b
    ensures a * w <= b * w
  {
  }

  // ---------------------------------------------------------------- the loops

  /** Crosses every edge of one entry. */
  method Expand(p: Problem, before: Shelves, pending: seq<PathEntry>, head: nat)
    returns (shelves: Shelves, queue: seq<PathEntry>)
    requires p.cap > 0 && head < |pending| && State(p, before, pending, head) && Ledger(p, before, pending, head, 0)
    ensures State(p, shelves, queue, head + 1) && Ledger(p, shelves, queue, head + 1, 0)
    ensures pending <= queue && |queue| - |pending| <= |EdgesOf(p.graph, pending[head].asset)|
    ensures forall c <- queue[|pending|..] :: c.o.hops == pending[head].o.hops + 1 <= p.maxHops
  {
    hide RoutesOf, Roomy, Tracks, ShelvesSound, Follows, ListAfter, Indexed, EdgeSeen, Ledger;
    shelves, queue := before, pending;
    var entry := queue[head];
    ghost var children: seq<PathEntry> := [];
    var edges := EdgesOf(p.graph, entry.asset);
    for i := 0 to |edges|
      invariant |children| <= i
      invariant queue == pending + children && forall c <- children :: c.o.hops == entry.o.hops + 1 <= p.maxHops
      invariant State(p, shelves, queue, head) && Ledger(p, shelves, queue, head, i)
      invariant Roomy(p) ==> forall j :: 0 <= j < i ==> EdgeSeen(p, shelves, entry, j)
    {
      var edge := edges[i];
      SkippedEdge(p, shelves, entry, i);
      if !Clears(p, entry, i) { SkippedKeepsLedger(p, shelves, queue, head, i); }
      if edge.to in p.anchored { continue; }
      if edge.to in entry.o.path { continue; }
      var nextHops := entry.o.hops + 1;
      if nextHops > p.maxHops { continue; }
      var nextPrice := edge.price(entry.o.price);
      if nextPrice == 0 { continue; }
      var depth := if edge.depth.Some? then edge.depth.value(entry.o.price, nextPrice) else UNBOUNDED_PATH_LIQUIDITY;
      var liquidity := Min(entry.o.liquidity, depth);
      LiquidityFloor(p, liquidity);
      if liquidity < p.threshold { continue; }
      var observation := Observation(nextPrice, nextHops, liquidity, entry.o.path + [edge.to]);
      ShelfIsIndexed(p, shelves, edge.to);
      var shelf, admitted := AddObservation(ShelfOf(shelves, edge.to), observation, p.cap);
      Arrives(p, shelves, queue, head, i, observation, shelf);
      IsSoundEntry(p, queue, head);
      ArrivalKeepsLedger(p, shelves, queue, head, i, observation, shelf);
      ghost var was := shelves;
      shelves := shelves[edge.to := shelf];
      forall j | 0 <= j < i && Roomy(p) ensures EdgeSeen(p, shelves, entry, j) {
        assert EdgeSeen(p, was, entry, j);
      }
      if admitted {
        queue := queue + [PathEntry(edge.to, observation)];
        children := children + [PathEntry(edge.to, observation)];
      }
    }
    assert queue[|pending|..] == children;
    ExpandedNow(p, shelves, queue, head);
    ExpandedKeepsLedger(p, shelves, queue, head);
  }

  lemma IsSoundEntry(p: Problem, queue: seq<PathEntry>, head: nat)
    requires QueueSound(p, queue) && head < |queue|
    ensures Follows(p, queue[head].asset, queue[head].o)
  {
  }

  lemma SkippedEdge(p: Problem, shelves: Shelves, entry: PathEntry, i: nat)
    ensures !Takes(p, entry, i) ==> EdgeSeen(p, shelves, entry, i)
  {
  }

  lemma LiquidityFloor(p: Problem, liquidity: nat)
    ensures Roomy(p) ==> liquidity >= p.threshold
  {
    hide RoutesTo;
  }

  lemma ShelfIsIndexed(p: Problem, shelves: Shelves, asset: int)
    requires ShelvesSound(p, shelves)
    ensures Indexed(ShelfOf(shelves, asset)) && |ShelfOf(shelves, asset).list| <= p.cap
  {
  }

  lemma ExpandedNow(p: Problem, shelves: Shelves, queue: seq<PathEntry>, head: nat)
    requires State(p, shelves, queue, head) && head < |queue|
    requires Roomy(p) ==> forall j :: 0 <= j < |EdgesOf(p.graph, queue[head].asset)| ==>
      EdgeSeen(p, shelves, queue[head], j)
    ensures State(p, shelves, queue, head + 1)
  {
    hide RoutesOf, Roomy, EdgeSeen, Seen, Queued;
  }

  /** An observation across the `i`th edge of the current entry keeps everything and marks its edge. */
  lemma Arrives(p: Problem, shelves: Shelves, queue: seq<PathEntry>, head: nat, i: nat, o: Observation, shelf': Shelf)
    requires p.cap > 0 && head < |queue| && State(p, shelves, queue, head) && Takes(p, queue[head], i)
    requires o == Crossed(queue[head], EdgesOf(p.graph, queue[head].asset)[i]) && o.liquidity >= p.threshold
    requires var to := EdgesOf(p.graph, queue[head].asset)[i].to;
             Indexed(shelf') && |shelf'.list| <= p.cap && shelf'.list == ListAfter(ShelfOf(shelves, to).list, o, p.cap)
    ensures var to := EdgesOf(p.graph, queue[head].asset)[i].to;
            var admitted := KeyOf(o) !in ShelfOf(shelves, to).keyed && o in shelf'.list;
            && State(p, shelves[to := shelf'], if admitted then queue + [PathEntry(to, o)] else queue, head)
            && (Roomy(p) ==> EdgeSeen(p, shelves[to := shelf'], queue[head], i))
            && (Roomy(p) ==> forall j :: EdgeSeen(p, shelves, queue[head], j) ==>
                EdgeSeen(p, shelves[to := shelf'], queue[head], j))
  {
    hide RoutesOf, Roomy, ListAfter, Indexed, Follows;
    var to := EdgesOf(p.graph, queue[head].asset)[i].to;
    CrossedFollows(p, queue[head], i);
    AddKeepsShelves(p, shelves, to, shelf', o);
    if Roomy(p) {
      AddKeepsTracks(p, shelves, queue, head, to, shelf', o);
    }
  }

  // ---------------------------------------------------------------- the whole search

  /** Everything expanded: every route was queued. */
  lemma {:induction false} EveryRouteQueued(p: Problem, shelves: Shelves, queue: seq<PathEntry>, k: nat, r: Route)
    requires Roomy(p) && State(p, shelves, queue, |queue|) && k <= p.maxHops
    requires r in RoutesOf(p.seeds, p.anchored, p.graph, k)
    ensures Queued(queue, r)
  {
    hide Roomy, ShelvesSound, QueueSound, Queued, Seen, EdgeSeen, RoutesOf;
    if k == 0 {
      var i := RouteOfSeed(p, r);
      assert Queued(queue, Route(p.seeds[i].1, [p.seeds[i].0]));
    } else {
      var q, i := RouteComesFrom(p.seeds, p.anchored, p.graph, k, r);
      EveryRouteQueued(p, shelves, queue, k - 1, q);
      QueuedIsExpanded(p, shelves, queue, k - 1, q, i);
    }
  }

  lemma RouteOfSeed(p: Problem, r: Route) returns (i: nat)
    requires r in RoutesOf(p.seeds, p.anchored, p.graph, 0)
    ensures i < |p.seeds| && r == Route(p.seeds[i].1, [p.seeds[i].0])
  {
    i :| 0 <= i < |p.seeds| && r == Route(p.seeds[i].1, [p.seeds[i].0]);
  }

  lemma QueuedIsExpanded(p: Problem, shelves: Shelves, queue: seq<PathEntry>, k: nat, q: Route, i: nat)
    requires Roomy(p) && State(p, shelves, queue, |queue|) && k < p.maxHops && Queued(queue, q)
    requires q in RoutesOf(p.seeds, p.anchored, p.graph, k) && i < |EdgesOf(p.graph, End(q.path))|
    requires Continues(p.anchored, q, EdgesOf(p.graph, End(q.path))[i])
    ensures Queued(queue, Across(q, EdgesOf(p.graph, End(q.path))[i]))
    ensures Seen(shelves, Across(q, EdgesOf(p.graph, End(q.path))[i]))
  {
    hide RoutesOf, Roomy, ShelvesSound;
    var j :| 0 <= j < |queue| && RouteOf(queue[j].o) == q;
    RoutesAreSimplePaths(p.seeds, p.anchored, p.graph, k, q);
    assert Follows(p, queue[j].asset, queue[j].o);
    RoutesAreSimplePaths(p.seeds, p.anchored, p.graph, queue[j].o.hops, q);
    assert EdgeSeen(p, shelves, queue[j], i);
  }

  /** With room for every route, the shelf of an asset ends up with exactly its routes. */
  lemma ShelvesAreComplete(p: Problem, shelves: Shelves, queue: seq<PathEntry>, asset: int)
    requires Roomy(p) && State(p, shelves, queue, |queue|)
    ensures RoutesOn(ShelfOf(shelves, asset).list) == RoutesTo(p.seeds, p.anchored, p.graph, p.maxHops, asset)
  {
    hide RoutesOf, Roomy, RoutesTo;
    var list := ShelfOf(shelves, asset).list;
    forall r <- RoutesOn(list) ensures r in RoutesTo(p.seeds, p.anchored, p.graph, p.maxHops, asset) {
      var o :| o in list && RouteOf(o) == r;
      ObservedIsRoute(p, asset, o);
    }
    forall r <- RoutesTo(p.seeds, p.anchored, p.graph, p.maxHops, asset) ensures r in RoutesOn(list) {
      var k := RoutesToComesFrom(p.seeds, p.anchored, p.graph, p.maxHops, asset, r);
      var q, i := RouteComesFrom(p.seeds, p.anchored, p.graph, k, r);
      EveryRouteQueued(p, shelves, queue, k - 1, q);
      QueuedIsExpanded(p, shelves, queue, k - 1, q, i);
    }
  }

  /** One expansion leaves less work. */
  lemma StepReducesWork(p: Problem, shelves: Shelves, d: nat, before: seq<PathEntry>, after: seq<PathEntry>, head: nat)
    requires DegreeAtMost(p.graph, d) && State(p, shelves, before, head) && head < |before| && before <= after
    requires |after| - |before| <= |EdgesOf(p.graph, before[head].asset)|
    requires forall c <- after[|before|..] :: c.o.hops == before[head].o.hops + 1 <= p.maxHops
    ensures Work(d, p.maxHops, after[head+1..]) < Work(d, p.maxHops, before[head..])
  {
    hide RoutesOf, Roomy, Tracks, ShelvesSound, Work;
    assert Follows(p, before[head].asset, before[head].o);
    assert before[head..] == [before[head]] + before[head+1..];
    assert after[head+1..] == before[head+1..] + after[|before|..];
    ExpansionReducesWork(d, p.maxHops, before[head], before[head+1..], after[|before|..]);
  }

  method SeedQueue(p: Problem) returns (queue: seq<PathEntry>)
    ensures State(p, map[], queue, 0) && Ledger(p, map[], queue, 0, 0)
  {
    queue := [];
    for i := 0 to |p.seeds|
      invariant |queue| == i
      invariant forall j :: 0 <= j < i ==>
        queue[j] == PathEntry(p.seeds[j].0, Observation(p.seeds[j].1, 0, UNBOUNDED_PATH_LIQUIDITY, [p.seeds[j].0]))
    {
      queue := queue + [PathEntry(p.seeds[i].0, Observation(p.seeds[i].1, 0, UNBOUNDED_PATH_LIQUIDITY,
                                                            [p.seeds[i].0]))];
    }
    SeedsStart(p, queue);
    SeedsLedger(p, queue);
  }

  lemma SeedsLedger(p: Problem, queue: seq<PathEntry>)
    requires Lineage(p, queue)
    ensures Ledger(p, map[], queue, 0, 0)
  {
    forall k: Key | k.path != [] ensures Accounted(p, map[], queue, 0, 0, k) {
      NothingReaches(p, k);
      assert ListAt(map[], k) == [] && Credit([], k) == 0 && !Listed([], k);
      assert CreditSoFar(p, queue, 0, 0, k) == 0;
    }
  }

  /** The shelves at the end, and the entries that were queued, in order. */
  method SearchPaths(p: Problem) returns (shelves: Shelves, queue: seq<PathEntry>)
    requires p.cap > 0
    ensures ShelvesSound(p, shelves) && LiquidityAccounted(p, shelves, queue)
    ensures Roomy(p) ==>
      forall a :: RoutesOn(ShelfOf(shelves, a).list) == RoutesTo(p.seeds, p.anchored, p.graph, p.maxHops, a)
  {
    hide RoutesOf, Roomy, RoutesTo, Tracks, ShelvesSound, QueueSound, Work, DegreeAtMost, Ledger;
    shelves := map[];
    queue := SeedQueue(p);
    ghost var d := DegreeIsBounded(p.graph);
    var head := 0;
    while head < |queue|
      invariant head <= |queue| && State(p, shelves, queue, head) && Ledger(p, shelves, queue, head, 0)
      decreases Work(d, p.maxHops, queue[head..])
    {
      ghost var before, was := queue, shelves;
      shelves, queue := Expand(p, shelves, queue, head);
      StepReducesWork(p, was, d, before, queue, head);
      head := head + 1;
    }
    if Roomy(p) {
      forall a ensures RoutesOn(ShelfOf(shelves, a).list) == RoutesTo(p.seeds, p.anchored, p.graph, p.maxHops, a) {
        ShelvesAreComplete(p, shelves, queue, a);
      }
    }
  }

  lemma SeedsStart(p: Problem, queue: seq<PathEntry>)
    requires |queue| == |p.seeds|
    requires forall j :: 0 <= j < |queue| ==>
      queue[j] == PathEntry(p.seeds[j].0, Observation(p.seeds[j].1, 0, UNBOUNDED_PATH_LIQUIDITY, [p.seeds[j].0]))
    ensures State(p, map[], queue, 0)
  {
    forall i | 0 <= i < |queue| ensures Follows(p, queue[i].asset, queue[i].o) {
      assert Route(p.seeds[i].1, [p.seeds[i].0]) in RoutesOf(p.seeds, p.anchored, p.graph, 0);
    }
    forall i | 0 <= i < |p.seeds| ensures Queued(queue, Route(p.seeds[i].1, [p.seeds[i].0])) {
      assert RouteOf(queue[i].o) == Route(p.seeds[i].1, [p.seeds[i].0]);
    }
  }

  /**
   The weight an observation enters the median with: what all crossings to its route brought, each the
   smaller of the liquidity its entry was queued with and the depth of the pool. Eviction can only take from it.
   */
  lemma ListedLiquidity(p: Problem, shelves: Shelves, queue: seq<PathEntry>, asset: int, o: Observation)
    requires ShelvesSound(p, shelves) && LiquidityAccounted(p, shelves, queue) && o in ShelfOf(shelves, asset).list
    ensures p.threshold <= o.liquidity <= QueueCredit(p, queue, KeyOf(o))
    ensures Uncapped(p) ==> o.liquidity == QueueCredit(p, queue, KeyOf(o))
  {
    hide RoutesOf, Uncapped, Credit, QueueCredit, Listed, Reached, QueuedKey, Lineage;
    var list := ShelfOf(shelves, asset).list;
    var i :| 0 <= i < |list| && list[i] == o;
    assert Follows(p, asset, o);
    CreditIsLiquidity(list, i);
    assert Accounted(p, shelves, queue, |queue|, 0, KeyOf(o));
    assert queue[..|queue|] == queue;
  }

  /** The depth a pool is crossed at; without a depth function it is unbounded. */
  predicate CrossedWithin(liquidity: nat, e: Edge, from: nat, to: nat) {
    liquidity <=
      (if e.depth.Some? then e.depth.value(from, to)
       else 1_000_000_000_000_000_000_000_000_000_000_000_000_000_000_000_000_000_000_000_000)
  }

  /**
   Every queued entry is a seed or has crossed one pool more than an earlier entry: to an asset that is
   neither anchored nor on the way, at the pool's nonzero price, and with the smaller of the two liquidities.
   */
  lemma EntriesCrossPools(p: Problem, shelves: Shelves, queue: seq<PathEntry>, n: nat)
    requires LiquidityAccounted(p, shelves, queue) && |p.seeds| <= n < |queue|
    ensures exists j: nat, e :: j < n && e in EdgesOf(p.graph, queue[j].asset) && IsCrossing(p, queue[j], e, queue[n])
  {
    hide Reached, Uncapped, Accounted;
    assert Born(p, queue, n);
    var j: nat, i: nat :| BornOf(p, queue, n, j, i);
    var e := EdgesOf(p.graph, queue[j].asset)[i];
    assert e in EdgesOf(p.graph, queue[j].asset) && IsCrossing(p, queue[j], e, queue[n]);
  }

  ghost predicate IsCrossing(p: Problem, from: PathEntry, e: Edge, to: PathEntry) {
    && to.asset == e.to && e.to !in p.anchored && e.to !in from.o.path
    && to.o.path == from.o.path + [e.to] && to.o.hops == from.o.hops + 1 <= p.maxHops
    && to.o.price == e.price(from.o.price) && to.o.price > 0
    && p.threshold <= to.o.liquidity <= from.o.liquidity && CrossedWithin(to.o.liquidity, e, from.o.price, to.o.price)
    && (to.o.liquidity == from.o.liquidity || !CrossedWithin(to.o.liquidity + 1, e, from.o.price, to.o.price))
  }

  datatype PathPrice = PathPrice(price: nat, hops: nat, liquidity: nat)

  /** What is published for an asset: its seed price, or a weighted median of its observations. */
  ghost predicate Chosen(p: Problem, shelves: Shelves, asset: int, r: PathPrice) {
    || (exists i :: 0 <= i < |p.seeds| && p.seeds[i].0 == asset
                    && r == PathPrice(p.seeds[i].1, 0, UNBOUNDED_PATH_LIQUIDITY))
    || (!IsSeed(p.seeds, asset) && exists o :: IsMedian(ShelfOf(shelves, asset).list, o)
                                               && r == PathPrice(o.price, o.hops, o.liquidity))
  }

  /** A weighted median for every observed asset. */
  method SelectMedians(found: Shelves) returns (medians: map<int, PathPrice>)
    ensures forall a :: a in medians <==> ShelfOf(found, a).list != []
    ensures forall a <- medians :: exists o :: IsMedian(ShelfOf(found, a).list, o)
                                               && medians[a] == PathPrice(o.price, o.hops, o.liquidity)
  {
    hide IsMedian;
    medians := map[];
    var assets := found.Keys;
    while assets != {}
      invariant assets <= found.Keys
      invariant forall a :: a in medians <==> a in found && a !in assets && found[a].list != []
      invariant forall a <- medians :: exists o :: IsMedian(found[a].list, o)
                                                   && medians[a] == PathPrice(o.price, o.hops, o.liquidity)
      decreases assets
    {
      ghost var some: int := AnyOf(assets);
      assert some in assets;
      var asset :| asset in assets;
      var selected := WeightedMedian(found[asset].list);
      if selected.Some? {
        var o := selected.value;
        medians := medians[asset := PathPrice(o.price, o.hops, o.liquidity)];
      }
      assets := assets - {asset};
    }
  }

  /** The seeds, over whatever was resolved. */
  method WithSeeds(seeds: Seeds, medians: map<int, PathPrice>) returns (resolved: map<int, PathPrice>)
    requires DistinctSeeds(seeds)
    ensures forall a :: a in resolved <==> a in medians || IsSeed(seeds, a)
    ensures forall i :: 0 <= i < |seeds| ==>
      seeds[i].0 in resolved && resolved[seeds[i].0] == PathPrice(seeds[i].1, 0, UNBOUNDED_PATH_LIQUIDITY)
    ensures forall a <- resolved :: IsSeed(seeds, a) || (a in medians && resolved[a] == medians[a])
  {
    resolved := medians;
    for i := 0 to |seeds|
      invariant forall a :: a in resolved <==> a in medians || IsSeed(seeds[..i], a)
      invariant forall j :: 0 <= j < i ==>
        seeds[j].0 in resolved && resolved[seeds[j].0] == PathPrice(seeds[j].1, 0, UNBOUNDED_PATH_LIQUIDITY)
      invariant forall a <- resolved :: IsSeed(seeds[..i], a) || (a in medians && resolved[a] == medians[a])
    {
      forall a ensures IsSeed(seeds[..i+1], a) <==> IsSeed(seeds[..i], a) || a == seeds[i].0 {
        SeedPrefix(seeds, i, a);
      }
      resolved := resolved[seeds[i].0 := PathPrice(seeds[i].1, 0, UNBOUNDED_PATH_LIQUIDITY)];
    }
    assert seeds[..|seeds|] == seeds;
  }

  lemma SeedPrefix(seeds: Seeds, i: nat, a: int)
    requires i < |seeds|
    ensures IsSeed(seeds[..i+1], a) <==> IsSeed(seeds[..i], a) || a == seeds[i].0
  {
    if IsSeed(seeds[..i], a) {
      var j :| 0 <= j < i && seeds[..i][j].0 == a;
      assert seeds[..i+1][j].0 == a;
    }
    assert seeds[..i+1][i].0 == seeds[i].0;
    if IsSeed(seeds[..i+1], a) && a != seeds[i].0 {
      var j :| 0 <= j < i + 1 && seeds[..i+1][j].0 == a;
      assert seeds[..i][j].0 == a;
    }
  }

  /** The search, the weighted median of every observed asset, and the seeds over it all. */
  method ResolveByWeightedMedian(p: Problem) returns (resolved: map<int, PathPrice>, shelves: Shelves,
                                                      queue: seq<PathEntry>)
    requires p.cap > 0 && DistinctSeeds(p.seeds)
    ensures ShelvesSound(p, shelves) && LiquidityAccounted(p, shelves, queue)
    ensures Roomy(p) ==>
      forall a :: RoutesOn(ShelfOf(shelves, a).list) == RoutesTo(p.seeds, p.anchored, p.graph, p.maxHops, a)
    ensures forall a :: a in resolved <==> IsSeed(p.seeds, a) || ShelfOf(shelves, a).list != []
    ensures forall a <- resolved :: Chosen(p, shelves, a, resolved[a])
  {
    hide ShelvesSound, LiquidityAccounted, Roomy, RoutesTo, RoutesOf, IsMedian;
    shelves, queue := SearchPaths(p);
    var medians := SelectMedians(shelves);
    resolved := WithSeeds(p.seeds, medians);
  }
}
