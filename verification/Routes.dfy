/** The simple paths a price can take from a seed. */
module Routes {
  // They are the reference that the path search is measured against.
  import opened Options
  import opened PriceGraph

  datatype Route = Route(price: nat, path: seq<int>)

  function End(path: seq<int>): int
    requires path != []
  {
    path[|path|-1]
  }

  /** The routes of exactly `k` crossings: nonzero prices along simple paths that enter no anchored asset. */
  ghost function RoutesOf(seeds: Seeds, anchored: set<int>, g: Graph, k: nat): (routes: set<Route>)
    ensures forall r <- routes :: r.path != []
  {
    if k == 0 then set i | 0 <= i < |seeds| :: Route(seeds[i].1, [seeds[i].0])
    else
      set r, i | r in RoutesOf(seeds, anchored, g, k - 1) && 0 <= i < |EdgesOf(g, End(r.path))|
                 && Continues(anchored, r, EdgesOf(g, End(r.path))[i])
        :: Across(r, EdgesOf(g, End(r.path))[i])
  }

  predicate Continues(anchored: set<int>, r: Route, e: Edge) {
    e.to !in anchored && e.to !in r.path && e.price(r.price) != 0
  }

  function Across(r: Route, e: Edge): Route { Route(e.price(r.price), r.path + [e.to]) }

  lemma RouteSteps(seeds: Seeds, anchored: set<int>, g: Graph, k: nat, r: Route, i: nat)
    requires r in RoutesOf(seeds, anchored, g, k) && i < |EdgesOf(g, End(r.path))|
    requires Continues(anchored, r, EdgesOf(g, End(r.path))[i])
    ensures Across(r, EdgesOf(g, End(r.path))[i]) in RoutesOf(seeds, anchored, g, k + 1)
  {
  }

  lemma RouteStarts(seeds: Seeds, anchored: set<int>, g: Graph, r: Route)
    requires r in RoutesOf(seeds, anchored, g, 0)
    ensures |r.path| == 1 && IsSeed(seeds, r.path[0])
  {
  }

  lemma RouteComesFrom(seeds: Seeds, anchored: set<int>, g: Graph, k: nat, r: Route) returns (q: Route, i: nat)
    requires k > 0 && r in RoutesOf(seeds, anchored, g, k)
    ensures q in RoutesOf(seeds, anchored, g, k - 1) && i < |EdgesOf(g, End(q.path))|
    ensures Continues(anchored, q, EdgesOf(g, End(q.path))[i]) && r == Across(q, EdgesOf(g, End(q.path))[i])
  {
    var q', i' :| q' in RoutesOf(seeds, anchored, g, k - 1) && 0 <= i' < |EdgesOf(g, End(q'.path))|
                  && Continues(anchored, q', EdgesOf(g, End(q'.path))[i'])
                  && r == Across(q', EdgesOf(g, End(q'.path))[i']);
    q, i := q', i';
  }

  ghost predicate Distinct(path: seq<int>) {
    forall i, j :: 0 <= i < j < |path| ==> path[i] != path[j]
  }

  /** A route starts at a seed, visits no asset twice, and enters no anchored asset; its length tells its crossings. */
  lemma {:induction false} RoutesAreSimplePaths(seeds: Seeds, anchored: set<int>, g: Graph, k: nat, r: Route)
    requires r in RoutesOf(seeds, anchored, g, k)
    ensures |r.path| == k + 1 && IsSeed(seeds, r.path[0]) && Distinct(r.path)
    ensures forall i :: 0 < i < |r.path| ==> r.path[i] !in anchored
    ensures k > 0 ==> r.price != 0
  {
    hide RoutesOf;
    if k == 0 {
      RouteStarts(seeds, anchored, g, r);
    } else {
      var q, i := RouteComesFrom(seeds, anchored, g, k, r);
      RoutesAreSimplePaths(seeds, anchored, g, k - 1, q);
      var e := EdgesOf(g, End(q.path))[i];
      LongerPath(anchored, q.path, e.to);
      assert r.path == q.path + [e.to];
    }
  }

  lemma LongerPath(anchored: set<int>, path: seq<int>, next: int)
    requires Distinct(path) && next !in path && next !in anchored
    requires forall i :: 0 < i < |path| ==> path[i] !in anchored
    ensures Distinct(path + [next]) && forall i :: 0 < i < |path + [next]| ==> (path + [next])[i] !in anchored
  {
  }

  /** Everything the search may observe for an asset: the routes of one to `maxHops` crossings that end there. */
  ghost function RoutesTo(seeds: Seeds, anchored: set<int>, g: Graph, maxHops: nat, asset: int): set<Route> {
    if maxHops == 0 then {}
    else RoutesTo(seeds, anchored, g, maxHops - 1, asset)
         + set r | r in RoutesOf(seeds, anchored, g, maxHops) && End(r.path) == asset
  }

  lemma {:induction false} RoutesToContains(seeds: Seeds, anchored: set<int>, g: Graph, maxHops: nat, k: nat, r: Route)
    requires 1 <= k <= maxHops && r in RoutesOf(seeds, anchored, g, k)
    ensures r in RoutesTo(seeds, anchored, g, maxHops, End(r.path))
  {
    hide RoutesOf, RoutesTo;
    if k < maxHops {
      RoutesToContains(seeds, anchored, g, maxHops - 1, k, r);
    }
    RoutesToStep(seeds, anchored, g, maxHops, End(r.path), r);
  }

  lemma {:induction false} RoutesToComesFrom(seeds: Seeds, anchored: set<int>, g: Graph, maxHops: nat, asset: int,
                                             r: Route) returns (k: nat)
    requires r in RoutesTo(seeds, anchored, g, maxHops, asset)
    ensures 1 <= k <= maxHops && r in RoutesOf(seeds, anchored, g, k) && End(r.path) == asset
  {
    RoutesToStep(seeds, anchored, g, maxHops, asset, r);
    if r in RoutesTo(seeds, anchored, g, maxHops - 1, asset) {
      k := RoutesToComesFrom(seeds, anchored, g, maxHops - 1, asset, r);
    } else {
      k := maxHops;
    }
  }

  lemma RoutesToStep(seeds: Seeds, anchored: set<int>, g: Graph, maxHops: nat, asset: int, r: Route)
    requires maxHops > 0
    ensures r in RoutesTo(seeds, anchored, g, maxHops, asset)
       <==> (r in RoutesTo(seeds, anchored, g, maxHops - 1, asset)
             || (r in RoutesOf(seeds, anchored, g, maxHops) && End(r.path) == asset))
  {
  }

  // ---------------------------------------------------------------- termination measure

  function Pow(b: nat, n: nat): nat { if n == 0 then 1 else b * Pow(b, n - 1) }

  ghost predicate DegreeAtMost(g: Graph, d: nat) {
    forall a :: |EdgesOf(g, a)| <= d
  }

  lemma {:induction false} DegreeIsBoundedOn(g: Graph, keys: set<int>) returns (d: nat)
    ensures forall a <- keys :: |EdgesOf(g, a)| <= d
    decreases keys
  {
    if keys == {} {
      d := 0;
    } else {
      var a := AnyOf(keys);
      var d' := DegreeIsBoundedOn(g, keys - {a});
      d := Max(d', |EdgesOf(g, a)|);
    }
  }

  lemma DegreeIsBounded(g: Graph) returns (d: nat)
    ensures DegreeAtMost(g, d)
  {
    d := DegreeIsBoundedOn(g, g.Keys);
  }
}
